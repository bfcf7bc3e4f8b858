/** Packet bodies as tables of fields. Reading a body field by field from a byte string and writing it back
    are inverse for every table; the tables themselves transcribe the generated Read methods. */
module Layout {
  import opened Words

  /** Little-endian unsigned, little-endian two's complement, opaque bytes, or one byte with a required value.
      Floating-point fields are opaque bytes. */
  datatype Field = U(n: nat) | S(n: nat) | Raw(n: nat) | Magic(b: U8)

  datatype Val = Num(v: int) | Blob(s: Bytes)

  function FieldWidth(f: Field): nat {
    match f
    case U(n) => n
    case S(n) => n
    case Raw(n) => n
    case Magic(_) => 1
  }

  function ReadField(f: Field, s: Bytes): Option<Val>
    requires |s| == FieldWidth(f)
  {
    match f
    case U(_) => Some(Num(LEVal(s)))
    case S(n) =>
      var x := LEVal(s);
      Some(Num(if 2 * x < Pow256(n) then x else x - Pow256(n)))
    case Raw(_) => Some(Blob(s))
    case Magic(b) => if s == [b] then Some(Blob(s)) else None
  }

  predicate FieldFits(f: Field, v: Val) {
    match f
    case U(n) => v.Num? && 0 <= v.v < Pow256(n)
    case S(n) => v.Num? && 0 <= 2 * v.v + Pow256(n) < 2 * Pow256(n)
    case Raw(n) => v.Blob? && |v.s| == n
    case Magic(b) => v == Blob([b])
  }

  function WriteField(f: Field, v: Val): (s: Bytes)
    requires FieldFits(f, v)
    ensures |s| == FieldWidth(f)
  {
    match f
    case U(n) => LE(v.v, n)
    case S(n) => LE(if v.v < 0 then v.v + Pow256(n) else v.v, n)
    case Raw(_) => v.s
    case Magic(b) => [b]
  }

  lemma WriteThenRead(f: Field, v: Val)
    requires FieldFits(f, v)
    ensures ReadField(f, WriteField(f, v)) == Some(v)
  {
    match f
    case U(n) => LERoundTrip(v.v, n);
    case S(n) => LERoundTrip(if v.v < 0 then v.v + Pow256(n) else v.v, n);
    case Raw(_) =>
    case Magic(_) =>
  }

  lemma ReadThenWrite(f: Field, s: Bytes)
    requires |s| == FieldWidth(f) && ReadField(f, s).Some?
    ensures FieldFits(f, ReadField(f, s).value) && WriteField(f, ReadField(f, s).value) == s
  {
    LEValFits(s);
    LEOfVal(s);
  }

  /** Where field k starts. */
  function Offset(l: seq<Field>, k: nat): nat
    requires k <= |l|
  {
    if k == 0 then 0 else Offset(l, k - 1) + FieldWidth(l[k - 1])
  }

  function Width(l: seq<Field>): nat {
    Offset(l, |l|)
  }

  lemma {:induction false} OffsetMono(l: seq<Field>, j: nat, k: nat)
    requires j <= k <= |l|
    ensures Offset(l, j) <= Offset(l, k)
    decreases k
  {
    if j < k {
      OffsetMono(l, j, k - 1);
    }
  }

  /** The bytes of field k. */
  function Slice(l: seq<Field>, s: Bytes, k: nat): (r: Bytes)
    requires k < |l| && Width(l) <= |s|
    ensures |r| == FieldWidth(l[k])
  {
    OffsetMono(l, k + 1, |l|);
    s[Offset(l, k)..Offset(l, k + 1)]
  }

  predicate Readable(l: seq<Field>, s: Bytes) {
    Width(l) <= |s| && forall k :: 0 <= k < |l| ==> ReadField(l[k], Slice(l, s, k)).Some?
  }

  function ReadTo(l: seq<Field>, s: Bytes, k: nat): (vals: seq<Val>)
    requires Readable(l, s) && k <= |l|
    ensures |vals| == k
  {
    if k == 0 then [] else ReadTo(l, s, k - 1) + [ReadField(l[k - 1], Slice(l, s, k - 1)).value]
  }

  lemma {:induction false} ReadToAt(l: seq<Field>, s: Bytes, k: nat, j: nat)
    requires Readable(l, s) && j < k <= |l|
    ensures ReadField(l[j], Slice(l, s, j)) == Some(ReadTo(l, s, k)[j])
    decreases k
  {
    hide ReadField, Slice;
    if j < k - 1 {
      ReadToAt(l, s, k - 1, j);
    }
  }

  /** All fields of a body, or None if the bytes run out or a required byte is wrong. */
  function ReadBody(l: seq<Field>, s: Bytes): (r: Option<seq<Val>>)
    ensures r.Some? ==> |r.value| == |l|
  {
    if Readable(l, s) then Some(ReadTo(l, s, |l|)) else None
  }

  predicate Fits(l: seq<Field>, vals: seq<Val>) {
    |vals| == |l| && forall k :: 0 <= k < |l| ==> FieldFits(l[k], vals[k])
  }

  function WriteTo(l: seq<Field>, vals: seq<Val>, k: nat): (s: Bytes)
    requires Fits(l, vals) && k <= |l|
    ensures |s| == Offset(l, k)
  {
    if k == 0 then [] else WriteTo(l, vals, k - 1) + WriteField(l[k - 1], vals[k - 1])
  }

  function WriteBody(l: seq<Field>, vals: seq<Val>): (s: Bytes)
    requires Fits(l, vals)
    ensures |s| == Width(l)
  {
    WriteTo(l, vals, |l|)
  }

  lemma {:induction false} WrittenSlice(l: seq<Field>, vals: seq<Val>, j: nat, k: nat)
    requires Fits(l, vals) && j < k <= |l|
    ensures Offset(l, j) <= Offset(l, j + 1) <= Offset(l, k)
    ensures WriteTo(l, vals, k)[Offset(l, j)..Offset(l, j + 1)] == WriteField(l[j], vals[j])
    decreases k
  {
    hide WriteField, FieldFits, FieldWidth;
    OffsetMono(l, j + 1, k);
    var init := WriteTo(l, vals, k - 1);
    if j + 1 < k {
      WrittenSlice(l, vals, j, k - 1);
      assert WriteTo(l, vals, k)[Offset(l, j)..Offset(l, j + 1)] == init[Offset(l, j)..Offset(l, j + 1)];
    }
  }

  lemma ReadBodyIs(l: seq<Field>, s: Bytes, vals: seq<Val>)
    requires Width(l) <= |s| && |vals| == |l|
    requires forall k :: 0 <= k < |l| ==> ReadField(l[k], Slice(l, s, k)) == Some(vals[k])
    ensures ReadBody(l, s) == Some(vals)
  {
    hide ReadField, Slice, Width, ReadTo;
    var got := ReadTo(l, s, |l|);
    forall j | 0 <= j < |l| ensures got[j] == vals[j] {
      ReadToAt(l, s, |l|, j);
    }
    assert got == vals;
  }

  /** Field k of a parsed body is its slice of the bytes. */
  lemma ReadBodyAt(l: seq<Field>, s: Bytes, k: nat)
    requires ReadBody(l, s).Some? && k < |l|
    ensures Width(l) <= |s| && ReadField(l[k], Slice(l, s, k)) == Some(ReadBody(l, s).value[k])
  {
    hide ReadField, Slice, ReadTo, Width;
    ReadToAt(l, s, |l|, k);
  }

  /** Parsing what was printed gives back the fields, whatever follows. */
  lemma ParsePrinted(l: seq<Field>, vals: seq<Val>, rest: Bytes)
    requires Fits(l, vals)
    ensures ReadBody(l, WriteBody(l, vals) + rest) == Some(vals)
  {
    hide ReadField, WriteField, FieldFits, FieldWidth, ReadBody;
    var w := WriteBody(l, vals);
    forall k | 0 <= k < |l| ensures ReadField(l[k], Slice(l, w + rest, k)) == Some(vals[k]) {
      WrittenSlice(l, vals, k, |l|);
      assert Slice(l, w + rest, k) == w[Offset(l, k)..Offset(l, k + 1)];
      WriteThenRead(l[k], vals[k]);
    }
    ReadBodyIs(l, w + rest, vals);
  }

  lemma Glue(s: Bytes, a: nat, b: nat)
    requires a <= b <= |s|
    ensures s[..b] == s[..a] + s[a..b]
  {
  }

  lemma WriteToSnoc(l: seq<Field>, vals: seq<Val>, k: nat)
    requires Fits(l, vals) && k < |l|
    ensures WriteTo(l, vals, k + 1) == WriteTo(l, vals, k) + WriteField(l[k], vals[k])
  {
    hide WriteField;
  }

  lemma PrefixStep(l: seq<Field>, s: Bytes, vals: seq<Val>, k: nat)
    requires Width(l) <= |s| && k < |l| && Fits(l, vals) && WriteField(l[k], vals[k]) == Slice(l, s, k)
    requires Offset(l, k) <= |s| && WriteTo(l, vals, k) == s[..Offset(l, k)]
    ensures Offset(l, k + 1) <= |s| && WriteTo(l, vals, k + 1) == s[..Offset(l, k + 1)]
  {
    WriteToSnoc(l, vals, k);
    OffsetMono(l, k, k + 1);
    OffsetMono(l, k + 1, |l|);
    hide WriteField, FieldFits, FieldWidth, WriteTo, Offset;
    Glue(s, Offset(l, k), Offset(l, k + 1));
  }

  lemma {:induction false} WriteToIsPrefix(l: seq<Field>, s: Bytes, vals: seq<Val>, k: nat)
    requires Width(l) <= |s| && k <= |l| && Fits(l, vals)
    requires forall i :: 0 <= i < |l| ==> WriteField(l[i], vals[i]) == Slice(l, s, i)
    ensures Offset(l, k) <= |s| && WriteTo(l, vals, k) == s[..Offset(l, k)]
    decreases k
  {
    hide WriteField, FieldFits, FieldWidth, Slice, Width;
    if k > 0 {
      WriteToIsPrefix(l, s, vals, k - 1);
      PrefixStep(l, s, vals, k - 1);
    }
  }

  /** Printing what was parsed gives back the bytes it was parsed from. */
  lemma PrintParsed(l: seq<Field>, s: Bytes)
    requires ReadBody(l, s).Some?
    ensures Fits(l, ReadBody(l, s).value)
    ensures WriteBody(l, ReadBody(l, s).value) == s[..Width(l)]
  {
    hide ReadField, WriteField, FieldFits, FieldWidth;
    var vals := ReadBody(l, s).value;
    forall k | 0 <= k < |l| ensures FieldFits(l[k], vals[k]) && WriteField(l[k], vals[k]) == Slice(l, s, k) {
      ReadBodyAt(l, s, k);
      ReadThenWrite(l[k], Slice(l, s, k));
    }
    WriteToIsPrefix(l, s, vals, |l|);
  }

  // ---- The body tables -----------------------------------------------------------------------------

  datatype Kind = Heartbeat | PacketA | PacketB | PacketC | PacketD | PacketH | AckSnlp | AckCcsds

  const MAGIC_D: U8 := 0xD0
  const MAGIC_ACK: U8 := 0xAC

  function AckFields(tunnel: nat): seq<Field> {
    [Magic(MAGIC_ACK), Raw(1), U(4), U(1), Raw(1), U(2), U(2), U(4), U(4), Raw(tunnel), Raw(2), U(4)]
  }

  function Table(k: Kind): seq<Field> {
    match k
    case Heartbeat => [Raw(2), U(8), U(4), S(4), S(4), U(2), S(2), U(2), U(1), U(1), U(4)]
    case PacketA => [Raw(2), U(8), Raw(8), Raw(8), Raw(8), Raw(4), Raw(4), Raw(4), U(4), U(8), U(2), Raw(2), U(4)]
    case PacketB => [Raw(2), U(8), Raw(8), Raw(8), Raw(8), Raw(62), Raw(2), U(4), Raw(4), Raw(64), U(4), Raw(4)]
    case PacketC => [Raw(2), U(8), U(8), U(1), Raw(7), Raw(64), U(4), Raw(4)]
    case PacketD => [Magic(MAGIC_D), Raw(1), U(8), U(4), Raw(98), U(4), Raw(6)]
    case PacketH => [U(2), U(8), Raw(32), Raw(64)]
    case AckSnlp => AckFields(96)
    case AckCcsds => AckFields(88)
  }

  function BodyLen(k: Kind): nat {
    match k
    case Heartbeat => 34
    case PacketA => 66
    case PacketB => 178
    case PacketC => 98
    case PacketD => 122
    case PacketH => 106
    case AckSnlp => 122
    case AckCcsds => 114
  }

  /** Where the fields of each table start, and where the last one ends. */
  function Offsets(k: Kind): seq<nat> {
    match k
    case Heartbeat => [0, 2, 10, 14, 18, 22, 24, 26, 28, 29, 30, 34]
    case PacketA => [0, 2, 10, 18, 26, 34, 38, 42, 46, 50, 58, 60, 62, 66]
    case PacketB => [0, 2, 10, 18, 26, 34, 96, 98, 102, 106, 170, 174, 178]
    case PacketC => [0, 2, 10, 18, 19, 26, 90, 94, 98]
    case PacketD => [0, 1, 2, 10, 14, 112, 116, 122]
    case PacketH => [0, 2, 10, 42, 106]
    case AckSnlp => [0, 1, 2, 6, 7, 8, 10, 12, 16, 20, 116, 118, 122]
    case AckCcsds => [0, 1, 2, 6, 7, 8, 10, 12, 16, 20, 108, 110, 114]
  }

  /** Consecutive offsets differ by the width of the field between them. */
  predicate Consecutive(l: seq<Field>, offs: seq<nat>) {
    |offs| == |l| + 1 && offs[0] == 0
    && forall i :: 0 <= i < |l| ==> offs[i + 1] == offs[i] + FieldWidth(l[i])
  }

  lemma {:induction false} OffsetsCount(l: seq<Field>, offs: seq<nat>, n: nat)
    requires Consecutive(l, offs) && n <= |l|
    ensures Offset(l, n) == offs[n]
    decreases n
  {
    if n > 0 {
      OffsetsCount(l, offs, n - 1);
    }
  }

  lemma OffsetsHeartbeat()
    ensures Consecutive(Table(Heartbeat), Offsets(Heartbeat))
  {
  }

  lemma OffsetsPacketA()
    ensures Consecutive(Table(PacketA), Offsets(PacketA))
  {
  }

  lemma OffsetsPacketB()
    ensures Consecutive(Table(PacketB), Offsets(PacketB))
  {
  }

  lemma OffsetsPacketC()
    ensures Consecutive(Table(PacketC), Offsets(PacketC))
  {
  }

  lemma OffsetsPacketD()
    ensures Consecutive(Table(PacketD), Offsets(PacketD))
  {
  }

  lemma OffsetsPacketH()
    ensures Consecutive(Table(PacketH), Offsets(PacketH))
  {
  }

  lemma OffsetsAckSnlp()
    ensures Consecutive(Table(AckSnlp), Offsets(AckSnlp))
  {
  }

  lemma OffsetsAckCcsds()
    ensures Consecutive(Table(AckCcsds), Offsets(AckCcsds))
  {
  }

  lemma OffsetsStep(k: Kind)
    ensures Consecutive(Table(k), Offsets(k)) && Offsets(k)[|Table(k)|] == BodyLen(k)
  {
    match k
    case Heartbeat => OffsetsHeartbeat();
    case PacketA => OffsetsPacketA();
    case PacketB => OffsetsPacketB();
    case PacketC => OffsetsPacketC();
    case PacketD => OffsetsPacketD();
    case PacketH => OffsetsPacketH();
    case AckSnlp => OffsetsAckSnlp();
    case AckCcsds => OffsetsAckCcsds();
  }

  /** Every table has its fields at these offsets, and accounts for exactly the bytes of its body length. */
  lemma TablesFill(k: Kind)
    ensures |Offsets(k)| == |Table(k)| + 1
    ensures forall n :: 0 <= n <= |Table(k)| ==> Offset(Table(k), n) == Offsets(k)[n]
    ensures Width(Table(k)) == BodyLen(k) == Offsets(k)[|Table(k)|]
  {
    var l, offs := Table(k), Offsets(k);
    OffsetsStep(k);
    hide Table, Offsets, FieldWidth;
    forall n | 0 <= n <= |l| ensures Offset(l, n) == offs[n] {
      OffsetsCount(l, offs, n);
    }
  }

  // ---- Signed positions --------------------------------------------------------------------------------

  /** The value of a string is its low part plus its last byte in front. */
  lemma {:induction false} LEValSnoc(s: Bytes, b: U8)
    ensures LEVal(s + [b]) == LEVal(s) + b * Pow256(|s|)
    decreases |s|
  {
    if s == [] {
      assert s + [b] == [b];
    } else {
      assert (s + [b])[1..] == s[1..] + [b];
      LEValSnoc(s[1..], b);
      Scaled(b, Pow256(|s| - 1));
    }
  }

  lemma Scaled(b: nat, p: nat)
    ensures 0x100 * (b * p) == b * (0x100 * p)
  {
  }

  /** Negative exactly if the last byte has the top bit. */
  function TwosComplement(s: Bytes): int {
    if s != [] && s[|s| - 1] >= 0x80 then LEVal(s) - Pow256(|s|) else LEVal(s)
  }

  lemma TopBit(s: Bytes)
    requires s != []
    ensures 2 * LEVal(s) < Pow256(|s|) <==> s[|s| - 1] < 0x80
  {
    var init, b := s[..|s| - 1], s[|s| - 1];
    assert s == init + [b];
    LEValSnoc(init, b);
    LEValFits(init);
    Doubled(LEVal(init), b, Pow256(|init|));
  }

  lemma Doubled(v: nat, b: U8, p: nat)
    requires v < p
    ensures 2 * (v + b * p) < 0x100 * p <==> b < 0x80
  {
    if b < 0x80 {
      assert (b + 1) * p <= 0x80 * p;
    } else {
      assert b * p >= 0x80 * p;
    }
  }

  lemma SignedIsTwosComplement(s: Bytes)
    requires s != []
    ensures ReadField(S(|s|), s) == Some(Num(TwosComplement(s)))
  {
    hide LEVal, Pow256;
    TopBit(s);
  }

  /** The fields of a heartbeat body by position: time, pressure and the counters unsigned; latitude, longitude and
      temperature two's complement. */
  function HeartbeatAt(s: Bytes): (r: seq<Val>)
    requires |s| == 34
    ensures |r| == 11
  {
    [Blob(s[0..2]), Num(LEVal(s[2..10])), Num(LEVal(s[10..14])), Num(TwosComplement(s[14..18])), Num(TwosComplement(s[18..22])),
     Num(LEVal(s[22..24])), Num(TwosComplement(s[24..26])), Num(LEVal(s[26..28])), Num(LEVal(s[28..29])), Num(LEVal(s[29..30])),
     Num(LEVal(s[30..34]))]
  }

  lemma HeartbeatTable()
    ensures var l := Table(Heartbeat);
            && |l| == 11 && Width(l) == 34
            && l[0] == Raw(2) && l[1] == U(8) && l[2] == U(4) && l[3] == S(4) && l[4] == S(4) && l[5] == U(2) && l[6] == S(2)
            && l[7] == U(2) && l[8] == U(1) && l[9] == U(1) && l[10] == U(4)
  {
    TablesFill(Heartbeat);
  }

  lemma HeartbeatSlices(s: Bytes)
    requires |s| == 34
    ensures |Table(Heartbeat)| == 11 && Width(Table(Heartbeat)) == 34
    ensures var l := Table(Heartbeat);
            && Slice(l, s, 0) == s[0..2] && Slice(l, s, 1) == s[2..10] && Slice(l, s, 2) == s[10..14]
            && Slice(l, s, 3) == s[14..18] && Slice(l, s, 4) == s[18..22] && Slice(l, s, 5) == s[22..24]
            && Slice(l, s, 6) == s[24..26] && Slice(l, s, 7) == s[26..28] && Slice(l, s, 8) == s[28..29]
            && Slice(l, s, 9) == s[29..30] && Slice(l, s, 10) == s[30..34]
  {
    TablesFill(Heartbeat);
    hide Offset, Table, Width;
  }

  lemma HeartbeatField(s: Bytes, k: nat)
    requires |s| == 34 && k < 11
    ensures |Table(Heartbeat)| == 11 && Width(Table(Heartbeat)) == 34
    ensures ReadField(Table(Heartbeat)[k], Slice(Table(Heartbeat), s, k)) == Some(HeartbeatAt(s)[k])
  {
    HeartbeatSlices(s);
    HeartbeatTable();
    hide Slice, LEVal, Width, TwosComplement, Table;
    SignedIsTwosComplement(s[14..18]);
    SignedIsTwosComplement(s[18..22]);
    SignedIsTwosComplement(s[24..26]);
    hide Pow256;
  }

  /** Every body of 34 bytes reads as these values: southern, western and freezing ones come out negative. */
  lemma HeartbeatReads(s: Bytes)
    requires |s| == 34
    ensures ReadBody(Table(Heartbeat), s) == Some(HeartbeatAt(s))
    ensures HeartbeatAt(s)[3].v < 0 <==> s[17] >= 0x80
    ensures HeartbeatAt(s)[4].v < 0 <==> s[21] >= 0x80
  {
    LEValFits(s[14..18]);
    LEValFits(s[18..22]);
    var l := Table(Heartbeat);
    HeartbeatSlices(s);
    FourFits(s[14..18]);
    FourFits(s[18..22]);
    hide HeartbeatAt, ReadBody, Table, ReadField, Slice, Width;
    forall k | 0 <= k < 11 ensures ReadField(l[k], Slice(l, s, k)) == Some(HeartbeatAt(s)[k]) {
      HeartbeatField(s, k);
    }
    ReadBodyIs(l, s, HeartbeatAt(s));
  }

  lemma FourFits(s: Bytes)
    requires |s| == 4
    ensures -0x8000_0000 <= TwosComplement(s) < 0x8000_0000 && (TwosComplement(s) < 0 <==> s[3] >= 0x80)
  {
    Pow256Values();
    hide LEVal, Pow256;
    TopBit(s);
    LEValFits(s);
  }
}
