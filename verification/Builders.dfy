/** The three frame builders: the ground station's ACK (ack_builder.cpp), the satellite's delivery packet D
    (packet_d_builder.cpp) and the gateway's receipt PacketC (receipt/builder.go), and the CRC gate that
    guards their frames (void_protocol/crc.go). */
module Builders {
  import opened Words
  import opened Layout
  import opened Frames
  import opened Crc32

  const APID_SAT_B: nat := 101
  const SEQ_FLAGS: nat := 0xC000

  /** version 0, packet type, secondary header flag 1, and the low 11 bits of the APID. */
  function IdField(command: bool, apid: U16): U16 {
    (if command then 0x1000 else 0) + 0x800 + apid % 0x800
  }

  function SnlpHeader(command: bool, apid: U16, seqCount: U16, bodyLen: nat): Header
    requires 0 < bodyLen <= TWO16
  {
    Header(IdField(command, apid), SEQ_FLAGS + seqCount % 0x4000, bodyLen - 1)
  }

  /** A frame whose field `crcAt` is the checksum of everything before it. */
  function Sealed(h: Header, k: Kind, vals: seq<Val>, crcAt: nat): Packet
    requires crcAt < |vals|
  {
    Packet(true, h, Known(k, vals[crcAt := Num(Crc(Prefix(h, k, vals, crcAt)))]))
  }

  /** The header and the fields before field n. */
  function Prefix(h: Header, k: Kind, vals: seq<Val>, n: nat): Bytes {
    WriteHeader(true, h) + (if Fits(Table(k), vals) && n <= |vals| then WriteTo(Table(k), vals, n) else [])
  }

  // ---- The ACK ------------------------------------------------------------------------------------------

  datatype AckInputs = AckInputs(targetTxId: U32, status: U8, azimuth: U16, elevation: U16, frequencyHz: U32,
                                 durationMs: U32, encTunnel: Bytes)

  function AckHeader(): Header {
    SnlpHeader(true, APID_SAT_B, 0, 122)
  }

  const ACK_CRC_AT: nat := 11
  const ACK_SIZE: nat := 136

  /** The fields of the ACK body, with 0 for the checksum. */
  function AckVals(in_: AckInputs): (r: seq<Val>)
    requires |in_.encTunnel| == 96
    ensures |r| == 12 && Fits(Table(AckSnlp), r)
  {
    Pow256Values();
    [Blob([MAGIC_ACK]), Blob([0]), Num(in_.targetTxId), Num(in_.status), Blob([0]), Num(in_.azimuth),
     Num(in_.elevation), Num(in_.frequencyHz), Num(in_.durationMs), Blob(in_.encTunnel), Blob([0, 0]), Num(0)]
  }

  function AckPacket(in_: AckInputs): Packet
    requires |in_.encTunnel| == 96
  {
    Sealed(AckHeader(), AckSnlp, AckVals(in_), ACK_CRC_AT)
  }

  // ---- The delivery packet ----------------------------------------------------------------------------------

  datatype DeliveryInputs = DeliveryInputs(downlinkTs: U64, satBId: U32, payload: Bytes)

  function DHeader(): Header {
    SnlpHeader(false, APID_SAT_B, 0, 122)
  }

  const D_CRC_AT: nat := 5
  const D_SIZE: nat := 136

  function DVals(in_: DeliveryInputs): (r: seq<Val>)
    requires |in_.payload| == 98
    ensures |r| == 7 && Fits(Table(PacketD), r)
  {
    Pow256Values();
    [Blob([MAGIC_D]), Blob([0]), Num(in_.downlinkTs), Num(in_.satBId), Blob(in_.payload), Num(0),
     Blob([0, 0, 0, 0, 0, 0])]
  }

  function DPacket(in_: DeliveryInputs): Packet
    requires |in_.payload| == 98
  {
    Sealed(DHeader(), PacketD, DVals(in_), D_CRC_AT)
  }

  // ---- The receipt --------------------------------------------------------------------------------------------

  /** Ed25519 as uninterpreted functions; Sound says what is used of it. */
  datatype Crypto = Crypto(sign: (Bytes, Bytes) -> Bytes, pub: Bytes -> Bytes, verify: (Bytes, Bytes, Bytes) -> bool) {
    ghost predicate Sound() {
      forall seed: Bytes, msg: Bytes :: |sign(seed, msg)| == 64 && verify(pub(seed), msg, sign(seed, msg))
    }
  }

  datatype Inputs = Inputs(execTimeMs: U64, encTxId: U64, encStatus: U8, apid: U16, seqCount: U16, seed: Bytes)

  const C_CRC_AT: nat := 6
  const C_SIG_AT: nat := 5
  const C_SIZE: nat := 112

  function CHeader(in_: Inputs): Header {
    SnlpHeader(false, in_.apid, in_.seqCount, 98)
  }

  function CVals(in_: Inputs, sig: Bytes): (r: seq<Val>)
    requires |sig| == 64
    ensures |r| == 8 && Fits(Table(PacketC), r)
  {
    Pow256Values();
    [Blob([0, 0]), Num(in_.execTimeMs), Num(in_.encTxId), Num(in_.encStatus), Blob([0, 0, 0, 0, 0, 0, 0]),
     Blob(sig), Num(0), Blob(PAD4)]
  }

  /** The 26 body bytes the receipt signature covers. */
  function CSigScope(in_: Inputs): (r: Bytes)
    ensures |r| == 26
  {
    TablesFill(PacketC);
    WriteTo(Table(PacketC), CVals(in_, seq(64, _ => 0)), C_SIG_AT)
  }

  ghost function CPacket(in_: Inputs, crypto: Crypto): Packet
    requires crypto.Sound()
  {
    Sealed(CHeader(in_), PacketC, CVals(in_, crypto.sign(in_.seed, CSigScope(in_))), C_CRC_AT)
  }

  // ---- The checksum gate -----------------------------------------------------------------------------------------

  /** ValidateFrameCRC32. */
  predicate ValidFrame(frame: Bytes, crcOffset: int) {
    0 <= crcOffset && crcOffset + 4 <= |frame|
    && LEVal(frame[crcOffset..crcOffset + 4]) == Crc(frame[..crcOffset])
  }

  /** From a prefix, its checksum and any tail the gate accepts. */
  lemma SealedIsValid(prefix: Bytes, tail: Bytes)
    ensures ValidFrame(prefix + LE(Crc(prefix), 4) + tail, |prefix|)
  {
    var f := prefix + LE(Crc(prefix), 4) + tail;
    Pow256Values();
    LERoundTrip(Crc(prefix), 4);
    assert f[..|prefix|] == prefix && f[|prefix|..|prefix| + 4] == LE(Crc(prefix), 4);
  }

  /** Corrupting one byte of a valid frame is rejected exactly when the byte is covered by the checksum or is
      part of it; the tail behind the checksum is not protected. */
  lemma OneByteDamage(f: Bytes, crcOffset: nat, i: nat, b: U8)
    requires i < |f| && b != f[i]
    ensures ValidFrame(f, crcOffset) ==> (ValidFrame(f[i := b], crcOffset) <==> i >= crcOffset + 4)
  {
    if ValidFrame(f, crcOffset) {
      var g := f[i := b];
      var c, d := f[crcOffset..crcOffset + 4], g[crcOffset..crcOffset + 4];
      if i < crcOffset {
        assert c == d;
        var p, q := f[..i], f[i + 1..crcOffset];
        assert f[..crcOffset] == p + [f[i]] + q && g[..crcOffset] == p + [b] + q;
        FourBytesDetected(p, [f[i]], [b], q);
      } else {
        assert f[..crcOffset] == g[..crcOffset];
        if i < crcOffset + 4 {
          assert c[i - crcOffset] != d[i - crcOffset];
          LEOfVal(c);
          LEOfVal(d);
        } else {
          assert c == d;
        }
      }
    }
  }

  /** Any burst of at most 32 bits inside the covered region is rejected, wherever it falls. */
  lemma BurstDamage(f: Bytes, g: Bytes, crcOffset: nat, lo: nat, hi: nat)
    requires |g| == |f| && crcOffset <= |f| && g[crcOffset..] == f[crcOffset..] && g != f
    requires lo <= hi <= 8 * crcOffset && hi - lo <= 32
    requires Bits(f[..crcOffset])[..lo] == Bits(g[..crcOffset])[..lo]
    requires Bits(f[..crcOffset])[hi..] == Bits(g[..crcOffset])[hi..]
    ensures ValidFrame(f, crcOffset) ==> !ValidFrame(g, crcOffset)
  {
    hide Bits, Crc;
    assert f == f[..crcOffset] + f[crcOffset..] && g == g[..crcOffset] + g[crcOffset..];
    if ValidFrame(f, crcOffset) {
      assert f[crcOffset..crcOffset + 4] == f[crcOffset..][..4] == g[crcOffset..][..4] == g[crcOffset..crcOffset + 4];
    }
    BurstDetected(f[..crcOffset], g[..crcOffset], lo, hi);
  }

  // ---- What the built frames are worth ---------------------------------------------------------------------------

  lemma {:induction false} WriteToAgree(l: seq<Field>, v: seq<Val>, w: seq<Val>, n: nat)
    requires Fits(l, v) && Fits(l, w) && n <= |l| && v[..n] == w[..n]
    ensures WriteTo(l, v, n) == WriteTo(l, w, n)
    decreases n
  {
    hide WriteField, FieldFits;
    if n > 0 {
      assert v[..n][n - 1] == w[..n][n - 1];
      assert v[..n - 1] == v[..n][..n - 1] && w[..n - 1] == w[..n][..n - 1];
      WriteToAgree(l, v, w, n - 1);
    }
  }

  lemma {:induction false} WriteToPrefix(l: seq<Field>, vals: seq<Val>, n: nat, m: nat)
    requires Fits(l, vals) && n <= m <= |l|
    ensures Offset(l, n) <= Offset(l, m) && WriteTo(l, vals, m)[..Offset(l, n)] == WriteTo(l, vals, n)
    decreases m
  {
    hide WriteField, FieldFits, FieldWidth;
    OffsetMono(l, n, m);
    if n < m {
      WriteToPrefix(l, vals, n, m - 1);
    }
  }

  /** The bytes of the fields from field n on. */
  function WriteFrom(l: seq<Field>, vals: seq<Val>, n: nat): Bytes
    requires Fits(l, vals) && n <= |l|
  {
    OffsetMono(l, n, |l|);
    WriteBody(l, vals)[Offset(l, n)..]
  }

  lemma BodySplits(l: seq<Field>, vals: seq<Val>, n: nat)
    requires Fits(l, vals) && n <= |l|
    ensures WriteBody(l, vals) == WriteTo(l, vals, n) + WriteFrom(l, vals, n)
  {
    hide Fits, WriteTo, Offset;
    WriteToPrefix(l, vals, n, |l|);
    var w := WriteBody(l, vals);
    assert w == w[..Offset(l, n)] + w[Offset(l, n)..];
  }

  lemma SealedFits(l: seq<Field>, vals: seq<Val>, n: nat, crc: U32)
    requires Fits(l, vals) && n < |vals| && l[n] == U(4)
    ensures |vals| == |l| && Fits(l, vals[n := Num(crc)])
    ensures WriteTo(l, vals[n := Num(crc)], n + 1) == WriteTo(l, vals, n) + LE(crc, 4)
  {
    Pow256Values();
    var sealed := vals[n := Num(crc)];
    assert Fits(l, sealed);
    WriteToAgree(l, vals, sealed, n);
  }

  /** A sealed packet is well formed, prints as prefix, checksum and tail, and passes the gate there. */
  lemma SealedFrame(h: Header, k: Kind, vals: seq<Val>, crcAt: nat)
    requires Fits(Table(k), vals) && crcAt < |vals| && Table(k)[crcAt] == U(4)
    requires h.DataFieldLength() == BodyLen(k)
    ensures WfPacket(Sealed(h, k, vals, crcAt))
    ensures var p := Prefix(h, k, vals, crcAt);
            && |p| == 14 + Offset(Table(k), crcAt)
            && Fits(Table(k), vals[crcAt := Num(Crc(p))])
            && Print(Sealed(h, k, vals, crcAt)) ==
               p + LE(Crc(p), 4) + WriteFrom(Table(k), vals[crcAt := Num(Crc(p))], crcAt + 1)
    ensures ValidFrame(Print(Sealed(h, k, vals, crcAt)), 14 + Offset(Table(k), crcAt))
  {
    hide Crc, Table, WriteHeader, Fits, WriteTo, WriteFrom, WriteBody, ValidFrame, Width, Offset, BodyLen;
    var l, p := Table(k), Prefix(h, k, vals, crcAt);
    var sealed := vals[crcAt := Num(Crc(p))];
    SealedFits(l, vals, crcAt, Crc(p));
    TablesFill(k);
    BodySplits(l, sealed, crcAt + 1);
    var tail := WriteFrom(l, sealed, crcAt + 1);
    Regroup(WriteHeader(true, h), WriteTo(l, vals, crcAt), LE(Crc(p), 4), tail);
    SealedIsValid(p, tail);
  }

  lemma Regroup(a: Bytes, b: Bytes, c: Bytes, d: Bytes)
    ensures a + ((b + c) + d) == (a + b) + c + d
  {
  }

  predicate GoodFrame(p: Packet, size: nat, crcFromEnd: nat) {
    WfPacket(p) && |Print(p)| == size && Parse(Print(p)) == Some(p) && p.header.Version() == 0
    && crcFromEnd <= size && ValidFrame(Print(p), size - crcFromEnd)
  }

  lemma GoodFromParts(p: Packet, size: nat, crcFromEnd: nat)
    requires p.snlp && WfPacket(p) && p.header.Version() == 0
    requires 14 + p.header.DataFieldLength() == size && crcFromEnd <= size
    requires ValidFrame(Print(p), size - crcFromEnd)
    ensures GoodFrame(p, size, crcFromEnd)
  {
    hide WfBody, PrintBody, ValidFrame, Parse;
    ParseUndoesPrint(p, []);
    assert Print(p) + [] == Print(p);
  }

  lemma SealedGood(h: Header, k: Kind, vals: seq<Val>, crcAt: nat, size: nat, crcFromEnd: nat)
    requires Fits(Table(k), vals) && crcAt < |vals| && Table(k)[crcAt] == U(4)
    requires h.DataFieldLength() == BodyLen(k) && h.Version() == 0
    requires size == 14 + BodyLen(k) && 14 + Offset(Table(k), crcAt) + crcFromEnd == size
    ensures GoodFrame(Sealed(h, k, vals, crcAt), size, crcFromEnd)
  {
    hide Table, Crc, Print, WfPacket, ValidFrame, GoodFrame, Fits, Prefix, WriteFrom, Offset, BodyLen;
    SealedFrame(h, k, vals, crcAt);
    GoodFromParts(Sealed(h, k, vals, crcAt), size, crcFromEnd);
  }

  /** The checksum fields of the three tables. */
  lemma CrcFields()
    ensures Table(AckSnlp)[ACK_CRC_AT] == U(4) && Offset(Table(AckSnlp), ACK_CRC_AT) == 118
    ensures Table(PacketD)[D_CRC_AT] == U(4) && Offset(Table(PacketD), D_CRC_AT) == 112
    ensures Table(PacketC)[C_CRC_AT] == U(4) && Offset(Table(PacketC), C_CRC_AT) == 90
  {
    TablesFill(AckSnlp);
    TablesFill(PacketD);
    TablesFill(PacketC);
  }

  lemma FixedHeaders()
    ensures AckHeader() == Header(0x1865, 0xC000, 121) && DHeader() == Header(0x0865, 0xC000, 121)
  {
  }

  /** An ACK frame parses back to its own fields as SNLP version 0 and passes the gate 4 bytes from its end. */
  lemma AckFrameGood(in_: AckInputs)
    requires |in_.encTunnel| == 96
    ensures GoodFrame(AckPacket(in_), ACK_SIZE, 4)
    ensures AckHeader().Apid() == 101 && AckHeader().PacketType() == 1 && AckHeader().SeqFlags() == 3
  {
    hide GoodFrame, Table, Offset, Fits, AckVals, AckHeader, Crc, Prefix, Sealed, WriteTo, Print, Parse, ValidFrame;
    CrcFields();
    FixedHeaders();
    SealedGood(AckHeader(), AckSnlp, AckVals(in_), ACK_CRC_AT, ACK_SIZE, 4);
  }

  /** A D frame: the same, with the gate 10 bytes from its end. */
  lemma DFrameGood(in_: DeliveryInputs)
    requires |in_.payload| == 98
    ensures GoodFrame(DPacket(in_), D_SIZE, 10)
    ensures DHeader().Apid() == 101 && DHeader().PacketType() == 0 && DHeader().SeqFlags() == 3
  {
    hide GoodFrame, Table, Offset, Fits, DVals, DHeader, Crc, Prefix, Sealed, WriteTo, Print, Parse, ValidFrame;
    CrcFields();
    FixedHeaders();
    SealedGood(DHeader(), PacketD, DVals(in_), D_CRC_AT, D_SIZE, 10);
  }

  lemma CHeaderFields(in_: Inputs)
    ensures CHeader(in_).Apid() == in_.apid % 0x800 && CHeader(in_).SeqCount() == in_.seqCount % 0x4000
    ensures CHeader(in_).SeqFlags() == 3 && CHeader(in_).PacketType() == 0 && CHeader(in_).Version() == 0
    ensures CHeader(in_).DataFieldLength() == 98
  {
  }

  /** A receipt frame: APID and sequence count come back masked to 11 and 14 bits, the checksum stands 8 bytes
      from the end, and the embedded signature verifies over the first 26 body bytes. */
  lemma CFrameGood(in_: Inputs, crypto: Crypto)
    requires crypto.Sound()
    ensures GoodFrame(CPacket(in_, crypto), C_SIZE, 8)
    ensures CHeader(in_).Apid() == in_.apid % 0x800 && CHeader(in_).SeqCount() == in_.seqCount % 0x4000
    ensures var vals := CPacket(in_, crypto).body.vals;
            && vals[1] == Num(in_.execTimeMs) && vals[2] == Num(in_.encTxId) && vals[3] == Num(in_.encStatus)
            && vals[5].Blob? && crypto.verify(crypto.pub(in_.seed), CSigScope(in_), vals[5].s)
  {
    hide GoodFrame, Table, Offset, Fits, CHeader, CSigScope, Crc;
    CrcFields();
    CHeaderFields(in_);
    var sig := crypto.sign(in_.seed, CSigScope(in_));
    SealedGood(CHeader(in_), PacketC, CVals(in_, sig), C_CRC_AT, C_SIZE, 8);
  }

  /** The signed scope is the receipt frame's bytes 14 to 39. */
  lemma CSigScopeInFrame(in_: Inputs, crypto: Crypto)
    requires crypto.Sound()
    ensures WfPacket(CPacket(in_, crypto)) && |Print(CPacket(in_, crypto))| == 112
    ensures Print(CPacket(in_, crypto))[14..40] == CSigScope(in_)
  {
    hide Crc, Table, WriteTo, WriteFrom, WriteBody, Fits, Parse, ValidFrame;
    CFrameGood(in_, crypto);
    var l := Table(PacketC);
    var vals := CPacket(in_, crypto).body.vals;
    var blank := CVals(in_, seq(64, _ => 0));
    WriteToAgree(l, vals, blank, C_SIG_AT);
    BodySplits(l, vals, C_SIG_AT);
  }

  /** The bytes of an ACK frame. */
  function AckFrame(in_: AckInputs): (f: Bytes)
    requires |in_.encTunnel| == 96
    ensures |f| == ACK_SIZE
  {
    AckFrameGood(in_);
    Print(AckPacket(in_))
  }

  /** The bytes of a D frame. */
  function DFrame(in_: DeliveryInputs): (f: Bytes)
    requires |in_.payload| == 98
    ensures |f| == D_SIZE
  {
    DFrameGood(in_);
    Print(DPacket(in_))
  }

  /** What a sealed frame parses to. */
  lemma SealedFields(h: Header, k: Kind, vals: seq<Val>, crcAt: nat, at: nat)
    requires Fits(Table(k), vals) && crcAt < |vals| && Table(k)[crcAt] == U(4)
    requires h.DataFieldLength() == BodyLen(k) && at == 14 + Offset(Table(k), crcAt)
    ensures WfPacket(Sealed(h, k, vals, crcAt))
    ensures var f := Print(Sealed(h, k, vals, crcAt));
            && |f| == 14 + BodyLen(k) && at <= |f|
            && Parse(f) == Some(Packet(true, h, Known(k, vals[crcAt := Num(Crc(f[..at]))])))
  {
    hide Crc, Parse, Table, Fits, WriteTo, WriteFrom, WriteHeader, Offset, WriteBody, ValidFrame, BodyLen, Prefix;
    SealedFrame(h, k, vals, crcAt);
    var p, f := Prefix(h, k, vals, crcAt), Print(Sealed(h, k, vals, crcAt));
    assert f[..at] == p;
    ParseUndoesPrint(Sealed(h, k, vals, crcAt), []);
    assert f + [] == f;
  }

  /** Each input of the ACK stands in a parsed frame under its own field, the fixed fields hold their constants, and the
      checksum is that of the 132 bytes before it. */
  lemma AckFrameFields(in_: AckInputs)
    requires |in_.encTunnel| == 96
    ensures Parse(AckFrame(in_)).Some?
    ensures var p := Parse(AckFrame(in_)).value;
            && p.snlp && p.body.Known? && p.body.kind == AckSnlp
            && p.body.vals == [Blob([0xAC]), Blob([0]), Num(in_.targetTxId), Num(in_.status), Blob([0]), Num(in_.azimuth),
                               Num(in_.elevation), Num(in_.frequencyHz), Num(in_.durationMs), Blob(in_.encTunnel),
                               Blob([0, 0]), Num(Crc(AckFrame(in_)[..132]))]
  {
    hide Crc, Parse, Print, WfPacket, Table, Fits, AckHeader, Offset;
    CrcFields();
    FixedHeaders();
    SealedFields(AckHeader(), AckSnlp, AckVals(in_), ACK_CRC_AT, 132);
  }

  /** The same for the delivery packet, whose checksum covers 126 bytes. */
  lemma DFrameFields(in_: DeliveryInputs)
    requires |in_.payload| == 98
    ensures Parse(DFrame(in_)).Some?
    ensures var p := Parse(DFrame(in_)).value;
            && p.snlp && p.body.Known? && p.body.kind == PacketD
            && p.body.vals == [Blob([0xD0]), Blob([0]), Num(in_.downlinkTs), Num(in_.satBId), Blob(in_.payload),
                               Num(Crc(DFrame(in_)[..126])), Blob([0, 0, 0, 0, 0, 0])]
  {
    hide Crc, Parse, Print, WfPacket, Table, Fits, DHeader, Offset;
    CrcFields();
    FixedHeaders();
    SealedFields(DHeader(), PacketD, DVals(in_), D_CRC_AT, 126);
  }

  /** And for the receipt, whose signature is of its own bytes 14 to 39 and whose checksum covers 104 bytes. */
  lemma CFrameFields(in_: Inputs, crypto: Crypto)
    requires crypto.Sound()
    ensures WfPacket(CPacket(in_, crypto))
    ensures var f := Print(CPacket(in_, crypto));
            && |f| == 112 && Parse(f).Some?
            && var p := Parse(f).value;
               p.snlp && p.body.Known? && p.body.kind == PacketC
               && p.body.vals == [Blob([0, 0]), Num(in_.execTimeMs), Num(in_.encTxId), Num(in_.encStatus),
                                  Blob([0, 0, 0, 0, 0, 0, 0]), Blob(crypto.sign(in_.seed, f[14..40])), Num(Crc(f[..104])),
                                  Blob([0, 0, 0, 0])]
  {
    hide Crc, Parse, Print, WfPacket, Table, Fits, CHeader, Offset, CSigScope;
    CSigScopeInFrame(in_, crypto);
    CrcFields();
    CHeaderFields(in_);
    SealedFields(CHeader(in_), PacketC, CVals(in_, crypto.sign(in_.seed, CSigScope(in_))), C_CRC_AT, 104);
  }

  /** One corrupted byte anywhere in an ACK frame is rejected. */
  lemma AckDamage(in_: AckInputs, i: nat, b: U8)
    requires |in_.encTunnel| == 96 && i < ACK_SIZE
    ensures ValidFrame(AckFrame(in_)[i := b], ACK_SIZE - 4) <==> b == AckFrame(in_)[i]
  {
    hide Print, WfPacket, Parse, ValidFrame, AckPacket;
    var f := AckFrame(in_);
    AckFrameGood(in_);
    if b == f[i] {
      assert f[i := b] == f;
    } else {
      OneByteDamage(f, ACK_SIZE - 4, i, b);
    }
  }

  /** One corrupted byte of a D frame goes unnoticed exactly when it lies in the 6-byte tail. */
  lemma DeliveryDamage(in_: DeliveryInputs, i: nat, b: U8)
    requires |in_.payload| == 98 && i < D_SIZE
    ensures ValidFrame(DFrame(in_)[i := b], D_SIZE - 10) <==> b == DFrame(in_)[i] || i >= D_SIZE - 6
  {
    hide Print, WfPacket, Parse, ValidFrame, DPacket;
    var f := DFrame(in_);
    DFrameGood(in_);
    if b == f[i] {
      assert f[i := b] == f;
    } else {
      OneByteDamage(f, D_SIZE - 10, i, b);
    }
  }
}
