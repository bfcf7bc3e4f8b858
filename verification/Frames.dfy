/** Whole frames: the 6-byte CCSDS primary header (CCSDS 133.0-B-2 section 4.1.3), the 14-byte SNLP header that
    wraps it, and the parser's routing on tier, body length and magic byte
    (gateway/internal/void_protocol/protocol). */
module Frames {
  import opened Words
  import opened Layout

  const SYNC_WORD: U32 := 0x1D01A5A5
  const SYNC: Bytes := [0x1D, 0x01, 0xA5, 0xA5]
  const PAD4: Bytes := [0, 0, 0, 0]

  datatype Header = Header(word0: U16, word1: U16, word2: U16) {
    function Version(): int { word0 / 0x2000 }
    function PacketType(): int { word0 / 0x1000 % 2 }
    function SecHeaderFlag(): int { word0 / 0x800 % 2 }
    function Apid(): int { word0 % 0x800 }
    function SeqFlags(): int { word1 / 0x4000 }
    function SeqCount(): int { word1 % 0x4000 }

    /** The sum is taken in 16 bits, so 0xFFFF gives 0. */
    function DataFieldLength(): nat { (word2 + 1) % TWO16 }
  }

  /** A parsed body: a known kind with its fields, a 122-byte body with neither magic, or any other length. */
  datatype Body = Known(kind: Kind, vals: seq<Val>) | NoContent(raw: Bytes) | Unknown(raw: Bytes)

  datatype Packet = Packet(snlp: bool, header: Header, body: Body)

  function HeaderLen(snlp: bool): nat {
    if snlp then 14 else 6
  }

  function WriteWords(h: Header): (s: Bytes)
    ensures |s| == 6
  {
    BE(h.word0, 2) + BE(h.word1, 2) + BE(h.word2, 2)
  }

  function WriteHeader(snlp: bool, h: Header): (s: Bytes)
    ensures |s| == HeaderLen(snlp)
  {
    if snlp then SYNC + WriteWords(h) + PAD4 else WriteWords(h)
  }

  function Word16(s: Bytes): U16
    requires |s| == 2
  {
    BEValFits(s);
    Pow256Values();
    BEVal(s)
  }

  function ReadWords(s: Bytes): Header
    requires |s| == 6
  {
    Header(Word16(s[..2]), Word16(s[2..4]), Word16(s[4..]))
  }

  /** The body type the routing picks from the length, and for 122 bytes from the first byte. */
  function Route(raw: Bytes): Option<Kind> {
    match |raw|
    case 106 => Some(PacketH)
    case 114 => Some(AckCcsds)
    case 122 => if raw[0] == MAGIC_ACK then Some(AckSnlp) else if raw[0] == MAGIC_D then Some(PacketD) else None
    case 178 => Some(PacketB)
    case 34 => Some(Heartbeat)
    case 66 => Some(PacketA)
    case 98 => Some(PacketC)
    case _ => None
  }

  function ParseBody(raw: Bytes): Option<Body> {
    match Route(raw)
    case Some(k) =>
      var vals := ReadBody(Table(k), raw);
      if vals.Some? then Some(Known(k, vals.value)) else None
    case None => Some(if |raw| == 122 then NoContent(raw) else Unknown(raw))
  }

  /** The parse of a frame: None is the error return, and bytes after the body are not looked at. */
  function Parse(raw: Bytes): Option<Packet> {
    if |raw| < 4 then None
    else
      var snlp := raw[..4] == SYNC;
      if |raw| < HeaderLen(snlp) || (snlp && raw[10..14] != PAD4) then None
      else
        var h := if snlp then ReadWords(raw[4..10]) else ReadWords(raw[..6]);
        var end := HeaderLen(snlp) + h.DataFieldLength();
        if |raw| < end then None
        else
          match ParseBody(raw[HeaderLen(snlp)..end])
          case Some(b) => Some(Packet(snlp, h, b))
          case None => None
  }

  // ---- The printer and the two inverses ---------------------------------------------------------------

  predicate WfBody(b: Body) {
    match b
    case Known(k, vals) => Fits(Table(k), vals)
    case NoContent(raw) => |raw| == 122 && raw[0] != MAGIC_ACK && raw[0] != MAGIC_D
    case Unknown(raw) => |raw| !in {34, 66, 98, 106, 114, 122, 178}
  }

  function PrintBody(b: Body): Bytes
    requires WfBody(b)
  {
    match b
    case Known(k, vals) => WriteBody(Table(k), vals)
    case NoContent(raw) => raw
    case Unknown(raw) => raw
  }

  predicate WfPacket(p: Packet) {
    WfBody(p.body) && |PrintBody(p.body)| == p.header.DataFieldLength()
  }

  function Print(p: Packet): Bytes
    requires WfPacket(p)
  {
    WriteHeader(p.snlp, p.header) + PrintBody(p.body)
  }

  /** A CCSDS header whose first two words spell the sync word. */
  predicate LooksLikeSync(h: Header) {
    h.word0 == 0x1D01 && h.word1 == 0xA5A5
  }

  /** Sequence flags 11 (unsegmented) rule the ambiguity out. */
  lemma UnsegmentedIsNoSync(h: Header)
    requires h.SeqFlags() == 3
    ensures !LooksLikeSync(h)
  {
  }

  lemma Two(s: Bytes)
    requires |s| == 2
    ensures BEVal(s) == 0x100 * (s[0] as int) + s[1]
  {
    assert s[..1][..0] == [];
    assert BEVal(s[..1]) == s[0];
  }

  lemma WordRoundTrip(w: U16)
    ensures Word16(BE(w, 2)) == w
    ensures BE(w, 2) == [w / 0x100, w % 0x100]
  {
    Pow256Values();
    BERoundTrip(w, 2);
    assert BE(w / 0x100, 1) == [w / 0x100];
  }

  lemma WordsRoundTrip(h: Header)
    ensures ReadWords(WriteWords(h)) == h
    ensures WriteWords(h)[..4] == SYNC <==> LooksLikeSync(h)
  {
    WordRoundTrip(h.word0);
    WordRoundTrip(h.word1);
    WordRoundTrip(h.word2);
    var s := WriteWords(h);
    assert s[..2] == BE(h.word0, 2) && s[2..4] == BE(h.word1, 2) && s[4..] == BE(h.word2, 2);
    assert s[..4] == [h.word0 / 0x100, h.word0 % 0x100, h.word1 / 0x100, h.word1 % 0x100];
  }

  lemma WordsPrintParsed(s: Bytes)
    requires |s| == 6
    ensures WriteWords(ReadWords(s)) == s
  {
    BEOfVal(s[..2]);
    BEOfVal(s[2..4]);
    BEOfVal(s[4..]);
    assert s == s[..2] + s[2..4] + s[4..];
  }

  lemma FirstByteIsMagic(k: Kind, vals: seq<Val>)
    requires k in {AckSnlp, AckCcsds, PacketD} && Fits(Table(k), vals)
    ensures |WriteBody(Table(k), vals)| > 0
    ensures WriteBody(Table(k), vals)[0] == if k == PacketD then MAGIC_D else MAGIC_ACK
  {
    TablesFill(k);
    WrittenSlice(Table(k), vals, 0, |Table(k)|);
    assert FieldFits(Table(k)[0], vals[0]);
    var w := WriteBody(Table(k), vals);
    assert w[0..1] == WriteField(Table(k)[0], vals[0]);
    assert w[0] == w[0..1][0];
  }

  lemma RouteOfPrinted(k: Kind, vals: seq<Val>)
    requires Fits(Table(k), vals)
    ensures Route(WriteBody(Table(k), vals)) == Some(k)
  {
    TablesFill(k);
    if k in {AckSnlp, AckCcsds, PacketD} {
      FirstByteIsMagic(k, vals);
    }
    hide Table, WriteBody, Fits, Width;
  }

  lemma RouteLength(raw: Bytes, k: Kind)
    requires Route(raw) == Some(k)
    ensures BodyLen(k) == |raw| == Width(Table(k))
  {
    TablesFill(k);
  }

  lemma ParseBodyIs(raw: Bytes, k: Kind)
    requires Route(raw) == Some(k)
    ensures ParseBody(raw) == if ReadBody(Table(k), raw).Some? then Some(Known(k, ReadBody(Table(k), raw).value)) else None
  {
    hide Route, Table, ReadBody;
  }

  /** A printed body is routed back to its own kind and read back. */
  lemma BodyRoundTrip(b: Body)
    requires WfBody(b)
    ensures ParseBody(PrintBody(b)) == Some(b)
  {
    hide Table, ReadBody, WriteBody, Fits;
    match b
    case Known(k, vals) =>
      var w := WriteBody(Table(k), vals);
      RouteOfPrinted(k, vals);
      ParsePrinted(Table(k), vals, []);
      assert w + [] == w;
      ParseBodyIs(w, k);
    case NoContent(raw) =>
    case Unknown(raw) =>
  }

  /** A parsed body is well formed and prints back to its bytes. */
  lemma BodyPrintParsed(raw: Bytes)
    requires ParseBody(raw).Some?
    ensures WfBody(ParseBody(raw).value) && PrintBody(ParseBody(raw).value) == raw
  {
    hide Table, ReadBody, WriteBody, Fits, Width;
    if Route(raw).Some? {
      var k := Route(raw).value;
      RouteLength(raw, k);
      ParseBodyIs(raw, k);
      PrintParsed(Table(k), raw);
    }
  }

  /** Parsing a printed packet, whatever bytes follow it, gives the packet back exactly when a CCSDS header does
      not spell the sync word. */
  lemma ParseUndoesPrint(p: Packet, rest: Bytes)
    requires WfPacket(p)
    ensures Parse(Print(p) + rest) == Some(p) <==> (p.snlp || !LooksLikeSync(p.header))
  {
    hide ParseBody, PrintBody, WriteWords, ReadWords, WfBody;
    var body := PrintBody(p.body);
    var raw := Print(p) + rest;
    var h := WriteWords(p.header);
    WordsRoundTrip(p.header);
    BodyRoundTrip(p.body);
    var n := HeaderLen(p.snlp);
    assert raw[n..n + |body|] == body;
    if p.snlp {
      assert raw[..4] == SYNC && raw[4..10] == h && raw[10..14] == PAD4;
    } else {
      assert raw[..4] == h[..4] && raw[..6] == h;
    }
  }

  /** The exception exists: a well-formed CCSDS packet, segmented, whose header spells the sync word. */
  lemma SyncHeaderMisread()
    ensures var p := Packet(false, Header(0x1D01, 0xA5A5, 0), Unknown([0]));
            WfPacket(p) && p.header.SeqFlags() == 2 && Parse(Print(p)) != Some(p)
  {
    var p := Packet(false, Header(0x1D01, 0xA5A5, 0), Unknown([0]));
    hide Parse, WriteWords;
    ParseUndoesPrint(p, []);
    assert Print(p) + [] == Print(p);
  }

  /** Printing what was parsed gives back the header and the body bytes; for an exact-length frame, the frame. */
  lemma PrintUndoesParse(raw: Bytes)
    requires Parse(raw).Some?
    ensures var p := Parse(raw).value;
            WfPacket(p) && |Print(p)| <= |raw| && Print(p) == raw[..|Print(p)|]
            && |Print(p)| == HeaderLen(p.snlp) + p.header.DataFieldLength()
  {
    hide ParseBody, PrintBody, WriteWords, ReadWords, WfBody;
    var p := Parse(raw).value;
    var n := HeaderLen(p.snlp);
    var end := n + p.header.DataFieldLength();
    BodyPrintParsed(raw[n..end]);
    WordsPrintParsed(if p.snlp then raw[4..10] else raw[..6]);
    assert WriteHeader(p.snlp, p.header) == raw[..n];
    assert raw[..end] == raw[..n] + raw[n..end];
  }

  /** The header words are made up of the fields the accessors give, and of nothing else. */
  lemma HeaderBits(h: Header)
    ensures h.word0 == 0x2000 * h.Version() + 0x1000 * h.PacketType() + 0x800 * h.SecHeaderFlag() + h.Apid()
    ensures 0 <= h.Version() < 8 && 0 <= h.PacketType() < 2 && 0 <= h.SecHeaderFlag() < 2 && 0 <= h.Apid() < 0x800
    ensures h.word1 == 0x4000 * h.SeqFlags() + h.SeqCount() && 0 <= h.SeqFlags() < 4 && 0 <= h.SeqCount() < 0x4000
  {
  }

  /** The length field holds the body's length less one, in 16 bits: a body of 65536 bytes cannot be announced. Its field
      value makes the parser see an empty body of no known kind, whatever follows the header. */
  lemma LengthWraps(snlp: bool, h: Header, rest: Bytes)
    requires h.word2 == 0xFFFF && (snlp || !LooksLikeSync(h))
    ensures Parse(WriteHeader(snlp, h) + rest) == Some(Packet(snlp, h, Unknown([])))
  {
    var p := Packet(snlp, h, Unknown([]));
    ParseUndoesPrint(p, rest);
    hide Parse, WriteHeader;
    assert Print(p) == WriteHeader(snlp, h);
  }

  // ---- The generated parser ------------------------------------------------------------------------------

  class Stream {
    const data: Bytes
    var pos: nat

    predicate Valid()
      reads this
    {
      pos <= |data|
    }

    constructor (data: Bytes)
      ensures this.data == data && pos == 0
    {
      this.data, pos := data, 0;
    }

    method ReadBytes(n: nat) returns (ok: bool, b: Bytes)
      requires Valid()
      modifies this
      ensures Valid() && (ok <==> old(pos) + n <= |data|)
      ensures ok ==> pos == old(pos) + n && b == data[old(pos)..pos]
      ensures !ok ==> pos == old(pos)
    {
      if pos + n > |data| {
        return false, [];
      }
      b := data[pos..pos + n];
      pos := pos + n;
      ok := true;
    }

    method ReadU2be() returns (ok: bool, v: U16)
      requires Valid()
      modifies this
      ensures Valid() && (ok <==> old(pos) + 2 <= |data|)
      ensures ok ==> pos == old(pos) + 2 && v == Word16(data[old(pos)..pos])
    {
      v := 0;
      var b;
      ok, b := ReadBytes(2);
      if ok {
        Two(b);
        v := 0x100 * (b[0] as int) + b[1];
      }
    }
  }

  lemma SixBytes(d: Bytes, i: nat)
    requires i + 6 <= |d|
    ensures d[i..i + 6][..2] == d[i..i + 2]
    ensures d[i..i + 6][2..4] == d[i + 2..i + 4]
    ensures d[i..i + 6][4..] == d[i + 4..i + 6]
  {
    var s := d[i..i + 6];
    assert forall j :: 0 <= j < 6 ==> s[j] == d[i + j];
  }

  method ReadCcsdsHeader(io: Stream) returns (ok: bool, h: Header)
    requires io.Valid()
    modifies io
    ensures io.Valid() && (ok <==> old(io.pos) + 6 <= |io.data|)
    ensures ok ==> io.pos == old(io.pos) + 6 && h == ReadWords(io.data[old(io.pos)..io.pos])
  {
    h := Header(0, 0, 0);
    ghost var start := io.pos;
    var w0, w1, w2;
    ok, w0 := io.ReadU2be();
    if !ok {
      return;
    }
    ok, w1 := io.ReadU2be();
    if !ok {
      return;
    }
    ok, w2 := io.ReadU2be();
    if !ok {
      return;
    }
    h := Header(w0, w1, w2);
    SixBytes(io.data, start);
  }

  method ReadSnlpHeader(io: Stream) returns (ok: bool, h: Header)
    requires io.Valid() && io.pos == 0
    modifies io
    ensures io.Valid()
    ensures ok <==> |io.data| >= 14 && io.data[..4] == SYNC && io.data[10..14] == PAD4
    ensures ok ==> io.pos == 14 && h == ReadWords(io.data[4..10])
  {
    h := Header(0, 0, 0);
    var b;
    ok, b := io.ReadBytes(4);
    if !ok {
      return;
    }
    if b != SYNC {
      return false, h;
    }
    ok, h := ReadCcsdsHeader(io);
    if !ok {
      return;
    }
    ok, b := io.ReadBytes(4);
    if !ok {
      return;
    }
    ok := b == PAD4;
  }

  predicate FieldRead(l: seq<Field>, s: Bytes, j: nat, v: Val) {
    j < |l| && Offset(l, j) <= Offset(l, j + 1) <= |s|
    && ReadField(l[j], s[Offset(l, j)..Offset(l, j + 1)]) == Some(v)
  }

  lemma NotReadable(l: seq<Field>, s: Bytes, k: nat, b: Bytes)
    requires k < |l| && |b| == FieldWidth(l[k]) && ReadField(l[k], b) == None
    requires Offset(l, k + 1) <= |s| && b == s[Offset(l, k)..Offset(l, k + 1)]
    ensures ReadBody(l, s) == None
  {
    hide ReadField, FieldWidth, ReadTo;
    assert Width(l) <= |s| ==> Slice(l, s, k) == b;
  }

  /** One body: its fields in table order from the front of the sub-stream. */
  method ReadFields(l: seq<Field>, io: Stream) returns (ok: bool, vals: seq<Val>)
    requires io.pos == 0
    modifies io
    ensures ReadBody(l, io.data) == if ok then Some(vals) else None
  {
    hide ReadField, FieldWidth, ReadTo;
    vals := [];
    for k := 0 to |l|
      invariant io.Valid() && io.pos == Offset(l, k) <= |io.data|
      invariant |vals| == k
      invariant forall j :: 0 <= j < k ==> FieldRead(l, io.data, j, vals[j])
    {
      OffsetMono(l, k + 1, |l|);
      var b;
      ok, b := io.ReadBytes(FieldWidth(l[k]));
      if !ok {
        return;
      }
      var v := ReadField(l[k], b);
      if v.None? {
        NotReadable(l, io.data, k, b);
        return false, vals;
      }
      vals := vals + [v.value];
    }
    forall j | 0 <= j < |l| ensures ReadField(l[j], Slice(l, io.data, j)) == Some(vals[j]) {
      assert FieldRead(l, io.data, j, vals[j]);
    }
    ReadBodyIs(l, io.data, vals);
    ok := true;
  }

  predicate StartsWithSync(data: Bytes) {
    |data| >= 4 && data[..4] == SYNC
  }

  class VoidProtocol {
    const io: Stream
    var header: Header
    var body: Body
    var isSnlpRead: bool
    var isSnlp: bool
    var bodyLengthRead: bool
    var bodyLength: nat

    constructor (io: Stream)
      ensures this.io == io && !isSnlpRead && !isSnlp && !bodyLengthRead
    {
      this.io := io;
      header, body := Header(0, 0, 0), Unknown([]);
      isSnlpRead, isSnlp, bodyLengthRead, bodyLength := false, false, false, 0;
    }

    /** Peeks at the first four bytes and remembers the answer; after a failed peek it remembers false, and a second
        call returns that without an error. */
    method IsSnlp() returns (ok: bool, v: bool)
      requires io.Valid() && (if isSnlpRead then isSnlp == StartsWithSync(io.data) else !isSnlp)
      modifies this`isSnlpRead, this`isSnlp
      ensures ok <==> old(isSnlpRead) || |io.data| >= 4
      ensures isSnlpRead && isSnlp == v == StartsWithSync(io.data)
    {
      if isSnlpRead {
        return true, isSnlp;
      }
      isSnlpRead := true;
      if |io.data| < 4 {
        return false, false;
      }
      isSnlp := io.data[..4] == SYNC;
      return true, isSnlp;
    }

    method BodyLength() returns (n: nat)
      modifies this`bodyLengthRead, this`bodyLength
      requires bodyLengthRead ==> bodyLength == header.DataFieldLength()
      ensures bodyLengthRead && bodyLength == n == header.DataFieldLength()
    {
      if !bodyLengthRead {
        bodyLengthRead := true;
        bodyLength := header.DataFieldLength();
      }
      n := bodyLength;
    }

    method Read() returns (ok: bool)
      requires io.Valid() && io.pos == 0 && !isSnlpRead && !isSnlp && !bodyLengthRead
      modifies this, io
      ensures ok <==> Parse(io.data).Some?
      ensures ok ==> Parse(io.data) == Some(Packet(isSnlp, header, body))
    {
      var snlp;
      ok, snlp := IsSnlp();
      if !ok {
        return;
      }
      if snlp {
        ok, header := ReadSnlpHeader(io);
      } else {
        ok, header := ReadCcsdsHeader(io);
      }
      if !ok {
        return;
      }
      var len := BodyLength();
      var raw;
      ok, raw := io.ReadBytes(len);
      if !ok {
        return;
      }
      ok := ReadRouted(raw);
    }

    /** The switch on the body length, and inside 122 on the magic byte. */
    method ReadRouted(raw: Bytes) returns (ok: bool)
      modifies this`body
      ensures ok <==> ParseBody(raw).Some?
      ensures ok ==> ParseBody(raw) == Some(body)
    {
      var sub := new Stream(raw);
      var route := Route(raw);
      if route.None? {
        body := if |raw| == 122 then NoContent(raw) else Unknown(raw);
        return true;
      }
      var vals;
      ok, vals := ReadFields(Table(route.value), sub);
      if ok {
        body := Known(route.value, vals);
      }
    }
  }
}
