/** The builders as they run: a cursor moving over an output buffer, field after field. Each fills exactly the
    printed form of the packet in module Builders and leaves the rest of the buffer alone. */
module FrameBuilders {
  import opened Words
  import opened Layout
  import opened Frames
  import opened Crc32
  import opened Builders

  // ---- The cursor writers ---------------------------------------------------------------------------------

  lemma Quarters(v: nat)
    ensures v / 0x100 / 0x100 == v / 0x1_0000 && v / 0x1_0000 / 0x100 == v / 0x100_0000
  {
  }

  lemma TwoBytes(v: nat)
    ensures LE(v, 2) == [v % 0x100, v / 0x100 % 0x100] && BE(v, 2) == [v / 0x100 % 0x100, v % 0x100]
  {
    assert LE(v / 0x100, 1) == [v / 0x100 % 0x100] && BE(v / 0x100, 1) == [v / 0x100 % 0x100];
  }

  lemma HighBytes(v: nat)
    ensures LE(v, 4) == [v % 0x100, v / 0x100 % 0x100] + LE(v / 0x100 / 0x100, 2)
    ensures BE(v, 4) == BE(v / 0x100 / 0x100, 2) + [v / 0x100 % 0x100, v % 0x100]
  {
    var w := v / 0x100;
    assert LE(w, 3) == [w % 0x100] + LE(w / 0x100, 2) && BE(w, 3) == BE(w / 0x100, 2) + [w % 0x100];
  }

  lemma FourBytes(v: nat)
    ensures LE(v, 4) == [v % 0x100, v / 0x100 % 0x100, v / 0x1_0000 % 0x100, v / 0x100_0000 % 0x100]
    ensures BE(v, 4) == [v / 0x100_0000 % 0x100, v / 0x1_0000 % 0x100, v / 0x100 % 0x100, v % 0x100]
  {
    hide LE, BE;
    HighBytes(v);
    Quarters(v);
    TwoBytes(v / 0x1_0000);
  }

  method WriteU16LE(dst: array<U8>, off: nat, v: U16) returns (next: nat)
    requires off + 2 <= dst.Length
    modifies dst
    ensures next == off + 2
    ensures dst[..next] == old(dst[..off]) + LE(v, 2)
    ensures forall i :: next <= i < dst.Length ==> dst[i] == old(dst[i])
  {
    hide LE, BE;
    dst[off] := v % 0x100;
    dst[off + 1] := v / 0x100 % 0x100;
    next := off + 2;
    TwoBytes(v);
  }

  method WriteU32LE(dst: array<U8>, off: nat, v: U32) returns (next: nat)
    requires off + 4 <= dst.Length
    modifies dst
    ensures next == off + 4
    ensures dst[..next] == old(dst[..off]) + LE(v, 4)
    ensures forall i :: next <= i < dst.Length ==> dst[i] == old(dst[i])
  {
    hide LE, BE;
    dst[off] := v % 0x100;
    dst[off + 1] := v / 0x100 % 0x100;
    dst[off + 2] := v / 0x1_0000 % 0x100;
    dst[off + 3] := v / 0x100_0000 % 0x100;
    next := off + 4;
    FourBytes(v);
  }

  /** v >> 8 * i. */
  function Shifted(v: nat, i: nat): nat
    decreases i
  {
    if i == 0 then v else Shifted(v / 0x100, i - 1)
  }

  lemma {:induction false} LESnoc(v: nat, n: nat)
    ensures LE(v, n + 1) == LE(v, n) + [Shifted(v, n) % 0x100]
    decreases n
  {
    if n > 0 {
      LESnoc(v / 0x100, n - 1);
    }
  }

  method WriteU64LE(dst: array<U8>, off: nat, v: U64) returns (next: nat)
    requires off + 8 <= dst.Length
    modifies dst
    ensures next == off + 8
    ensures dst[..next] == old(dst[..off]) + LE(v, 8)
    ensures forall i :: next <= i < dst.Length ==> dst[i] == old(dst[i])
  {
    next := off;
    for i := 0 to 8
      invariant next == off + i
      invariant dst[..next] == old(dst[..off]) + LE(v, i)
      invariant forall k :: next <= k < dst.Length ==> dst[k] == old(dst[k])
    {
      hide LE, Shifted;
      ghost var before := dst[..];
      dst[next] := Shifted(v, i) % 0x100;
      next := next + 1;
      LESnoc(v, i);
      assert dst[..next] == before[..next - 1] + [Shifted(v, i) % 0x100];
    }
  }

  method WriteU16BE(dst: array<U8>, off: nat, v: U16) returns (next: nat)
    requires off + 2 <= dst.Length
    modifies dst
    ensures next == off + 2
    ensures dst[..next] == old(dst[..off]) + BE(v, 2)
    ensures forall i :: next <= i < dst.Length ==> dst[i] == old(dst[i])
  {
    hide LE, BE;
    dst[off] := v / 0x100 % 0x100;
    dst[off + 1] := v % 0x100;
    next := off + 2;
    TwoBytes(v);
  }

  method WriteU32BE(dst: array<U8>, off: nat, v: U32) returns (next: nat)
    requires off + 4 <= dst.Length
    modifies dst
    ensures next == off + 4
    ensures dst[..next] == old(dst[..off]) + BE(v, 4)
    ensures forall i :: next <= i < dst.Length ==> dst[i] == old(dst[i])
  {
    hide LE, BE;
    dst[off] := v / 0x100_0000 % 0x100;
    dst[off + 1] := v / 0x1_0000 % 0x100;
    dst[off + 2] := v / 0x100 % 0x100;
    dst[off + 3] := v % 0x100;
    next := off + 4;
    FourBytes(v);
  }

  /** memcpy, and a literal byte as the one-byte case. */
  method WriteBytes(dst: array<U8>, off: nat, b: Bytes) returns (next: nat)
    requires off + |b| <= dst.Length
    modifies dst
    ensures next == off + |b|
    ensures dst[..next] == old(dst[..off]) + b
    ensures forall i :: next <= i < dst.Length ==> dst[i] == old(dst[i])
  {
    forall i | 0 <= i < |b| {
      dst[off + i] := b[i];
    }
    next := off + |b|;
  }

  function Zeros(n: nat): (r: Bytes)
    ensures |r| == n
  {
    seq(n, _ => 0)
  }

  /** memset(dst, 0, n). */
  method Clear(dst: array<U8>, n: nat)
    requires n <= dst.Length
    modifies dst
    ensures dst[..n] == Zeros(n) && dst[n..] == old(dst[n..])
  {
    forall i | 0 <= i < n {
      dst[i] := 0;
    }
  }

  lemma SyncBytes()
    ensures BE(SYNC_WORD, 4) == SYNC && BE(0, 4) == PAD4
  {
    FourBytes(SYNC_WORD);
    FourBytes(0);
  }

  method WriteSnlpHeader(dst: array<U8>, command: bool, apid: U16, seqCount: U16, bodyLen: nat) returns (off: nat)
    requires 14 <= dst.Length && 0 < bodyLen <= TWO16
    modifies dst
    ensures off == 14 && forall i :: 14 <= i < dst.Length ==> dst[i] == old(dst[i])
    ensures dst[..14] == WriteHeader(true, SnlpHeader(command, apid, seqCount, bodyLen))
  {
    hide BE;
    SyncBytes();
    off := WriteU32BE(dst, 0, SYNC_WORD);
    off := WriteU16BE(dst, off, IdField(command, apid));
    off := WriteU16BE(dst, off, SEQ_FLAGS + seqCount % 0x4000);
    off := WriteU16BE(dst, off, bodyLen - 1);
    off := WriteU32BE(dst, off, 0);
  }

  // ---- A half-written frame ---------------------------------------------------------------------------------

  /** What a builder is writing: the frame's header and fields, its size, and the bytes behind it in the buffer. */
  datatype Job = Job(h: Header, l: seq<Field>, vals: seq<Val>, size: nat, behind: Bytes)

  /** The header and k fields are in place, the rest of the frame is still zero, what is behind it is untouched. */
  ghost predicate Built(s: Bytes, off: nat, j: Job, k: nat) {
    Fits(j.l, j.vals) && k <= |j.l| && off <= j.size <= |s|
    && s[..off] == WriteHeader(true, j.h) + WriteTo(j.l, j.vals, k)
    && s[off..] == Zeros(j.size - off) + j.behind
  }

  lemma Advance(s: Bytes, off: nat, t: Bytes, next: nat, j: Job, k: nat)
    requires Built(s, off, j, k) && k < |j.l| && |t| == |s|
    requires off <= next <= j.size && t[..next] == s[..off] + WriteField(j.l[k], j.vals[k])
    requires forall i :: next <= i < |t| ==> t[i] == s[i]
    ensures Built(t, next, j, k + 1)
  {
    hide Fits, WriteField, WriteHeader, FieldFits;
    assert t[next..] == s[off..][next - off..];
  }

  /** A field of zeros needs no writing. */
  lemma Skip(s: Bytes, off: nat, j: Job, k: nat, n: nat)
    requires Built(s, off, j, k) && k < |j.l| && off + n <= j.size
    requires j.l[k] == Raw(n) && j.vals[k] == Blob(Zeros(n))
    ensures Built(s, off + n, j, k + 1)
  {
    hide Fits, WriteHeader;
    assert s[off..][..n] == Zeros(n);
    assert s[..off + n] == s[..off] + s[off..][..n];
    Advance(s, off, s, off + n, j, k);
  }

  ghost function SealedJob(h: Header, k: Kind, vals: seq<Val>, crcAt: nat, size: nat, behind: Bytes): Job
    requires crcAt < |vals|
  {
    Job(h, Table(k), Sealed(h, k, vals, crcAt).body.vals, size, behind)
  }

  /** Up to the checksum field, the bytes written are the ones the checksum is over. */
  lemma SealedJobFits(h: Header, k: Kind, vals: seq<Val>, crcAt: nat, size: nat, behind: Bytes)
    requires Fits(Table(k), vals) && crcAt < |vals| && Table(k)[crcAt] == U(4)
    ensures var j := SealedJob(h, k, vals, crcAt, size, behind);
            && Fits(j.l, j.vals) && |j.l| == |j.vals| == |vals|
            && WriteHeader(true, h) + WriteTo(j.l, j.vals, crcAt) == Prefix(h, k, vals, crcAt)
            && j.vals[crcAt] == Num(Crc(Prefix(h, k, vals, crcAt)))
            && forall i :: 0 <= i < |vals| && i != crcAt ==> j.vals[i] == vals[i]
  {
    hide Crc, WriteHeader, WriteTo, Table;
    SealedFits(Table(k), vals, crcAt, Crc(Prefix(h, k, vals, crcAt)));
    WriteToAgree(Table(k), vals, SealedJob(h, k, vals, crcAt, size, behind).vals, crcAt);
  }

  lemma Started(s: Bytes, j: Job)
    requires Fits(j.l, j.vals) && 14 <= j.size <= |s|
    requires s[..14] == WriteHeader(true, j.h) && s[14..] == Zeros(j.size - 14) + j.behind
    ensures Built(s, 14, j, 0)
  {
    hide Fits, WriteHeader;
  }

  /** The finished frame is the printed packet. */
  lemma Finished(s: Bytes, j: Job, h: Header, k: Kind, vals: seq<Val>, crcAt: nat)
    requires Fits(Table(k), vals) && crcAt < |vals| && Table(k)[crcAt] == U(4) && h.DataFieldLength() == BodyLen(k)
    requires j == SealedJob(h, k, vals, crcAt, j.size, j.behind) && Built(s, j.size, j, |Table(k)|)
    ensures WfPacket(Sealed(h, k, vals, crcAt)) && s == Print(Sealed(h, k, vals, crcAt)) + j.behind
  {
    hide Crc, WriteHeader, WriteTo, Table, BodyLen, Prefix, Fits, ValidFrame;
    SealedFrame(h, k, vals, crcAt);
    assert s == s[..j.size] + s[j.size..];
  }

  // ---- Writing the next field of a job --------------------------------------------------------------------------

  method PutU16(dst: array<U8>, off: nat, v: U16, ghost j: Job, ghost k: nat) returns (next: nat)
    requires Built(dst[..], off, j, k) && k < |j.l| && off + 2 <= j.size
    requires j.l[k] == U(2) && j.vals[k] == Num(v)
    modifies dst
    ensures next == off + 2 && Built(dst[..], next, j, k + 1)
  {
    hide LE, Fits, FieldFits, WriteTo, WriteHeader;
    ghost var s := dst[..];
    next := WriteU16LE(dst, off, v);
    Advance(s, off, dst[..], next, j, k);
  }

  method PutU32(dst: array<U8>, off: nat, v: U32, ghost j: Job, ghost k: nat) returns (next: nat)
    requires Built(dst[..], off, j, k) && k < |j.l| && off + 4 <= j.size
    requires j.l[k] == U(4) && j.vals[k] == Num(v)
    modifies dst
    ensures next == off + 4 && Built(dst[..], next, j, k + 1)
  {
    hide LE, Fits, FieldFits, WriteTo, WriteHeader;
    ghost var s := dst[..];
    next := WriteU32LE(dst, off, v);
    Advance(s, off, dst[..], next, j, k);
  }

  method PutU64(dst: array<U8>, off: nat, v: U64, ghost j: Job, ghost k: nat) returns (next: nat)
    requires Built(dst[..], off, j, k) && k < |j.l| && off + 8 <= j.size
    requires j.l[k] == U(8) && j.vals[k] == Num(v)
    modifies dst
    ensures next == off + 8 && Built(dst[..], next, j, k + 1)
  {
    hide LE, Fits, FieldFits, WriteTo, WriteHeader;
    ghost var s := dst[..];
    next := WriteU64LE(dst, off, v);
    Advance(s, off, dst[..], next, j, k);
  }

  predicate Spells(f: Field, v: Val, b: Bytes) {
    match f
    case U(n) => n == 1 && |b| == 1 && v == Num(b[0])
    case S(_) => false
    case Raw(n) => n == |b| && v == Blob(b)
    case Magic(m) => b == [m] && v == Blob(b)
  }

  method PutBytes(dst: array<U8>, off: nat, b: Bytes, ghost j: Job, ghost k: nat) returns (next: nat)
    requires Built(dst[..], off, j, k) && k < |j.l| && off + |b| <= j.size
    requires Spells(j.l[k], j.vals[k], b)
    modifies dst
    ensures next == off + |b| && Built(dst[..], next, j, k + 1)
  {
    hide Fits, FieldFits, WriteTo, WriteHeader;
    ghost var s := dst[..];
    next := WriteBytes(dst, off, b);
    assert LE(if |b| == 1 then b[0] else 0, 1) == [if |b| == 1 then b[0] else 0];
    Advance(s, off, dst[..], next, j, k);
  }

  // ---- The three builders -------------------------------------------------------------------------------------

  /** Clears the frame and writes its header. */
  method Start(out: array<U8>, command: bool, apid: U16, seqCount: U16, bodyLen: nat, ghost j: Job) returns (off: nat)
    requires 0 < bodyLen <= TWO16 && 14 <= j.size <= out.Length && j.behind == out[j.size..]
    requires Fits(j.l, j.vals) && j.h == SnlpHeader(command, apid, seqCount, bodyLen) && j.size == 14 + bodyLen
    modifies out
    ensures off == 14 && Built(out[..], off, j, 0)
  {
    hide Fits, WriteHeader, Built;
    Clear(out, 14 + bodyLen);
    off := WriteSnlpHeader(out, command, apid, seqCount, bodyLen);
    assert out[14..] == Zeros(j.size - 14) + j.behind;
    Started(out[..], j);
  }

  /** The checksum field: computed over the bytes before the cursor. */
  method PutCrc(out: array<U8>, off: nat, ghost j: Job, ghost h: Header, ghost k: Kind, ghost vals: seq<Val>, ghost crcAt: nat)
    returns (next: nat)
    requires Fits(Table(k), vals) && crcAt < |vals| && Table(k)[crcAt] == U(4)
    requires j == SealedJob(h, k, vals, crcAt, j.size, j.behind)
    requires Built(out[..], off, j, crcAt) && off + 4 <= j.size
    modifies out
    ensures next == off + 4 && Built(out[..], next, j, crcAt + 1)
  {
    hide Crc, Prefix, Fits, WriteTo, WriteHeader, Table;
    SealedJobFits(h, k, vals, crcAt, j.size, j.behind);
    var crc := Crc32Ieee(out, off);
    assert out[..off] == out[..][..off];
    next := PutU32(out, off, crc, j, crcAt);
  }

  lemma AckJob(in_: AckInputs, behind: Bytes) returns (j: Job)
    requires |in_.encTunnel| == 96
    ensures j == SealedJob(AckHeader(), AckSnlp, AckVals(in_), ACK_CRC_AT, ACK_SIZE, behind)
    ensures j.h == AckHeader() == SnlpHeader(true, APID_SAT_B, 0, 122) && j.size == ACK_SIZE && j.behind == behind
    ensures AckHeader().DataFieldLength() == BodyLen(AckSnlp)
    ensures Fits(j.l, j.vals) && |j.l| == 12 == |j.vals| == |Table(AckSnlp)|
    ensures Fits(Table(AckSnlp), AckVals(in_)) && Table(AckSnlp)[ACK_CRC_AT] == U(4)
    ensures Spells(j.l[0], j.vals[0], [MAGIC_ACK]) && Spells(j.l[1], j.vals[1], [0])
    ensures j.l[2] == U(4) && j.vals[2] == Num(in_.targetTxId)
    ensures Spells(j.l[3], j.vals[3], [in_.status]) && Spells(j.l[4], j.vals[4], [0])
    ensures j.l[5] == U(2) && j.vals[5] == Num(in_.azimuth) && j.l[6] == U(2) && j.vals[6] == Num(in_.elevation)
    ensures j.l[7] == U(4) && j.vals[7] == Num(in_.frequencyHz) && j.l[8] == U(4) && j.vals[8] == Num(in_.durationMs)
    ensures Spells(j.l[9], j.vals[9], in_.encTunnel) && Spells(j.l[10], j.vals[10], [0, 0])
  {
    hide Crc, Prefix, WriteTo, WriteHeader, Fits;
    j := SealedJob(AckHeader(), AckSnlp, AckVals(in_), ACK_CRC_AT, ACK_SIZE, behind);
    SealedJobFits(j.h, AckSnlp, AckVals(in_), ACK_CRC_AT, ACK_SIZE, behind);
  }

  /** ack_builder::build; a buffer that is too small is refused untouched. */
  method BuildAck(in_: AckInputs, out: array<U8>) returns (ok: bool)
    requires |in_.encTunnel| == 96
    modifies out
    ensures ok <==> out.Length >= ACK_SIZE
    ensures !ok ==> out[..] == old(out[..])
    ensures ok ==> WfPacket(AckPacket(in_)) && out[..] == Print(AckPacket(in_)) + old(out[ACK_SIZE..])
  {
    hide Built, Fits, Spells, Crc, Prefix, WriteTo, WriteHeader, Table, BodyLen, AckVals, AckHeader, SnlpHeader,
      SealedJob, Sealed, WfPacket, Print;
    if out.Length < ACK_SIZE {
      return false;
    }
    ghost var h, vals := AckHeader(), AckVals(in_);
    ghost var j := AckJob(in_, out[ACK_SIZE..]);
    var off := Start(out, true, APID_SAT_B, 0, 122, j);
    off := PutBytes(out, off, [MAGIC_ACK], j, 0);
    off := PutBytes(out, off, [0], j, 1);
    off := PutU32(out, off, in_.targetTxId, j, 2);
    off := PutBytes(out, off, [in_.status], j, 3);
    off := PutBytes(out, off, [0], j, 4);
    off := PutU16(out, off, in_.azimuth, j, 5);
    off := PutU16(out, off, in_.elevation, j, 6);
    off := PutU32(out, off, in_.frequencyHz, j, 7);
    off := PutU32(out, off, in_.durationMs, j, 8);
    off := PutBytes(out, off, in_.encTunnel, j, 9);
    off := PutBytes(out, off, [0, 0], j, 10);
    off := PutCrc(out, off, j, h, AckSnlp, vals, ACK_CRC_AT);
    Finished(out[..], j, h, AckSnlp, vals, ACK_CRC_AT);
    ok := off == ACK_SIZE;
  }

  lemma DeliveryJob(in_: DeliveryInputs, behind: Bytes) returns (j: Job)
    requires |in_.payload| == 98
    ensures j == SealedJob(DHeader(), PacketD, DVals(in_), D_CRC_AT, D_SIZE, behind)
    ensures j.h == DHeader() == SnlpHeader(false, APID_SAT_B, 0, 122) && j.size == D_SIZE && j.behind == behind
    ensures DHeader().DataFieldLength() == BodyLen(PacketD)
    ensures Fits(j.l, j.vals) && |j.l| == 7 == |j.vals| == |Table(PacketD)|
    ensures Fits(Table(PacketD), DVals(in_)) && Table(PacketD)[D_CRC_AT] == U(4)
    ensures Spells(j.l[0], j.vals[0], [MAGIC_D]) && Spells(j.l[1], j.vals[1], [0])
    ensures j.l[2] == U(8) && j.vals[2] == Num(in_.downlinkTs) && j.l[3] == U(4) && j.vals[3] == Num(in_.satBId)
    ensures Spells(j.l[4], j.vals[4], in_.payload)
    ensures j.l[6] == Raw(6) && j.vals[6] == Blob(Zeros(6))
  {
    hide Crc, Prefix, WriteTo, WriteHeader, Fits;
    j := SealedJob(DHeader(), PacketD, DVals(in_), D_CRC_AT, D_SIZE, behind);
    SealedJobFits(j.h, PacketD, DVals(in_), D_CRC_AT, D_SIZE, behind);
    assert Zeros(6) == [0, 0, 0, 0, 0, 0];
  }

  /** packet_d_builder::build; the six tail bytes are left as the clearing made them. */
  method BuildDelivery(in_: DeliveryInputs, out: array<U8>) returns (ok: bool)
    requires |in_.payload| == 98
    modifies out
    ensures ok <==> out.Length >= D_SIZE
    ensures !ok ==> out[..] == old(out[..])
    ensures ok ==> WfPacket(DPacket(in_)) && out[..] == Print(DPacket(in_)) + old(out[D_SIZE..])
  {
    hide Built, Fits, Spells, Crc, Prefix, WriteTo, WriteHeader, Table, BodyLen, DVals, DHeader, SnlpHeader,
      SealedJob, Sealed, WfPacket, Print;
    if out.Length < D_SIZE {
      return false;
    }
    ghost var h, vals := DHeader(), DVals(in_);
    ghost var j := DeliveryJob(in_, out[D_SIZE..]);
    var off := Start(out, false, APID_SAT_B, 0, 122, j);
    off := PutBytes(out, off, [MAGIC_D], j, 0);
    off := PutBytes(out, off, [0], j, 1);
    off := PutU64(out, off, in_.downlinkTs, j, 2);
    off := PutU32(out, off, in_.satBId, j, 3);
    off := PutBytes(out, off, in_.payload, j, 4);
    off := PutCrc(out, off, j, h, PacketD, vals, D_CRC_AT);
    Skip(out[..], off, j, 6, 6);
    off := off + 6;
    Finished(out[..], j, h, PacketD, vals, D_CRC_AT);
    ok := off == D_SIZE;
  }

  lemma ReceiptJob(in_: Inputs, crypto: Crypto) returns (j: Job, vals: seq<Val>)
    requires crypto.Sound()
    ensures |crypto.sign(in_.seed, CSigScope(in_))| == 64 && vals == CVals(in_, crypto.sign(in_.seed, CSigScope(in_)))
    ensures j == SealedJob(CHeader(in_), PacketC, vals, C_CRC_AT, C_SIZE, [])
    ensures j.h == CHeader(in_) == SnlpHeader(false, in_.apid, in_.seqCount, 98) && j.size == C_SIZE && j.behind == []
    ensures CHeader(in_).DataFieldLength() == BodyLen(PacketC)
    ensures Fits(j.l, j.vals) && |j.l| == 8 == |j.vals| == |Table(PacketC)| && j.l == Table(PacketC)
    ensures Fits(Table(PacketC), vals) && Table(PacketC)[C_CRC_AT] == U(4)
    ensures j.l[0] == Raw(2) && j.vals[0] == Blob(Zeros(2))
    ensures j.l[1] == U(8) && j.vals[1] == Num(in_.execTimeMs) && j.l[2] == U(8) && j.vals[2] == Num(in_.encTxId)
    ensures Spells(j.l[3], j.vals[3], [in_.encStatus])
    ensures j.l[4] == Raw(7) && j.vals[4] == Blob(Zeros(7))
    ensures Spells(j.l[5], j.vals[5], crypto.sign(in_.seed, CSigScope(in_)))
    ensures j.l[7] == Raw(4) && j.vals[7] == Blob(Zeros(4))
    ensures WriteTo(j.l, j.vals, C_SIG_AT) == CSigScope(in_)
  {
    hide Crc, Prefix, WriteTo, WriteHeader, Fits, CHeader;
    CHeaderFields(in_);
    vals := CVals(in_, crypto.sign(in_.seed, CSigScope(in_)));
    j := SealedJob(CHeader(in_), PacketC, vals, C_CRC_AT, C_SIZE, []);
    SealedJobFits(j.h, PacketC, vals, C_CRC_AT, C_SIZE, []);
    assert Zeros(2) == [0, 0] && Zeros(7) == [0, 0, 0, 0, 0, 0, 0] && Zeros(4) == PAD4;
    WriteToAgree(j.l, j.vals, CVals(in_, seq(64, _ => 0)), C_SIG_AT);
    assert CHeader(in_) == SnlpHeader(false, in_.apid, in_.seqCount, 98) by {
      ReceiptHeader(in_);
    }
  }

  lemma ReceiptHeader(in_: Inputs)
    ensures CHeader(in_) == SnlpHeader(false, in_.apid, in_.seqCount, 98)
  {
  }

  /** With the fields up to the signature in place, the signed bytes are the signature scope. */
  lemma ScopeInPlace(s: Bytes, j: Job)
    requires Built(s, 40, j, C_SIG_AT) && |WriteTo(j.l, j.vals, C_SIG_AT)| == 26
    ensures s[14..40] == WriteTo(j.l, j.vals, C_SIG_AT)
  {
    hide WriteTo, WriteHeader, Fits;
    assert s[14..40] == s[..40][14..];
  }

  /** Build: an error when the seed is not 32 bytes, otherwise a new frame. */
  method BuildReceipt(in_: Inputs, crypto: Crypto) returns (ok: bool, frame: array<U8>)
    requires crypto.Sound()
    ensures ok <==> |in_.seed| == 32
    ensures fresh(frame)
    ensures ok ==> WfPacket(CPacket(in_, crypto)) && frame[..] == Print(CPacket(in_, crypto))
  {
    hide Built, Fits, Spells, Crc, Prefix, WriteTo, WriteHeader, Table, BodyLen, CVals, CHeader, SnlpHeader,
      SealedJob, Sealed, WfPacket, Print, CSigScope;
    if |in_.seed| != 32 {
      return false, new U8[0];
    }
    frame := new U8[112];
    ghost var j, vals := ReceiptJob(in_, crypto);
    assert frame[C_SIZE..] == [];
    var off := Start(frame, false, in_.apid, in_.seqCount, 98, j);
    Skip(frame[..], off, j, 0, 2);
    off := PutU64(frame, 16, in_.execTimeMs, j, 1);
    off := PutU64(frame, off, in_.encTxId, j, 2);
    off := PutBytes(frame, off, [in_.encStatus], j, 3);
    Skip(frame[..], off, j, 4, 7);
    var sigScope := frame[14..40];
    assert sigScope == frame[..][14..40];
    ScopeInPlace(frame[..], j);
    var sig := crypto.sign(in_.seed, sigScope);
    off := PutBytes(frame, 40, sig, j, 5);
    off := PutCrc(frame, off, j, CHeader(in_), PacketC, vals, C_CRC_AT);
    Skip(frame[..], off, j, 7, 4);
    Finished(frame[..], j, CHeader(in_), PacketC, vals, C_CRC_AT);
    ok := true;
  }
}
