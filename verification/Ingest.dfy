/** The gateway's ingest gates (gateway/internal/api/handlers/ingest.go): which frames are accepted, and which
    of them put a settlement intent into the submitter. */
module Ingest {
  import opened Words
  import opened Layout
  import opened Frames
  import opened Builders
  import EgressHex
  import Escrow
  import Submitter
  import Watcher

  const B_BODY_LEN: nat := 178
  const B_SIG_SCOPE: nat := 106
  const D_CRC_FROM_END: nat := 10
  const ACK_CRC_FROM_END: nat := 4
  const SELLER_SAT_ID: U32 := 100

  datatype Sat = Sat(pubKeyHex: string, wallet: string)

  /** The registry, Ed25519 verification and the reading of an address; all three are parameters. */
  datatype Env = Env(registry: map<U32, Sat>, verify: (Bytes, Bytes, Bytes) -> bool, address: string -> Address)

  /** What becomes of a frame: a status, and the intent it stands for. */
  datatype Decision = Decision(status: int, intent: Option<Escrow.Intent>)

  /** VerifyPacketSignature: the satellite is known, its key is 32 bytes of hex, and the signature verifies. */
  predicate Verified(env: Env, satId: U32, message: Bytes, signature: Bytes) {
    satId in env.registry
    && var hex := env.registry[satId].pubKeyHex;
       |hex| == 64 && EgressHex.HexVal(hex).Some? && env.verify(EgressHex.HexVal(hex).value, message, signature)
  }

  /** The fields of a payment body the handler uses. */
  datatype Payment = Payment(epoch: U64, payload: Bytes, satId: U32, signature: Bytes)

  function PaymentOf(vals: seq<Val>): (p: Payment)
    requires Fits(Table(PacketB), vals)
    ensures |p.payload| == 62
  {
    Pow256Values();
    assert FieldFits(Table(PacketB)[1], vals[1]) && FieldFits(Table(PacketB)[5], vals[5]);
    assert FieldFits(Table(PacketB)[7], vals[7]) && FieldFits(Table(PacketB)[9], vals[9]);
    Payment(vals[1].v, vals[5].s, vals[7].v, vals[9].s)
  }

  function ReceiptSignature(vals: seq<Val>): Bytes
    requires Fits(Table(PacketC), vals)
  {
    assert FieldFits(Table(PacketC)[5], vals[5]);
    vals[5].s
  }

  /** enqueueSettlementIntent: amount and asset come from fixed places of the inner payload. */
  function IntentOf(env: Env, p: Payment): Option<Escrow.Intent>
    requires |p.payload| == 62
  {
    if p.satId !in env.registry || env.registry[p.satId].wallet == "" then None
    else
      LEValFits(p.payload[48..56]);
      LEValFits(p.payload[56..58]);
      Pow256Values();
      Some(Escrow.Intent(p.satId, LEVal(p.payload[48..56]), LEVal(p.payload[56..58]),
                         Watcher.DeriveTxNonce(p.satId, p.epoch), env.address(env.registry[p.satId].wallet)))
  }

  function BodyOffsetZero(raw: Bytes, snlp: bool): Option<U8> {
    if |raw| <= HeaderLen(snlp) then None else Some(raw[HeaderLen(snlp)])
  }

  predicate MagicAndCrc(raw: Bytes, snlp: bool, magic: U8, crcFromEnd: nat) {
    BodyOffsetZero(raw, snlp) == Some(magic) && ValidFrame(raw, |raw| - crcFromEnd)
  }

  const ACCEPTED := Decision(200, None)
  const REJECTED := Decision(400, None)

  function DecideBody(env: Env, raw: Bytes, p: Packet): Decision
    requires WfPacket(p)
  {
    match p.body
    case NoContent(_) => REJECTED
    case Unknown(_) => REJECTED
    case Known(k, vals) =>
      match k
      case Heartbeat | PacketA | PacketH => ACCEPTED
      case PacketB =>
        var b := PaymentOf(vals);
        if |raw| < B_BODY_LEN || !Verified(env, b.satId, raw[..|raw| - B_BODY_LEN + B_SIG_SCOPE], b.signature)
        then REJECTED
        else Decision(200, IntentOf(env, b))
      case PacketC =>
        if |raw| < 98 then REJECTED
        else if Verified(env, SELLER_SAT_ID, raw[|raw| - 98..|raw| - 72], ReceiptSignature(vals)) then ACCEPTED
        else Decision(401, None)
      case PacketD => if MagicAndCrc(raw, p.snlp, MAGIC_D, D_CRC_FROM_END) then ACCEPTED else REJECTED
      case AckSnlp | AckCcsds =>
        if MagicAndCrc(raw, p.snlp, MAGIC_ACK, ACK_CRC_FROM_END) then ACCEPTED else REJECTED
  }

  function Decide(env: Env, raw: Bytes): Decision {
    if raw == [] || Parse(raw).None? || Parse(raw).value.header.Version() != 0 then REJECTED
    else
      PrintUndoesParse(raw);
      DecideBody(env, raw, Parse(raw).value)
  }

  // ---- The handler ---------------------------------------------------------------------------------------------

  /** `submitter` is null when no chain is wired. */
  class Handler {
    const env: Env
    var submitter: Submitter.BufferedSubmitter?<Escrow.Intent>

    constructor (env: Env, submitter: Submitter.BufferedSubmitter?<Escrow.Intent>)
      ensures this.env == env && this.submitter == submitter
    {
      this.env, this.submitter := env, submitter;
    }

    ghost function Wired(): set<object>
      reads this
    {
      if submitter == null then {} else {submitter}
    }

    method EnqueueSettlementIntent(b: Payment)
      requires submitter != null && |b.payload| == 62
      modifies submitter
      ensures submitter.Now() == match IntentOf(env, b)
                                 case Some(i) => Submitter.Next(submitter.maxBatch, old(submitter.Now()), Submitter.Enqueue(i))
                                 case None => old(submitter.Now())
    {
      if b.satId !in env.registry {
        return;
      }
      if env.registry[b.satId].wallet == "" {
        return;
      }
      var intent := IntentOf(env, b).value;
      var _ := submitter.Enqueue(intent);
    }

    /** Returns whether the body was recognised and the error status it aborted with, 0 for none. */
    method HandlePayloadBody(raw: Bytes, p: Packet) returns (handled: bool, abort: int)
      requires WfPacket(p)
      modifies Wired()
      ensures DecideBody(env, raw, p).status == if !handled then 400 else if abort == 0 then 200 else abort
      ensures submitter != null ==>
                submitter.Now() == match DecideBody(env, raw, p).intent
                                   case Some(i) => Submitter.Next(submitter.maxBatch, old(submitter.Now()), Submitter.Enqueue(i))
                                   case None => old(submitter.Now())
    {
      hide Table, Fits, ValidFrame, Submitter.Next, EgressHex.HexVal, PaymentOf, ReceiptSignature, PrintBody, Verified;
      if !p.body.Known? {
        return false, 0;
      }
      var packetSize := |raw|;
      var vals := p.body.vals;
      match p.body.kind
      case Heartbeat | PacketA | PacketH =>
        return true, 0;
      case PacketB =>
        var b := PaymentOf(vals);
        if packetSize < B_BODY_LEN {
          return true, 400;
        }
        var bodyStart := packetSize - B_BODY_LEN;
        var message := raw[..bodyStart] + raw[bodyStart..bodyStart + B_SIG_SCOPE];
        assert message == raw[..bodyStart + B_SIG_SCOPE];
        if !Verified(env, b.satId, message, b.signature) {
          return true, 400;
        }
        if submitter != null {
          EnqueueSettlementIntent(b);
        }
        return true, 0;
      case PacketC =>
        if packetSize < 98 {
          return true, 400;
        }
        var start := packetSize - 98;
        if !Verified(env, SELLER_SAT_ID, raw[start..start + 26], ReceiptSignature(vals)) {
          return true, 401;
        }
        return true, 0;
      case PacketD =>
        abort := MagicThenCrc(raw, p.snlp, MAGIC_D, D_CRC_FROM_END);
        return true, abort;
      case AckSnlp | AckCcsds =>
        abort := MagicThenCrc(raw, p.snlp, MAGIC_ACK, ACK_CRC_FROM_END);
        return true, abort;
    }

    method MagicThenCrc(raw: Bytes, snlp: bool, want: U8, crcFromEnd: nat) returns (abort: int)
      ensures abort == if MagicAndCrc(raw, snlp, want, crcFromEnd) then 0 else 400
    {
      hide ValidFrame;
      var magic := BodyOffsetZero(raw, snlp);
      if magic.None? {
        return 400;
      }
      if magic.value != want {
        return 400;
      }
      if !ValidFrame(raw, |raw| - crcFromEnd) {
        return 400;
      }
      abort := 0;
    }

    /** IngestPacket: the status of the response and, with a submitter wired, the one intent it may take in. */
    method IngestPacket(raw: Bytes) returns (status: int)
      modifies Wired()
      ensures status == Decide(env, raw).status
      ensures submitter != null ==>
                submitter.Now() == match Decide(env, raw).intent
                                   case Some(i) => Submitter.Next(submitter.maxBatch, old(submitter.Now()), Submitter.Enqueue(i))
                                   case None => old(submitter.Now())
    {
      hide Parse, DecideBody, Submitter.Next, WfPacket;
      if |raw| == 0 {
        return 400;
      }
      var stream := new Stream(raw);
      var packet := new VoidProtocol(stream);
      var ok := packet.Read();
      if !ok {
        return 400;
      }
      if packet.header.Version() != 0 {
        return 400;
      }
      var p := Packet(packet.isSnlp, packet.header, packet.body);
      PrintUndoesParse(raw);
      var handled, abort := HandlePayloadBody(raw, p);
      status := if !handled then 400 else if abort == 0 then 200 else abort;
    }
  }

  // ---- What acceptance means -------------------------------------------------------------------------------------

  /** An intent is enqueued exactly for a version-0 payment whose satellite is registered with a wallet and whose
      signature verifies over the frame without its last 72 bytes; and this is the intent. */
  lemma EnqueuedExactlyWhen(env: Env, raw: Bytes, i: Escrow.Intent)
    ensures Decide(env, raw).intent == Some(i) <==>
            Parse(raw).Some?
            && var p := Parse(raw).value;
               p.header.Version() == 0 && p.body.Known? && p.body.kind == PacketB && WfPacket(p) && |raw| >= B_BODY_LEN
               && var b := PaymentOf(p.body.vals);
                  Verified(env, b.satId, raw[..|raw| - 72], b.signature) && env.registry[b.satId].wallet != ""
                  && i.satId == b.satId && i.txNonce == Watcher.DeriveTxNonce(b.satId, b.epoch)
                  && i.amount == LEVal(b.payload[48..56]) && i.assetId == LEVal(b.payload[56..58])
                  && i.wallet == env.address(env.registry[b.satId].wallet)
    ensures Decide(env, raw).intent.Some? ==> Decide(env, raw).status == 200
  {
    hide Parse, Table, Fits, ValidFrame, EgressHex.HexVal, PaymentOf, ReceiptSignature, LEVal;
    if raw != [] && Parse(raw).Some? {
      PrintUndoesParse(raw);
    }
    assert raw == [] ==> Parse(raw).None? by {
      NothingParses();
    }
  }

  lemma NothingParses()
    ensures Parse([]) == None
  {
  }

  lemma PaymentWidths()
    ensures Width(Table(PacketB)) == B_BODY_LEN && |Table(PacketB)| == 12
    ensures Offset(Table(PacketB), 9) == B_SIG_SCOPE
  {
    TablesFill(PacketB);
  }

  /** For a frame of exact length the verified bytes are its header and the first 106 body bytes: all fields
      before the signature, in either tier. */
  lemma SignatureScope(raw: Bytes)
    requires Parse(raw).Some? && Parse(raw).value.body.Known? && Parse(raw).value.body.kind == PacketB
    requires |raw| == HeaderLen(Parse(raw).value.snlp) + Parse(raw).value.header.DataFieldLength()
    ensures var p := Parse(raw).value;
            && Fits(Table(PacketB), p.body.vals) && |Table(PacketB)| == 12
            && |raw| == HeaderLen(p.snlp) + B_BODY_LEN
            && raw[..|raw| - 72] == WriteHeader(p.snlp, p.header) + WriteTo(Table(PacketB), p.body.vals, 9)
            && |WriteTo(Table(PacketB), p.body.vals, 9)| == B_SIG_SCOPE
  {
    hide Parse, WriteHeader, WriteTo, Table, Offset;
    var p := Parse(raw).value;
    PrintUndoesParse(raw);
    PaymentWidths();
    WriteToPrefix(Table(PacketB), p.body.vals, 9, 12);
    assert raw[..|raw|] == raw;
    var body := WriteBody(Table(PacketB), p.body.vals);
    assert raw == WriteHeader(p.snlp, p.header) + body;
    assert body[..B_SIG_SCOPE] == WriteTo(Table(PacketB), p.body.vals, 9);
  }

  /** The bodies that carry a magic byte and a checksum. */
  predicate Guarded(b: Body) {
    b.Known? && b.kind in {PacketD, AckSnlp, AckCcsds}
  }

  lemma BodyStartsWithMagic(raw: Bytes)
    requires Parse(raw).Some? && Parse(raw).value.body.Known?
    requires Parse(raw).value.body.kind in {PacketD, AckSnlp, AckCcsds}
    ensures BodyOffsetZero(raw, Parse(raw).value.snlp)
            == Some(if Parse(raw).value.body.kind == PacketD then MAGIC_D else MAGIC_ACK)
  {
    hide Parse, WriteHeader, WriteBody, Table;
    var p := Parse(raw).value;
    PrintUndoesParse(raw);
    FirstByteIsMagic(p.body.kind, p.body.vals);
    var n := HeaderLen(p.snlp);
    assert Print(p)[n] == raw[..|Print(p)|][n];
  }

  /** A D or ACK frame is accepted exactly when it parses as one, has version 0 and passes the checksum at its
      own place; the handler's own magic check never decides, because the parser has made it already. */
  lemma GuardedAcceptedExactlyWhen(env: Env, raw: Bytes)
    ensures Parse(raw).Some? && Guarded(Parse(raw).value.body) ==>
            var p := Parse(raw).value;
            (Decide(env, raw).status == 200 <==>
             p.header.Version() == 0
             && ValidFrame(raw, |raw| - (if p.body.kind == PacketD then D_CRC_FROM_END else ACK_CRC_FROM_END)))
  {
    hide Parse, ValidFrame, Table;
    if Parse(raw).Some? && Guarded(Parse(raw).value.body) {
      BodyStartsWithMagic(raw);
    }
    NothingParses();
  }

  // ---- The response to every frame -----------------------------------------------------------------------------

  /** A receipt signed, over the 26 bytes before the last 72, by the satellite registered under 100. */
  predicate ReceiptVerifies(env: Env, raw: Bytes, vals: seq<Val>)
    requires Fits(Table(PacketC), vals)
  {
    |raw| >= 98 && Verified(env, 100, raw[|raw| - 98..|raw| - 72], ReceiptSignature(vals))
  }

  /** A payment signed, over everything before the last 72 bytes, by the satellite it names. */
  predicate PaymentVerifies(env: Env, raw: Bytes, vals: seq<Val>)
    requires Fits(Table(PacketB), vals)
  {
    |raw| >= 72 && Verified(env, PaymentOf(vals).satId, raw[..|raw| - 72], PaymentOf(vals).signature)
  }

  /** What a recognised body must meet: payments and receipts their signature, D and ACK frames their checksum, the
      other three nothing. */
  predicate Gate(env: Env, raw: Bytes, b: Body)
    requires WfBody(b) && b.Known?
  {
    if b.kind == PacketB then PaymentVerifies(env, raw, b.vals)
    else if b.kind == PacketC then ReceiptVerifies(env, raw, b.vals)
    else if b.kind == PacketD then ValidFrame(raw, |raw| - 10)
    else if b.kind == AckSnlp || b.kind == AckCcsds then ValidFrame(raw, |raw| - 4)
    else true
  }

  lemma DecideIs(env: Env, raw: Bytes)
    requires Parse(raw).Some? && Parse(raw).value.header.Version() == 0
    ensures raw != [] && WfPacket(Parse(raw).value) && Decide(env, raw) == DecideBody(env, raw, Parse(raw).value)
    ensures |raw| >= |PrintBody(Parse(raw).value.body)|
  {
    NothingParses();
    PrintUndoesParse(raw);
    hide Parse, DecideBody, PrintBody, WfBody;
  }

  lemma BodyStatus(env: Env, raw: Bytes, p: Packet)
    requires WfPacket(p) && p.body.Known? && |raw| >= |PrintBody(p.body)|
    requires p.body.kind in {PacketD, AckSnlp, AckCcsds} ==>
               BodyOffsetZero(raw, p.snlp) == Some(if p.body.kind == PacketD then MAGIC_D else MAGIC_ACK)
    ensures var s := DecideBody(env, raw, p).status;
            && (s == 200 <==> Gate(env, raw, p.body)) && s in {200, 400, 401}
            && (s == 401 <==> p.body.kind == PacketC && !ReceiptVerifies(env, raw, p.body.vals))
  {
    TablesFill(p.body.kind);
    hide Table, Fits, ValidFrame, Verified, PaymentOf, ReceiptSignature, Offset;
  }

  /** The status of every response: 200 exactly for a frame that parses with version 0 as a known body and meets the
      gate of its kind, 401 exactly for a receipt that fails its gate, and 400 otherwise. */
  lemma StatusExactlyWhen(env: Env, raw: Bytes)
    ensures Parse(raw).Some? ==> WfPacket(Parse(raw).value)
    ensures var s := Decide(env, raw).status;
            var known := Parse(raw).Some? && Parse(raw).value.header.Version() == 0 && Parse(raw).value.body.Known?;
            && s in {200, 400, 401}
            && (s == 200 <==> known && Gate(env, raw, Parse(raw).value.body))
            && (s == 401 <==> known && Parse(raw).value.body.kind == PacketC
                              && !ReceiptVerifies(env, raw, Parse(raw).value.body.vals))
  {
    if Parse(raw).Some? {
      PrintUndoesParse(raw);
      if Parse(raw).value.header.Version() == 0 {
        DecideIs(env, raw);
        if Parse(raw).value.body.Known? {
          if Guarded(Parse(raw).value.body) {
            BodyStartsWithMagic(raw);
          }
          hide Parse, PrintBody, WfBody, Decide, DecideBody, Gate, ReceiptVerifies;
          BodyStatus(env, raw, Parse(raw).value);
        }
      }
    }
  }

  /** The gateway accepts the receipts it builds itself when its key is the one registered under 100, ... */
  lemma BuiltReceiptAccepted(env: Env, in_: Inputs, crypto: Crypto)
    requires crypto.Sound() && env.verify == crypto.verify && |crypto.pub(in_.seed)| == 32
    requires 100 in env.registry && env.registry[100].pubKeyHex == EgressHex.HexOf(crypto.pub(in_.seed))
    ensures WfPacket(CPacket(in_, crypto)) && Decide(env, Print(CPacket(in_, crypto))).status == 200
  {
    CFrameGood(in_, crypto);
    CSigScopeInFrame(in_, crypto);
    EgressHex.DecodeUndoesEncode(crypto.pub(in_.seed));
    var raw := Print(CPacket(in_, crypto));
    StatusExactlyWhen(env, raw);
    ReceiptBody(in_, crypto);
    hide Parse, Print, ValidFrame, CSigScope, CPacket, Table, Fits, EgressHex.HexVal, EgressHex.HexOf;
    assert raw[|raw| - 98..|raw| - 72] == raw[14..40];
  }

  lemma ReceiptBody(in_: Inputs, crypto: Crypto)
    requires crypto.Sound() && WfPacket(CPacket(in_, crypto))
    ensures var b := CPacket(in_, crypto).body;
            b.Known? && b.kind == PacketC && b.vals[5].Blob? && ReceiptSignature(b.vals) == b.vals[5].s
  {
    hide CSigScope, CHeader, Print, Table;
  }

  /** ... and every ACK and delivery frame the two builders make. */
  lemma BuiltFramesAccepted(env: Env, ack: AckInputs, delivery: DeliveryInputs)
    requires |ack.encTunnel| == 96 && |delivery.payload| == 98
    ensures Decide(env, AckFrame(ack)).status == 200 && Decide(env, DFrame(delivery)).status == 200
  {
    AckFrameGood(ack);
    DFrameGood(delivery);
    AckFrameFields(ack);
    DFrameFields(delivery);
    hide Parse, Print, ValidFrame, AckVals, DVals, Table, Fits, AckHeader, DHeader, AckPacket, DPacket, Decide;
    GuardedAccepted(env, AckFrame(ack), 4);
    GuardedAccepted(env, DFrame(delivery), 10);
  }

  lemma GuardedAccepted(env: Env, f: Bytes, crcFromEnd: nat)
    requires Parse(f).Some? && Parse(f).value.header.Version() == 0 && Guarded(Parse(f).value.body)
    requires crcFromEnd == (if Parse(f).value.body.kind == PacketD then 10 else 4)
    requires ValidFrame(f, |f| - crcFromEnd)
    ensures Decide(env, f).status == 200
  {
    hide Parse, ValidFrame, Decide;
    StatusExactlyWhen(env, f);
  }
}
