/** One payment followed through the whole system: signed on the satellite, admitted by ingest, recorded by the
    contract, read back by the watcher, and answered by a receipt frame that carries the payment's own epoch. */
module EndToEnd {
  import opened Words
  import opened Layout
  import opened Frames
  import opened Builders
  import opened EgressHex
  import Escrow
  import Ingest
  import L = Pipeline
  import P = Processor
  import R = ReceiptStore
  import S = StoreRuns
  import Security
  import W = Watcher

  /** The satellite of this packet is registered under the identity that signed it, and has a wallet. */
  ghost predicate Registered(env: Ingest.Env, prim: Security.Primitives, identity: Bytes, satId: U32) {
    && satId in env.registry && env.registry[satId].wallet != ""
    && |prim.crypto.pub(identity)| == 32 && env.registry[satId].pubKeyHex == HexOf(prim.crypto.pub(identity))
    && env.verify == prim.crypto.verify
  }

  /** The frame of a payment packet after encryptPacketB (or its plaintext build) has filled and signed it. */
  ghost function SignedFrame(prim: Security.Primitives, identity: Bytes, snlp: bool, h: Header, vals: seq<Val>,
                             payload: Bytes): Packet
    requires prim.Sound() && Fits(Table(PacketB), vals) && |payload| == 62
  {
    Packet(snlp, h, Known(PacketB, Security.Signed(prim, identity, WriteHeader(snlp, h), vals, payload)))
  }

  lemma SignedFrameParses(prim: Security.Primitives, identity: Bytes, snlp: bool, h: Header, vals: seq<Val>, payload: Bytes)
    requires prim.Sound() && Fits(Table(PacketB), vals) && |payload| == 62
    requires h.DataFieldLength() == 178 && (snlp || !LooksLikeSync(h))
    ensures var p := SignedFrame(prim, identity, snlp, h, vals, payload);
            WfPacket(p) && Parse(Print(p)) == Some(p) && |Print(p)| == HeaderLen(snlp) + 178
  {
    hide Table, Fits, Parse, WriteHeader, WriteBody, Security.Signed;
    var p := SignedFrame(prim, identity, snlp, h, vals, payload);
    Ingest.PaymentWidths();
    ParseUndoesPrint(p, []);
    assert Print(p) + [] == Print(p);
  }

  lemma SignedFields(prim: Security.Primitives, identity: Bytes, header: Bytes, vals: seq<Val>, payload: Bytes)
    requires prim.Sound() && Fits(Table(PacketB), vals) && |payload| == 62
    ensures var r := Security.Signed(prim, identity, header, vals, payload);
            && r[Security.SIGNATURE_AT].Blob?
            && Ingest.PaymentOf(r) == Ingest.Payment(Security.StampOf(vals).epoch, payload, Security.StampOf(vals).satId,
                                                     r[Security.SIGNATURE_AT].s)
  {
    hide Table, Fits, WriteTo;
    Security.PaymentFields(vals);
    Security.PaymentFields(Security.Signed(prim, identity, header, vals, payload));
  }

  /** What the satellite signs, the gateway verifies: in either tier, the payment of a registered satellite becomes
      an intent under the nonce of its satellite and epoch. */
  lemma PaymentIsEnqueued(env: Ingest.Env, prim: Security.Primitives, identity: Bytes, snlp: bool, h: Header,
                          vals: seq<Val>, payload: Bytes)
    requires prim.Sound() && Fits(Table(PacketB), vals) && |payload| == 62
    requires h.Version() == 0 && h.DataFieldLength() == 178 && (snlp || !LooksLikeSync(h))
    requires Registered(env, prim, identity, Security.StampOf(vals).satId)
    ensures var p := SignedFrame(prim, identity, snlp, h, vals, payload);
            var s := Security.StampOf(vals);
            && WfPacket(p) && Ingest.Decide(env, Print(p)).intent.Some?
            && Ingest.Decide(env, Print(p)).intent.value.satId == s.satId
            && Ingest.Decide(env, Print(p)).intent.value.txNonce == W.DeriveTxNonce(s.satId, s.epoch)
            && Ingest.Decide(env, Print(p)).intent.value.amount == LEVal(payload[48..56])
  {
    hide Table, Fits, Parse, WriteHeader, WriteBody, Ingest.Decide, Security.Signed, Ingest.PaymentOf, HexVal, HexOf,
      LEVal, Security.StampOf;
    var p := SignedFrame(prim, identity, snlp, h, vals, payload);
    SignedFrameParses(prim, identity, snlp, h, vals, payload);
    var raw := Print(p);
    Security.SignedFrameVerifies(prim, identity, WriteHeader(snlp, h), vals, payload);
    SignedFields(prim, identity, WriteHeader(snlp, h), vals, payload);
    DecodeUndoesEncode(prim.crypto.pub(identity));
    var b := Ingest.PaymentOf(p.body.vals);
    assert Ingest.Verified(env, b.satId, raw[..|raw| - 72], b.signature);
    var i := Ingest.IntentOf(env, b).value;
    Ingest.EnqueuedExactlyWhen(env, raw, i);
  }

  /** Every receipt frame the processor builds parses as a version-0 PacketC of the SNLP tier whose enc_tx_id is the
      low 64 bits of the event's nonce, and passes the checksum 8 bytes from its end. */
  lemma ReceiptCarriesNonce(cfg: P.Config, ev: W.Event, q: U16)
    requires cfg.crypto.Sound()
    ensures var f := P.FrameOf(cfg, ev, q);
            && |f| == 112 && ValidFrame(f, 104) && Parse(f).Some?
            && var p := Parse(f).value;
               p.snlp && p.header.Version() == 0 && p.header.Apid() == cfg.apid % 0x800
               && p.header.SeqCount() == q % 0x4000 && p.body.Known? && p.body.kind == PacketC && |p.body.vals| == 8
               && p.body.vals[1] == Num(ev.time * 1000 % TWO64) && p.body.vals[2] == Num(W.EncTxId(ev.txNonce))
               && p.body.vals[3] == Num(1)
  {
    hide Parse, ValidFrame, Print, WfPacket, CVals, CSigScope, CHeader;
    var in_ := P.InputsOf(cfg, ev, q);
    CFrameGood(in_, cfg.crypto);
    CHeaderFields(in_);
    CValsLength(in_, cfg.crypto);
  }

  lemma CValsLength(in_: Inputs, crypto: Crypto)
    requires crypto.Sound()
    ensures |CPacket(in_, crypto).body.vals| == 8 && CPacket(in_, crypto).header == CHeader(in_)
  {
    hide CSigScope, CHeader, Print;
  }

  /** The frame is a valid receipt for the event: block time in milliseconds (cut to 64 bits), low word of the nonce,
      status 1, and a signature that verifies over the frame's bytes 14 to 39. */
  ghost predicate Carries(cfg: P.Config, ev: W.Event, f: Bytes) {
    && |f| == 112 && ValidFrame(f, 104) && Parse(f).Some?
    && var p := Parse(f).value;
       && p.snlp && p.header.Version() == 0 && p.header.Apid() == cfg.apid % 0x800
       && p.body.Known? && p.body.kind == PacketC && |p.body.vals| == 8
       && p.body.vals[1] == Num(if 1000 * ev.time < TWO64 then 1000 * ev.time else 1000 * ev.time % TWO64)
       && p.body.vals[2] == Num(ev.txNonce % TWO64) && p.body.vals[3] == Num(1)
       && p.body.vals[5].Blob? && cfg.crypto.verify(cfg.crypto.pub(cfg.seed), f[14..40], p.body.vals[5].s)
  }

  /** Everything a record says, read back: nonce and amount as decimals, hash and frame as hex, and a time stamp that is
      the block time in milliseconds, exactly below 2^63 and up to a multiple of 2^64 above. */
  ghost predicate Tells(cfg: P.Config, ev: W.Event, rec: R.Record) {
    && IsDigits(rec.paymentId) && DecimalVal(rec.paymentId) == ev.txNonce
    && |rec.settlementTxHash| == 2 + 2 * |ev.txHash| && rec.settlementTxHash[..2] == "0x"
    && HexVal(rec.settlementTxHash[2..]) == Some(ev.txHash)
    && rec.satId == ev.satId && rec.assetId == 1 && rec.wallet == cfg.walletHex(ev.wallet) && rec.blockNumber == ev.block
    && IsDigits(rec.amount) && DecimalVal(rec.amount) == ev.amount
    && (1000 * ev.time < 0x8000_0000_0000_0000 ==> rec.tsMs == 1000 * ev.time)
    && -0x8000_0000_0000_0000 <= rec.tsMs < 0x8000_0000_0000_0000 && (rec.tsMs - 1000 * ev.time) % TWO64 == 0
    && |rec.packetCHex| == 224 && HexVal(rec.packetCHex).Some? && Carries(cfg, ev, HexVal(rec.packetCHex).value)
  }

  lemma FrameIsSigned(cfg: P.Config, ev: W.Event, q: U16)
    requires cfg.crypto.Sound()
    ensures var f := P.FrameOf(cfg, ev, q);
            && Parse(f).Some? && |f| == 112 && Parse(f).value.body.Known? && |Parse(f).value.body.vals| == 8
            && Parse(f).value.body.vals[5].Blob?
            && cfg.crypto.verify(cfg.crypto.pub(cfg.seed), f[14..40], Parse(f).value.body.vals[5].s)
  {
    hide Parse, ValidFrame, Print, WfPacket, CPacket, CSigScope;
    var in_ := P.InputsOf(cfg, ev, q);
    CFrameGood(in_, cfg.crypto);
    CSigScopeInFrame(in_, cfg.crypto);
    CBodyKnown(in_, cfg.crypto);
  }

  lemma CBodyKnown(in_: Inputs, crypto: Crypto)
    requires crypto.Sound()
    ensures CPacket(in_, crypto).body.Known? && |CPacket(in_, crypto).body.vals| == 8
  {
    hide CSigScope, CHeader, Print;
  }

  lemma FrameCarries(cfg: P.Config, ev: W.Event, q: U16)
    requires cfg.crypto.Sound()
    ensures Carries(cfg, ev, P.FrameOf(cfg, ev, q))
  {
    hide Parse, ValidFrame, P.FrameOf;
    ReceiptCarriesNonce(cfg, ev, q);
    FrameIsSigned(cfg, ev, q);
  }

  lemma SignedMillis(ev: W.Event)
    ensures var t := P.AsInt64(P.Millis(ev));
            && (1000 * ev.time < 0x8000_0000_0000_0000 ==> t == 1000 * ev.time)
            && -0x8000_0000_0000_0000 <= t < 0x8000_0000_0000_0000 && (t - 1000 * ev.time) % TWO64 == 0
  {
    var v := 1000 * ev.time;
    Remainders(v, v % TWO64);
    Remainders(v, v % TWO64 - TWO64);
  }

  lemma Remainders(v: nat, t: int)
    requires t == v % TWO64 || t == v % TWO64 - TWO64
    ensures (t - v) % TWO64 == 0
  {
  }

  /** The record of an event, and the frame in it, tell what happened. */
  lemma RecordTells(cfg: P.Config, ev: W.Event, q: U16)
    requires cfg.crypto.Sound()
    ensures Tells(cfg, ev, P.RecordOf(cfg, ev, q))
  {
    hide Carries, P.FrameOf, HexVal, HexOf, Decimal, P.Millis, P.AsInt64;
    FrameCarries(cfg, ev, q);
    CarriesSize(cfg, ev, P.FrameOf(cfg, ev, q));
    DecimalRoundTrip(ev.txNonce);
    DecimalRoundTrip(ev.amount);
    SignedMillis(ev);
    DecodeUndoesEncode(ev.txHash);
    DecodeUndoesEncode(P.FrameOf(cfg, ev, q));
    assert P.HashHex(ev.txHash)[2..] == HexOf(ev.txHash);
  }

  lemma CarriesSize(cfg: P.Config, ev: W.Event, f: Bytes)
    requires Carries(cfg, ev, f)
    ensures |f| == 112
  {
  }

  lemma TellsWhatever(cfg: P.Config, ev: W.Event, rec: R.Record, other: R.Record)
    requires Tells(cfg, ev, rec) && S.SameBody(rec, other)
    ensures Tells(cfg, ev, other)
  {
    hide Carries, HexVal, DecimalVal, IsDigits;
    assert rec.(dispatchStatus := "").paymentId == other.(dispatchStatus := "").paymentId;
  }

  /** One Handle call in full, with every outcome of its write. A repeat changes nothing. A fresh event takes a sequence
      count; with a 32-byte seed and a write that succeeds it is recorded last, pending, in a record that tells of it,
      and nothing else changes; otherwise the cache stays as it is and the call reports the error. */
  lemma HandleMeaning(cfg: P.Config, s: R.State, seqCount: U16, ev: W.Event, w: R.Write)
    requires cfg.crypto.Sound()
    ensures var (t, n, r) := P.HandleResult(cfg, s, seqCount, ev, w);
            var k := Decimal(ev.txNonce) + "|" + "0x" + HexOf(ev.txHash);
            if k in s.cache.records then t == s && n == seqCount && r == P.Ok
            else
              && n == (if seqCount == 0x3FFF then 0 else (seqCount + 1) % 0x4000)
              && (r == P.Ok <==> |cfg.seed| == 32 && w.Done?) && (r == P.BuildError <==> |cfg.seed| != 32)
              && (r != P.Ok ==> t.cache == s.cache) && (r == P.BuildError ==> t.disk == s.disk)
              && (r == P.Ok ==>
                    && t.cache.order == s.cache.order + [k] && t.cache.records.Keys == s.cache.records.Keys + {k}
                    && (forall x :: x in s.cache.records ==> t.cache.records[x] == s.cache.records[x])
                    && t.cache.records[k].dispatchStatus == "PENDING" && Tells(cfg, ev, t.cache.records[k]))
  {
    hide Tells, P.RecordOf, HexOf, Decimal, R.PutLine;
    var k := Decimal(ev.txNonce) + "|" + "0x" + HexOf(ev.txHash);
    assert P.KeyOf(ev) == k;
    P.RecordOfKey(cfg, ev, seqCount);
    RecordTells(cfg, ev, seqCount);
    var rec := P.RecordOf(cfg, ev, seqCount);
    TellsWhatever(cfg, ev, rec, R.Normal(rec));
  }

  /** Over every run of the pipeline: every record, pending or dispatched, tells of one event on the chain. */
  lemma EveryRecordTells(cfg: P.Config, steps: seq<L.Step>, k: string) returns (i: nat)
    requires cfg.crypto.Sound() && k in L.RunWorld(cfg, steps).store.cache.records
    ensures var w := L.RunWorld(cfg, steps);
            i < |w.chain| && Tells(cfg, w.chain[i], w.store.cache.records[k])
  {
    hide L.RunWorld, Tells, P.RecordOf, P.KeyOf;
    i := L.OneRecordPerEvent(cfg, steps, k);
    var w := L.RunWorld(cfg, steps);
    var q: U16 :| S.SameBody(w.store.cache.records[k], P.RecordOf(cfg, w.chain[i], q));
    RecordTells(cfg, w.chain[i], q);
    TellsWhatever(cfg, w.chain[i], P.RecordOf(cfg, w.chain[i], q), w.store.cache.records[k]);
  }

  /** The answer to a payment names it: a receipt for an event under the nonce of (satellite, epoch) carries that epoch,
      and its record is filed under the decimal form of that pair's nonce. */
  lemma ReceiptAnswersPayment(cfg: P.Config, ev: W.Event, satId: U32, epoch: U64, q: U16)
    requires cfg.crypto.Sound() && ev.txNonce == W.DeriveTxNonce(satId, epoch)
    ensures Parse(P.FrameOf(cfg, ev, q)).Some?
            && var p := Parse(P.FrameOf(cfg, ev, q)).value;
               p.body.Known? && p.body.kind == PacketC && |p.body.vals| == 8 && p.body.vals[2] == Num(epoch)
               && P.RecordOf(cfg, ev, q).paymentId == Decimal(W.DeriveTxNonce(satId, epoch))
  {
    hide Parse, P.FrameOf, Decimal;
    ReceiptCarriesNonce(cfg, ev, q);
    W.NonceIdentifies(satId, epoch, satId, epoch);
  }

  /** Whatever the pipeline went through: every frame it ever transmitted decodes to the receipt of one event on the
      chain, valid and carrying that event's nonce. */
  lemma EveryTransmissionIsAReceipt(cfg: P.Config, steps: seq<L.Step>, n: nat) returns (i: nat)
    requires cfg.crypto.Sound() && n < |L.RunWorld(cfg, steps).aired|
    ensures var w := L.RunWorld(cfg, steps);
            && i < |w.chain| && w.aired[n].key == P.KeyOf(w.chain[i])
            && |w.aired[n].hex| == 224 && HexVal(w.aired[n].hex).Some?
            && var f := HexVal(w.aired[n].hex).value;
               ValidFrame(f, 104) && Parse(f).Some? && Parse(f).value.body.Known? && Parse(f).value.body.kind == PacketC
               && |Parse(f).value.body.vals| == 8
               && Parse(f).value.body.vals[2] == Num(W.EncTxId(w.chain[i].txNonce))
  {
    hide L.RunWorld, Parse, ValidFrame, P.FrameOf, HexOf, HexVal, P.KeyOf;
    var q;
    i, q := L.AiredFrames(cfg, steps, n);
    var ev := L.RunWorld(cfg, steps).chain[i];
    ReceiptCarriesNonce(cfg, ev, q);
    DecodeUndoesEncode(P.FrameOf(cfg, ev, q));
  }
}
