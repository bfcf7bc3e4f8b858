/** The receipt processor (gateway/internal/core/receipt/processor.go): one settlement event becomes one signed
    PacketC frame and one line of the receipt log. */
module Processor {
  import opened Words
  import opened Watcher
  import opened EgressHex
  import opened ReceiptStore
  import opened Builders
  import opened FrameBuilders
  import Escrow
  import Frames
  import StoreRuns

  const SEQ_LIMIT: nat := 0x4000

  /** What a processor is bound to; walletHex is the checksummed rendering of an address. */
  datatype Config = Config(apid: U16, seed: Bytes, crypto: Crypto, walletHex: Address -> string)

  function HashHex(h: Bytes): string {
    "0x" + HexOf(h)
  }

  function KeyOf(ev: Event): string {
    DedupKey(Decimal(ev.txNonce), HashHex(ev.txHash))
  }

  /** The block time in milliseconds, in 64 bits. */
  function Millis(ev: Event): U64 {
    ev.time * 1000 % TWO64
  }

  function AsInt64(v: U64): int {
    if 2 * v < TWO64 then v else v - TWO64
  }

  function InputsOf(cfg: Config, ev: Event, seqCount: U16): Inputs {
    Inputs(Millis(ev), EncTxId(ev.txNonce), 1, cfg.apid, seqCount, cfg.seed)
  }

  function RecordWith(cfg: Config, ev: Event, frame: Bytes): Record {
    Record(Decimal(ev.txNonce), HashHex(ev.txHash), ev.satId, Decimal(ev.amount), Escrow.USDC, cfg.walletHex(ev.wallet),
           HexOf(frame), ev.block, AsInt64(Millis(ev)), "")
  }

  /** The frame for an event under a sequence count. */
  ghost function FrameOf(cfg: Config, ev: Event, seqCount: U16): Bytes
    requires cfg.crypto.Sound()
  {
    CFrameGood(InputsOf(cfg, ev, seqCount), cfg.crypto);
    Frames.Print(CPacket(InputsOf(cfg, ev, seqCount), cfg.crypto))
  }

  ghost function RecordOf(cfg: Config, ev: Event, seqCount: U16): Record
    requires cfg.crypto.Sound()
  {
    RecordWith(cfg, ev, FrameOf(cfg, ev, seqCount))
  }

  lemma RecordOfKey(cfg: Config, ev: Event, seqCount: U16)
    requires cfg.crypto.Sound()
    ensures Key(RecordOf(cfg, ev, seqCount)) == KeyOf(ev) && RecordOf(cfg, ev, seqCount).dispatchStatus == ""
  {
  }

  /** Events with different nonces or transaction hashes never share a key. */
  lemma KeyIdentifies(a: Event, b: Event)
    requires |a.txHash| == |b.txHash| && KeyOf(a) == KeyOf(b)
    ensures a.txNonce == b.txNonce && a.txHash == b.txHash
  {
    DecimalIsDigits(a.txNonce);
    DecimalIsDigits(b.txNonce);
    DedupKeyInjective(Decimal(a.txNonce), HashHex(a.txHash), Decimal(b.txNonce), HashHex(b.txHash));
    DecimalInjective(a.txNonce, b.txNonce);
    var x, y := HashHex(a.txHash), HashHex(b.txHash);
    assert HexOf(a.txHash) == x[2..] && HexOf(b.txHash) == y[2..];
    DecodeUndoesEncode(a.txHash);
    DecodeUndoesEncode(b.txHash);
  }

  datatype Handled = Ok | BuildError | StoreError

  /** Handle, run alone: state, sequence counter and result. */
  ghost function HandleResult(cfg: Config, s: State, seqCount: U16, ev: Event, w: Write): (State, U16, Handled)
    requires cfg.crypto.Sound()
  {
    var next := (seqCount + 1) % SEQ_LIMIT;
    if KeyOf(ev) in s.cache.records then (s, seqCount, Ok)
    else if |cfg.seed| != 32 then (s, next, BuildError)
    else
      var (t, e) := AppendResult(s, RecordOf(cfg, ev, seqCount), w);
      (t, next, if e == NoError || e == ErrDuplicate then Ok else StoreError)
  }

  class Processor {
    const cfg: Config
    const store: Store
    var seqCount: U16

    constructor (cfg: Config, store: Store)
      ensures this.cfg == cfg && this.store == store && seqCount == 0
    {
      this.cfg, this.store := cfg, store;
      seqCount := 0;
    }

    method Handle(ev: Event, w: Write) returns (r: Handled)
      requires cfg.crypto.Sound()
      modifies this, store, store.file
      ensures (store.StateOf(), seqCount, r) == HandleResult(cfg, old(store.StateOf()), old(seqCount), ev, w)
    {
      hide CPacket, HexOf, Decimal, Frames.Print, Frames.WfPacket, AppendResult, CSigScope;
      var paymentId := Decimal(ev.txNonce);
      var txHashHex := HashHex(ev.txHash);
      var has := store.Has(paymentId, txHashHex);
      if has {
        return Ok;
      }
      var taken := seqCount;
      seqCount := (seqCount + 1) % SEQ_LIMIT;
      var built, packetC := BuildReceipt(InputsOf(cfg, ev, taken), cfg.crypto);
      if !built {
        return BuildError;
      }
      var rec := RecordWith(cfg, ev, packetC[..]);
      var e := store.Append(rec, w);
      r := if e == NoError || e == ErrDuplicate then Ok else StoreError;
    }
  }

  // ---- Sequence counts of a run ------------------------------------------------------------------------------

  /** Handling the events one after the other from an empty store, every write succeeding. */
  ghost function HandleAll(cfg: Config, events: seq<Event>): (State, U16)
    requires cfg.crypto.Sound()
  {
    if events == [] then (StoreRuns.START, 0)
    else
      var (s, n) := HandleAll(cfg, events[..|events| - 1]);
      var (t, m, _) := HandleResult(cfg, s, n, events[|events| - 1], Done);
      (t, m)
  }

  /** Event i is the first with its key and got the k-th record, under sequence count k mod 16384. */
  ghost predicate IsRecordOf(cfg: Config, events: seq<Event>, c: Cache, k: nat, i: nat)
    requires cfg.crypto.Sound()
  {
    k < |c.order| && i < |events| && KeyOf(events[i]) == c.order[k]
    && (forall j :: 0 <= j < i ==> KeyOf(events[j]) != c.order[k])
    && c.order[k] in c.records && c.records[c.order[k]] == Normal(RecordOf(cfg, events[i], k % SEQ_LIMIT))
  }

  ghost predicate RecordedOnce(cfg: Config, events: seq<Event>, c: Cache, k: nat)
    requires cfg.crypto.Sound()
  {
    exists i: nat :: IsRecordOf(cfg, events, c, k, i)
  }

  lemma StillRecordOf(cfg: Config, events: seq<Event>, c: Cache, d: Cache, k: nat, i: nat)
    requires cfg.crypto.Sound() && events != []
    requires IsRecordOf(cfg, events[..|events| - 1], c, k, i)
    requires c.order <= d.order && c.order[k] in d.records && d.records[c.order[k]] == c.records[c.order[k]]
    ensures IsRecordOf(cfg, events, d, k, i)
  {
    hide KeyOf, RecordOf;
  }

  /** However often events repeat, the k-th fresh one (from 0) is recorded with sequence count k mod 16384, every
      event has a record, and a repeat consumes no count. */
  lemma {:induction false} SequenceCounts(cfg: Config, events: seq<Event>)
    requires cfg.crypto.Sound() && |cfg.seed| == 32
    ensures var (s, n) := HandleAll(cfg, events);
            && n == |s.cache.order| % SEQ_LIMIT
            && (forall k: nat :: k < |s.cache.order| ==> RecordedOnce(cfg, events, s.cache, k))
            && (forall i :: 0 <= i < |events| ==> KeyOf(events[i]) in s.cache.records)
    decreases |events|
  {
    hide KeyOf, RecordOf;
    if events != [] {
      var before, ev := events[..|events| - 1], events[|events| - 1];
      SequenceCounts(cfg, before);
      var (s, n) := HandleAll(cfg, before);
      var (t, m) := HandleAll(cfg, events);
      RecordOfKey(cfg, ev, n);
      forall k: nat | k < |s.cache.order| ensures RecordedOnce(cfg, events, t.cache, k) {
        assert RecordedOnce(cfg, before, s.cache, k);
        var i: nat :| IsRecordOf(cfg, before, s.cache, k, i);
        StillRecordOf(cfg, events, s.cache, t.cache, k, i);
      }
      if KeyOf(ev) !in s.cache.records {
        forall j | 0 <= j < |before| ensures KeyOf(events[j]) != KeyOf(ev) {
          assert before[j] == events[j];
        }
        assert IsRecordOf(cfg, events, t.cache, |s.cache.order|, |before|);
        assert RecordedOnce(cfg, events, t.cache, |s.cache.order|);
      }
    }
  }
}
