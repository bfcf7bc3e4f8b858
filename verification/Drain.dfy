/** Draining the queue end to end: store, page text, scanner, hex decoder, transmission and acknowledgement put
    together, for rounds in which every transmission and every request succeeds. */
module Drain {
  import opened Words
  import opened EgressHex
  import opened ReceiptStore
  import opened StoreRuns
  import opened Orchestrator
  import opened EgressPage
  import EgressJson
  import P = Processor
  import L = Pipeline
  import W = Watcher

  const ALL_GOOD := Outcomes(_ => true, _ => Some(200))

  /** A record the bouncer can transmit. */
  predicate Ready(rec: Record) {
    Rendered(rec) && HexVal(rec.packetCHex).Some?
  }

  predicate AllReady(c: Cache) {
    forall k :: k in c.records ==> Ready(c.records[k])
  }

  function KeyPair(rec: Record): (string, string) {
    (rec.paymentId, rec.settlementTxHash)
  }

  /** The acknowledgements, applied to the store one after the other; every write succeeds. */
  function AckAll(s: State, acks: seq<(string, string)>): State {
    if acks == [] then s
    else
      var a := acks[|acks| - 1];
      MarkResult(AckAll(s, acks[..|acks| - 1]), DedupKey(a.0, a.1), Done).0
  }

  /** One tick against the gateway: the store afterwards and what the bouncer did. */
  function Round(s: State): (State, Trace) {
    var t := TickResult(Response(200, PageBody(Pending(s.cache, PAGE_SIZE))), ALL_GOOD);
    (AckAll(s, PostedIn(t.calls)), t)
  }

  /** r ticks: the store and all frames sent. */
  function Rounds(s: State, r: nat): (State, seq<Bytes>) {
    if r == 0 then (s, [])
    else
      var (t, sent) := Rounds(s, r - 1);
      var (u, trace) := Round(t);
      (u, sent + SentIn(trace.calls))
  }

  // ---- One tick -----------------------------------------------------------------------------------------------

  function FrameBytes(rec: Record): Bytes
    requires Ready(rec)
  {
    assert |rec.packetCHex| == 224;
    HexVal(rec.packetCHex).value
  }

  function Frames(recs: seq<Record>): seq<Bytes>
    requires forall i :: 0 <= i < |recs| ==> Ready(recs[i])
  {
    if recs == [] then []
    else Frames(recs[..|recs| - 1]) + [FrameBytes(recs[|recs| - 1])]
  }

  function Acks(recs: seq<Record>): seq<(string, string)> {
    if recs == [] then [] else Acks(recs[..|recs| - 1]) + [KeyPair(recs[|recs| - 1])]
  }

  lemma {:induction false} AllFieldsAt(recs: seq<Record>)
    ensures |AllFields(recs)| == |recs|
    ensures forall i :: 0 <= i < |recs| ==> AllFields(recs)[i] == FieldsOf(recs[i])
    decreases |recs|
  {
    if recs != [] {
      AllFieldsAt(recs[1..]);
    }
  }

  lemma RecordOnAir(rec: Record)
    requires Ready(rec)
    ensures FrameIn(FieldsOf(rec)) == Some(FrameBytes(rec))
    ensures (CText(FieldsOf(rec).paymentId), CText(FieldsOf(rec).txHash)) == KeyPair(rec)
  {
    hide Alnum, CText, HexVal, KnownStatus;
    AlnumIsPlain(rec.paymentId);
    AlnumIsPlain(rec.settlementTxHash);
    AlnumIsPlain(rec.packetCHex);
    CTextPlain(rec.paymentId);
    CTextPlain(rec.settlementTxHash);
    CTextPlain(rec.packetCHex);
  }

  /** The first n records of the page whose transmission succeeds. */
  function Picked(recs: seq<Record>, o: Outcomes, n: nat): (r: seq<Record>)
    requires n <= |recs|
    ensures forall x :: x in r ==> x in recs
  {
    if n == 0 then [] else Picked(recs, o, n - 1) + (if o.tx(n - 1) then [recs[n - 1]] else [])
  }

  /** How many of the first n transmissions succeed, and how many of those get an answer to their acknowledgement. */
  function Successes(o: Outcomes, n: nat): nat {
    if n == 0 then 0 else Successes(o, n - 1) + (if o.tx(n - 1) then 1 else 0)
  }

  function Answered(o: Outcomes, n: nat): nat {
    if n == 0 then 0 else Answered(o, n - 1) + (if o.tx(n - 1) && o.ack(n - 1).Some? then 1 else 0)
  }

  lemma {:induction false} PickedIsReady(recs: seq<Record>, o: Outcomes, n: nat)
    requires n <= |recs| && forall i :: 0 <= i < |recs| ==> Ready(recs[i])
    ensures |Picked(recs, o, n)| == Successes(o, n)
    ensures forall i :: 0 <= i < |Picked(recs, o, n)| ==> Ready(Picked(recs, o, n)[i])
    decreases n
  {
    hide Ready;
    if n > 0 {
      PickedIsReady(recs, o, n - 1);
    }
  }

  lemma SentSnoc(recs: seq<Record>, rec: Record)
    requires Ready(rec) && forall i :: 0 <= i < |recs| ==> Ready(recs[i])
    ensures forall i :: 0 <= i < |recs + [rec]| ==> Ready((recs + [rec])[i])
    ensures Frames(recs + [rec]) == Frames(recs) + [FrameBytes(rec)] && Acks(recs + [rec]) == Acks(recs) + [KeyPair(rec)]
  {
    hide Ready, FrameBytes, KeyPair;
    assert (recs + [rec])[..|recs|] == recs;
  }

  /** The calls for the first n records: each frame, and right behind each that went out its acknowledgement. */
  function CallsOf(recs: seq<Record>, o: Outcomes, n: nat): seq<Call>
    requires n <= |recs| && forall i :: 0 <= i < |recs| ==> Ready(recs[i])
  {
    if n == 0 then []
    else
      var rec := recs[n - 1];
      var sent := CallsOf(recs, o, n - 1) + [Send(FrameBytes(rec), o.tx(n - 1))];
      if o.tx(n - 1) then sent + [Post(rec.paymentId, rec.settlementTxHash, o.ack(n - 1))] else sent
  }

  lemma {:induction false} DrainedUnder(recs: seq<Record>, o: Outcomes, n: nat)
    requires n <= |recs| && forall i :: 0 <= i < |recs| ==> Ready(recs[i])
    ensures |AllFields(recs)| == |recs|
    ensures Drained(AllFields(recs), o, n) == Trace(Answered(o, n), CallsOf(recs, o, n))
    decreases n
  {
    hide Ready, FrameIn, CText, FieldsOf, AllFields, FrameBytes;
    AllFieldsAt(recs);
    if n > 0 {
      DrainedUnder(recs, o, n - 1);
      RecordOnAir(recs[n - 1]);
      assert AllFields(recs)[n - 1] == FieldsOf(recs[n - 1]);
    }
  }

  lemma SentInSnoc(calls: seq<Call>, c: Call)
    ensures SentIn(calls + [c]) == SentIn(calls) + (if c.Send? && c.ok then [c.frame] else [])
    ensures PostedIn(calls + [c]) == PostedIn(calls) + (if c.Post? then [(c.id, c.hash)] else [])
  {
    assert (calls + [c])[..|calls|] == calls;
  }

  lemma {:induction false} CallsSummed(recs: seq<Record>, o: Outcomes, n: nat)
    requires n <= |recs| && forall i :: 0 <= i < |recs| ==> Ready(recs[i])
    ensures forall i :: 0 <= i < |Picked(recs, o, n)| ==> Ready(Picked(recs, o, n)[i])
    ensures SentIn(CallsOf(recs, o, n)) == Frames(Picked(recs, o, n))
    ensures PostedIn(CallsOf(recs, o, n)) == Acks(Picked(recs, o, n))
    decreases n
  {
    hide Ready, FrameBytes, SentIn, PostedIn, Frames, Acks;
    PickedIsReady(recs, o, n);
    if n == 0 {
      NothingSent();
    } else {
      CallsSummed(recs, o, n - 1);
      var rec, calls := recs[n - 1], CallsOf(recs, o, n - 1);
      PickedIsReady(recs, o, n - 1);
      SentSnoc(Picked(recs, o, n - 1), rec);
      SentInSnoc(calls, Send(FrameBytes(rec), o.tx(n - 1)));
      SentInSnoc(calls + [Send(FrameBytes(rec), o.tx(n - 1))], Post(rec.paymentId, rec.settlementTxHash, o.ack(n - 1)));
      assert Picked(recs, o, n) == if o.tx(n - 1) then Picked(recs, o, n - 1) + [rec] else Picked(recs, o, n - 1);
      assert KeyPair(rec) == (rec.paymentId, rec.settlementTxHash);
    }
  }

  lemma NothingSent()
    ensures SentIn([]) == [] && PostedIn([]) == [] && Frames([]) == [] && Acks([]) == []
  {
  }

  lemma {:induction false} SentLength(recs: seq<Record>)
    requires forall i :: 0 <= i < |recs| ==> Ready(recs[i])
    ensures |Frames(recs)| == |recs| == |Acks(recs)|
    ensures forall i :: 0 <= i < |recs| ==> Frames(recs)[i] == FrameBytes(recs[i]) && Acks(recs)[i] == KeyPair(recs[i])
    decreases |recs|
  {
    hide Ready, FrameBytes;
    if recs != [] {
      SentLength(recs[..|recs| - 1]);
    }
  }

  /** What one tick does on any page of ready records, whatever fails: it hands out the frames in page order, follows each
      that went out by its own acknowledgement before the next frame, and returns how many of those got an answer. */
  lemma TickMeaning(recs: seq<Record>, o: Outcomes)
    requires |recs| <= PAGE_SIZE && forall i :: 0 <= i < |recs| ==> Ready(recs[i])
    ensures var t, p := TickResult(Response(200, PageBody(recs)), o), Picked(recs, o, |recs|);
            && t == Trace(Answered(o, |recs|), CallsOf(recs, o, |recs|))
            && (forall i :: 0 <= i < |p| ==> Ready(p[i]))
            && SentIn(t.calls) == Frames(p) && PostedIn(t.calls) == Acks(p)
            && |SentIn(t.calls)| == |PostedIn(t.calls)| == |p| == Successes(o, |recs|)
            && forall i :: 0 <= i < |p| ==>
                 SentIn(t.calls)[i] == FrameBytes(p[i]) && PostedIn(t.calls)[i] == KeyPair(p[i])
  {
    hide PageBody, EgressJson.Parse, Drained, AllFields, Rendered, Frames, Acks, FrameBytes, KeyPair, CallsOf, SentIn, PostedIn;
    assert AllRendered(recs);
    PageReadsBack(recs, PAGE_SIZE);
    PickedIsReady(recs, o, |recs|);
    DrainedUnder(recs, o, |recs|);
    CallsSummed(recs, o, |recs|);
    SentLength(Picked(recs, o, |recs|));
  }

  lemma {:induction false} AllGoodPicksAll(recs: seq<Record>, n: nat)
    requires n <= |recs|
    ensures Picked(recs, ALL_GOOD, n) == recs[..n] && Answered(ALL_GOOD, n) == n
    decreases n
  {
    if n > 0 {
      AllGoodPicksAll(recs, n - 1);
    }
  }

  /** A page of ready records is transmitted and acknowledged in full and in order. */
  lemma TickSendsPage(recs: seq<Record>)
    requires |recs| <= PAGE_SIZE && forall i :: 0 <= i < |recs| ==> Ready(recs[i])
    ensures var t := TickResult(Response(200, PageBody(recs)), ALL_GOOD);
            t.count == |recs| && SentIn(t.calls) == Frames(recs) && PostedIn(t.calls) == Acks(recs)
  {
    hide PageBody, TickResult, Ready, Frames, Acks, FrameBytes, KeyPair, CallsOf, SentIn, PostedIn;
    TickMeaning(recs, ALL_GOOD);
    AllGoodPicksAll(recs, |recs|);
    assert recs[..|recs|] == recs;
  }

  // ---- Acknowledging the first pending records ----------------------------------------------------------------------

  /** Keys stand for their own records, once each. */
  predicate Keyed(records: map<string, Record>, keys: seq<string>) {
    && (forall i :: 0 <= i < |keys| ==> keys[i] in records && Key(records[keys[i]]) == keys[i])
    && (forall i, j :: 0 <= i < j < |keys| ==> keys[i] != keys[j])
  }

  lemma {:induction false} PendingFromKeys(records: map<string, Record>, keys: seq<string>, i: nat) returns (n: nat)
    requires Keyed(records, keys) && i < |PendingIn(records, keys)|
    ensures n < |keys| && records[keys[n]] == PendingIn(records, keys)[i]
    decreases |keys|
  {
    n := |keys| - 1;
    if i < |PendingIn(records, keys[..n])| {
      n := PendingFromKeys(records, keys[..n], i);
    }
  }

  lemma {:induction false} PendingUntouched(records: map<string, Record>, keys: seq<string>, k: string, row: Record)
    requires forall i :: 0 <= i < |keys| ==> keys[i] != k
    ensures PendingIn(records[k := row], keys) == PendingIn(records, keys)
    decreases |keys|
  {
    if keys != [] {
      PendingUntouched(records, keys[..|keys| - 1], k, row);
    }
  }

  /** Marking the first pending record takes exactly it off the queue. */
  lemma {:induction false} MarkHead(records: map<string, Record>, keys: seq<string>, row: Record)
    requires Keyed(records, keys) && PendingIn(records, keys) != [] && row.dispatchStatus == DISPATCHED
    ensures PendingIn(records[Key(PendingIn(records, keys)[0]) := row], keys) == PendingIn(records, keys)[1..]
    decreases |keys|
  {
    hide Key;
    var p := PendingIn(records, keys);
    var init, last := keys[..|keys| - 1], keys[|keys| - 1];
    var q := PendingIn(records, init);
    if q != [] {
      var n := PendingFromKeys(records, init, 0);
      assert p[0] == q[0] && Key(p[0]) == keys[n] != last;
      MarkHead(records, init, row);
    } else {
      PendingUntouched(records, init, last, row);
    }
  }

  ghost predicate Queue(s: State, p: seq<Record>) {
    && CacheOk(s.cache) && L.OrderOk(s.cache) && AllReady(s.cache)
    && PendingIn(s.cache.records, s.cache.order) == p
  }

  lemma QueueIsReady(s: State, p: seq<Record>)
    requires Queue(s, p)
    ensures forall i :: 0 <= i < |p| ==> Ready(p[i]) && Key(p[i]) in s.cache.records
                                         && s.cache.records[Key(p[i])] == p[i]
    ensures Keyed(s.cache.records, s.cache.order)
  {
    hide Ready, Key;
    forall i | 0 <= i < |p|
      ensures Ready(p[i]) && Key(p[i]) in s.cache.records && s.cache.records[Key(p[i])] == p[i]
    {
      var n := PendingFromKeys(s.cache.records, s.cache.order, i);
    }
  }

  lemma MarkedIsReady(rec: Record)
    requires Ready(rec)
    ensures Ready(rec.(dispatchStatus := DISPATCHED))
  {
  }

  lemma AckOne(s: State, p: seq<Record>)
    requires Queue(s, p) && p != []
    ensures Queue(MarkResult(s, Key(p[0]), Done).0, p[1..]) && EgressPage.AckResult(s, Key(p[0]), Done).1 == 200
  {
    QueueIsReady(s, p);
    hide Ready, Key, PutLine, L.OrderOk;
    var k := Key(p[0]);
    HeadIsPending(s, p);
    var row := s.cache.records[k].(dispatchStatus := DISPATCHED);
    MarkedIsReady(s.cache.records[k]);
    MarkHead(s.cache.records, s.cache.order, row);
    L.OrderRestated(s.cache, k, row);
    assert Key(row) == Key(p[0]) by {
      SameKey(p[0]);
    }
  }

  lemma SameKey(rec: Record)
    ensures Key(rec.(dispatchStatus := DISPATCHED)) == Key(rec)
  {
  }

  lemma HeadIsPending(s: State, p: seq<Record>)
    requires Queue(s, p) && p != []
    ensures p[0].dispatchStatus == PENDING
  {
    hide AllReady;
    L.PendingInIsPending(s.cache.records, s.cache.order, 0);
  }

  lemma {:induction false} AckFirst(s: State, p: seq<Record>, n: nat)
    requires Queue(s, p) && n <= |p|
    ensures Queue(AckAll(s, Acks(p[..n])), p[n..])
    decreases n
  {
    hide Queue, Key, Ready;
    if n == 0 {
      assert p[n..] == p;
    } else {
      AckFirst(s, p, n - 1);
      assert p[..n][..n - 1] == p[..n - 1];
      var t := AckAll(s, Acks(p[..n - 1]));
      var rest := p[n - 1..];
      AckOne(t, rest);
      assert rest[1..] == p[n..] && rest[0] == p[n - 1];
      KeyOfPair(p[n - 1]);
      AcksSnoc(p, n);
    }
  }

  lemma KeyOfPair(rec: Record)
    ensures DedupKey(KeyPair(rec).0, KeyPair(rec).1) == Key(rec)
  {
  }

  lemma AcksSnoc(p: seq<Record>, n: nat)
    requires 0 < n <= |p|
    ensures var a := Acks(p[..n]); a != [] && a[..|a| - 1] == Acks(p[..n - 1]) && a[|a| - 1] == KeyPair(p[n - 1])
  {
    assert p[..n][..n - 1] == p[..n - 1];
  }

  // ---- All rounds --------------------------------------------------------------------------------------------------

  function Least(a: nat, b: nat): nat {
    if a < b then a else b
  }

  lemma RoundTakesTen(s: State, p: seq<Record>)
    requires Queue(s, p)
    ensures var n := Least(PAGE_SIZE, |p|);
            && (forall i :: 0 <= i < |p| ==> Ready(p[i]))
            && Queue(Round(s).0, p[n..]) && Round(s).1.count == n && SentIn(Round(s).1.calls) == Frames(p[..n])
  {
    hide Queue, Ready, PendingIn, PageBody, TickResult, AckAll, Frames, SentIn, PostedIn;
    QueueIsReady(s, p);
    var n := Least(PAGE_SIZE, |p|);
    assert Pending(s.cache, PAGE_SIZE) == p[..n] by {
      QueuePage(s, p);
    }
    TickSendsPage(p[..n]);
    AckFirst(s, p, n);
  }

  lemma QueuePage(s: State, p: seq<Record>)
    requires Queue(s, p)
    ensures Pending(s.cache, PAGE_SIZE) == p[..Least(PAGE_SIZE, |p|)]
  {
    hide AllReady, CacheOk, L.OrderOk;
    assert p[..|p|] == p;
  }

  lemma {:induction false} FramesSplit(p: seq<Record>, m: nat, n: nat)
    requires m <= n <= |p| && forall i :: 0 <= i < |p| ==> Ready(p[i])
    ensures Frames(p[..m]) + Frames(p[m..n]) == Frames(p[..n])
    decreases n
  {
    hide Ready, FrameBytes;
    if m == n {
      assert p[m..n] == [];
    } else {
      FramesSplit(p, m, n - 1);
      assert p[..n][..n - 1] == p[..n - 1] && p[m..n][..n - 1 - m] == p[m..n - 1];
    }
  }

  lemma FramesOfNothing()
    ensures Frames([]) == []
  {
  }

  lemma SliceOfTail(p: seq<Record>, m: nat, n: nat)
    requires m + n <= |p|
    ensures p[m..][n..] == p[m + n..] && p[m..][..n] == p[m..m + n]
  {
  }

  /** After r good rounds exactly the first 10 r pending receipts are off the queue, and the frames sent are
      theirs, in first-append order, each once. */
  lemma {:induction false} RoundsDrain(s: State, p: seq<Record>, r: nat)
    requires Queue(s, p)
    ensures var m := Least(PAGE_SIZE * r, |p|);
            && (forall i :: 0 <= i < |p| ==> Ready(p[i]))
            && Queue(Rounds(s, r).0, p[m..]) && Rounds(s, r).1 == Frames(p[..m])
    decreases r
  {
    hide Queue, Ready, Round, Frames, SentIn;
    FramesOfNothing();
    QueueIsReady(s, p);
    if r == 0 {
      assert p[0..] == p;
    } else {
      RoundsDrain(s, p, r - 1);
      var m := Least(PAGE_SIZE * (r - 1), |p|);
      var rest := p[m..];
      RoundTakesTen(Rounds(s, r - 1).0, rest);
      var n := Least(PAGE_SIZE, |rest|);
      SliceOfTail(p, m, n);
      FramesSplit(p, m, m + n);
    }
  }

  /** n pending receipts take exactly ceil(n / 10) good rounds. */
  lemma EmptyAfterCeiling(s: State, p: seq<Record>, r: nat)
    requires Queue(s, p)
    ensures Queue(Rounds(s, r).0, []) <==> r >= (|p| + 9) / 10
  {
    hide Ready, Rounds, AllReady, CacheOk, L.OrderOk;
    RoundsDrain(s, p, r);
  }

  /** Every reachable pipeline is such a queue, so it can always be drained like this. */
  lemma ReachableIsQueue(cfg: P.Config, steps: seq<L.Step>)
    requires cfg.crypto.Sound() && WalletsRendered(cfg)
    ensures var s := L.RunWorld(cfg, steps).store;
            Queue(s, PendingIn(s.cache.records, s.cache.order))
  {
    hide L.RunWorld, P.KeyOf, L.OnDisk, L.AiredOk, L.PageOk, L.JobsOk, Rendered, L.OfEvent;
    var w := L.RunWorld(cfg, steps);
    L.WorldInvAlways(cfg, steps);
    forall k | k in w.store.cache.records ensures Ready(w.store.cache.records[k]) {
      var i := L.OneRecordPerEvent(cfg, steps, k);
      GenuineIsReady(cfg, w.chain[i], w.store.cache.records[k]);
    }
  }

  lemma GenuineIsReady(cfg: P.Config, ev: W.Event, rec: Record)
    requires cfg.crypto.Sound() && WalletsRendered(cfg) && |ev.txHash| == 32
    requires L.OfEvent(cfg, ev, rec) && KnownStatus(rec.dispatchStatus)
    ensures Ready(rec)
  {
    hide Rendered, HexOf, HexVal, P.FrameOf;
    GenuineIsRendered(cfg, ev, rec);
    var q: U16 :| SameBody(rec, P.RecordOf(cfg, ev, q));
    DecodeUndoesEncode(P.FrameOf(cfg, ev, q));
    assert rec.(dispatchStatus := "") == P.RecordOf(cfg, ev, q).(dispatchStatus := "");
    assert Rendered(rec) ==> |rec.packetCHex| % 2 == 0 by {
      RenderedIsEven(rec);
    }
  }

  lemma RenderedIsEven(rec: Record)
    ensures Rendered(rec) ==> |rec.packetCHex| % 2 == 0
  {
    hide Alnum, KnownStatus;
  }
}
