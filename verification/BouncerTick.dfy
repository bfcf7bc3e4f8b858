/** The bouncer's tick, whose code is equal to TickResult (module Orchestrator), is a run of the pipeline machine:
    every transmission precedes its acknowledgement, whatever fails on the way. And what the number it returns has to
    do with the receipts that become dispatched. */
module BouncerTick {
  import opened Words
  import opened EgressHex
  import opened ReceiptStore
  import opened StoreRuns
  import opened Orchestrator
  import opened EgressPage
  import opened Drain
  import P = Processor
  import L = Pipeline

  /** For record i of the page: None if its acknowledgement never reaches the gateway, otherwise the outcome of the
      line write there. Whether the bouncer gets an answer is independent of it (Outcomes.ack). */
  type Reach = nat -> Option<Write>

  predicate Acked(o: Outcomes, reach: Reach, i: nat) {
    o.tx(i) && reach(i).Some?
  }

  /** The steps of one tick: fetch, then for each record its transmission and, if that succeeded and the request
      arrives, its acknowledgement. `base` counts the transmissions before the tick. */
  function TickSteps(recs: seq<Record>, o: Outcomes, reach: Reach, base: nat, n: nat): seq<L.Step>
    requires n <= |recs|
  {
    if n == 0 then [] + [L.Fetch]
    else
      var before := TickSteps(recs, o, reach, base, n - 1) + [L.Transmit(o.tx(n - 1))];
      if Acked(o, reach, n - 1)
      then before + [L.Ack(base + |Picked(recs, o, n - 1)|, reach(n - 1).value)]
      else before
  }

  /** The store after the acknowledgements of the first n records. */
  function StoreAfter(s: State, recs: seq<Record>, o: Outcomes, reach: Reach, n: nat): State
    requires n <= |recs|
  {
    if n == 0 then s
    else
      var t := StoreAfter(s, recs, o, reach, n - 1);
      if Acked(o, reach, n - 1) then MarkResult(t, Key(recs[n - 1]), reach(n - 1).value).0 else t
  }

  function AiredOf(recs: seq<Record>): (r: seq<L.Aired>)
    ensures |r| == |recs| && forall i :: 0 <= i < |recs| ==> r[i] == L.Aired(Key(recs[i]), recs[i].packetCHex)
  {
    if recs == [] then []
    else
      var rec := recs[|recs| - 1];
      AiredOf(recs[..|recs| - 1]) + [L.Aired(Key(rec), rec.packetCHex)]
  }

  // ---- The tick is a run -----------------------------------------------------------------------------------------

  /** The world after the fetch and n records of a tick. */
  ghost function WorldAfter(w: L.World, recs: seq<Record>, o: Outcomes, reach: Reach, n: nat): L.World
    requires n <= |recs|
  {
    w.(page := recs[n..], aired := w.aired + AiredOf(Picked(recs, o, n)), store := StoreAfter(w.store, recs, o, reach, n))
  }

  lemma TransmitIs(cfg: P.Config, w: L.World, ok: bool)
    requires cfg.crypto.Sound() && w.page != []
    ensures L.Next(cfg, w, L.Transmit(ok))
            == w.(page := w.page[1..],
                  aired := if ok then w.aired + [L.Aired(Key(w.page[0]), w.page[0].packetCHex)] else w.aired)
  {
    hide Key, P.KeyOf, P.RecordOf, AppendResult, MarkResult, Rows, Replay;
  }

  lemma PickedSnoc(recs: seq<Record>, o: Outcomes, n: nat)
    requires n < |recs|
    ensures AiredOf(Picked(recs, o, n + 1))
            == if o.tx(n) then AiredOf(Picked(recs, o, n)) + [L.Aired(Key(recs[n]), recs[n].packetCHex)]
               else AiredOf(Picked(recs, o, n))
  {
    hide Key;
    var p, q := Picked(recs, o, n), Picked(recs, o, n + 1);
    if o.tx(n) {
      assert q[..|q| - 1] == p && q[|q| - 1] == recs[n];
    }
  }

  lemma PageSnoc(recs: seq<Record>, n: nat)
    requires n < |recs|
    ensures recs[n..] != [] && recs[n..][0] == recs[n] && recs[n..][1..] == recs[n + 1..]
  {
  }

  lemma TransmitOne(cfg: P.Config, w: L.World, recs: seq<Record>, o: Outcomes, reach: Reach, n: nat)
    requires cfg.crypto.Sound() && n < |recs|
    ensures L.Next(cfg, WorldAfter(w, recs, o, reach, n), L.Transmit(o.tx(n)))
            == WorldAfter(w, recs, o, reach, n + 1).(store := StoreAfter(w.store, recs, o, reach, n))
  {
    hide Key, StoreAfter, L.Next, Picked, AiredOf;
    PageSnoc(recs, n);
    TransmitIs(cfg, WorldAfter(w, recs, o, reach, n), o.tx(n));
    PickedSnoc(recs, o, n);
  }

  lemma AckOneOf(cfg: P.Config, w: L.World, recs: seq<Record>, o: Outcomes, reach: Reach, n: nat)
    requires cfg.crypto.Sound() && n < |recs| && w.up && Acked(o, reach, n)
    ensures L.Next(cfg, WorldAfter(w, recs, o, reach, n + 1).(store := StoreAfter(w.store, recs, o, reach, n)),
                   L.Ack(|w.aired| + |Picked(recs, o, n)|, reach(n).value))
            == WorldAfter(w, recs, o, reach, n + 1)
  {
    hide Key, MarkResult;
    var p, q := Picked(recs, o, n), Picked(recs, o, n + 1);
    assert q == p + [recs[n]];
    assert (w.aired + AiredOf(q))[|w.aired| + |p|] == AiredOf(q)[|p|];
  }

  lemma FetchPage(cfg: P.Config, w: L.World, recs: seq<Record>, o: Outcomes, reach: Reach)
    requires cfg.crypto.Sound() && w.up && recs == Pending(w.store.cache, L.PAGE_SIZE)
    ensures L.RunFrom(cfg, w, TickSteps(recs, o, reach, |w.aired|, 0)) == WorldAfter(w, recs, o, reach, 0)
  {
    hide Pending, L.RunFrom;
    L.RunFromNothing(cfg, w);
    L.RunFromSnoc(cfg, w, [], L.Fetch);
    assert recs[0..] == recs && w.aired + [] == w.aired;
  }

  lemma TickOne(cfg: P.Config, w: L.World, recs: seq<Record>, o: Outcomes, reach: Reach, n: nat, before: seq<L.Step>)
    requires cfg.crypto.Sound() && w.up && n < |recs|
    requires L.RunFrom(cfg, w, before) == WorldAfter(w, recs, o, reach, n)
    ensures L.RunFrom(cfg, w,
                      before + [L.Transmit(o.tx(n))]
                      + (if Acked(o, reach, n)
                         then [L.Ack(|w.aired| + |Picked(recs, o, n)|, reach(n).value)] else []))
            == WorldAfter(w, recs, o, reach, n + 1)
  {
    hide L.RunFrom, L.Next, WorldAfter, StoreAfter, Picked;
    L.RunFromSnoc(cfg, w, before, L.Transmit(o.tx(n)));
    TransmitOne(cfg, w, recs, o, reach, n);
    var sent := before + [L.Transmit(o.tx(n))];
    if Acked(o, reach, n) {
      L.RunFromSnoc(cfg, w, sent, L.Ack(|w.aired| + |Picked(recs, o, n)|, reach(n).value));
      AckOneOf(cfg, w, recs, o, reach, n);
    } else {
      NoAck(w, recs, o, reach, n + 1);
      assert sent + [] == sent;
    }
  }

  lemma TickStepsSnoc(recs: seq<Record>, o: Outcomes, reach: Reach, base: nat, n: nat)
    requires n < |recs|
    ensures TickSteps(recs, o, reach, base, n + 1)
            == TickSteps(recs, o, reach, base, n) + [L.Transmit(o.tx(n))]
               + (if Acked(o, reach, n) then [L.Ack(base + |Picked(recs, o, n)|, reach(n).value)] else [])
  {
    hide Picked;
  }

  lemma {:induction false} TickRuns(cfg: P.Config, w: L.World, recs: seq<Record>, o: Outcomes, reach: Reach, n: nat)
    requires cfg.crypto.Sound() && w.up && recs == Pending(w.store.cache, L.PAGE_SIZE) && n <= |recs|
    ensures L.RunFrom(cfg, w, TickSteps(recs, o, reach, |w.aired|, n)) == WorldAfter(w, recs, o, reach, n)
    decreases n
  {
    hide Pending, L.RunFrom, WorldAfter, Picked, TickSteps;
    if n == 0 {
      FetchPage(cfg, w, recs, o, reach);
    } else {
      TickRuns(cfg, w, recs, o, reach, n - 1);
      TickStepsSnoc(recs, o, reach, |w.aired|, n - 1);
      TickOne(cfg, w, recs, o, reach, n - 1, TickSteps(recs, o, reach, |w.aired|, n - 1));
    }
  }

  lemma NoAck(w: L.World, recs: seq<Record>, o: Outcomes, reach: Reach, n: nat)
    requires 0 < n <= |recs| && !Acked(o, reach, n - 1)
    ensures WorldAfter(w, recs, o, reach, n).(store := StoreAfter(w.store, recs, o, reach, n - 1))
            == WorldAfter(w, recs, o, reach, n)
  {
  }

  // ---- The steps are the image of the calls -----------------------------------------------------------------------

  /** The same by acknowledgement: whether the j-th one the tick makes reaches the gateway, and with what outcome. */
  type Arrival = nat -> Option<Write>

  function ByRecord(o: Outcomes, arrival: Arrival): Reach {
    i => if i >= 0 then arrival(Successes(o, i)) else None
  }

  /** The step of one call: a frame handed out is a transmission, acknowledgement j, if it arrives, is that of the
      transmission of the same number. */
  function StepFor(c: Call, arrival: Arrival, base: nat, j: nat): seq<L.Step> {
    if c.Send? then [L.Transmit(c.ok)]
    else if arrival(j).Some? then [L.Ack(base + j, arrival(j).value)] else []
  }

  /** The pipeline steps of a sequence of calls, one after the other. */
  function Image(calls: seq<Call>, arrival: Arrival, base: nat): seq<L.Step> {
    if calls == [] then []
    else
      Image(calls[..|calls| - 1], arrival, base)
      + StepFor(calls[|calls| - 1], arrival, base, |PostedIn(calls[..|calls| - 1])|)
  }

  lemma ImageSnoc(calls: seq<Call>, c: Call, arrival: Arrival, base: nat)
    ensures Image(calls + [c], arrival, base) == Image(calls, arrival, base) + StepFor(c, arrival, base, |PostedIn(calls)|)
  {
    assert (calls + [c])[..|calls|] == calls;
  }

  lemma {:induction false} ImageIsTick(recs: seq<Record>, o: Outcomes, arrival: Arrival, base: nat, n: nat)
    requires n <= |recs| && forall i :: 0 <= i < |recs| ==> Ready(recs[i])
    ensures [L.Fetch] + Image(CallsOf(recs, o, n), arrival, base) == TickSteps(recs, o, ByRecord(o, arrival), base, n)
    decreases n
  {
    hide Ready, FrameBytes, Image, TickSteps, Picked, Successes, PostedIn, Frames, Acks, SentIn;
    if n == 0 {
      ImageNothing(recs, o, arrival, base);
    } else {
      ImageIsTick(recs, o, arrival, base, n - 1);
      TickStepsSnoc(recs, o, ByRecord(o, arrival), base, n - 1);
      var rec, calls := recs[n - 1], CallsOf(recs, o, n - 1);
      PostedLength(recs, o, n - 1);
      var send, post := Send(FrameBytes(rec), o.tx(n - 1)), Post(rec.paymentId, rec.settlementTxHash, o.ack(n - 1));
      ImageSnoc(calls, send, arrival, base);
      ImageSnoc(calls + [send], post, arrival, base);
      SentInSnoc(calls, send);
      assert PostedIn(calls) + [] == PostedIn(calls);
      Regroup(Image(calls, arrival, base), [L.Transmit(o.tx(n - 1))],
              if Acked(o, ByRecord(o, arrival), n - 1)
              then [L.Ack(base + |Picked(recs, o, n - 1)|, arrival(Successes(o, n - 1)).value)] else []);
    }
  }

  lemma ImageNothing(recs: seq<Record>, o: Outcomes, arrival: Arrival, base: nat)
    requires forall i :: 0 <= i < |recs| ==> Ready(recs[i])
    ensures [L.Fetch] + Image(CallsOf(recs, o, 0), arrival, base) == TickSteps(recs, o, ByRecord(o, arrival), base, 0)
  {
    hide Ready;
  }

  lemma Regroup(a: seq<L.Step>, b: seq<L.Step>, c: seq<L.Step>)
    ensures [L.Fetch] + (a + b + c) == ([L.Fetch] + a) + b + c
    ensures a + b + [] == a + b
  {
  }

  lemma PostedLength(recs: seq<Record>, o: Outcomes, n: nat)
    requires n <= |recs| && forall i :: 0 <= i < |recs| ==> Ready(recs[i])
    ensures |PostedIn(CallsOf(recs, o, n))| == |Picked(recs, o, n)| == Successes(o, n)
  {
    hide Ready, CallsOf, PostedIn, Picked, Successes, Acks, Frames;
    CallsSummed(recs, o, n);
    PickedIsReady(recs, o, n);
    SentLength(Picked(recs, o, n));
  }

  /** In the tick's own calls, every acknowledgement comes right behind the frame it is for, which went out. */
  lemma {:induction false} PostFollowsItsFrame(recs: seq<Record>, o: Outcomes, n: nat, i: nat) returns (r: nat)
    requires n <= |recs| && forall i :: 0 <= i < |recs| ==> Ready(recs[i])
    requires i < |CallsOf(recs, o, n)| && CallsOf(recs, o, n)[i].Post?
    ensures var calls := CallsOf(recs, o, n);
            && r < n && i > 0 && calls[i - 1] == Send(FrameBytes(recs[r]), true)
            && (calls[i].id, calls[i].hash) == KeyPair(recs[r])
    decreases n
  {
    hide Ready, FrameBytes;
    var before := CallsOf(recs, o, n - 1);
    if i < |before| {
      r := PostFollowsItsFrame(recs, o, n - 1, i);
    } else {
      r := n - 1;
    }
  }

  /** What the tick did agrees with what went on the air: the same frames in the same order, and acknowledgements that
      name exactly those. */
  predicate Agrees(t: Trace, aired: seq<L.Aired>) {
    var sent, posted := SentIn(t.calls), PostedIn(t.calls);
    |sent| == |posted| == |aired|
    && forall i :: 0 <= i < |aired| ==>
         |aired[i].hex| == 224 && HexVal(aired[i].hex) == Some(sent[i])
         && DedupKey(posted[i].0, posted[i].1) == aired[i].key
  }

  lemma TickAgrees(recs: seq<Record>, o: Outcomes)
    requires |recs| <= PAGE_SIZE && forall i :: 0 <= i < |recs| ==> Ready(recs[i])
    ensures Agrees(TickResult(Response(200, PageBody(recs)), o), AiredOf(Picked(recs, o, |recs|)))
  {
    hide PageBody, TickResult, Ready, FrameBytes, KeyPair, Key, HexVal, Picked, SentIn, PostedIn, CallsOf, Frames, Acks;
    TickMeaning(recs, o);
    var p := Picked(recs, o, |recs|);
    forall i | 0 <= i < |p| ensures |p[i].packetCHex| == 224 && HexVal(p[i].packetCHex) == Some(FrameBytes(p[i]))
                                    && DedupKey(KeyPair(p[i]).0, KeyPair(p[i]).1) == Key(p[i]) {
      ReadyFrame(p[i]);
      KeyOfPair(p[i]);
    }
  }

  lemma ReachablePage(cfg: P.Config, steps: seq<L.Step>)
    requires cfg.crypto.Sound() && WalletsRendered(cfg)
    ensures var recs := Pending(L.RunWorld(cfg, steps).store.cache, L.PAGE_SIZE);
            |recs| <= PAGE_SIZE && forall i :: 0 <= i < |recs| ==> Ready(recs[i])
  {
    hide L.RunWorld, Pending, Queue, Ready, PendingIn;
    var s := L.RunWorld(cfg, steps).store;
    ReachableIsQueue(cfg, steps);
    PageIsReady(s, PendingIn(s.cache.records, s.cache.order));
  }

  /** Refinement, for every reachable world with the gateway up, all transmission and answer outcomes, and every subset
      of acknowledgements that arrive with any outcome of their write: the fetch followed by the image of the tick's own
      calls, in their order, is a run of the pipeline. It clears the page, leaves chain and jobs alone, and puts on the
      air exactly the frames the tick sent. */
  lemma TickIsRun(cfg: P.Config, steps: seq<L.Step>, o: Outcomes, arrival: Arrival)
    requires cfg.crypto.Sound() && WalletsRendered(cfg) && L.RunWorld(cfg, steps).up
    ensures var w := L.RunWorld(cfg, steps);
            var recs := Pending(w.store.cache, L.PAGE_SIZE);
            var t := TickResult(Response(200, PageBody(recs)), o);
            var v := L.RunWorld(cfg, steps + ([L.Fetch] + Image(t.calls, arrival, |w.aired|)));
            && w.aired <= v.aired
            && v == w.(page := [], aired := v.aired,
                       store := StoreAfter(w.store, recs, o, ByRecord(o, arrival), |recs|))
            && Agrees(t, v.aired[|w.aired|..])
  {
    hide L.RunWorld, L.RunFrom, PageBody, TickResult, TickSteps, Pending, StoreAfter, Agrees, Picked, Ready, Image,
      CallsOf, SentIn, PostedIn, Frames, Acks, ByRecord;
    var w := L.RunWorld(cfg, steps);
    var recs := Pending(w.store.cache, L.PAGE_SIZE);
    ReachablePage(cfg, steps);
    TickAgrees(recs, o);
    TickMeaning(recs, o);
    ImageIsTick(recs, o, arrival, |w.aired|, |recs|);
    var reach := ByRecord(o, arrival);
    TickRuns(cfg, w, recs, o, reach, |recs|);
    L.RunContinues(cfg, steps, TickSteps(recs, o, reach, |w.aired|, |recs|));
    assert recs[|recs|..] == [];
    var added := AiredOf(Picked(recs, o, |recs|));
    assert (w.aired + added)[|w.aired|..] == added;
  }

  // ---- With the gateway at work in between -----------------------------------------------------------------------

  /** The bouncer's own steps; everything else is the chain's and the gateway's. */
  predicate IsBouncer(step: L.Step) {
    step.Fetch? || step.Transmit? || step.BouncerRestart?
  }

  function BouncerSteps(steps: seq<L.Step>): seq<L.Step> {
    if steps == [] then []
    else
      var step := steps[|steps| - 1];
      BouncerSteps(steps[..|steps| - 1]) + if IsBouncer(step) then [step] else []
  }

  /** The transmissions among the calls. */
  function Transmissions(calls: seq<Call>): seq<L.Step> {
    if calls == [] then []
    else
      var c := calls[|calls| - 1];
      Transmissions(calls[..|calls| - 1]) + if c.Send? then [L.Transmit(c.ok)] else []
  }

  function TransmitsOf(o: Outcomes, n: nat): seq<L.Step> {
    if n == 0 then [] else TransmitsOf(o, n - 1) + [L.Transmit(o.tx(n - 1))]
  }

  lemma TransmissionsSnoc(calls: seq<Call>, c: Call)
    ensures Transmissions(calls + [c]) == Transmissions(calls) + (if c.Send? then [L.Transmit(c.ok)] else [])
  {
    assert (calls + [c])[..|calls|] == calls;
  }

  lemma {:induction false} TransmissionsAre(recs: seq<Record>, o: Outcomes, n: nat)
    requires n <= |recs| && forall i :: 0 <= i < |recs| ==> Ready(recs[i])
    ensures Transmissions(CallsOf(recs, o, n)) == TransmitsOf(o, n)
    decreases n
  {
    hide Ready, FrameBytes, Transmissions;
    if n == 0 {
      NoTransmissions();
    } else {
      TransmissionsAre(recs, o, n - 1);
      var rec, calls := recs[n - 1], CallsOf(recs, o, n - 1);
      var send := Send(FrameBytes(rec), o.tx(n - 1));
      TransmissionsSnoc(calls, send);
      TransmissionsSnoc(calls + [send], Post(rec.paymentId, rec.settlementTxHash, o.ack(n - 1)));
      assert TransmitsOf(o, n) + [] == TransmitsOf(o, n);
    }
  }

  lemma NoTransmissions()
    ensures Transmissions([]) == []
  {
  }

  lemma GatewayLeavesAir(cfg: P.Config, w: L.World, step: L.Step)
    requires cfg.crypto.Sound() && !IsBouncer(step)
    ensures var v := L.Next(cfg, w, step); v.page == w.page && v.aired == w.aired
  {
    hide P.KeyOf, P.RecordOf, AppendResult, MarkResult, Rows, Replay;
  }

  lemma TransmitAirs(cfg: P.Config, w: L.World, recs: seq<Record>, o: Outcomes, n: nat, air: seq<L.Aired>)
    requires cfg.crypto.Sound() && n < |recs| && w.page == recs[n..] && w.aired == air + AiredOf(Picked(recs, o, n))
    ensures var v := L.Next(cfg, w, L.Transmit(o.tx(n)));
            v.page == recs[n + 1..] && v.aired == air + AiredOf(Picked(recs, o, n + 1))
  {
    hide Key, L.Next, Picked, AiredOf;
    PageSnoc(recs, n);
    TransmitIs(cfg, w, o.tx(n));
    PickedSnoc(recs, o, n);
  }

  lemma {:induction false} MixedRuns(cfg: P.Config, w: L.World, recs: seq<Record>, o: Outcomes, mixed: seq<L.Step>, n: nat)
    requires cfg.crypto.Sound() && n <= |recs| && w.page == recs && BouncerSteps(mixed) == TransmitsOf(o, n)
    ensures var v := L.RunFrom(cfg, w, mixed); v.page == recs[n..] && v.aired == w.aired + AiredOf(Picked(recs, o, n))
    decreases |mixed|
  {
    hide L.Next, L.RunFrom, Picked, AiredOf;
    if mixed == [] {
      L.RunFromNothing(cfg, w);
      NothingPicked(recs, o);
      assert n == 0 && recs[0..] == recs && w.aired + [] == w.aired;
    } else {
      var init, step := mixed[..|mixed| - 1], mixed[|mixed| - 1];
      L.RunFromSnoc(cfg, w, init, step);
      assert init + [step] == mixed;
      if IsBouncer(step) {
        var b := BouncerSteps(mixed);
        assert b[..|b| - 1] == BouncerSteps(init) && b[|b| - 1] == step;
        var t := TransmitsOf(o, n);
        assert n > 0 && t[..|t| - 1] == TransmitsOf(o, n - 1) && t[|t| - 1] == L.Transmit(o.tx(n - 1));
        MixedRuns(cfg, w, recs, o, init, n - 1);
        TransmitAirs(cfg, L.RunFrom(cfg, w, init), recs, o, n - 1, w.aired);
      } else {
        assert BouncerSteps(init) + [] == BouncerSteps(init);
        MixedRuns(cfg, w, recs, o, init, n);
        GatewayLeavesAir(cfg, L.RunFrom(cfg, w, init), step);
      }
    }
  }

  lemma NothingPicked(recs: seq<Record>, o: Outcomes)
    ensures AiredOf(Picked(recs, o, 0)) == []
  {
  }

  /** The same refinement with anything at all happening on the gateway's side while the tick runs: appends, deliveries,
      acknowledgements old and new, crashes and reboots, between any two of its calls. As long as the bouncer's own steps
      are the tick's transmissions, the page is used up and exactly the tick's frames are added to the air. */
  lemma TickInterleaved(cfg: P.Config, steps: seq<L.Step>, o: Outcomes, mixed: seq<L.Step>)
    requires cfg.crypto.Sound() && WalletsRendered(cfg) && L.RunWorld(cfg, steps).up
    requires var recs := Pending(L.RunWorld(cfg, steps).store.cache, L.PAGE_SIZE);
             BouncerSteps(mixed) == Transmissions(TickResult(Response(200, PageBody(recs)), o).calls)
    ensures var w := L.RunWorld(cfg, steps);
            var t := TickResult(Response(200, PageBody(Pending(w.store.cache, L.PAGE_SIZE))), o);
            var v := L.RunWorld(cfg, steps + ([L.Fetch] + mixed));
            v.page == [] && w.aired <= v.aired && Agrees(t, v.aired[|w.aired|..])
  {
    hide L.RunWorld, L.RunFrom, PageBody, TickResult, Pending, Agrees, Picked, Ready, CallsOf, SentIn, PostedIn, Frames,
      Acks, BouncerSteps, Transmissions, TransmitsOf;
    var w := L.RunWorld(cfg, steps);
    var recs := Pending(w.store.cache, L.PAGE_SIZE);
    ReachablePage(cfg, steps);
    TickAgrees(recs, o);
    TickMeaning(recs, o);
    TransmissionsAre(recs, o, |recs|);
    L.RunContinues(cfg, steps, [L.Fetch]);
    FetchSteps(cfg, w);
    L.RunContinues(cfg, steps + [L.Fetch], mixed);
    assert steps + ([L.Fetch] + mixed) == (steps + [L.Fetch]) + mixed;
    MixedRuns(cfg, L.RunWorld(cfg, steps + [L.Fetch]), recs, o, mixed, |recs|);
    assert recs[|recs|..] == [];
    var added := AiredOf(Picked(recs, o, |recs|));
    assert (w.aired + added)[|w.aired|..] == added;
  }

  lemma FetchSteps(cfg: P.Config, w: L.World)
    requires cfg.crypto.Sound() && w.up
    ensures var v := L.RunFrom(cfg, w, [L.Fetch]);
            v.page == Pending(w.store.cache, L.PAGE_SIZE) && v.aired == w.aired
  {
    L.RunFromNothing(cfg, w);
    L.RunFromSnoc(cfg, w, [], L.Fetch);
    assert [] + [L.Fetch] == [L.Fetch];
  }

  lemma ReadyFrame(rec: Record)
    requires Ready(rec)
    ensures |rec.packetCHex| == 224 && HexVal(rec.packetCHex) == Some(FrameBytes(rec))
  {
    hide HexVal, Alnum;
  }

  lemma PageIsReady(s: State, p: seq<Record>)
    requires Queue(s, p)
    ensures var recs := Pending(s.cache, L.PAGE_SIZE);
            |recs| <= PAGE_SIZE && recs <= p && forall i :: 0 <= i < |recs| ==> Ready(recs[i])
  {
    QueueIsReady(s, p);
    hide Ready, Key, CacheOk, L.OrderOk, AllReady;
    QueuePage(s, p);
  }

  // ---- The number the tick returns ------------------------------------------------------------------------------

  /** Pending records of the cache, each once. */
  predicate Offered(s: State, recs: seq<Record>) {
    && (forall i :: 0 <= i < |recs| ==>
          Key(recs[i]) in s.cache.records && s.cache.records[Key(recs[i])] == recs[i] && recs[i].dispatchStatus == PENDING)
    && (forall i, j :: 0 <= i < j < |recs| ==> Key(recs[i]) != Key(recs[j]))
  }

  lemma {:induction false} PendingKeysDistinct(records: map<string, Record>, keys: seq<string>, p: seq<Record>)
    requires Keyed(records, keys) && p == PendingIn(records, keys)
    ensures forall i, j :: 0 <= i < j < |p| ==> Key(p[i]) != Key(p[j])
    decreases |keys|
  {
    hide Key;
    if keys != [] {
      var init, last := keys[..|keys| - 1], keys[|keys| - 1];
      var q := PendingIn(records, init);
      PendingKeysDistinct(records, init, q);
      forall i, j | 0 <= i < j < |p| ensures Key(p[i]) != Key(p[j]) {
        var n := PendingFromKeys(records, init, i);
        assert p[i] == q[i] && Key(q[i]) == keys[n];
        assert j < |q| ==> p[j] == q[j];
        assert j == |q| ==> Key(p[j]) == last;
      }
    }
  }

  lemma PageIsOffered(s: State, p: seq<Record>)
    requires Queue(s, p)
    ensures Offered(s, Pending(s.cache, L.PAGE_SIZE)) && |Pending(s.cache, L.PAGE_SIZE)| <= PAGE_SIZE
  {
    hide Key, Ready;
    QueueIsReady(s, p);
    PendingKeysDistinct(s.cache.records, s.cache.order, p);
    PageIsReady(s, p);
    forall i | 0 <= i < |p| ensures p[i].dispatchStatus == PENDING {
      L.PendingInIsPending(s.cache.records, s.cache.order, i);
    }
    var recs := Pending(s.cache, L.PAGE_SIZE);
    hide Pending, Queue, PendingIn;
    assert forall i :: 0 <= i < |recs| ==> recs[i] == p[i];
  }

  /** The acknowledgement of record i is written. */
  predicate Hit(o: Outcomes, reach: Reach, i: nat) {
    o.tx(i) && reach(i) == Some(Done)
  }

  predicate HitKey(recs: seq<Record>, o: Outcomes, reach: Reach, n: nat, k: string)
    requires n <= |recs|
  {
    exists i :: 0 <= i < n && Hit(o, reach, i) && Key(recs[i]) == k
  }

  /** Record i was transmitted and MarkDispatched succeeded for it at the gateway. */
  predicate Succeeded(s: State, recs: seq<Record>, o: Outcomes, reach: Reach, i: nat)
    requires i < |recs|
  {
    Acked(o, reach, i)
    && MarkResult(StoreAfter(s, recs, o, reach, i), Key(recs[i]), reach(i).value).1 == NoError
  }

  /** The cache with the hit records dispatched and nothing else changed. */
  ghost predicate Hits(s: State, t: State, recs: seq<Record>, o: Outcomes, reach: Reach, n: nat)
    requires n <= |recs|
  {
    t.cache.records.Keys == s.cache.records.Keys
    && forall k :: k in s.cache.records ==>
         t.cache.records[k] == if HitKey(recs, o, reach, n, k) then s.cache.records[k].(dispatchStatus := DISPATCHED)
                               else s.cache.records[k]
  }

  lemma HitsStep(s: State, t: State, recs: seq<Record>, o: Outcomes, reach: Reach, n: nat)
    requires n < |recs| && Offered(s, recs) && Hits(s, t, recs, o, reach, n)
    ensures Acked(o, reach, n) ==>
              (MarkResult(t, Key(recs[n]), reach(n).value).1 == NoError <==> reach(n) == Some(Done))
    ensures Hits(s, if Acked(o, reach, n) then MarkResult(t, Key(recs[n]), reach(n).value).0 else t, recs, o, reach, n + 1)
  {
    hide Key, PutLine;
    var k := Key(recs[n]);
    assert !HitKey(recs, o, reach, n, k);
    assert t.cache.records[k] == recs[n];
    forall x ensures HitKey(recs, o, reach, n + 1, x) <==> HitKey(recs, o, reach, n, x) || (Hit(o, reach, n) && k == x) {
      if HitKey(recs, o, reach, n, x) {
        var i :| 0 <= i < n && Hit(o, reach, i) && Key(recs[i]) == x;
        assert Hit(o, reach, i) && Key(recs[i]) == x;
      }
    }
  }

  lemma {:induction false} StoreAfterHits(s: State, recs: seq<Record>, o: Outcomes, reach: Reach, n: nat)
    requires n <= |recs| && Offered(s, recs)
    ensures Hits(s, StoreAfter(s, recs, o, reach, n), recs, o, reach, n)
    decreases n
  {
    hide Key, MarkResult, Offered;
    if n > 0 {
      StoreAfterHits(s, recs, o, reach, n - 1);
      HitsStep(s, StoreAfter(s, recs, o, reach, n - 1), recs, o, reach, n - 1);
    }
  }

  lemma SucceededIsHit(s: State, recs: seq<Record>, o: Outcomes, reach: Reach, i: nat)
    requires i < |recs| && Offered(s, recs)
    ensures Succeeded(s, recs, o, reach, i) <==> Hit(o, reach, i)
  {
    hide Key, MarkResult, StoreAfter;
    StoreAfterHits(s, recs, o, reach, i);
    HitsStep(s, StoreAfter(s, recs, o, reach, i), recs, o, reach, i);
  }

  /** The keys of the records the tick counts, and of those that become dispatched. */
  function Counted(recs: seq<Record>, o: Outcomes, n: nat): set<string>
    requires n <= |recs|
  {
    if n == 0 then {}
    else Counted(recs, o, n - 1) + (if o.tx(n - 1) && o.ack(n - 1).Some? then {Key(recs[n - 1])} else {})
  }

  predicate CountedKey(recs: seq<Record>, o: Outcomes, n: nat, k: string)
    requires n <= |recs|
  {
    exists i :: 0 <= i < n && o.tx(i) && o.ack(i).Some? && Key(recs[i]) == k
  }

  lemma {:induction false} CountedExact(recs: seq<Record>, o: Outcomes, n: nat, k: string)
    requires n <= |recs|
    ensures k in Counted(recs, o, n) <==> CountedKey(recs, o, n, k)
    decreases n
  {
    hide Key;
    if n > 0 {
      CountedExact(recs, o, n - 1, k);
      if CountedKey(recs, o, n - 1, k) {
        var i :| 0 <= i < n - 1 && o.tx(i) && o.ack(i).Some? && Key(recs[i]) == k;
        assert o.tx(i) && Key(recs[i]) == k;
      }
    }
  }

  function Flipped(s: State, t: State): set<string> {
    set k | k in s.cache.records && s.cache.records[k].dispatchStatus != DISPATCHED
            && k in t.cache.records && t.cache.records[k].dispatchStatus == DISPATCHED
  }

  lemma AddOne(a: set<string>, x: string)
    requires x !in a
    ensures |a + {x}| == |a| + 1
  {
  }

  lemma NotYetCounted(s: State, recs: seq<Record>, o: Outcomes, n: nat)
    requires n < |recs| && Offered(s, recs)
    ensures Key(recs[n]) !in Counted(recs, o, n)
  {
    hide Key, Counted;
    CountedExact(recs, o, n, Key(recs[n]));
  }

  lemma CountedStep(recs: seq<Record>, o: Outcomes, n: nat)
    requires n < |recs|
    ensures Counted(recs, o, n + 1)
            == Counted(recs, o, n) + (if o.tx(n) && o.ack(n).Some? then {Key(recs[n])} else {})
  {
    hide Key;
  }

  lemma NothingCounted(recs: seq<Record>, o: Outcomes)
    ensures Counted(recs, o, 0) == {}
  {
  }

  lemma {:induction false} CountIsCounted(s: State, recs: seq<Record>, o: Outcomes, n: nat)
    requires n <= |recs| && Offered(s, recs)
    ensures |Counted(recs, o, n)| == Answered(o, n)
    decreases n
  {
    hide Key, Counted, Offered;
    if n > 0 {
      CountIsCounted(s, recs, o, n - 1);
      NotYetCounted(s, recs, o, n - 1);
      CountedStep(recs, o, n - 1);
      AddOne(Counted(recs, o, n - 1), Key(recs[n - 1]));
      assert Counted(recs, o, n - 1) + {} == Counted(recs, o, n - 1);
    } else {
      NothingCounted(recs, o);
    }
  }

  lemma FlippedIsHit(s: State, recs: seq<Record>, o: Outcomes, reach: Reach, i: nat)
    requires i < |recs| && Offered(s, recs)
    ensures Key(recs[i]) in Flipped(s, StoreAfter(s, recs, o, reach, |recs|)) <==> Hit(o, reach, i)
  {
    hide Key, StoreAfter;
    StoreAfterHits(s, recs, o, reach, |recs|);
    assert HitKey(recs, o, reach, |recs|, Key(recs[i])) <==> Hit(o, reach, i);
  }

  lemma OnlyOfferedFlip(s: State, recs: seq<Record>, o: Outcomes, reach: Reach, k: string)
    requires Offered(s, recs) && k in Flipped(s, StoreAfter(s, recs, o, reach, |recs|))
    ensures HitKey(recs, o, reach, |recs|, k)
  {
    hide Key, StoreAfter;
    StoreAfterHits(s, recs, o, reach, |recs|);
  }

  /** Answers and successes coincide on everything transmitted. */
  predicate AnswersTellTruth(s: State, recs: seq<Record>, o: Outcomes, reach: Reach) {
    forall i :: 0 <= i < |recs| ==> (o.tx(i) ==> (o.ack(i).Some? <==> Succeeded(s, recs, o, reach, i)))
  }

  /** The returned number counts the answered acknowledgements, and the counted receipts are exactly the ones that
      became dispatched if and only if, for every transmitted record, getting an answer and being marked at the gateway
      coincide. */
  lemma CountIsDispatchedExactlyWhen(s: State, p: seq<Record>, o: Outcomes, reach: Reach)
    requires Queue(s, p)
    ensures var recs := Pending(s.cache, L.PAGE_SIZE);
            var t := TickResult(Response(200, PageBody(recs)), o);
            && t.count == |Counted(recs, o, |recs|)|
            && (Counted(recs, o, |recs|) == Flipped(s, StoreAfter(s, recs, o, reach, |recs|))
                <==> AnswersTellTruth(s, recs, o, reach))
  {
    hide Key, Queue, Pending, PageBody, TickResult, StoreAfter, Counted, Flipped, Ready, Succeeded, Picked, Frames, Acks,
      CallsOf, SentIn, PostedIn;
    var recs := Pending(s.cache, L.PAGE_SIZE);
    PageIsOffered(s, p);
    PageIsReady(s, p);
    TickMeaning(recs, o);
    CountIsCounted(s, recs, o, |recs|);
    SetsAgreeExactlyWhen(s, recs, o, reach);
  }

  lemma SetsAgreeExactlyWhen(s: State, recs: seq<Record>, o: Outcomes, reach: Reach)
    requires Offered(s, recs)
    ensures Counted(recs, o, |recs|) == Flipped(s, StoreAfter(s, recs, o, reach, |recs|))
            <==> AnswersTellTruth(s, recs, o, reach)
  {
    hide Key, StoreAfter, Flipped, Succeeded, Counted;
    var c, f := Counted(recs, o, |recs|), Flipped(s, StoreAfter(s, recs, o, reach, |recs|));
    forall i | 0 <= i < |recs|
      ensures Succeeded(s, recs, o, reach, i) <==> Key(recs[i]) in f
      ensures Key(recs[i]) in c <==> o.tx(i) && o.ack(i).Some?
      ensures Key(recs[i]) in f ==> o.tx(i)
    {
      SucceededIsHit(s, recs, o, reach, i);
      FlippedIsHit(s, recs, o, reach, i);
      CountedExact(recs, o, |recs|, Key(recs[i]));
    }
    if AnswersTellTruth(s, recs, o, reach) {
      forall k ensures k in c <==> k in f {
        CountedExact(recs, o, |recs|, k);
        if k in c {
          var i :| 0 <= i < |recs| && o.tx(i) && o.ack(i).Some? && Key(recs[i]) == k;
        }
        if k in f {
          OnlyOfferedFlip(s, recs, o, reach, k);
          var i :| 0 <= i < |recs| && Hit(o, reach, i) && Key(recs[i]) == k;
        }
      }
    }
  }

  // ---- When the answers come from the gateway ----------------------------------------------------------------------

  /** The status the gateway computes for the acknowledgement of record i. */
  function StatusFor(s: State, recs: seq<Record>, o: Outcomes, reach: Reach, i: nat): int
    requires i < |recs| && reach(i).Some?
  {
    EgressPage.AckResult(StoreAfter(s, recs, o, reach, i), Key(recs[i]), reach(i).value).1
  }

  /** Every answer is the gateway's own: the request arrived, and this is its status. */
  predicate Honest(s: State, recs: seq<Record>, o: Outcomes, reach: Reach) {
    forall i :: 0 <= i < |recs| && o.tx(i) && o.ack(i).Some? ==>
                  reach(i).Some? && o.ack(i).value == StatusFor(s, recs, o, reach, i)
  }

  /** Record i is counted although the gateway refused it, or was written although the bouncer never heard. */
  predicate Refused(o: Outcomes, i: nat) {
    o.tx(i) && o.ack(i).Some? && o.ack(i).value != 200
  }

  predicate Unheard(o: Outcomes, reach: Reach, i: nat) {
    Hit(o, reach, i) && o.ack(i).None?
  }

  function RefusedCount(o: Outcomes, n: nat): nat {
    if n == 0 then 0 else RefusedCount(o, n - 1) + (if Refused(o, n - 1) then 1 else 0)
  }

  function UnheardCount(o: Outcomes, reach: Reach, n: nat): nat {
    if n == 0 then 0 else UnheardCount(o, reach, n - 1) + (if Unheard(o, reach, n - 1) then 1 else 0)
  }

  function HitCount(o: Outcomes, reach: Reach, n: nat): nat {
    if n == 0 then 0 else HitCount(o, reach, n - 1) + (if Hit(o, reach, n - 1) then 1 else 0)
  }

  lemma StatusIsHit(s: State, recs: seq<Record>, o: Outcomes, reach: Reach, i: nat)
    requires i < |recs| && Offered(s, recs) && Acked(o, reach, i)
    ensures StatusFor(s, recs, o, reach, i) == 200 <==> Hit(o, reach, i)
  {
    SucceededIsHit(s, recs, o, reach, i);
    hide Key, StoreAfter, MarkResult, Offered;
  }

  /** With honest answers, an answered record is written exactly if the status is 200. */
  lemma HonestRecord(s: State, recs: seq<Record>, o: Outcomes, reach: Reach, i: nat)
    requires i < |recs| && Offered(s, recs) && Honest(s, recs, o, reach)
    ensures o.tx(i) && o.ack(i).Some? ==> (o.ack(i).value == 200 <==> Hit(o, reach, i))
    ensures (if o.tx(i) && o.ack(i).Some? then 1 else 0) + (if Unheard(o, reach, i) then 1 else 0)
            == (if Hit(o, reach, i) then 1 else 0) + (if Refused(o, i) then 1 else 0)
  {
    hide StatusFor, Offered;
    if o.tx(i) && o.ack(i).Some? {
      StatusIsHit(s, recs, o, reach, i);
    }
  }

  lemma {:induction false} CountsBalance(s: State, recs: seq<Record>, o: Outcomes, reach: Reach, n: nat)
    requires n <= |recs| && Offered(s, recs) && Honest(s, recs, o, reach)
    ensures Answered(o, n) + UnheardCount(o, reach, n) == HitCount(o, reach, n) + RefusedCount(o, n)
    decreases n
  {
    hide Honest, Offered, Hit, Refused, Unheard;
    if n > 0 {
      CountsBalance(s, recs, o, reach, n - 1);
      HonestRecord(s, recs, o, reach, n - 1);
    }
  }

  function HitKeys(recs: seq<Record>, o: Outcomes, reach: Reach, n: nat): set<string>
    requires n <= |recs|
  {
    if n == 0 then {} else HitKeys(recs, o, reach, n - 1) + (if Hit(o, reach, n - 1) then {Key(recs[n - 1])} else {})
  }

  lemma {:induction false} HitKeysExact(recs: seq<Record>, o: Outcomes, reach: Reach, n: nat, k: string)
    requires n <= |recs|
    ensures k in HitKeys(recs, o, reach, n) <==> HitKey(recs, o, reach, n, k)
    decreases n
  {
    hide Key, Hit;
    if n > 0 {
      HitKeysExact(recs, o, reach, n - 1, k);
      if HitKey(recs, o, reach, n - 1, k) {
        var i :| 0 <= i < n - 1 && Hit(o, reach, i) && Key(recs[i]) == k;
        assert Hit(o, reach, i) && Key(recs[i]) == k;
      }
    }
  }

  lemma HitKeysStep(recs: seq<Record>, o: Outcomes, reach: Reach, n: nat)
    requires n <= |recs|
    ensures HitKeys(recs, o, reach, n)
            == if n == 0 then {}
               else HitKeys(recs, o, reach, n - 1) + (if Hit(o, reach, n - 1) then {Key(recs[n - 1])} else {})
  {
    hide Key, Hit;
  }

  lemma {:induction false} HitKeysCount(s: State, recs: seq<Record>, o: Outcomes, reach: Reach, n: nat)
    requires n <= |recs| && Offered(s, recs)
    ensures |HitKeys(recs, o, reach, n)| == HitCount(o, reach, n)
    decreases n
  {
    hide Key, Offered, Hit, HitKey, HitKeys;
    HitKeysStep(recs, o, reach, n);
    if n > 0 {
      HitKeysCount(s, recs, o, reach, n - 1);
      NotYetHit(s, recs, o, reach, n - 1);
      AddOne(HitKeys(recs, o, reach, n - 1), Key(recs[n - 1]));
      assert HitKeys(recs, o, reach, n - 1) + {} == HitKeys(recs, o, reach, n - 1);
    }
  }

  lemma NotYetHit(s: State, recs: seq<Record>, o: Outcomes, reach: Reach, n: nat)
    requires n < |recs| && Offered(s, recs)
    ensures Key(recs[n]) !in HitKeys(recs, o, reach, n)
  {
    hide Key, HitKeys;
    HitKeysExact(recs, o, reach, n, Key(recs[n]));
  }

  lemma FlippedIsHitKeys(s: State, recs: seq<Record>, o: Outcomes, reach: Reach)
    requires Offered(s, recs)
    ensures Flipped(s, StoreAfter(s, recs, o, reach, |recs|)) == HitKeys(recs, o, reach, |recs|)
  {
    hide Key, StoreAfter, Flipped, HitKeys, Offered;
    var f, h := Flipped(s, StoreAfter(s, recs, o, reach, |recs|)), HitKeys(recs, o, reach, |recs|);
    forall k ensures k in f <==> k in h {
      HitKeysExact(recs, o, reach, |recs|, k);
      if k in f {
        OnlyOfferedFlip(s, recs, o, reach, k);
      }
      if k in h {
        var i :| 0 <= i < |recs| && Hit(o, reach, i) && Key(recs[i]) == k;
        FlippedIsHit(s, recs, o, reach, i);
      }
    }
  }

  /** No answer other than 200, and nothing written that the bouncer did not hear of. */
  predicate AllHeard(recs: seq<Record>, o: Outcomes, reach: Reach) {
    forall i :: 0 <= i < |recs| ==> !Refused(o, i) && !Unheard(o, reach, i)
  }

  /** When every answer is the gateway's own status, the number returned is off by exactly the refusals it counts and
      the silent successes it misses, and the counted receipts are the newly dispatched ones if and only if every answer
      is 200 and no unanswered request was written. */
  lemma HonestCount(s: State, p: seq<Record>, o: Outcomes, reach: Reach)
    requires Queue(s, p) && Honest(s, Pending(s.cache, L.PAGE_SIZE), o, reach)
    ensures var recs := Pending(s.cache, L.PAGE_SIZE);
            var t := TickResult(Response(200, PageBody(recs)), o);
            var flipped := Flipped(s, StoreAfter(s, recs, o, reach, |recs|));
            && t.count + UnheardCount(o, reach, |recs|) == |flipped| + RefusedCount(o, |recs|)
            && (Counted(recs, o, |recs|) == flipped <==> AllHeard(recs, o, reach))
  {
    hide Key, Queue, Pending, PageBody, TickResult, StoreAfter, Counted, Flipped, Ready, Honest, Offered, Hit, AllHeard,
      AnswersTellTruth, HitKeys;
    var recs := Pending(s.cache, L.PAGE_SIZE);
    PageIsOffered(s, p);
    CountIsDispatchedExactlyWhen(s, p, o, reach);
    CountIsCounted(s, recs, o, |recs|);
    CountsBalance(s, recs, o, reach, |recs|);
    HitKeysCount(s, recs, o, reach, |recs|);
    FlippedIsHitKeys(s, recs, o, reach);
    TruthIsHeard(s, recs, o, reach);
  }

  lemma TruthIsHeard(s: State, recs: seq<Record>, o: Outcomes, reach: Reach)
    requires Offered(s, recs) && Honest(s, recs, o, reach)
    ensures AnswersTellTruth(s, recs, o, reach) <==> AllHeard(recs, o, reach)
  {
    hide Key, Offered, Honest, Succeeded;
    forall i | 0 <= i < |recs|
      ensures (o.tx(i) ==> (o.ack(i).Some? <==> Succeeded(s, recs, o, reach, i)))
              <==> !Refused(o, i) && !Unheard(o, reach, i)
    {
      SucceededIsHit(s, recs, o, reach, i);
      HonestRecord(s, recs, o, reach, i);
    }
  }

  // ---- Where they differ --------------------------------------------------------------------------------------------

  function Blank(n: nat): Bytes {
    seq(n, _ => 0)
  }

  function Sample(): Record {
    Record(Decimal(7), P.HashHex(Blank(32)), 1, Decimal(5), 1, P.HashHex(Blank(20)), HexOf(Blank(112)), 0, 0, PENDING)
  }

  lemma SampleIsReady()
    ensures Ready(Sample())
  {
    hide HexOf, HexVal, Alnum, Decimal, Blank;
    DecimalIsAlnum(7);
    DecimalIsAlnum(5);
    DecimalWidths(7);
    DecimalWidths(5);
    BlankLengths();
    HexIsAlnum(Blank(32));
    HashIsAlnum(Blank(32));
    HexIsAlnum(Blank(20));
    HashIsAlnum(Blank(20));
    HexIsAlnum(Blank(112));
    DecodeUndoesEncode(Blank(112));
  }

  lemma BlankLengths()
    ensures |Blank(32)| == 32 && |Blank(20)| == 20 && |Blank(112)| == 112
  {
  }

  lemma SampleQueue()
    ensures var s := AppendResult(START, Sample(), Done).0;
            Queue(s, [Sample()]) && Pending(s.cache, L.PAGE_SIZE) == [Sample()] && Key(Sample()) in s.cache.records
  {
    SampleIsReady();
    hide Sample, Ready, Key, PutLine;
    assert Sample().dispatchStatus == PENDING by {
      SampleIsPending();
    }
    var k := Key(Sample());
    assert [k][..0] == [] && [] + [k] == [k];
    assert PendingIn(map[k := Sample()], [k][..0]) == [];
    assert PendingIn(map[k := Sample()], [k]) == [Sample()];
    L.OrderSnoc(EMPTY_CACHE, k, Sample());
  }

  lemma SampleIsPending()
    ensures Sample().dispatchStatus == PENDING
  {
  }

  /** A gateway that cannot write its log answers 500: the tick returns 1, and nothing was dispatched. */
  lemma CountedButNotDispatched()
    ensures var s := AppendResult(START, Sample(), Done).0;
            var recs := Pending(s.cache, L.PAGE_SIZE);
            var o: Outcomes := Outcomes(_ => true, _ => Some(500));
            var reach: Reach := _ => Some(Missing);
            && recs == [Sample()] && EgressPage.AckResult(s, Key(Sample()), Missing).1 == 500
            && TickResult(Response(200, PageBody(recs)), o).count == 1
            && StoreAfter(s, recs, o, reach, |recs|).cache == s.cache
            && Flipped(s, StoreAfter(s, recs, o, reach, |recs|)) == {}
  {
    hide Sample, Key, Queue, Pending, PageBody, TickResult, Ready, Picked, Frames, Acks, Flipped, CallsOf, SentIn, PostedIn;
    var s := AppendResult(START, Sample(), Done).0;
    var o: Outcomes := Outcomes(_ => true, _ => Some(500));
    var reach: Reach := _ => Some(Missing);
    SampleQueue();
    SampleIsReady();
    SampleIsPending();
    TickMeaning([Sample()], o);
    assert Answered(o, 1) == 1;
    StoreAfterMissing(s, o, reach);
    NothingFlips(s, StoreAfter(s, [Sample()], o, reach, 1));
  }

  lemma StoreAfterMissing(s: State, o: Outcomes, reach: Reach)
    requires o.tx(0) && reach(0) == Some(Missing) && Key(Sample()) in s.cache.records
    requires s.cache.records[Key(Sample())].dispatchStatus == PENDING
    ensures StoreAfter(s, [Sample()], o, reach, 1).cache == s.cache
    ensures EgressPage.AckResult(s, Key(Sample()), Missing).1 == 500
  {
    hide Sample, Key, PutLine;
    assert StoreAfter(s, [Sample()], o, reach, 0) == s;
  }

  lemma NothingFlips(s: State, t: State)
    requires t.cache == s.cache
    ensures Flipped(s, t) == {}
  {
  }
}
