/** The pipeline's deliveries are the watcher's polls: for every history of polls over a growing chain, across any number
    of gateway restarts, there is a run of the pipeline machine that delivers in each boot exactly what the watcher hands
    to its handler, event by event. And the chain of the contract meets what that takes. */
module WatcherFeeds {
  import opened Words
  import opened Watcher
  import opened ReceiptStore
  import StoreRuns
  import Escrow
  import P = Processor
  import opened Pipeline

  lemma {:induction false} EventsPrefix(logs: seq<Log>, time: nat -> U64, m: nat)
    requires AllWords32(logs) && AllDecode(logs) && m <= |logs|
    ensures Events(logs[..m], time) == Events(logs, time)[..m]
    decreases |logs|
  {
    hide Decode, Words32;
    if m == |logs| {
      assert logs[..m] == logs;
    } else {
      EventsPrefix(logs[..|logs| - 1], time, m);
      assert logs[..|logs| - 1][..m] == logs[..m];
    }
  }

  /** On a sorted chain, the logs below a block are a prefix. */
  lemma {:induction false} WithinIsPrefix(logs: seq<Log>, upTo: nat)
    requires forall i, j :: 0 <= i < j < |logs| ==> logs[i].block <= logs[j].block
    ensures |Within(logs, 0, upTo)| <= |logs| && Within(logs, 0, upTo) == logs[..|Within(logs, 0, upTo)|]
    decreases |logs|
  {
    if logs != [] {
      var init := logs[..|logs| - 1];
      WithinIsPrefix(init, upTo);
      if logs[|logs| - 1].block < upTo {
        AllWithin(init, upTo);
        assert logs == init + [logs[|logs| - 1]];
      } else {
        var n := |Within(init, 0, upTo)|;
        assert init[..n] == logs[..n];
      }
    }
  }

  lemma {:induction false} AllWithin(logs: seq<Log>, upTo: nat)
    requires forall i :: 0 <= i < |logs| ==> logs[i].block < upTo
    ensures Within(logs, 0, upTo) == logs
    decreases |logs|
  {
    if logs != [] {
      AllWithin(logs[..|logs| - 1], upTo);
      WithinSnoc(logs, 0, upTo);
      hide Within;
      assert logs == logs[..|logs| - 1] + [logs[|logs| - 1]];
    }
  }

  function EmitSteps(events: seq<Event>): seq<Step> {
    if events == [] then [] else EmitSteps(events[..|events| - 1]) + [Emit(events[|events| - 1])]
  }

  lemma {:induction false} EmitAll(cfg: P.Config, w: World, events: seq<Event>)
    requires cfg.crypto.Sound() && ChainOk(w.chain + events)
    ensures RunFrom(cfg, w, EmitSteps(events)) == w.(chain := w.chain + events)
    decreases |events|
  {
    hide RunFrom;
    if events == [] {
      RunFromNothing(cfg, w);
      assert w.chain + [] == w.chain;
    } else {
      var init, ev := events[..|events| - 1], events[|events| - 1];
      var before, all := w.chain + init, w.chain + events;
      assert all == before + [ev];
      assert forall i :: 0 <= i < |before| ==> before[i] == all[i];
      EmitAll(cfg, w, init);
      RunFromSnoc(cfg, w, EmitSteps(init), Emit(ev));
      assert all[|before|] == ev;
    }
  }

  function DeliverSteps(from: nat, n: nat): seq<Step> {
    if n == 0 then [] else DeliverSteps(from, n - 1) + [Deliver(from + n - 1)]
  }

  /** The first d events have a Handle call each, under their own numbers, and no other number is in use. */
  predicate Delivering(w: World, d: nat) {
    w.up && w.delivered == d <= |w.chain|
    && (forall id :: id in w.jobs ==> id < d)
    && (forall n :: 0 <= n < d ==> n in w.jobs && w.jobs[n] == Entered(w.chain[n]))
  }

  lemma {:induction false} DeliverAll(cfg: P.Config, w: World, d: nat, n: nat)
    requires cfg.crypto.Sound() && Delivering(w, d) && d + n <= |w.chain|
    ensures var v := RunFrom(cfg, w, DeliverSteps(d, n)); Delivering(v, d + n) && v.chain == w.chain && v.store == w.store
    decreases n
  {
    hide RunFrom;
    if n == 0 {
      RunFromNothing(cfg, w);
    } else {
      DeliverAll(cfg, w, d, n - 1);
      RunFromSnoc(cfg, w, DeliverSteps(d, n - 1), Deliver(d + n - 1));
    }
  }

  /** All events of a chain, as the watcher would decode them. */
  function AllEvents(c: Chain): seq<Event>
    requires AllWords32(c.logs) && AllDecode(c.logs)
  {
    Events(c.logs, c.time)
  }

  lemma EventsGrow(c: Chain, d: Chain) returns (more: seq<Event>)
    requires Extends(c, d) && c.Valid() && AllWords32(c.logs) && AllWords32(d.logs) && AllDecode(d.logs)
    ensures AllDecode(c.logs) && AllEvents(d) == AllEvents(c) + more
  {
    hide Decode, Words32;
    var rest := d.logs[|c.logs|..];
    assert d.logs == c.logs + rest;
    assert AllWords32(rest) && AllDecode(rest) && AllDecode(c.logs) by {
      assert forall i :: 0 <= i < |rest| ==> rest[i] == d.logs[|c.logs| + i];
      assert forall i :: 0 <= i < |c.logs| ==> c.logs[i] == d.logs[i];
    }
    EventsAppend(c.logs, rest, d.time);
    EventsTime(c.logs, c.time, d.time);
    more := Events(rest, d.time);
  }

  lemma ChainOkPrefix(a: seq<Event>, b: seq<Event>)
    requires ChainOk(a + b)
    ensures ChainOk(a)
  {
    assert forall i :: 0 <= i < |a| ==> (a + b)[i] == a[i];
  }

  /** What the watcher handed over is a prefix of the chain's events. */
  lemma DeliveredIsPrefix(rounds: seq<Round>)
    requires History(rounds) && rounds != [] && AllDecode(rounds[|rounds| - 1].c.logs)
    ensures forall i :: 0 <= i < |rounds| ==> AllWords32(rounds[i].c.logs)
    ensures var all, d := AllEvents(rounds[|rounds| - 1].c), Delivered(0, rounds);
            |d| <= |all| && d == all[..|d|]
  {
    hide Decode, Words32, Events, Within, AllDecode;
    HistoryParts(rounds);
    DeliversAllBelowCursor(0, rounds);
    var c, upTo := rounds[|rounds| - 1].c, Cursor(0, rounds);
    WithinIsPrefix(c.logs, upTo);
    EventsPrefix(c.logs, c.time, |Within(c.logs, 0, upTo)|);
  }

  // ---- Histories over several boots -----------------------------------------------------------------------------

  /** A history whose chain can be decoded and never repeats a nonce, as the contract guarantees (ContractLogs). */
  ghost predicate GoodHistory(rounds: seq<Round>) {
    History(rounds)
    && (rounds != [] ==> var c := rounds[|rounds| - 1].c;
                         AllWords32(c.logs) && AllDecode(c.logs) && ChainOk(AllEvents(c)))
  }

  /** The events of the chain as the last poll saw it. */
  ghost function Seen(rounds: seq<Round>): seq<Event>
    requires GoodHistory(rounds)
  {
    if rounds == [] then [] else AllEvents(rounds[|rounds| - 1].c)
  }

  lemma HistoryPrefix(rounds: seq<Round>, k: nat)
    requires History(rounds) && k <= |rounds|
    ensures History(rounds[..k])
  {
    hide Words32, AllWords32, Extends;
  }

  lemma HistorySuffix(past: seq<Round>, rounds: seq<Round>)
    requires History(past + rounds)
    ensures History(rounds)
  {
    hide Words32, AllWords32, Extends;
    var all := past + rounds;
    forall i | 0 <= i < |rounds| ensures rounds[i] == all[|past| + i] {
    }
    forall i | 0 < i < |rounds| ensures Extends(rounds[i - 1].c, rounds[i].c) {
      assert rounds[i - 1] == all[|past| + i - 1];
    }
  }

  /** One poll earlier the history was good too, and the chain it saw was a prefix. */
  lemma OneEarlier(rounds: seq<Round>)
    requires GoodHistory(rounds) && rounds != []
    ensures GoodHistory(rounds[..|rounds| - 1]) && Seen(rounds[..|rounds| - 1]) <= Seen(rounds)
  {
    hide Decode, Words32, Events, AllDecode, ChainOk, AllWords32, Extends, History;
    HistoryParts(rounds);
    var before := rounds[..|rounds| - 1];
    if before != [] {
      HistoryParts(before);
      var more := EventsGrow(before[|before| - 1].c, rounds[|rounds| - 1].c);
      ChainOkPrefix(AllEvents(before[|before| - 1].c), more);
    }
  }

  lemma {:induction false} GoodPrefix(rounds: seq<Round>, k: nat)
    requires GoodHistory(rounds) && k <= |rounds|
    ensures GoodHistory(rounds[..k])
    decreases |rounds|
  {
    hide GoodHistory;
    if k == |rounds| {
      assert rounds[..k] == rounds;
    } else {
      var before := rounds[..|rounds| - 1];
      OneEarlier(rounds);
      GoodPrefix(before, k);
      assert before[..k] == rounds[..k];
    }
  }

  /** The world during a boot: nothing recorded yet, the chain emitted as far as it was seen, and what the watcher handed
      over in this boot is a prefix of it, each event with a Handle call of its own. */
  ghost predicate Follows(w: World, past: seq<Round>, rounds: seq<Round>)
    requires GoodHistory(past + rounds)
    requires forall i :: 0 <= i < |rounds| ==> AllWords32(rounds[i].c.logs)
  {
    && w.store == StoreRuns.START && w.chain == Seen(past + rounds)
    && Delivering(w, |Delivered(0, rounds)|) && Delivered(0, rounds) == w.chain[..w.delivered]
  }

  lemma WordsOfHistory(rounds: seq<Round>)
    requires History(rounds)
    ensures forall i :: 0 <= i < |rounds| ==> AllWords32(rounds[i].c.logs)
  {
    hide AllWords32, Extends;
  }

  /** A crash and a boot start the deliveries over; the chain stays. */
  lemma NewBoot(cfg: P.Config, first: seq<Step>) returns (steps: seq<Step>)
    requires cfg.crypto.Sound() && RunWorld(cfg, first).store == StoreRuns.START
    ensures first <= steps && RunWorld(cfg, steps).store == StoreRuns.START
    ensures RunWorld(cfg, steps).chain == RunWorld(cfg, first).chain && Delivering(RunWorld(cfg, steps), 0)
  {
    hide RunWorld, RunFrom;
    var w := RunWorld(cfg, first);
    var restart := [] + [Crash] + [Boot];
    RunFromNothing(cfg, w);
    RunFromSnoc(cfg, w, [], Crash);
    RunFromSnoc(cfg, w, [] + [Crash], Boot);
    RunContinues(cfg, first, restart);
    steps := first + restart;
    RestartEmpty(cfg, w);
  }

  lemma RestartEmpty(cfg: P.Config, w: World)
    requires cfg.crypto.Sound() && w.store == StoreRuns.START
    ensures var v := Pipeline.Next(cfg, Pipeline.Next(cfg, w, Crash), Boot);
            v.store == StoreRuns.START && v.chain == w.chain && Delivering(v, 0)
  {
    EmptyLogLoads();
  }

  lemma EmptyLogLoads()
    ensures Rows(StoreRuns.START.disk) == Some([]) && Replay([]) == EMPTY_CACHE
  {
  }

  /** One more poll: the new events are emitted, and what the poll returned is delivered. */
  lemma FollowRound(cfg: P.Config, first: seq<Step>, past: seq<Round>, rounds: seq<Round>) returns (steps: seq<Step>)
    requires cfg.crypto.Sound() && rounds != [] && GoodHistory(past + rounds) && GoodHistory(past + rounds[..|rounds| - 1])
    requires forall i :: 0 <= i < |rounds| ==> AllWords32(rounds[i].c.logs)
    requires Follows(RunWorld(cfg, first), past, rounds[..|rounds| - 1])
    requires Seen(past + rounds[..|rounds| - 1]) <= Seen(past + rounds)
    requires var d := Delivered(0, rounds); |d| <= |Seen(past + rounds)| && d == Seen(past + rounds)[..|d|]
    ensures first <= steps && Follows(RunWorld(cfg, steps), past, rounds)
  {
    hide RunWorld, RunFrom, Decode, Words32, Events, AllDecode, ChainOk, AllEvents, Cursor, Fetched, GoodHistory, AllWords32,
      Seen;
    var w := RunWorld(cfg, first);
    var all := Seen(past + rounds);
    var more := all[|w.chain|..];
    assert all == w.chain + more;
    var m, n := |Delivered(0, rounds[..|rounds| - 1])|, |Delivered(0, rounds)|;
    assert m <= n;
    SeenOk(past + rounds);
    var emitted := first + EmitSteps(more);
    RunContinues(cfg, first, EmitSteps(more));
    EmitAll(cfg, w, more);
    var u := RunWorld(cfg, emitted);
    assert forall i :: 0 <= i < m ==> u.chain[i] == w.chain[i];
    steps := emitted + DeliverSteps(m, n - m);
    RunContinues(cfg, emitted, DeliverSteps(m, n - m));
    DeliverAll(cfg, u, m, n - m);
  }

  lemma SeenOk(rounds: seq<Round>)
    requires GoodHistory(rounds)
    ensures ChainOk(Seen(rounds))
  {
    hide Decode, Words32, Events, AllDecode, AllWords32;
  }

  /** One boot: from any world in which nothing is recorded, a restart followed by the polls of this boot. */
  lemma {:induction false} BootFeeds(cfg: P.Config, first: seq<Step>, past: seq<Round>, rounds: seq<Round>)
    returns (steps: seq<Step>)
    requires cfg.crypto.Sound() && GoodHistory(past + rounds) && GoodHistory(past)
    requires RunWorld(cfg, first).store == StoreRuns.START && RunWorld(cfg, first).chain == Seen(past)
    ensures forall i :: 0 <= i < |rounds| ==> AllWords32(rounds[i].c.logs)
    ensures first <= steps && Follows(RunWorld(cfg, steps), past, rounds)
    decreases |rounds|
  {
    hide RunWorld, RunFrom, Decode, Words32, Events, AllDecode, ChainOk, AllWords32, AllEvents, GoodHistory, Seen;
    GoodIsHistory(past + rounds);
    HistorySuffix(past, rounds);
    WordsOfHistory(rounds);
    if rounds == [] {
      assert past + rounds == past;
      steps := NewBoot(cfg, first);
    } else {
      var before := rounds[..|rounds| - 1];
      assert (past + rounds)[..|past + rounds| - 1] == past + before;
      OneEarlier(past + rounds);
      var earlier := BootFeeds(cfg, first, past, before);
      LastDecodes(past + rounds);
      DeliveredIsPrefix(rounds);
      assert (past + rounds)[|past + rounds| - 1] == rounds[|rounds| - 1];
      steps := FollowRound(cfg, earlier, past, rounds);
    }
  }

  lemma GoodIsHistory(rounds: seq<Round>)
    requires GoodHistory(rounds)
    ensures History(rounds)
  {
    hide History, AllDecode, AllWords32, ChainOk;
  }

  lemma LastDecodes(rounds: seq<Round>)
    requires GoodHistory(rounds) && rounds != []
    ensures var c := rounds[|rounds| - 1].c;
            AllWords32(c.logs) && AllDecode(c.logs) && Seen(rounds) == AllEvents(c)
  {
    hide History, AllDecode, AllWords32, ChainOk, AllEvents;
  }

  function Flat(boots: seq<seq<Round>>): seq<Round> {
    if boots == [] then [] else Flat(boots[..|boots| - 1]) + boots[|boots| - 1]
  }

  /** run b of the result is a run of the pipeline up to the end of boot b, and each continues the one before. */
  ghost predicate Feeds(cfg: P.Config, boots: seq<seq<Round>>, runs: seq<seq<Step>>)
    requires cfg.crypto.Sound()
  {
    |runs| == |boots|
    && (forall b :: 0 < b < |runs| ==> runs[b - 1] <= runs[b])
    && forall b :: 0 <= b < |runs| ==>
         GoodHistory(Flat(boots[..b]) + boots[b])
         && (forall i :: 0 <= i < |boots[b]| ==> AllWords32(boots[b][i].c.logs))
         && Follows(RunWorld(cfg, runs[b]), Flat(boots[..b]), boots[b])
  }

  lemma FeedsSnoc(cfg: P.Config, boots: seq<seq<Round>>, runs: seq<seq<Step>>, last: seq<Step>)
    requires cfg.crypto.Sound() && boots != [] && Feeds(cfg, boots[..|boots| - 1], runs)
    requires runs != [] ==> runs[|runs| - 1] <= last
    requires var past, rounds := Flat(boots[..|boots| - 1]), boots[|boots| - 1];
             && GoodHistory(past + rounds) && (forall i :: 0 <= i < |rounds| ==> AllWords32(rounds[i].c.logs))
             && Follows(RunWorld(cfg, last), past, rounds)
    ensures Feeds(cfg, boots, runs + [last])
  {
    hide RunWorld, Follows, GoodHistory, AllWords32, Flat;
    var init, all := boots[..|boots| - 1], runs + [last];
    forall b | 0 <= b < |all|
      ensures GoodHistory(Flat(boots[..b]) + boots[b])
              && (forall i :: 0 <= i < |boots[b]| ==> AllWords32(boots[b][i].c.logs))
              && Follows(RunWorld(cfg, all[b]), Flat(boots[..b]), boots[b])
    {
      if b < |runs| {
        assert init[..b] == boots[..b] && init[b] == boots[b];
      } else {
        assert boots[..b] == init;
      }
    }
  }

  /** For every history of polls, cut into boots anywhere, with the cursor back at block 0 in each boot: one run of the
      pipeline, with a crash and a boot at every cut, delivers in each boot exactly the events the watcher handed over in
      it, in order. */
  lemma {:induction false} PollsFeedPipeline(cfg: P.Config, boots: seq<seq<Round>>) returns (runs: seq<seq<Step>>)
    requires cfg.crypto.Sound() && GoodHistory(Flat(boots))
    ensures Feeds(cfg, boots, runs)
    ensures var w := RunWorld(cfg, if runs == [] then [] else runs[|runs| - 1]);
            w.store == StoreRuns.START && w.chain == Seen(Flat(boots))
    decreases |boots|
  {
    hide RunWorld, GoodHistory, Seen, Delivering, AllWords32;
    if boots == [] {
      runs := [];
      StartSees(cfg);
    } else {
      var init, rounds := boots[..|boots| - 1], boots[|boots| - 1];
      var past := Flat(init);
      GoodPrefix(past + rounds, |past|);
      assert (past + rounds)[..|past|] == past;
      var earlier := PollsFeedPipeline(cfg, init);
      var first := if earlier == [] then [] else earlier[|earlier| - 1];
      var last := BootFeeds(cfg, first, past, rounds);
      FeedsSnoc(cfg, boots, earlier, last);
      runs := earlier + [last];
    }
  }

  lemma StartSees(cfg: P.Config)
    requires cfg.crypto.Sound()
    ensures RunWorld(cfg, []).store == StoreRuns.START && GoodHistory([]) && RunWorld(cfg, []).chain == Seen([])
  {
  }

  // ---- The contract's chain ---------------------------------------------------------------------------------------

  /** The logs are those the contract emitted, each in some transaction and block. */
  ghost predicate FromContract(l: Escrow.Ledger, c: Chain, signature: Bytes) {
    |signature| == 32 && |c.logs| == |l.events|
    && forall i :: 0 <= i < |c.logs| ==>
         |c.logs[i].txHash| == 32
         && c.logs[i] == Emitted(l.events[i], signature, c.logs[i].txHash, c.logs[i].block)
  }

  /** The event the watcher makes of a contract event. */
  function EventOf(e: Escrow.Created, l: Log, time: U64): Event {
    Event(e.satId, e.amount, e.txNonce, e.wallet, l.txHash, l.block, time)
  }

  lemma {:induction false} EventsAt(logs: seq<Log>, time: nat -> U64, i: nat)
    requires AllWords32(logs) && AllDecode(logs) && i < |logs|
    ensures Events(logs, time)[i] == Decode(logs[i]).value.(time := time(logs[i].block))
    decreases |logs|
  {
    hide Decode, Words32;
    if i < |logs| - 1 {
      EventsAt(logs[..|logs| - 1], time, i);
    }
  }

  /** The logs of any sequence of settleBatch calls decode to the recorded intents, and their nonces never repeat: all
      that the histories above take for granted. */
  lemma ContractLogs(batches: seq<seq<Escrow.Intent>>, c: Chain, signature: Bytes)
    requires FromContract(Escrow.Run(Escrow.EMPTY, batches), c, signature)
    ensures AllWords32(c.logs) && AllDecode(c.logs) && |AllEvents(c)| == |c.logs| && ChainOk(AllEvents(c))
    ensures var events := Escrow.Run(Escrow.EMPTY, batches).events;
            forall i :: 0 <= i < |events| ==> AllEvents(c)[i] == EventOf(events[i], c.logs[i], c.time(c.logs[i].block))
  {
    hide Escrow.Run, Escrow.Matches, Escrow.Announced, Decode, Words32, Emitted, Events;
    var events := Escrow.Run(Escrow.EMPTY, batches).events;
    Escrow.RunInv(batches);
    forall i | 0 <= i < |c.logs|
      ensures Words32(c.logs[i]) && Decode(c.logs[i]).Some?
              && Decode(c.logs[i]).value.(time := c.time(c.logs[i].block))
                 == EventOf(events[i], c.logs[i], c.time(c.logs[i].block))
    {
      DecodeUndoesEmit(events[i], signature, c.logs[i].txHash, c.logs[i].block);
    }
    forall i | 0 <= i < |events|
      ensures AllEvents(c)[i] == EventOf(events[i], c.logs[i], c.time(c.logs[i].block))
    {
      EventsAt(c.logs, c.time, i);
    }
  }

  /** Polls of a chain whose logs the contract emitted feed the pipeline, with no further assumption about the logs. */
  lemma ContractFeedsPipeline(cfg: P.Config, batches: seq<seq<Escrow.Intent>>, boots: seq<seq<Round>>, signature: Bytes)
    returns (runs: seq<seq<Step>>)
    requires cfg.crypto.Sound() && History(Flat(boots)) && Flat(boots) != []
    requires FromContract(Escrow.Run(Escrow.EMPTY, batches), Flat(boots)[|Flat(boots)| - 1].c, signature)
    ensures Feeds(cfg, boots, runs)
  {
    hide RunWorld, FromContract, Flat, Feeds, Escrow.Run, History, Seen;
    var c := Flat(boots)[|Flat(boots)| - 1].c;
    ContractLogs(batches, c, signature);
    runs := PollsFeedPipeline(cfg, boots);
  }
}
