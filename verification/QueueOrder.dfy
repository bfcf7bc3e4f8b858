/** The order of the queue over whole runs, reboots included: which outcomes of an append's line write keep it. */
module QueueOrder {
  import opened Words
  import opened Watcher
  import opened ReceiptStore
  import opened StoreRuns
  import opened Processor
  import opened Pipeline
  import opened Restarts

  /** A reload would only add to the order list; when no append has landed without success (`exact`) and the log ends in
      a newline, it would change nothing. */
  predicate OrderInv(exact: bool, s: State) {
    Rows(s.disk).Some? ==>
      var order := Replay(Rows(s.disk).value).order;
      s.cache.order <= order && (exact && s.disk.tail.Clean? ==> s.cache.order == order)
  }

  lemma ReplayGrows(rows: seq<Record>, row: Record)
    ensures var o := Replay(rows).order;
            && o <= Replay(rows + [row]).order
            && (Key(row) in Replay(rows).records ==> Replay(rows + [row]).order == o)
            && (Key(row) !in Replay(rows).records ==> Replay(rows + [row]).order == o + [Key(row)])
  {
    ReplaySnoc(rows, row);
    hide Key, Replay;
  }

  lemma TailAfter(d: Disk, row: Record, w: Write)
    ensures w.Unended? || w.Cut? ==> !PutLine(d, row, w).tail.Clean?
    ensures w.Cut? ==> Rows(PutLine(d, row, w)) == None
    ensures (w.Done? || w.Landed?) && Rows(PutLine(d, row, w)).Some? ==>
              d.tail.Clean? && Rows(d).Some? && Rows(PutLine(d, row, w)).value == Rows(d).value + [row]
  {
    RowsAfterWrite(d, row, w);
  }

  lemma AppendOrder(exact: bool, s: State, rec: Record, w: Write)
    requires Inv(s) && OrderOk(s.cache) && OrderInv(exact, s) && (if exact then !w.Landed? else !w.Done?)
    ensures var t := AppendResult(s, rec, w).0; OrderInv(exact, t) && s.cache.order <= t.cache.order
  {
    hide Key, PutLine, Rows, Replay, Inv, Normal;
    var t, row := AppendResult(s, rec, w).0, Normal(rec);
    NormalKey(rec);
    if Key(rec) !in s.cache.records && Rows(t.disk).Some? {
      RowsAfterWrite(s.disk, row, w);
      TailAfter(s.disk, row, w);
      var rows := Rows(s.disk).value;
      ReplayGrows(rows, row);
      if w.Done? {
        assert s.cache.order == Replay(rows).order;
        OrderDistinct(rows);
        assert Key(rec) !in Replay(rows).records;
      } else if w.Missing? {
        MissingKeeps(s.disk, row);
      }
    }
  }

  lemma MissingKeeps(d: Disk, row: Record)
    ensures PutLine(d, row, Missing) == d
  {
  }

  lemma MarkOrder(exact: bool, s: State, k: string, w: Write)
    requires Inv(s) && OrderInv(exact, s)
    ensures var t := MarkResult(s, k, w).0; OrderInv(exact, t) && t.cache.order == s.cache.order
  {
    var t := MarkResult(s, k, w).0;
    if t.disk != s.disk && Rows(t.disk).Some? {
      var row := s.cache.records[k].(dispatchStatus := DISPATCHED);
      MarkedIsLogged(s, k);
      hide PutLine, Rows, Replay, Inv;
      RowsAfterWrite(s.disk, row, w);
      TailAfter(s.disk, row, w);
      MissingKeeps(s.disk, row);
      ReplayGrows(Rows(s.disk).value, row);
    }
  }

  lemma MarkedIsLogged(s: State, k: string)
    requires Inv(s) && k in s.cache.records
    ensures Key(s.cache.records[k].(dispatchStatus := DISPATCHED)) == k
    ensures Rows(s.disk).Some? ==> k in Replay(Rows(s.disk).value).records
  {
    hide Rows, Replay;
  }

  /** Appends cannot both succeed and land unreported, or nothing is ever appended because the seed is no seed. */
  predicate OneWay(cfg: Config, allowed: set<Write>) {
    |cfg.seed| != 32 || Landed !in allowed || Done !in allowed
  }

  function Strict(cfg: Config, allowed: set<Write>): bool {
    |cfg.seed| != 32 || Landed !in allowed
  }

  lemma StepOrder(cfg: Config, allowed: set<Write>, w: World, step: Step)
    requires cfg.crypto.Sound() && OneWay(cfg, allowed) && StoresIn(allowed, [step])
    requires Inv(w.store) && OrderOk(w.store.cache) && OrderInv(Strict(cfg, allowed), w.store)
    ensures var v := Pipeline.Next(cfg, w, step);
            OrderInv(Strict(cfg, allowed), v.store) && w.store.cache.order <= v.store.cache.order
  {
    hide KeyOf, RecordOf, AppendResult, MarkResult, Rows, Replay, Inv, OrderOk;
    assert [step][0] == step;
    match step
    case Store(id, out) =>
      if id in w.jobs && w.jobs[id].Numbered? && |cfg.seed| == 32 {
        AppendOrder(Strict(cfg, allowed), w.store, RecordOf(cfg, w.jobs[id].ev, w.jobs[id].seqCount), out);
      }
    case Ack(i, out) =>
      if w.up && i < |w.aired| {
        MarkOrder(Strict(cfg, allowed), w.store, w.aired[i].key, out);
      }
    case _ =>
  }

  lemma {:induction false} OrderInvAlways(cfg: Config, allowed: set<Write>, steps: seq<Step>)
    requires cfg.crypto.Sound() && OneWay(cfg, allowed) && StoresIn(allowed, steps)
    ensures OrderInv(Strict(cfg, allowed), RunWorld(cfg, steps).store)
    decreases |steps|
  {
    hide OrderInv, Pipeline.Next, Inv, OrderOk, AiredOk, PageOk, JobsOk, OneWay, Strict;
    if steps == [] {
      StartOrder(Strict(cfg, allowed));
    } else {
      var init := steps[..|steps| - 1];
      OrderInvAlways(cfg, allowed, init);
      WorldInvAlways(cfg, init);
      StepOrder(cfg, allowed, RunWorld(cfg, init), steps[|steps| - 1]);
    }
  }

  lemma StartOrder(exact: bool)
    ensures OrderInv(exact, START_WORLD.store)
  {
  }

  /** The step keeps every place in the queue and puts no further pending receipt in front of any. */
  ghost predicate KeepsOrder(cfg: Config, steps: seq<Step>, step: Step)
    requires cfg.crypto.Sound()
  {
    var c, d := RunWorld(cfg, steps).store.cache, Pipeline.Next(cfg, RunWorld(cfg, steps), step).store.cache;
    c.order <= d.order
    && forall n :: 0 <= n <= |c.order| ==> |PendingIn(d.records, d.order[..n])| <= |PendingIn(c.records, c.order[..n])|
  }

  /** No step at all, reboots included, lets a receipt be overtaken. */
  lemma NoOvertakingEver(cfg: Config, allowed: set<Write>, steps: seq<Step>, step: Step)
    requires cfg.crypto.Sound() && OneWay(cfg, allowed) && StoresIn(allowed, steps + [step])
    ensures KeepsOrder(cfg, steps, step)
  {
    hide RunWorld, Pipeline.Next, OneWay, Strict, Inv, OrderOk, AiredOk, PageOk, JobsOk, PendingIn, OrderInv;
    var w := RunWorld(cfg, steps);
    var c, d := w.store.cache, Pipeline.Next(cfg, w, step).store.cache;
    assert forall i :: 0 <= i < |steps| ==> steps[i] == (steps + [step])[i];
    assert (steps + [step])[|steps|] == step;
    OrderInvAlways(cfg, allowed, steps);
    WorldInvAlways(cfg, steps);
    StepOrder(cfg, allowed, w, step);
    forall n | 0 <= n <= |c.order|
      ensures |PendingIn(d.records, d.order[..n])| <= |PendingIn(c.records, c.order[..n])|
    {
      if step == Boot {
        BootPending(cfg, w, n);
      } else {
        NoOvertaking(cfg, steps, step, n);
      }
    }
  }

  lemma BootPending(cfg: Config, w: World, n: nat)
    requires cfg.crypto.Sound() && Inv(w.store) && OrderOk(w.store.cache)
    requires var c, d := w.store.cache, Pipeline.Next(cfg, w, Boot).store.cache; n <= |c.order| && c.order <= d.order
    ensures var c, d := w.store.cache, Pipeline.Next(cfg, w, Boot).store.cache;
            |PendingIn(d.records, d.order[..n])| <= |PendingIn(c.records, c.order[..n])|
  {
    hide PendingIn, Rows, Replay, Inv;
    var c, d := w.store.cache, Pipeline.Next(cfg, w, Boot).store.cache;
    assert d.order[..n] == c.order[..n];
    forall k | k in c.records
      ensures k in d.records && (c.records[k].dispatchStatus != PENDING ==> d.records[k].dispatchStatus != PENDING)
    {
      if d != c {
        Frozen(w.store, Reopen, k);
        KnownStatuses(w.store, k);
      }
    }
    forall i | 0 <= i < n ensures c.order[..n][i] in c.records {
      assert c.order[i] in c.order;
    }
    PendingShrinks(c.records, d.records, c.order[..n]);
  }

  lemma KnownStatuses(s: State, k: string)
    requires Inv(s) && k in s.cache.records
    ensures s.cache.records[k].dispatchStatus != PENDING ==> s.cache.records[k].dispatchStatus == DISPATCHED
  {
    hide Behind, Rows;
  }

  /** Over every run whose appends have outcomes among the given ones, nobody is ever overtaken. */
  ghost predicate OrderSafe(cfg: Config, allowed: set<Write>)
    requires cfg.crypto.Sound()
  {
    forall steps: seq<Step>, step: Step :: StoresIn(allowed, steps + [step]) ==> KeepsOrder(cfg, steps, step)
  }

  function Payment(nonce: U256): Event {
    Event(0, 0, nonce, 0, seq(32, _ => 0), 0, 0)
  }

  lemma PaymentsApart()
    ensures ChainOk([Payment(0), Payment(1)])
  {
    var c := [Payment(0), Payment(1)];
    assert c[0].txNonce == 0 && c[1].txNonce == 1;
  }

  /** The exact condition: the queue keeps its order over all runs, whatever happens to marks, if and only if appends
      cannot both succeed and land while being reported as failed. Cut, unterminated and missing lines do not matter. */
  lemma OrderSafeExactlyWhen(cfg: Config, allowed: set<Write>)
    requires cfg.crypto.Sound()
    ensures OrderSafe(cfg, allowed) <==> !(|cfg.seed| == 32 && Landed in allowed && Done in allowed)
  {
    hide RunWorld, Pipeline.Next, KeepsOrder, Payment, StoresIn;
    if OneWay(cfg, allowed) {
      forall steps: seq<Step>, step: Step | StoresIn(allowed, steps + [step]) ensures KeepsOrder(cfg, steps, step) {
        NoOvertakingEver(cfg, allowed, steps, step);
      }
    } else {
      PaymentsApart();
      var steps := RebootReorders(cfg, Payment(0), Payment(1));
      KeysApart(Payment(0), Payment(1));
      Overtaken(cfg, allowed, steps, Payment(0), Payment(1));
    }
  }

  lemma Overtaken(cfg: Config, allowed: set<Write>, steps: seq<Step>, a: Event, b: Event)
    requires cfg.crypto.Sound() && {Landed, Done} <= allowed && StoresIn({Landed, Done}, steps) && KeyOf(a) != KeyOf(b)
    requires RunWorld(cfg, steps).store.cache.order == [KeyOf(b), KeyOf(a)]
    requires Restarted(cfg, RunWorld(cfg, steps)).store.cache.order == [KeyOf(a), KeyOf(b)]
    ensures StoresIn(allowed, (steps + [Crash]) + [Boot]) && !KeepsOrder(cfg, steps + [Crash], Boot)
  {
    hide KeyOf, RunWorld, Pipeline.Next, PendingIn;
    RunContinues(cfg, steps, [Crash]);
    CrashRuns(cfg, RunWorld(cfg, steps));
    assert [KeyOf(b), KeyOf(a)][0] != [KeyOf(a), KeyOf(b)][0];
  }

  lemma CrashRuns(cfg: Config, w: World)
    requires cfg.crypto.Sound()
    ensures RunFrom(cfg, w, [Crash]) == Pipeline.Next(cfg, w, Crash)
    ensures Pipeline.Next(cfg, w, Crash).store == w.store
  {
    RunFromNothing(cfg, w);
    RunFromSnoc(cfg, w, [], Crash);
    assert [] + [Crash] == [Crash];
  }
}
