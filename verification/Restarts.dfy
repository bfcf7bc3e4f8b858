/** What a crash and reboot of the gateway does to its receipts. */
module Restarts {
  import opened Words
  import opened Watcher
  import opened ReceiptStore
  import opened StoreRuns
  import opened Processor
  import opened Pipeline

  ghost function Restarted(cfg: Config, w: World): World
    requires cfg.crypto.Sound()
  {
    Pipeline.Next(cfg, Pipeline.Next(cfg, w, Crash), Boot)
  }

  /** The gateway comes back exactly when its log loads. Then every receipt it had is still there with the same body,
      and is pending again unless its frame went out. */
  lemma ReceiptsSurvive(cfg: Config, steps: seq<Step>, k: string)
    requires cfg.crypto.Sound() && k in RunWorld(cfg, steps).store.cache.records
    ensures var w := RunWorld(cfg, steps);
            var v := Restarted(cfg, w);
            && (v.up <==> Rows(w.store.disk).Some?)
            && (v.up ==> k in v.store.cache.records && SameBody(v.store.cache.records[k], w.store.cache.records[k])
                         && (v.store.cache.records[k].dispatchStatus == PENDING || WasAired(v.aired, k)))
            && (v.up && w.store.cache.records[k].dispatchStatus == DISPATCHED ==>
                  v.store.cache.records[k].dispatchStatus == DISPATCHED)
  {
    hide RunWorld, KeyOf, OnDisk, OrderOk, AiredOk, PageOk, JobsOk, Genuine, WasAired, Rows, Replay, Behind;
    var w := RunWorld(cfg, steps);
    var u := Pipeline.Next(cfg, w, Crash);
    WorldInvAlways(cfg, steps);
    StepWorldInv(cfg, w, Crash);
    StepWorldInv(cfg, u, Boot);
    var v := Restarted(cfg, w);
    if v.up {
      Frozen(w.store, Reopen, k);
      assert Good(cfg, v.chain, v.aired, v.store.cache.records[k]);
      assert CacheOk(v.store.cache);
    }
  }

  // ---- Reboots after whole writes ------------------------------------------------------------------------------------

  predicate Whole(step: Step) {
    (step.Store? || step.Ack?) ==> step.w.Done? || step.w.Missing?
  }

  lemma {:induction false} ExactAlways(cfg: Config, steps: seq<Step>)
    requires cfg.crypto.Sound() && forall i :: 0 <= i < |steps| ==> Whole(steps[i])
    ensures Exact(RunWorld(cfg, steps).store)
    decreases |steps|
  {
    hide Exact, KeyOf, RecordOf, AppendResult, MarkResult, Rows, Replay;
    if steps == [] {
      StartExact();
    } else {
      var w, step := RunWorld(cfg, steps[..|steps| - 1]), steps[|steps| - 1];
      ExactAlways(cfg, steps[..|steps| - 1]);
      StepExact(cfg, w, step);
    }
  }

  lemma StartExact()
    ensures Exact(START)
  {
  }

  lemma StepExact(cfg: Config, w: World, step: Step)
    requires cfg.crypto.Sound() && Exact(w.store) && Whole(step)
    ensures Exact(Pipeline.Next(cfg, w, step).store)
  {
    hide Exact, KeyOf, RecordOf, AppendResult, MarkResult, Rows, Replay;
    match step
    case Store(id, out) =>
      if id in w.jobs && w.jobs[id].Numbered? {
        ExactStep(w.store, DoAppend(RecordOf(cfg, w.jobs[id].ev, w.jobs[id].seqCount), out));
      }
    case Ack(i, out) =>
      if w.up && i < |w.aired| {
        ExactStep(w.store, DoMark(w.aired[i].key, out));
      }
    case Boot => ExactReopens(w.store);
    case _ =>
  }

  lemma ExactReopens(s: State)
    requires Exact(s)
    ensures Rows(s.disk).Some? && s.(cache := Replay(Rows(s.disk).value)) == s
  {
  }

  /** When every line write lands whole or not at all, a reboot leaves cache and log as they were. */
  lemma RebootChangesNothing(cfg: Config, steps: seq<Step>)
    requires cfg.crypto.Sound() && forall i :: 0 <= i < |steps| ==> Whole(steps[i])
    ensures Restarted(cfg, RunWorld(cfg, steps)).store == RunWorld(cfg, steps).store
  {
    hide RunWorld, KeyOf, RecordOf, Rows, Replay, PutLine, PendingIn, Exact;
    ExactAlways(cfg, steps);
    ExactReopens(RunWorld(cfg, steps).store);
  }

  // ---- A reboot that reorders --------------------------------------------------------------------------------------

  /** One Handle call for chain event i, run without interference. */
  function HandleSteps(id: nat, i: nat, out: Write): seq<Step> {
    [] + [Again(id, i)] + [Check(id)] + [Take(id)] + [Store(id, out)]
  }

  lemma HandleRuns(cfg: Config, w: World, id: nat, i: nat, out: Write)
    requires cfg.crypto.Sound() && |cfg.seed| == 32 && w.up && i < |w.chain| && id !in w.jobs
    requires KeyOf(w.chain[i]) !in w.store.cache.records
    ensures var v := RunFrom(cfg, w, HandleSteps(id, i, out));
            && v.store == AppendResult(w.store, RecordOf(cfg, w.chain[i], w.seqCount), out).0
            && v.jobs == w.jobs && v.up && v.chain == w.chain
  {
    hide RunFrom, KeyOf, RecordOf, PutLine, Pipeline.Next;
    var a := [] + [Again(id, i)];
    var b := a + [Check(id)];
    var c := b + [Take(id)];
    RunFromNothing(cfg, w);
    RunFromSnoc(cfg, w, [], Again(id, i));
    RunFromSnoc(cfg, w, a, Check(id));
    RunFromSnoc(cfg, w, b, Take(id));
    RunFromSnoc(cfg, w, c, Store(id, out));
    var u := Pipeline.Next(cfg, w, Again(id, i));
    AgainEnters(cfg, w, id, i);
    SectionsMakeHandle(cfg, u, id, out);
    HandleAppends(cfg, u.store, u.seqCount, w.chain[i], out);
    assert u.jobs - {id} == w.jobs;
  }

  lemma AgainEnters(cfg: Config, w: World, id: nat, i: nat)
    requires cfg.crypto.Sound() && w.up && i < |w.chain| && id !in w.jobs
    ensures Pipeline.Next(cfg, w, Again(id, i)) == w.(jobs := w.jobs[id := Entered(w.chain[i])])
  {
  }

  lemma HandleAppends(cfg: Config, s: State, q: U16, ev: Event, out: Write)
    requires cfg.crypto.Sound() && |cfg.seed| == 32 && KeyOf(ev) !in s.cache.records
    ensures HandleResult(cfg, s, q, ev, out).0 == AppendResult(s, RecordOf(cfg, ev, q), out).0
  {
    hide KeyOf, RecordOf, AppendResult;
  }

  /** The appends of a run have one of the given outcomes; marks may have any. */
  predicate StoresIn(allowed: set<Write>, steps: seq<Step>) {
    forall i :: 0 <= i < |steps| && steps[i].Store? ==> steps[i].w in allowed
  }

  lemma StoresInAppend(allowed: set<Write>, a: seq<Step>, b: seq<Step>)
    requires StoresIn(allowed, a) && StoresIn(allowed, b)
    ensures StoresIn(allowed, a + b)
  {
  }

  /** Two events on the chain, the gateway up, nothing recorded yet. */
  function Opening(a: Event, b: Event): seq<Step> {
    [] + [Emit(a)] + [Emit(b)] + [Boot]
  }

  lemma OpeningRuns(cfg: Config, a: Event, b: Event)
    requires cfg.crypto.Sound() && ChainOk([a, b])
    ensures var w := RunWorld(cfg, Opening(a, b));
            w.chain == [a, b] && w.up && w.store == START && w.jobs == map[]
  {
    hide RunFrom, KeyOf, RecordOf;
    RunFromNothing(cfg, START_WORLD);
    RunFromSnoc(cfg, START_WORLD, [], Emit(a));
    RunFromSnoc(cfg, START_WORLD, [] + [Emit(a)], Emit(b));
    RunFromSnoc(cfg, START_WORLD, [] + [Emit(a)] + [Emit(b)], Boot);
    RunContinues(cfg, [], Opening(a, b));
    assert [] + Opening(a, b) == Opening(a, b);
    assert [a, b][0] == a && [a, b][1] == b;
    StartExact();
    ExactReopens(START);
  }

  lemma KeysApart(a: Event, b: Event)
    requires ChainOk([a, b])
    ensures KeyOf(a) != KeyOf(b)
  {
    assert [a, b][0].txNonce != [a, b][1].txNonce;
    hide KeyOf;
    if KeyOf(a) == KeyOf(b) {
      KeyIdentifies(a, b);
      assert false;
    }
  }

  lemma ReorderStores(a: Event, b: Event)
    ensures StoresIn({Landed, Done}, Opening(a, b) + HandleSteps(0, 0, Landed) + HandleSteps(0, 1, Done) + HandleSteps(0, 0, Done))
  {
    var w: set<Write> := {Landed, Done};
    StoresInAppend(w, Opening(a, b), HandleSteps(0, 0, Landed));
    StoresInAppend(w, Opening(a, b) + HandleSteps(0, 0, Landed), HandleSteps(0, 1, Done));
    StoresInAppend(w, Opening(a, b) + HandleSteps(0, 0, Landed) + HandleSteps(0, 1, Done), HandleSteps(0, 0, Done));
  }

  /** For any two events there is a run, with one append landed but reported as failed, after which a reboot swaps the two
      receipts in the queue. */
  lemma RebootReorders(cfg: Config, a: Event, b: Event) returns (steps: seq<Step>)
    requires cfg.crypto.Sound() && |cfg.seed| == 32 && ChainOk([a, b])
    ensures var w := RunWorld(cfg, steps);
            && w.up && w.store.cache.order == [KeyOf(b), KeyOf(a)]
            && Restarted(cfg, w).up && Restarted(cfg, w).store.cache.order == [KeyOf(a), KeyOf(b)]
    ensures StoresIn({Landed, Done}, steps)
  {
    hide RunWorld, RunFrom, KeyOf, RecordOf, PutLine, Rows, Replay, HandleSteps;
    var s0 := Opening(a, b);
    OpeningRuns(cfg, a, b);
    var w0 := RunWorld(cfg, s0);
    KeysApart(a, b);
    var s1 := s0 + HandleSteps(0, 0, Landed);
    RunContinues(cfg, s0, HandleSteps(0, 0, Landed));
    HandleRuns(cfg, w0, 0, 0, Landed);
    var w1 := RunWorld(cfg, s1);
    RecordOfKey(cfg, a, w0.seqCount);
    var s2 := s1 + HandleSteps(0, 1, Done);
    RunContinues(cfg, s1, HandleSteps(0, 1, Done));
    HandleRuns(cfg, w1, 0, 1, Done);
    var w2 := RunWorld(cfg, s2);
    RecordOfKey(cfg, b, w1.seqCount);
    steps := s2 + HandleSteps(0, 0, Done);
    RunContinues(cfg, s2, HandleSteps(0, 0, Done));
    HandleRuns(cfg, w2, 0, 0, Done);
    RecordOfKey(cfg, a, w2.seqCount);
    ReorderStores(a, b);
    LandedReorders(START, RecordOf(cfg, a, w0.seqCount), RecordOf(cfg, b, w1.seqCount), RecordOf(cfg, a, w2.seqCount));
  }
}
