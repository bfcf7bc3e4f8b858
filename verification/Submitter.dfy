/** The buffered submitter (gateway/internal/core/chain/submitter.go). Every section that holds the lock is one
    step; the timer callbacks of the Go runtime are steps of their own, so a callback that fired before its
    timer was stopped can still take the lock later. */
module Submitter {
  import opened Words

  const DEFAULT_MAX_BATCH: nat := 10

  /** `armed` are the running timers, `fired` the callbacks still waiting for the lock; `accepted` and `stolen`
      record what Enqueue took in and the batches handed to submit, in order. */
  datatype State<T> = State(buf: seq<T>, timer: Option<nat>, closed: bool, armed: set<nat>, fired: set<nat>,
                            nextTimer: nat, accepted: seq<T>, stolen: seq<seq<T>>)

  datatype Step<T> = Enqueue(intent: T) | Flush | Stop | Fire(timer: nat) | OnTimer(timer: nat)

  function Init<T>(): State<T> {
    State([], None, false, {}, {}, 0, [], [])
  }

  function Steal<T>(s: State<T>): State<T> {
    var t := s.(buf := [], timer := None, armed := if s.timer.Some? then s.armed - {s.timer.value} else s.armed);
    if s.buf == [] then t else t.(stolen := s.stolen + [s.buf])
  }

  function Next<T>(max: nat, s: State<T>, step: Step<T>): State<T> {
    match step
    case Enqueue(x) =>
      if s.closed then s
      else
        var t := s.(buf := s.buf + [x], accepted := s.accepted + [x]);
        var u := if |t.buf| == 1
                 then t.(timer := Some(t.nextTimer), armed := t.armed + {t.nextTimer}, nextTimer := t.nextTimer + 1)
                 else t;
        if |u.buf| < max then u else Steal(u)
    case Flush => if s.closed then s else Steal(s)
    case Stop => Steal(s.(closed := true))
    case Fire(id) =>
      if id in s.armed then s.(armed := s.armed - {id}, fired := s.fired + {id}) else s
    case OnTimer(id) =>
      if id !in s.fired then s
      else
        var t := s.(fired := s.fired - {id});
        if t.closed || t.buf == [] then t else Steal(t)
  }

  function Run<T>(max: nat, s: State<T>, steps: seq<Step<T>>): State<T> {
    if steps == [] then s else Next(max, Run(max, s, steps[..|steps| - 1]), steps[|steps| - 1])
  }

  /** The object with its lock; the runtime's timers and the history are ghost. */
  class BufferedSubmitter<T> {
    const maxBatch: nat
    var buf: seq<T>
    var timer: Option<nat>
    var closed: bool
    var nextTimer: nat
    ghost var armed: set<nat>
    ghost var fired: set<nat>
    ghost var accepted: seq<T>
    ghost var stolen: seq<seq<T>>

    ghost function Now(): State<T>
      reads this
    {
      State(buf, timer, closed, armed, fired, nextTimer, accepted, stolen)
    }

    constructor (maxBatch: int)
      ensures this.maxBatch == if maxBatch <= 0 then 10 else maxBatch
      ensures Now() == Init()
    {
      this.maxBatch := if maxBatch <= 0 then DEFAULT_MAX_BATCH else maxBatch;
      buf, timer, closed, nextTimer := [], None, false, 0;
      armed, fired, accepted, stolen := {}, {}, [], [];
    }

    method StealLocked() returns (batch: seq<T>)
      modifies this
      ensures batch == old(buf) && Now() == Steal(old(Now())) && buf == [] && timer == None
    {
      batch := buf;
      buf := [];
      if timer.Some? {
        armed := armed - {timer.value};
        timer := None;
      }
      if batch != [] {
        stolen := stolen + [batch];
      }
    }

    /** Returns the batch to submit outside the lock, if this entry fills it. */
    method Enqueue(intent: T) returns (batch: seq<T>)
      modifies this
      ensures Now() == Next(maxBatch, old(Now()), Step.Enqueue(intent))
      ensures stolen == old(stolen) + if batch == [] then [] else [batch]
      ensures old(closed) ==> batch == [] && Now() == old(Now())
      ensures !old(closed) ==> accepted == old(accepted) + [intent] && buf + batch == old(buf) + [intent]
      ensures !old(closed) ==> (batch == [] <==> |old(buf)| + 1 < maxBatch) && (batch == [] || buf == [])
    {
      if closed {
        return [];
      }
      buf := buf + [intent];
      accepted := accepted + [intent];
      if |buf| == 1 {
        timer := Some(nextTimer);
        armed := armed + {nextTimer};
        nextTimer := nextTimer + 1;
      }
      if |buf| < maxBatch {
        return [];
      }
      batch := StealLocked();
    }

    method Flush() returns (batch: seq<T>, count: nat)
      modifies this
      ensures Now() == Next(maxBatch, old(Now()), Step.Flush) && count == |batch|
      ensures stolen == old(stolen) + if batch == [] then [] else [batch]
      ensures if old(closed) then batch == [] && Now() == old(Now()) else batch == old(buf) && buf == [] && timer == None
    {
      if closed {
        return [], 0;
      }
      batch := StealLocked();
      count := |batch|;
    }

    method Stop() returns (batch: seq<T>)
      modifies this
      ensures Now() == Next(maxBatch, old(Now()), Step.Stop)
      ensures stolen == old(stolen) + if batch == [] then [] else [batch]
      ensures batch == old(buf) && closed && buf == [] && timer == None
    {
      closed := true;
      batch := StealLocked();
    }

    /** The callback of timer id, which need not be the current timer any more. */
    method OnTimer(ghost id: nat) returns (batch: seq<T>)
      requires id in fired
      modifies this
      ensures Now() == Next(maxBatch, old(Now()), Step.OnTimer(id))
      ensures stolen == old(stolen) + if batch == [] then [] else [batch]
      ensures old(closed) ==> batch == [] && buf == old(buf) && timer == old(timer)
      ensures !old(closed) ==> batch == old(buf) && buf == [] && (old(buf) != [] ==> timer == None)
    {
      fired := fired - {id};
      if closed || |buf| == 0 {
        return [];
      }
      batch := StealLocked();
    }
  }

  // ---- What every interleaving keeps ---------------------------------------------------------------------------

  function Flatten<T>(batches: seq<seq<T>>): seq<T> {
    if batches == [] then [] else Flatten(batches[..|batches| - 1]) + batches[|batches| - 1]
  }

  /** Nothing is lost or doubled, the order is kept, and no batch is empty or above the limit. */
  ghost predicate Conserved<T>(max: nat, s: State<T>) {
    && Flatten(s.stolen) + s.buf == s.accepted && |s.buf| <= max
    && forall i :: 0 <= i < |s.stolen| ==> 1 <= |s.stolen[i]| <= max
  }

  /** A waiting entry has its own timer, running or about to call back, and no other timer is running. */
  ghost predicate Timed<T>(s: State<T>) {
    && (s.buf == [] <==> s.timer == None)
    && (s.timer.Some? ==> s.timer.value in s.armed || s.timer.value in s.fired)
    && (forall id :: id in s.armed ==> s.timer == Some(id) && id !in s.fired)
    && (forall id :: id in s.armed || id in s.fired ==> id < s.nextTimer)
  }

  ghost predicate Inv<T>(max: nat, s: State<T>) {
    Conserved(max, s) && Timed(s) && |s.buf| < max && (s.closed ==> s.buf == [])
  }

  lemma StealConserves<T>(max: nat, s: State<T>)
    requires Conserved(max, s)
    ensures Conserved(max, Steal(s))
  {
    var t := Steal(s).stolen;
    if s.buf != [] {
      assert t[..|t| - 1] == s.stolen;
    }
  }

  lemma StealInv<T>(max: nat, s: State<T>)
    requires max > 0 && Conserved(max, s) && Timed(s)
    ensures Inv(max, Steal(s))
  {
    StealConserves(max, s);
    hide Conserved;
  }

  lemma Grow<T>(b: seq<seq<T>>, buf: seq<T>, x: T)
    ensures Flatten(b) + (buf + [x]) == Flatten(b) + buf + [x]
  {
  }

  lemma EnqueueInv<T>(max: nat, s: State<T>, x: T)
    requires max > 0 && Inv(max, s)
    ensures Inv(max, Next(max, s, Enqueue(x)))
  {
    hide Flatten;
    if !s.closed {
      Grow(s.stolen, s.buf, x);
      var t := s.(buf := s.buf + [x], accepted := s.accepted + [x]);
      var u := if |t.buf| == 1
               then t.(timer := Some(t.nextTimer), armed := t.armed + {t.nextTimer}, nextTimer := t.nextTimer + 1)
               else t;
      StealInv(max, u);
      hide Steal;
    }
  }

  lemma StepInv<T>(max: nat, s: State<T>, step: Step<T>)
    requires max > 0 && Inv(max, s)
    ensures Inv(max, Next(max, s, step))
  {
    hide Flatten;
    match step
    case Enqueue(x) => EnqueueInv(max, s, x);
    case Flush => StealInv(max, s);
    case Stop => StealInv(max, s.(closed := true));
    case Fire(id) =>
    case OnTimer(id) => OnTimerInv(max, s, id);
  }

  lemma OnTimerInv<T>(max: nat, s: State<T>, id: nat)
    requires max > 0 && Inv(max, s)
    ensures Inv(max, Next(max, s, OnTimer(id)))
  {
    hide Flatten;
    if id in s.fired && s.buf != [] {
      StealInv(max, s);
      assert Steal(s.(fired := s.fired - {id})) == Steal(s).(fired := s.fired - {id});
    }
  }

  lemma {:induction false} RunInv<T>(max: nat, steps: seq<Step<T>>)
    requires max > 0
    ensures Inv(max, Run(max, Init(), steps))
    decreases |steps|
  {
    if steps != [] {
      RunInv<T>(max, steps[..|steps| - 1]);
      StepInv(max, Run(max, Init(), steps[..|steps| - 1]), steps[|steps| - 1]);
    }
  }

  // ---- What each operation does to a reachable submitter ----------------------------------------------------------

  /** The waiting entries have been handed over as one batch, and no timer is left running. */
  ghost predicate HandedOver<T>(was: State<T>, waiting: seq<T>, now: State<T>) {
    && now.buf == [] && now.timer == None && now.armed == {}
    && now.stolen == was.stolen + (if waiting == [] then [] else [waiting])
    && Flatten(now.stolen) == now.accepted
  }

  /** An entry joins the waiting ones; the first of a batch starts a timer, the last hands the batch over. */
  ghost predicate Joined<T>(max: nat, s: State<T>, x: T, t: State<T>) {
    && t.accepted == s.accepted + [x] && !t.closed && t.fired == s.fired
    && if |s.buf| + 1 == max then HandedOver(s, s.buf + [x], t)
       else
         && t.buf == s.buf + [x] && |t.buf| < max && t.stolen == s.stolen && t.timer.Some?
         && (s.buf == [] ==> t.timer == Some(s.nextTimer) && t.armed == {s.nextTimer})
         && (s.buf != [] ==> t.timer == s.timer && t.armed == s.armed)
  }

  lemma StealHandsOver<T>(max: nat, s: State<T>)
    requires Conserved(max, s) && Timed(s)
    ensures HandedOver(s, s.buf, Steal(s))
    ensures Steal(s).accepted == s.accepted && Steal(s).closed == s.closed && Steal(s).fired == s.fired
  {
    hide Flatten;
    StealConserves(max, s);
    FlattenAll(Steal(s));
    StealIs(s);
    assert Flatten(Steal(s).stolen) == Steal(s).accepted;
    hide Conserved, Steal;
  }

  lemma StealIs<T>(s: State<T>)
    requires Timed(s)
    ensures var t := Steal(s);
            && t.buf == [] && t.timer == None && t.armed == {} && t.stolen == s.stolen + (if s.buf == [] then [] else [s.buf])
            && t.accepted == s.accepted && t.closed == s.closed && t.fired == s.fired
  {
  }

  lemma FlattenAll<T>(s: State<T>)
    ensures s.buf == [] ==> Flatten(s.stolen) + s.buf == Flatten(s.stolen)
  {
  }

  lemma EnqueueDoes<T>(max: nat, s: State<T>, x: T)
    requires max > 0 && Inv(max, s) && !s.closed
    ensures Joined(max, s, x, Next(max, s, Enqueue(x)))
  {
    hide Flatten;
    Grow(s.stolen, s.buf, x);
    var t := s.(buf := s.buf + [x], accepted := s.accepted + [x]);
    var u := if |t.buf| == 1
             then t.(timer := Some(t.nextTimer), armed := t.armed + {t.nextTimer}, nextTimer := t.nextTimer + 1)
             else t;
    assert s.buf == [] ==> s.armed == {};
    StealHandsOver(max, u);
    hide Steal;
  }

  lemma EnqueueMeaning<T>(max: nat, steps: seq<Step<T>>, x: T)
    requires max > 0
    ensures var s := Run(max, Init(), steps);
            var t := Next(max, s, Enqueue(x));
            if s.closed then t == s else Joined(max, s, x, t)
  {
    hide Run, Inv, Joined;
    RunInv<T>(max, steps);
    var s := Run(max, Init(), steps);
    if !s.closed {
      EnqueueDoes(max, s, x);
    }
  }

  /** Flush hands over whatever waits; once closed it changes nothing. */
  lemma FlushMeaning<T>(max: nat, steps: seq<Step<T>>)
    requires max > 0
    ensures var s := Run(max, Init(), steps);
            var t := Next(max, s, Flush);
            if s.closed then t == s
            else HandedOver(s, s.buf, t) && t.accepted == s.accepted && !t.closed && t.fired == s.fired
  {
    hide Run, Conserved, Timed, HandedOver, Steal;
    RunInv<T>(max, steps);
    StealHandsOver(max, Run(max, Init(), steps));
  }

  /** So does Stop, which closes. */
  lemma StopMeaning<T>(max: nat, steps: seq<Step<T>>)
    requires max > 0
    ensures var s := Run(max, Init(), steps);
            var t := Next(max, s, Stop);
            HandedOver(s, s.buf, t) && t.accepted == s.accepted && t.closed && t.fired == s.fired
  {
    hide Run, Flatten, Steal;
    RunInv<T>(max, steps);
    StealHandsOver(max, Run(max, Init(), steps).(closed := true));
  }

  lemma CallbackDoes<T>(max: nat, s: State<T>, id: nat)
    requires Inv(max, s) && id in s.fired
    ensures var t := Next(max, s, OnTimer(id));
            && t.fired == s.fired - {id} && t.accepted == s.accepted && t.closed == s.closed
            && HandedOver(s, s.buf, t)
  {
    StealHandsOver(max, s);
    hide Flatten;
    if s.buf != [] {
      assert Steal(s.(fired := s.fired - {id})) == Steal(s).(fired := s.fired - {id});
    } else {
      FlattenAll(s);
    }
  }

  /** And so does a callback, even one of a timer that was stopped after it fired: it takes the entries of a later
      batch before their own timer. With nothing waiting it only disappears. */
  lemma CallbackMeaning<T>(max: nat, steps: seq<Step<T>>, id: nat)
    requires max > 0 && id in Run(max, Init<T>(), steps).fired
    ensures var s := Run(max, Init(), steps);
            var t := Next(max, s, OnTimer(id));
            && t.fired == s.fired - {id} && t.accepted == s.accepted && t.closed == s.closed
            && HandedOver(s, s.buf, t)
  {
    hide Run, Inv, HandedOver, Next;
    RunInv<T>(max, steps);
    CallbackDoes(max, Run(max, Init(), steps), id);
  }

  function Callback<T>(s: State<T>): seq<Step<T>>
    requires s.timer.Some?
  {
    if s.timer.value in s.armed then [Fire(s.timer.value), OnTimer(s.timer.value)] else [OnTimer(s.timer.value)]
  }

  /** A waiting entry is always at most its own timer's callback away from being handed over. */
  lemma TimerDrains<T>(max: nat, steps: seq<Step<T>>)
    requires max > 0 && Run(max, Init(), steps).buf != []
    ensures var s := Run(max, Init(), steps);
            s.timer.Some? && Run(max, s, Callback(s)) == Steal(s).(armed := s.armed - {s.timer.value},
                                                                     fired := s.fired - {s.timer.value})
  {
    RunInv<T>(max, steps);
    var s := Run(max, Init(), steps);
    var id := s.timer.value;
    var c := Callback(s);
    if id in s.armed {
      assert c[..1] == [Fire(id)] && c[..1][..0] == [];
      assert Run(max, s, c[..1]) == Next(max, s, Fire(id));
      assert s.fired + {id} - {id} == s.fired;
    } else {
      assert c[..0] == [];
      assert s.armed - {id} == s.armed;
    }
  }

  /** Once stopped, everything that was accepted has been handed over, and nothing more is accepted. */
  lemma {:induction false} StoppedIsDrained<T>(max: nat, before: seq<Step<T>>, after: seq<Step<T>>)
    requires max > 0
    ensures var s := Run(max, Init(), before);
            var t := Run(max, Next(max, s, Stop), after);
            t.closed && t.accepted == s.accepted == Flatten(t.stolen)
    decreases |after|
  {
    var s := Run(max, Init(), before);
    var u := Next(max, s, Stop);
    if after == [] {
      RunInv<T>(max, before);
      StepInv(max, s, Stop);
      assert Flatten(u.stolen) + [] == Flatten(u.stolen);
    } else {
      StoppedIsDrained<T>(max, before, after[..|after| - 1]);
      StoppedInv(max, before, after[..|after| - 1]);
    }
  }

  lemma {:induction false} StoppedInv<T>(max: nat, before: seq<Step<T>>, after: seq<Step<T>>)
    requires max > 0
    ensures Inv(max, Run(max, Next(max, Run(max, Init(), before), Stop), after))
    decreases |after|
  {
    if after == [] {
      RunInv<T>(max, before);
      StepInv(max, Run(max, Init(), before), Stop);
    } else {
      StoppedInv(max, before, after[..|after| - 1]);
      StepInv(max, Run(max, Next(max, Run(max, Init(), before), Stop), after[..|after| - 1]), after[|after| - 1]);
    }
  }
}
