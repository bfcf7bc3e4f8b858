/** The whole receipt pipeline as one machine: the chain emits settlement events, the gateway's watcher hands
    them to concurrent Handle calls, the store records them, the bouncer fetches pages, transmits frames and
    acknowledges them, and everything but the chain and the log file can fail or restart at any moment. */
module Pipeline {
  import opened Words
  import opened Watcher
  import opened EgressHex
  import opened ReceiptStore
  import opened StoreRuns
  import opened Processor

  const PAGE_SIZE: nat := 10

  /** A Handle call between its atomic sections: before the Has check, before taking a count, before Append. */
  datatype Job = Entered(ev: Event) | Checked(ev: Event) | Numbered(ev: Event, seqCount: U16)

  /** One successful transmission: the record's key and the hex of the frame that went out. */
  datatype Aired = Aired(key: string, hex: string)

  /** `delivered` counts the chain events handed out since the last boot, `failed` the keys whose Handle call
      returned an error since then, `page` is what the bouncer has left of its last fetch. */
  datatype World = World(chain: seq<Event>, up: bool, store: State, seqCount: U16, delivered: nat,
                         jobs: map<nat, Job>, failed: set<string>, page: seq<Record>, aired: seq<Aired>)

  /** A step that is not enabled changes nothing. Again is any further Handle call for an event on the chain. An
      acknowledgement can arrive late, repeatedly or never, but only after its transmission. */
  datatype Step =
    | Emit(ev: Event)
    | Deliver(id: nat)
    | Again(id: nat, i: nat)
    | Check(id: nat)
    | Take(id: nat)
    | Store(id: nat, w: Write)
    | Fetch
    | Transmit(ok: bool)
    | Ack(i: nat, w: Write)
    | Crash
    | Boot
    | BouncerRestart

  const START_WORLD := World([], false, START, 0, 0, map[], {}, [], [])

  /** The contract never announces a nonce twice. */
  predicate Fresh(chain: seq<Event>, ev: Event) {
    |ev.txHash| == 32 && forall i :: 0 <= i < |chain| ==> chain[i].txNonce != ev.txNonce
  }

  ghost function StoreJob(cfg: Config, w: World, id: nat, out: Write): World
    requires cfg.crypto.Sound() && id in w.jobs && w.jobs[id].Numbered?
  {
    var j := w.jobs[id];
    var v := w.(jobs := w.jobs - {id});
    if |cfg.seed| != 32 then v.(failed := w.failed + {KeyOf(j.ev)})
    else
      var (s, e) := AppendResult(w.store, RecordOf(cfg, j.ev, j.seqCount), out);
      v.(store := s, failed := if e == ErrWrite then w.failed + {KeyOf(j.ev)} else w.failed)
  }

  ghost function Next(cfg: Config, w: World, step: Step): World
    requires cfg.crypto.Sound()
  {
    match step
    case Emit(ev) => if Fresh(w.chain, ev) then w.(chain := w.chain + [ev]) else w
    case Deliver(id) =>
      if w.up && w.delivered < |w.chain| && id !in w.jobs
      then w.(jobs := w.jobs[id := Entered(w.chain[w.delivered])], delivered := w.delivered + 1) else w
    case Again(id, i) =>
      if w.up && i < |w.chain| && id !in w.jobs then w.(jobs := w.jobs[id := Entered(w.chain[i])]) else w
    case Check(id) =>
      if id !in w.jobs || !w.jobs[id].Entered? then w
      else if KeyOf(w.jobs[id].ev) in w.store.cache.records then w.(jobs := w.jobs - {id})
      else w.(jobs := w.jobs[id := Checked(w.jobs[id].ev)])
    case Take(id) =>
      if id !in w.jobs || !w.jobs[id].Checked? then w
      else w.(jobs := w.jobs[id := Numbered(w.jobs[id].ev, w.seqCount)], seqCount := (w.seqCount + 1) % SEQ_LIMIT)
    case Store(id, out) => if id in w.jobs && w.jobs[id].Numbered? then StoreJob(cfg, w, id, out) else w
    case Fetch => if w.up then w.(page := Pending(w.store.cache, PAGE_SIZE)) else w
    case Transmit(ok) =>
      if w.page == [] then w
      else w.(page := w.page[1..],
              aired := if ok then w.aired + [Aired(Key(w.page[0]), w.page[0].packetCHex)] else w.aired)
    case Ack(i, out) =>
      if w.up && i < |w.aired| then w.(store := MarkResult(w.store, w.aired[i].key, out).0) else w
    case Crash => w.(up := false, jobs := map[])
    case Boot =>
      if w.up || Rows(w.store.disk).None? then w
      else w.(up := true, store := w.store.(cache := Replay(Rows(w.store.disk).value)), seqCount := 0, delivered := 0,
              jobs := map[], failed := {})
    case BouncerRestart => w.(page := [])
  }

  ghost function RunWorld(cfg: Config, steps: seq<Step>): World
    requires cfg.crypto.Sound()
  {
    if steps == [] then START_WORLD else Next(cfg, RunWorld(cfg, steps[..|steps| - 1]), steps[|steps| - 1])
  }

  ghost function RunFrom(cfg: Config, w: World, steps: seq<Step>): World
    requires cfg.crypto.Sound()
  {
    if steps == [] then w else Next(cfg, RunFrom(cfg, w, steps[..|steps| - 1]), steps[|steps| - 1])
  }

  lemma RunFromNothing(cfg: Config, w: World)
    requires cfg.crypto.Sound()
    ensures RunFrom(cfg, w, []) == w
  {
  }

  lemma RunFromSnoc(cfg: Config, w: World, steps: seq<Step>, step: Step)
    requires cfg.crypto.Sound()
    ensures RunFrom(cfg, w, steps + [step]) == Next(cfg, RunFrom(cfg, w, steps), step)
  {
    hide Next;
    assert (steps + [step])[..|steps|] == steps;
  }

  /** Continuing a run from where it got to is a run. */
  lemma {:induction false} RunContinues(cfg: Config, steps: seq<Step>, more: seq<Step>)
    requires cfg.crypto.Sound()
    ensures RunWorld(cfg, steps + more) == RunFrom(cfg, RunWorld(cfg, steps), more)
    decreases |more|
  {
    hide Next;
    if more == [] {
      assert steps + more == steps;
    } else {
      RunContinues(cfg, steps, more[..|more| - 1]);
      assert (steps + more)[..|steps + more| - 1] == steps + more[..|more| - 1];
    }
  }

  // ---- The invariant ----------------------------------------------------------------------------------------------

  predicate ChainOk(chain: seq<Event>) {
    && (forall i :: 0 <= i < |chain| ==> |chain[i].txHash| == 32)
    && (forall i, j :: 0 <= i < j < |chain| ==> chain[i].txNonce != chain[j].txNonce)
  }

  /** The record is, up to its status, the one Handle builds for this event under some sequence count. */
  ghost predicate OfEvent(cfg: Config, ev: Event, rec: Record)
    requires cfg.crypto.Sound()
  {
    exists q: U16 :: SameBody(rec, RecordOf(cfg, ev, q))
  }

  ghost predicate Genuine(cfg: Config, chain: seq<Event>, rec: Record)
    requires cfg.crypto.Sound()
  {
    exists i :: 0 <= i < |chain| && OfEvent(cfg, chain[i], rec)
  }

  predicate WasAired(aired: seq<Aired>, k: string) {
    exists i :: 0 <= i < |aired| && aired[i].key == k
  }

  /** The record comes from an event and is only marked dispatched after a transmission. */
  ghost predicate Good(cfg: Config, chain: seq<Event>, aired: seq<Aired>, rec: Record)
    requires cfg.crypto.Sound()
  {
    Genuine(cfg, chain, rec) && (rec.dispatchStatus == DISPATCHED ==> WasAired(aired, Key(rec)))
  }

  predicate OnDisk(d: Disk, rec: Record) {
    Row(rec) in d.lines || d.tail == Whole(rec)
  }

  /** The order list names every cached key exactly once. */
  ghost predicate OrderOk(c: Cache) {
    && (forall m, n :: 0 <= m < n < |c.order| ==> c.order[m] != c.order[n])
    && (forall k :: k in c.order <==> k in c.records)
  }

  ghost predicate StoreOk(cfg: Config, chain: seq<Event>, aired: seq<Aired>, s: State)
    requires cfg.crypto.Sound()
  {
    && Inv(s) && OrderOk(s.cache)
    && (forall rec :: OnDisk(s.disk, rec) ==> Good(cfg, chain, aired, rec))
    && (forall k :: k in s.cache.records ==> Good(cfg, chain, aired, s.cache.records[k]))
  }

  /** What went out, and what the bouncer still holds, is what the cache has under that key. */
  predicate AiredOk(aired: seq<Aired>, c: Cache) {
    forall i :: 0 <= i < |aired| ==> aired[i].key in c.records && c.records[aired[i].key].packetCHex == aired[i].hex
  }

  predicate PageOk(page: seq<Record>, c: Cache) {
    forall i :: 0 <= i < |page| ==> Key(page[i]) in c.records && SameBody(page[i], c.records[Key(page[i])])
  }

  predicate JobFor(jobs: map<nat, Job>, ev: Event) {
    exists id :: id in jobs && jobs[id].ev == ev
  }

  /** A delivered event is recorded, in flight, or failed until the next boot. */
  predicate Accounted(w: World, ev: Event) {
    KeyOf(ev) in w.store.cache.records || KeyOf(ev) in w.failed || JobFor(w.jobs, ev)
  }

  predicate JobsOk(w: World) {
    && w.delivered <= |w.chain|
    && (forall id :: id in w.jobs ==> w.jobs[id].ev in w.chain)
    && (w.up ==> forall i :: 0 <= i < w.delivered ==> Accounted(w, w.chain[i]))
  }

  ghost predicate WorldInv(cfg: Config, w: World)
    requires cfg.crypto.Sound()
  {
    && ChainOk(w.chain) && StoreOk(cfg, w.chain, w.aired, w.store)
    && AiredOk(w.aired, w.store.cache) && PageOk(w.page, w.store.cache) && JobsOk(w)
  }

  // ---- The store under the three operations ---------------------------------------------------------------------

  lemma GoodGrows(cfg: Config, chain: seq<Event>, chain': seq<Event>, aired: seq<Aired>, aired': seq<Aired>, rec: Record)
    requires cfg.crypto.Sound() && Good(cfg, chain, aired, rec) && chain <= chain' && aired <= aired'
    ensures Good(cfg, chain', aired', rec)
  {
    hide OfEvent;
    var i :| 0 <= i < |chain| && OfEvent(cfg, chain[i], rec);
    assert OfEvent(cfg, chain'[i], rec);
    if rec.dispatchStatus == DISPATCHED {
      var n :| 0 <= n < |aired| && aired[n].key == Key(rec);
      assert aired'[n].key == Key(rec);
    }
  }

  lemma StoreOkGrows(cfg: Config, chain: seq<Event>, chain': seq<Event>, aired: seq<Aired>, aired': seq<Aired>, s: State)
    requires cfg.crypto.Sound() && StoreOk(cfg, chain, aired, s) && chain <= chain' && aired <= aired'
    ensures StoreOk(cfg, chain', aired', s)
  {
    hide Good, Inv, OrderOk, OnDisk;
    forall rec | OnDisk(s.disk, rec) ensures Good(cfg, chain', aired', rec) {
      GoodGrows(cfg, chain, chain', aired, aired', rec);
    }
    forall k | k in s.cache.records ensures Good(cfg, chain', aired', s.cache.records[k]) {
      GoodGrows(cfg, chain, chain', aired, aired', s.cache.records[k]);
    }
  }

  lemma OnDiskAfterWrite(d: Disk, row: Record, w: Write, rec: Record)
    requires OnDisk(PutLine(d, row, w), rec)
    ensures OnDisk(d, rec) || rec == row
  {
  }

  /** A good record with another status is good if the key was aired. */
  lemma GoodRestated(cfg: Config, chain: seq<Event>, aired: seq<Aired>, rec: Record, row: Record)
    requires cfg.crypto.Sound() && Genuine(cfg, chain, rec) && SameBody(rec, row)
    requires row.dispatchStatus == DISPATCHED ==> WasAired(aired, Key(row))
    ensures Good(cfg, chain, aired, row)
  {
    hide RecordOf;
    var i :| 0 <= i < |chain| && OfEvent(cfg, chain[i], rec);
    var q: U16 :| SameBody(rec, RecordOf(cfg, chain[i], q));
    assert SameBody(row, RecordOf(cfg, chain[i], q));
    assert OfEvent(cfg, chain[i], row);
  }

  lemma OrderSnoc(c: Cache, k: string, rec: Record)
    requires OrderOk(c) && k !in c.records
    ensures OrderOk(Cache(c.records[k := rec], c.order + [k]))
  {
    var o := c.order + [k];
    forall x ensures x in o <==> x in c.order || x == k {
      assert x == k ==> o[|c.order|] == x;
      if x in c.order {
        var n :| 0 <= n < |c.order| && c.order[n] == x;
        assert o[n] == x;
      }
    }
  }

  lemma AppendOk(cfg: Config, chain: seq<Event>, aired: seq<Aired>, s: State, rec: Record, w: Write)
    requires cfg.crypto.Sound() && StoreOk(cfg, chain, aired, s) && Genuine(cfg, chain, rec) && rec.dispatchStatus == ""
    ensures StoreOk(cfg, chain, aired, AppendResult(s, rec, w).0)
  {
    hide Good, Inv, Genuine, PutLine, OrderOk;
    var t, row := AppendResult(s, rec, w).0, Normal(rec);
    AppendKeeps(s, rec, w);
    GoodRestated(cfg, chain, aired, rec, row);
    forall r | OnDisk(t.disk, r) ensures Good(cfg, chain, aired, r) {
      if t.disk != s.disk {
        OnDiskAfterWrite(s.disk, row, w, r);
      }
    }
    if Key(rec) !in s.cache.records {
      OrderSnoc(s.cache, Key(rec), row);
    }
  }

  lemma OrderRestated(c: Cache, k: string, rec: Record)
    requires OrderOk(c) && k in c.records
    ensures OrderOk(c.(records := c.records[k := rec]))
  {
  }

  lemma MarkOk(cfg: Config, chain: seq<Event>, aired: seq<Aired>, s: State, k: string, w: Write)
    requires cfg.crypto.Sound() && StoreOk(cfg, chain, aired, s) && WasAired(aired, k)
    ensures StoreOk(cfg, chain, aired, MarkResult(s, k, w).0)
  {
    hide Good, Inv, PutLine, WasAired, SameBody, OrderOk;
    var t := MarkResult(s, k, w).0;
    MarkKeeps(s, k, w);
    if k in s.cache.records {
      var row := s.cache.records[k].(dispatchStatus := DISPATCHED);
      OrderRestated(s.cache, k, row);
      MarkedRowGood(cfg, chain, aired, s, k, row);
      forall r | OnDisk(t.disk, r) ensures Good(cfg, chain, aired, r) {
        if t.disk != s.disk {
          OnDiskAfterWrite(s.disk, row, w, r);
        }
      }
    }
  }

  lemma MarkedRowGood(cfg: Config, chain: seq<Event>, aired: seq<Aired>, s: State, k: string, row: Record)
    requires cfg.crypto.Sound() && StoreOk(cfg, chain, aired, s) && WasAired(aired, k)
    requires k in s.cache.records && row == s.cache.records[k].(dispatchStatus := DISPATCHED)
    ensures Good(cfg, chain, aired, row)
  {
    hide Genuine, WasAired;
    assert Good(cfg, chain, aired, s.cache.records[k]);
    assert Key(row) == k;
    GoodRestated(cfg, chain, aired, s.cache.records[k], row);
  }

  lemma {:induction false} RowsOfOnDisk(lines: seq<Line>, i: nat)
    requires RowsOf(lines).Some? && i < |RowsOf(lines).value|
    ensures Row(RowsOf(lines).value[i]) in lines
    decreases |lines|
  {
    var init := lines[..|lines| - 1];
    if i < |RowsOf(init).value| {
      RowsOfOnDisk(init, i);
    } else {
      assert lines[|lines| - 1] == Row(RowsOf(lines).value[i]);
    }
  }

  lemma RowsOnDisk(d: Disk, i: nat)
    requires Rows(d).Some? && i < |Rows(d).value|
    ensures OnDisk(d, Rows(d).value[i])
  {
    if i < |RowsOf(d.lines).value| {
      RowsOfOnDisk(d.lines, i);
    }
  }

  lemma ReopenOk(cfg: Config, chain: seq<Event>, aired: seq<Aired>, s: State)
    requires cfg.crypto.Sound() && StoreOk(cfg, chain, aired, s) && Rows(s.disk).Some?
    ensures StoreOk(cfg, chain, aired, s.(cache := Replay(Rows(s.disk).value)))
  {
    hide Good;
    var rows := Rows(s.disk).value;
    var c := Replay(rows);
    InvStep(s, Reopen);
    OrderDistinct(rows);
    forall k | k in c.records ensures Good(cfg, chain, aired, c.records[k]) {
      var i := LatestWith(rows, k);
      RowsOnDisk(s.disk, i);
    }
  }

  /** What the store serves before an operation it serves after it, with the same body. */
  predicate Stable(c: Cache, d: Cache) {
    forall k :: k in c.records ==> k in d.records && SameBody(c.records[k], d.records[k])
  }

  lemma StoreStable(s: State, op: Op)
    requires Inv(s) && Caller(op) && Apply(s, op).Some?
    ensures Stable(s.cache, Apply(s, op).value.cache)
  {
    forall k | k in s.cache.records
      ensures k in Apply(s, op).value.cache.records
              && SameBody(s.cache.records[k], Apply(s, op).value.cache.records[k])
    {
      Frozen(s, op, k);
    }
  }

  lemma StableKeeps(w: World, d: Cache)
    requires Stable(w.store.cache, d) && AiredOk(w.aired, w.store.cache) && PageOk(w.page, w.store.cache)
    ensures AiredOk(w.aired, d) && PageOk(w.page, d)
  {
    hide Key;
  }

  // ---- Every step keeps the invariant ------------------------------------------------------------------------------

  lemma EmitInv(cfg: Config, w: World, ev: Event)
    requires cfg.crypto.Sound() && WorldInv(cfg, w)
    ensures WorldInv(cfg, Next(cfg, w, Emit(ev)))
  {
    hide StoreOk, AiredOk, PageOk, KeyOf;
    if Fresh(w.chain, ev) {
      var v := Next(cfg, w, Emit(ev));
      StoreOkGrows(cfg, w.chain, v.chain, w.aired, w.aired, w.store);
      forall id | id in v.jobs ensures v.jobs[id].ev in v.chain {
        var i :| 0 <= i < |w.chain| && w.chain[i] == w.jobs[id].ev;
        assert v.chain[i] == w.jobs[id].ev;
      }
      forall i | 0 <= i < v.delivered && v.up ensures Accounted(v, v.chain[i]) {
        assert Accounted(w, w.chain[i]);
      }
    }
  }

  /** Steps that only move jobs: every job that goes leaves its event in the cache, among the failed, or with a
      new job. */
  lemma JobsMove(w: World, v: World, id: nat)
    requires JobsOk(w) && v.chain == w.chain && v.up == w.up && w.delivered <= v.delivered <= |v.chain|
    requires forall x :: x != id && x in w.jobs ==> x in v.jobs && v.jobs[x] == w.jobs[x]
    requires forall x :: x != id && x in v.jobs ==> x in w.jobs
    requires id in v.jobs ==> v.jobs[id].ev in v.chain
    requires id in w.jobs ==> Accounted(v, w.jobs[id].ev)
    requires w.failed <= v.failed && forall k :: k in w.store.cache.records ==> k in v.store.cache.records
    requires forall i :: w.delivered <= i < v.delivered ==> Accounted(v, v.chain[i])
    ensures JobsOk(v)
  {
    hide KeyOf;
    forall i | 0 <= i < w.delivered && w.up ensures Accounted(v, v.chain[i]) {
      var ev := w.chain[i];
      assert Accounted(w, ev);
      if JobFor(w.jobs, ev) {
        var x :| x in w.jobs && w.jobs[x].ev == ev;
        assert x != id ==> v.jobs[x].ev == ev && JobFor(v.jobs, ev);
      }
    }
  }

  lemma JobInv(cfg: Config, w: World, step: Step)
    requires cfg.crypto.Sound() && WorldInv(cfg, w)
    requires step.Deliver? || step.Again? || step.Check? || step.Take?
    ensures WorldInv(cfg, Next(cfg, w, step))
  {
    hide StoreOk, AiredOk, PageOk, KeyOf;
    var v := Next(cfg, w, step);
    if v != w {
      var id := step.id;
      assert id in v.jobs ==> JobFor(v.jobs, v.jobs[id].ev);
      JobsMove(w, v, id);
    }
  }

  lemma StoreJobInv(cfg: Config, w: World, id: nat, out: Write)
    requires cfg.crypto.Sound() && WorldInv(cfg, w)
    ensures WorldInv(cfg, Next(cfg, w, Store(id, out)))
  {
    hide KeyOf, Good, OnDisk, OrderOk, Inv, PutLine, AiredOk, PageOk, RecordOf, Genuine, Stable;
    if id in w.jobs && w.jobs[id].Numbered? {
      var j, v := w.jobs[id], Next(cfg, w, Store(id, out));
      if |cfg.seed| == 32 {
        var rec := RecordOf(cfg, j.ev, j.seqCount);
        RecordOfKey(cfg, j.ev, j.seqCount);
        BuiltIsGenuine(cfg, w.chain, j.ev, j.seqCount);
        AppendOk(cfg, w.chain, w.aired, w.store, rec, out);
        StoreStable(w.store, DoAppend(rec, out));
        StableKeeps(w, v.store.cache);
      }
      JobsMove(w, v, id);
    }
  }

  lemma BuiltIsGenuine(cfg: Config, chain: seq<Event>, ev: Event, q: U16)
    requires cfg.crypto.Sound() && ev in chain
    ensures Genuine(cfg, chain, RecordOf(cfg, ev, q))
  {
    hide RecordOf;
    var i :| 0 <= i < |chain| && chain[i] == ev;
    assert SameBody(RecordOf(cfg, ev, q), RecordOf(cfg, ev, q));
    assert OfEvent(cfg, chain[i], RecordOf(cfg, ev, q));
  }

  lemma AckInv(cfg: Config, w: World, i: nat, out: Write)
    requires cfg.crypto.Sound() && WorldInv(cfg, w)
    ensures WorldInv(cfg, Next(cfg, w, Ack(i, out)))
  {
    hide KeyOf, Good, OnDisk, OrderOk, Inv, PutLine, AiredOk, PageOk;
    if w.up && i < |w.aired| {
      var v := Next(cfg, w, Ack(i, out));
      MarkOk(cfg, w.chain, w.aired, w.store, w.aired[i].key, out);
      StoreStable(w.store, DoMark(w.aired[i].key, out));
      StableKeeps(w, v.store.cache);
      JobsSame(w, v);
    }
  }

  lemma JobsSame(w: World, v: World)
    requires JobsOk(w) && v.chain == w.chain && v.delivered == w.delivered && v.jobs == w.jobs && v.failed == w.failed
    requires v.up == w.up && Stable(w.store.cache, v.store.cache)
    ensures JobsOk(v)
  {
    hide KeyOf;
    forall i | 0 <= i < v.delivered && v.up ensures Accounted(v, v.chain[i]) {
      assert Accounted(w, w.chain[i]);
    }
  }

  lemma BootInv(cfg: Config, w: World)
    requires cfg.crypto.Sound() && WorldInv(cfg, w)
    ensures WorldInv(cfg, Next(cfg, w, Boot))
  {
    hide KeyOf, Good, OnDisk, OrderOk, Inv, AiredOk, PageOk;
    if !w.up && Rows(w.store.disk).Some? {
      var v := Next(cfg, w, Boot);
      ReopenOk(cfg, w.chain, w.aired, w.store);
      StoreStable(w.store, Reopen);
      StableKeeps(w, v.store.cache);
    }
  }

  lemma {:induction false} PendingInCached(records: map<string, Record>, keys: seq<string>, i: nat)
    requires i < |PendingIn(records, keys)|
    ensures exists k :: k in keys && k in records && records[k] == PendingIn(records, keys)[i]
    decreases |keys|
  {
    var k := keys[|keys| - 1];
    var init := PendingIn(records, keys[..|keys| - 1]);
    if i < |init| {
      PendingInCached(records, keys[..|keys| - 1], i);
      var x :| x in keys[..|keys| - 1] && x in records && records[x] == init[i];
      assert x in keys;
    }
  }

  lemma FetchInv(cfg: Config, w: World)
    requires cfg.crypto.Sound() && WorldInv(cfg, w)
    ensures WorldInv(cfg, Next(cfg, w, Fetch))
  {
    hide Good, OnDisk, OrderOk, AiredOk, KeyOf;
    if w.up {
      var c, page := w.store.cache, Next(cfg, w, Fetch).page;
      forall i | 0 <= i < |page| ensures Key(page[i]) in c.records && SameBody(page[i], c.records[Key(page[i])]) {
        PendingInCached(c.records, c.order, i);
        var k :| k in c.order && k in c.records && c.records[k] == PendingIn(c.records, c.order)[i];
        assert Key(c.records[k]) == k;
      }
      assert PageOk(page, c);
      JobsSame(w, Next(cfg, w, Fetch));
    }
  }

  lemma TransmitInv(cfg: Config, w: World, ok: bool)
    requires cfg.crypto.Sound() && WorldInv(cfg, w)
    ensures WorldInv(cfg, Next(cfg, w, Transmit(ok)))
  {
    hide StoreOk, KeyOf, Key;
    if w.page != [] {
      var v := Next(cfg, w, Transmit(ok));
      assert w.aired <= v.aired;
      StoreOkGrows(cfg, w.chain, w.chain, w.aired, v.aired, w.store);
      JobsSame(w, v);
    }
  }

  lemma StepWorldInv(cfg: Config, w: World, step: Step)
    requires cfg.crypto.Sound() && WorldInv(cfg, w)
    ensures WorldInv(cfg, Next(cfg, w, step))
  {
    match step
    case Emit(ev) => EmitInv(cfg, w, ev);
    case Deliver(_) => JobInv(cfg, w, step);
    case Again(_, _) => JobInv(cfg, w, step);
    case Check(_) => JobInv(cfg, w, step);
    case Take(_) => JobInv(cfg, w, step);
    case Store(id, out) => StoreJobInv(cfg, w, id, out);
    case Fetch => FetchInv(cfg, w);
    case Transmit(ok) => TransmitInv(cfg, w, ok);
    case Ack(i, out) => AckInv(cfg, w, i, out);
    case Crash => RestInv(cfg, w, step);
    case Boot => BootInv(cfg, w);
    case BouncerRestart => RestInv(cfg, w, step);
  }

  lemma RestInv(cfg: Config, w: World, step: Step)
    requires cfg.crypto.Sound() && WorldInv(cfg, w) && (step.Crash? || step.BouncerRestart?)
    ensures WorldInv(cfg, Next(cfg, w, step))
  {
    hide StoreOk, KeyOf, Key;
    if step.BouncerRestart? {
      JobsSame(w, Next(cfg, w, step));
    }
  }

  lemma StartInv(cfg: Config)
    requires cfg.crypto.Sound()
    ensures WorldInv(cfg, START_WORLD)
  {
  }

  lemma {:induction false} WorldInvAlways(cfg: Config, steps: seq<Step>)
    requires cfg.crypto.Sound()
    ensures WorldInv(cfg, RunWorld(cfg, steps))
    decreases |steps|
  {
    hide WorldInv, Next;
    if steps == [] {
      StartInv(cfg);
    } else {
      WorldInvAlways(cfg, steps[..|steps| - 1]);
      StepWorldInv(cfg, RunWorld(cfg, steps[..|steps| - 1]), steps[|steps| - 1]);
    }
  }

  /** Without interference the three sections of a Handle call are the call. */
  lemma SectionsMakeHandle(cfg: Config, w: World, id: nat, out: Write)
    requires cfg.crypto.Sound() && id in w.jobs && w.jobs[id].Entered?
    ensures var v := Next(cfg, Next(cfg, Next(cfg, w, Check(id)), Take(id)), Store(id, out));
            var (s, n, r) := HandleResult(cfg, w.store, w.seqCount, w.jobs[id].ev, out);
            v == w.(store := s, seqCount := n, jobs := w.jobs - {id},
                    failed := if r == Ok then w.failed else w.failed + {KeyOf(w.jobs[id].ev)})
  {
    hide KeyOf, RecordOf, PutLine;
    RecordOfKey(cfg, w.jobs[id].ev, w.seqCount);
  }

  // ---- What holds in every reachable world ---------------------------------------------------------------------------

  lemma EventsApart(chain: seq<Event>, i: nat, j: nat)
    requires ChainOk(chain) && i < |chain| && j < |chain| && KeyOf(chain[i]) == KeyOf(chain[j])
    ensures i == j
  {
    KeyIdentifies(chain[i], chain[j]);
  }

  lemma OfEventKey(cfg: Config, ev: Event, rec: Record)
    requires cfg.crypto.Sound() && OfEvent(cfg, ev, rec)
    ensures Key(rec) == KeyOf(ev)
  {
    hide RecordOf, KeyOf;
    var q: U16 :| SameBody(rec, RecordOf(cfg, ev, q));
    RecordOfKey(cfg, ev, q);
    assert Key(rec.(dispatchStatus := "")) == Key(rec);
  }

  /** Every recorded receipt belongs to exactly one event of the chain, and is the one record of that event. */
  lemma OneRecordPerEvent(cfg: Config, steps: seq<Step>, k: string) returns (i: nat)
    requires cfg.crypto.Sound() && k in RunWorld(cfg, steps).store.cache.records
    ensures var w := RunWorld(cfg, steps);
            && i < |w.chain| && k == KeyOf(w.chain[i]) && OfEvent(cfg, w.chain[i], w.store.cache.records[k])
            && (forall j :: 0 <= j < |w.chain| && j != i ==> !OfEvent(cfg, w.chain[j], w.store.cache.records[k]))
            && (forall x :: x in w.store.cache.records && OfEvent(cfg, w.chain[i], w.store.cache.records[x]) ==> x == k)
  {
    hide RunWorld, KeyOf, OfEvent, OnDisk, OrderOk, AiredOk, PageOk, JobsOk, Key;
    var w := RunWorld(cfg, steps);
    var records := w.store.cache.records;
    WorldInvAlways(cfg, steps);
    assert Good(cfg, w.chain, w.aired, records[k]);
    i :| 0 <= i < |w.chain| && OfEvent(cfg, w.chain[i], records[k]);
    OfEventKey(cfg, w.chain[i], records[k]);
    forall j | 0 <= j < |w.chain| && OfEvent(cfg, w.chain[j], records[k]) ensures j == i {
      OfEventKey(cfg, w.chain[j], records[k]);
      EventsApart(w.chain, i, j);
    }
    forall x | x in records && OfEvent(cfg, w.chain[i], records[x]) ensures x == k {
      OfEventKey(cfg, w.chain[i], records[x]);
    }
  }

  /** Everything that ever went on the air is the built frame of one chain event, it is the frame the store has
      under that key, and no second frame ever goes out under the key. */
  lemma AiredFrames(cfg: Config, steps: seq<Step>, n: nat) returns (i: nat, q: U16)
    requires cfg.crypto.Sound() && n < |RunWorld(cfg, steps).aired|
    ensures var w := RunWorld(cfg, steps);
            var a := w.aired[n];
            && i < |w.chain| && a.key == KeyOf(w.chain[i]) && a.hex == HexOf(FrameOf(cfg, w.chain[i], q))
            && a.key in w.store.cache.records && w.store.cache.records[a.key].packetCHex == a.hex
            && (forall m :: 0 <= m < |w.aired| && w.aired[m].key == a.key ==> w.aired[m].hex == a.hex)
  {
    hide RunWorld, KeyOf, OnDisk, OrderOk, PageOk, JobsOk, FrameOf, HexOf;
    var w := RunWorld(cfg, steps);
    var k := w.aired[n].key;
    WorldInvAlways(cfg, steps);
    i := OneRecordPerEvent(cfg, steps, k);
    q :| SameBody(w.store.cache.records[k], RecordOf(cfg, w.chain[i], q));
  }

  /** A receipt is dispatched only after its exact frame went through a successful transmission. */
  lemma DispatchedWasAired(cfg: Config, steps: seq<Step>, k: string)
    requires cfg.crypto.Sound() && k in RunWorld(cfg, steps).store.cache.records
    requires RunWorld(cfg, steps).store.cache.records[k].dispatchStatus == DISPATCHED
    ensures var w := RunWorld(cfg, steps);
            Aired(k, w.store.cache.records[k].packetCHex) in w.aired
  {
    hide RunWorld, KeyOf, OnDisk, OrderOk, PageOk, JobsOk, Genuine;
    var w := RunWorld(cfg, steps);
    WorldInvAlways(cfg, steps);
    assert Good(cfg, w.chain, w.aired, w.store.cache.records[k]);
    assert Key(w.store.cache.records[k]) == k;
    var i :| 0 <= i < |w.aired| && w.aired[i].key == k;
    assert w.aired[i] == Aired(k, w.store.cache.records[k].packetCHex);
  }

  lemma {:induction false} PendingInHas(records: map<string, Record>, keys: seq<string>, n: nat)
    requires n < |keys| && keys[n] in records && records[keys[n]].dispatchStatus == PENDING
    ensures |PendingIn(records, keys[..n])| < |PendingIn(records, keys)|
    ensures PendingIn(records, keys)[|PendingIn(records, keys[..n])|] == records[keys[n]]
    decreases |keys|
  {
    var init := keys[..|keys| - 1];
    if n < |init| {
      assert init[..n] == keys[..n];
      PendingInHas(records, init, n);
    }
  }

  /** While the gateway is up, a receipt that is not dispatched is pending, and is in the page whenever fewer than ten
      pending receipts were recorded before it. */
  lemma StillOffered(cfg: Config, steps: seq<Step>, k: string) returns (n: nat)
    requires cfg.crypto.Sound() && k in RunWorld(cfg, steps).store.cache.records
    requires RunWorld(cfg, steps).up
    requires RunWorld(cfg, steps).store.cache.records[k].dispatchStatus != DISPATCHED
    ensures var c := RunWorld(cfg, steps).store.cache;
            && n < |c.order| && c.order[n] == k && c.records[k].dispatchStatus == PENDING
            && (|PendingIn(c.records, c.order[..n])| < PAGE_SIZE ==> c.records[k] in Pending(c, PAGE_SIZE))
  {
    hide RunWorld, KeyOf, OnDisk, AiredOk, PageOk, JobsOk, Genuine, PendingIn;
    var c := RunWorld(cfg, steps).store.cache;
    WorldInvAlways(cfg, steps);
    assert k in c.order;
    n :| 0 <= n < |c.order| && c.order[n] == k;
    PendingInHas(c.records, c.order, n);
    var ahead := |PendingIn(c.records, c.order[..n])|;
    assert ahead < PAGE_SIZE ==> ahead < |Pending(c, PAGE_SIZE)| && Pending(c, PAGE_SIZE)[ahead] == c.records[k];
  }

  lemma {:induction false} PendingShrinks(r: map<string, Record>, s: map<string, Record>, keys: seq<string>)
    requires forall k :: k in r ==> k in s && (r[k].dispatchStatus != PENDING ==> s[k].dispatchStatus != PENDING)
    requires forall i :: 0 <= i < |keys| ==> keys[i] in r
    ensures |PendingIn(s, keys)| <= |PendingIn(r, keys)|
    decreases |keys|
  {
    if keys != [] {
      PendingShrinks(r, s, keys[..|keys| - 1]);
    }
  }

  /** Nobody overtakes: while the gateway is up, a step never puts more pending receipts in front of a place in
      the queue, and never moves the places. */
  lemma NoOvertaking(cfg: Config, steps: seq<Step>, step: Step, n: nat)
    requires cfg.crypto.Sound() && step != Boot && n <= |RunWorld(cfg, steps).store.cache.order|
    ensures var c, d := RunWorld(cfg, steps).store.cache, Next(cfg, RunWorld(cfg, steps), step).store.cache;
            c.order <= d.order && |PendingIn(d.records, d.order[..n])| <= |PendingIn(c.records, c.order[..n])|
  {
    hide RunWorld, KeyOf, OnDisk, AiredOk, PageOk, JobsOk, Good, PendingIn, PutLine, RecordOf;
    var w := RunWorld(cfg, steps);
    var c, d := w.store.cache, Next(cfg, w, step).store.cache;
    WorldInvAlways(cfg, steps);
    if step.Store? && step.id in w.jobs && w.jobs[step.id].Numbered? {
      RecordOfKey(cfg, w.jobs[step.id].ev, w.jobs[step.id].seqCount);
    }
    assert c.order <= d.order;
    assert d.order[..n] == c.order[..n];
    PendingShrinks(c.records, d.records, c.order[..n]);
  }

  /** Dispatched is final: no step, reboot included, makes the receipt pending again or offers it again. */
  lemma DispatchedForGood(cfg: Config, steps: seq<Step>, step: Step, k: string)
    requires cfg.crypto.Sound() && k in RunWorld(cfg, steps).store.cache.records
    requires RunWorld(cfg, steps).store.cache.records[k].dispatchStatus == DISPATCHED
    ensures var d := Next(cfg, RunWorld(cfg, steps), step).store.cache;
            && k in d.records && d.records[k].dispatchStatus == DISPATCHED
            && forall rec :: rec in Pending(d, PAGE_SIZE) ==> Key(rec) != k
  {
    hide RunWorld, KeyOf, OnDisk, AiredOk, PageOk, JobsOk, Good, OrderOk, PendingIn, PutLine, RecordOf;
    var w := RunWorld(cfg, steps);
    WorldInvAlways(cfg, steps);
    assert Inv(w.store);
    var v := Next(cfg, w, step);
    StoreMove(cfg, w, step, k);
    StepWorldInv(cfg, w, step);
    assert CacheOk(v.store.cache);
    forall rec | rec in Pending(v.store.cache, PAGE_SIZE) ensures Key(rec) != k {
      OfferedIsPending(v.store.cache, rec);
    }
  }

  lemma StoreMove(cfg: Config, w: World, step: Step, k: string)
    requires cfg.crypto.Sound() && Inv(w.store)
    requires k in w.store.cache.records && w.store.cache.records[k].dispatchStatus == DISPATCHED
    ensures var d := Next(cfg, w, step).store.cache;
            k in d.records && d.records[k].dispatchStatus == DISPATCHED
  {
    hide KeyOf, PutLine, RecordOf, Inv, Rows;
    if step.Boot? && !w.up && Rows(w.store.disk).Some? {
      Frozen(w.store, Reopen, k);
    }
  }

  lemma OfferedIsPending(c: Cache, rec: Record)
    requires CacheOk(c) && rec in Pending(c, PAGE_SIZE)
    ensures Key(rec) in c.records && c.records[Key(rec)] == rec && rec.dispatchStatus == PENDING
  {
    hide Key;
    var i :| 0 <= i < |Pending(c, PAGE_SIZE)| && Pending(c, PAGE_SIZE)[i] == rec;
    PendingInIsPending(c.records, c.order, i);
  }

  lemma {:induction false} PendingInIsPending(records: map<string, Record>, keys: seq<string>, i: nat)
    requires i < |PendingIn(records, keys)|
    ensures PendingIn(records, keys)[i].dispatchStatus == PENDING
    ensures exists k :: k in records && records[k] == PendingIn(records, keys)[i]
    decreases |keys|
  {
    if i < |PendingIn(records, keys[..|keys| - 1])| {
      PendingInIsPending(records, keys[..|keys| - 1], i);
    } else {
      assert records[keys[|keys| - 1]] == PendingIn(records, keys)[i];
    }
  }

  // ---- Sequence counts of concurrent calls -----------------------------------------------------------------------

  /** How many counts were taken since the gateway last came up. */
  ghost function Takes(cfg: Config, steps: seq<Step>): nat
    requires cfg.crypto.Sound()
  {
    if steps == [] then 0
    else
      var init, step := steps[..|steps| - 1], steps[|steps| - 1];
      var w := RunWorld(cfg, init);
      if step.Boot? && !w.up && Rows(w.store.disk).Some? then 0
      else Takes(cfg, init) + if step.Take? && step.id in w.jobs && w.jobs[step.id].Checked? then 1 else 0
  }

  /** However Handle calls interleave, the n-th count taken since the last boot is n mod 16384: no two calls share one
      unless 16384 lie between them, and a reboot starts over at 0. */
  lemma {:induction false} CountsInTurn(cfg: Config, steps: seq<Step>, id: nat)
    requires cfg.crypto.Sound()
    ensures var w := RunWorld(cfg, steps);
            && w.seqCount == Takes(cfg, steps) % 0x4000
            && (id in w.jobs && w.jobs[id].Checked? ==>
                  var v := Next(cfg, w, Take(id));
                  id in v.jobs && v.jobs[id] == Numbered(w.jobs[id].ev, Takes(cfg, steps) % 0x4000))
    decreases |steps|
  {
    hide KeyOf, RecordOf, AppendResult, MarkResult, Rows, Replay, Pending;
    if steps != [] {
      var init, step := steps[..|steps| - 1], steps[|steps| - 1];
      CountsInTurn(cfg, init, id);
      hide RunWorld, Takes;
      StepCounts(cfg, init, step);
      assert steps == init + [step];
    }
  }

  lemma StepCounts(cfg: Config, init: seq<Step>, step: Step)
    requires cfg.crypto.Sound() && RunWorld(cfg, init).seqCount == Takes(cfg, init) % 0x4000
    ensures RunWorld(cfg, init + [step]).seqCount == Takes(cfg, init + [step]) % 0x4000
  {
    hide Next, Rows;
    assert (init + [step])[..|init|] == init;
    Wraps(Takes(cfg, init));
    CountAfter(cfg, RunWorld(cfg, init), step);
  }

  lemma CountAfter(cfg: Config, w: World, step: Step)
    requires cfg.crypto.Sound()
    ensures Next(cfg, w, step).seqCount
            == if step.Boot? && !w.up && Rows(w.store.disk).Some? then 0
               else if step.Take? && step.id in w.jobs && w.jobs[step.id].Checked? then (w.seqCount + 1) % 0x4000
               else w.seqCount
  {
    hide KeyOf, RecordOf, AppendResult, MarkResult, Rows, Replay, Pending;
  }

  lemma Wraps(n: nat)
    ensures (n % 0x4000 + 1) % 0x4000 == (n + 1) % 0x4000
  {
  }

  // ---- Exactly once, when the gateway has caught up -------------------------------------------------------------------

  function KeysOf(chain: seq<Event>): set<string> {
    if chain == [] then {} else KeysOf(chain[..|chain| - 1]) + {KeyOf(chain[|chain| - 1])}
  }

  predicate Announced(chain: seq<Event>, k: string) {
    exists i :: 0 <= i < |chain| && KeyOf(chain[i]) == k
  }

  lemma {:induction false} KeysOfHas(chain: seq<Event>, k: string)
    ensures k in KeysOf(chain) <==> Announced(chain, k)
    decreases |chain|
  {
    hide KeyOf;
    if chain != [] {
      var init, n := chain[..|chain| - 1], |chain| - 1;
      KeysOfHas(init, k);
      if Announced(init, k) {
        var i :| 0 <= i < |init| && KeyOf(init[i]) == k;
        assert KeyOf(chain[i]) == k;
      }
      if Announced(chain, k) {
        var i :| 0 <= i < |chain| && KeyOf(chain[i]) == k;
        assert i < n ==> KeyOf(init[i]) == k;
      }
    }
  }

  lemma {:induction false} KeysOfCount(chain: seq<Event>)
    requires ChainOk(chain)
    ensures |KeysOf(chain)| == |chain|
    decreases |chain|
  {
    hide KeyOf;
    if chain != [] {
      var init, n := chain[..|chain| - 1], |chain| - 1;
      KeysOfCount(init);
      KeysOfHas(init, KeyOf(chain[n]));
      if Announced(init, KeyOf(chain[n])) {
        var i :| 0 <= i < |init| && KeyOf(init[i]) == KeyOf(chain[n]);
        EventsApart(chain, i, n);
        assert false;
      }
    }
  }

  /** Nothing is left to hand out, in flight or failed. */
  predicate CaughtUp(w: World) {
    w.up && w.delivered == |w.chain| && w.jobs == map[] && w.failed == {}
  }

  /** However often the gateway restarted and replayed the chain: once it has caught up, the store holds exactly
      one record for every event on the chain and nothing else. */
  lemma ExactlyOneEach(cfg: Config, steps: seq<Step>)
    requires cfg.crypto.Sound() && CaughtUp(RunWorld(cfg, steps))
    ensures var w := RunWorld(cfg, steps);
            && w.store.cache.records.Keys == KeysOf(w.chain) && |w.store.cache.records| == |w.chain|
            && (forall i :: 0 <= i < |w.chain| ==>
                  KeyOf(w.chain[i]) in w.store.cache.records
                  && OfEvent(cfg, w.chain[i], w.store.cache.records[KeyOf(w.chain[i])]))
  {
    hide RunWorld, KeyOf, OfEvent, OnDisk, OrderOk, AiredOk, PageOk, KeysOf;
    var w := RunWorld(cfg, steps);
    var records := w.store.cache.records;
    WorldInvAlways(cfg, steps);
    KeysOfCount(w.chain);
    forall i | 0 <= i < |w.chain|
      ensures KeyOf(w.chain[i]) in records && OfEvent(cfg, w.chain[i], records[KeyOf(w.chain[i])])
    {
      assert Accounted(w, w.chain[i]);
      var j := OneRecordPerEvent(cfg, steps, KeyOf(w.chain[i]));
      EventsApart(w.chain, i, j);
    }
    forall k ensures k in records <==> k in KeysOf(w.chain) {
      KeysOfHas(w.chain, k);
      if k in records {
        var i := OneRecordPerEvent(cfg, steps, k);
      }
    }
    assert records.Keys == KeysOf(w.chain);
  }
}
