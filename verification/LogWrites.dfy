/** Which sequences of line writes leave a log that loads, over the store's runs and over the whole pipeline's. */
module LogWrites {
  import opened Words
  import opened ReceiptStore
  import opened StoreRuns
  import P = Processor
  import L = Pipeline
  import Restarts

  /** No write was cut, and after one that left its line unended every further write was missing altogether. */
  predicate Loadable(writes: seq<Write>) {
    && Cut !in writes
    && forall i, j :: 0 <= i < j < |writes| && writes[i].Unended? ==> writes[j].Missing?
  }

  /** The log loads exactly when its writes allow it, and while it does it ends in a newline unless one was unended. */
  predicate Tracks(d: Disk, writes: seq<Write>) {
    (Rows(d).Some? <==> Loadable(writes))
    && (Loadable(writes) ==> (d.tail.Clean? <==> Unended !in writes))
  }

  lemma LoadableSnoc(writes: seq<Write>, w: Write)
    ensures Loadable(writes + [w]) <==> Loadable(writes) && !w.Cut? && (Unended in writes ==> w.Missing?)
    ensures Unended in writes + [w] <==> Unended in writes || w.Unended?
  {
    var all := writes + [w];
    assert all[|writes|] == w;
    assert forall i :: 0 <= i < |writes| ==> all[i] == writes[i];
    if Loadable(all) {
      forall i | 0 <= i < |writes| ensures writes[i] != Cut {
        assert all[i] in all;
      }
      if Unended in writes {
        var i :| 0 <= i < |writes| && writes[i] == Unended;
        assert all[i].Unended? && all[|writes|].Missing?;
      }
      forall i, j | 0 <= i < j < |writes| && writes[i].Unended? ensures writes[j].Missing? {
        assert all[i].Unended? && all[j].Missing?;
      }
    }
  }

  lemma WriteTracks(d: Disk, writes: seq<Write>, row: Record, w: Write)
    requires Tracks(d, writes)
    ensures Tracks(PutLine(d, row, w), writes + [w])
  {
    LoadableSnoc(writes, w);
    DiskAfter(d, row, w);
    hide Loadable, Rows, PutLine;
  }

  lemma DiskAfter(d: Disk, row: Record, w: Write)
    ensures var e := PutLine(d, row, w);
            && (w.Missing? ==> e == d)
            && (w.Cut? ==> Rows(e).None?)
            && (w.Done? || w.Landed? ==> e.tail.Clean? && (Rows(e).Some? <==> Rows(d).Some? && d.tail.Clean?))
            && (w.Unended? ==> !e.tail.Clean? && (Rows(e).Some? <==> Rows(d).Some? && d.tail.Clean?))
  {
    RowsAfterWrite(d, row, w);
  }

  // ---- The writes of a store run --------------------------------------------------------------------------------

  /** The line write an operation performs: none for a duplicate append, an unknown or already dispatched mark, or a
      reopen. */
  function Performed(s: State, op: Op): seq<Write> {
    match op
    case DoAppend(rec, w) => if Key(rec) in s.cache.records then [] else [w]
    case DoMark(k, w) =>
      if k !in s.cache.records || s.cache.records[k].dispatchStatus == DISPATCHED then [] else [w]
    case Reopen => []
  }

  lemma OpTracks(s: State, op: Op, writes: seq<Write>)
    requires Tracks(s.disk, writes) && Apply(s, op).Some?
    ensures Tracks(Apply(s, op).value.disk, writes + Performed(s, op))
  {
    hide Tracks, PutLine, Rows, Replay, Key;
    match op
    case DoAppend(rec, w) =>
      if Key(rec) !in s.cache.records {
        WriteTracks(s.disk, writes, Normal(rec), w);
      } else {
        assert writes + [] == writes;
      }
    case DoMark(k, w) =>
      if k in s.cache.records && s.cache.records[k].dispatchStatus != DISPATCHED {
        WriteTracks(s.disk, writes, s.cache.records[k].(dispatchStatus := DISPATCHED), w);
      } else {
        assert writes + [] == writes;
      }
    case Reopen => assert writes + [] == writes;
  }

  lemma FreshTracks()
    ensures Tracks(EMPTY_DISK, [])
  {
  }

  /** The line writes of a run, in order. */
  function WritesOf(ops: seq<Op>): seq<Write> {
    if ops == [] then []
    else
      match Run(START, ops[..|ops| - 1])
      case Some(s) => WritesOf(ops[..|ops| - 1]) + Performed(s, ops[|ops| - 1])
      case None => WritesOf(ops[..|ops| - 1])
  }

  /** After any run the log loads if and only if no line was cut and nothing was written behind an unended one. */
  lemma LoadsExactlyWhen(ops: seq<Op>)
    requires Run(START, ops).Some?
    ensures Rows(Run(START, ops).value.disk).Some? <==> Loadable(WritesOf(ops))
  {
    RunTracks(ops);
  }

  lemma {:induction false} RunTracks(ops: seq<Op>)
    requires Run(START, ops).Some?
    ensures Tracks(Run(START, ops).value.disk, WritesOf(ops))
    decreases |ops|
  {
    hide Tracks, Performed, Apply;
    if ops == [] {
      FreshTracks();
    } else {
      var init := ops[..|ops| - 1];
      RunTracks(init);
      OpTracks(Run(START, init).value, ops[|ops| - 1], WritesOf(init));
    }
  }

  // ---- The writes of a pipeline run ---------------------------------------------------------------------------

  /** The line write a step of the pipeline performs. */
  ghost function StepWrites(cfg: P.Config, w: L.World, step: L.Step): seq<Write>
    requires cfg.crypto.Sound()
  {
    match step
    case Store(id, out) =>
      if id in w.jobs && w.jobs[id].Numbered? && |cfg.seed| == 32
      then Performed(w.store, DoAppend(P.RecordOf(cfg, w.jobs[id].ev, w.jobs[id].seqCount), out)) else []
    case Ack(i, out) => if w.up && i < |w.aired| then Performed(w.store, DoMark(w.aired[i].key, out)) else []
    case _ => []
  }

  ghost function WorldWrites(cfg: P.Config, steps: seq<L.Step>): seq<Write>
    requires cfg.crypto.Sound()
  {
    if steps == [] then []
    else
      var init := steps[..|steps| - 1];
      WorldWrites(cfg, init) + StepWrites(cfg, L.RunWorld(cfg, init), steps[|steps| - 1])
  }

  lemma StepTracks(cfg: P.Config, w: L.World, step: L.Step, writes: seq<Write>)
    requires cfg.crypto.Sound() && Tracks(w.store.disk, writes)
    ensures Tracks(L.Next(cfg, w, step).store.disk, writes + StepWrites(cfg, w, step))
  {
    hide Tracks, P.KeyOf, P.RecordOf, AppendResult, MarkResult, Rows, Replay, Performed;
    assert writes + [] == writes;
    match step
    case Store(id, out) =>
      if id in w.jobs && w.jobs[id].Numbered? && |cfg.seed| == 32 {
        OpTracks(w.store, DoAppend(P.RecordOf(cfg, w.jobs[id].ev, w.jobs[id].seqCount), out), writes);
      }
    case Ack(i, out) =>
      if w.up && i < |w.aired| {
        OpTracks(w.store, DoMark(w.aired[i].key, out), writes);
      }
    case _ =>
  }

  lemma {:induction false} WorldTracks(cfg: P.Config, steps: seq<L.Step>)
    requires cfg.crypto.Sound()
    ensures Tracks(L.RunWorld(cfg, steps).store.disk, WorldWrites(cfg, steps))
    decreases |steps|
  {
    hide Tracks, L.Next, StepWrites;
    if steps == [] {
      FreshTracks();
      StartDisk();
    } else {
      var init := steps[..|steps| - 1];
      WorldTracks(cfg, init);
      StepTracks(cfg, L.RunWorld(cfg, init), steps[|steps| - 1], WorldWrites(cfg, init));
    }
  }

  lemma StartDisk()
    ensures L.START_WORLD.store.disk == EMPTY_DISK
  {
  }

  /** After any pipeline run, a crashed gateway comes back if and only if no line write of the run was cut and nothing was
      written behind an unended one. */
  lemma ComesBackExactlyWhen(cfg: P.Config, steps: seq<L.Step>)
    requires cfg.crypto.Sound()
    ensures Restarts.Restarted(cfg, L.RunWorld(cfg, steps)).up <==> Loadable(WorldWrites(cfg, steps))
  {
    hide L.RunWorld, Rows, WorldWrites, Loadable;
    WorldTracks(cfg, steps);
  }
}
