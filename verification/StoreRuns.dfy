/** What the receipt store keeps over whole runs of Append, MarkDispatched and reopening the log, under every
    outcome a line write can have. */
module StoreRuns {
  import opened Words
  import opened ReceiptStore

  datatype Op = DoAppend(rec: Record, w: Write) | DoMark(key: string, w: Write) | Reopen

  /** The state after one operation; None when the log no longer loads and the store cannot open. */
  function Apply(s: State, op: Op): Option<State> {
    match op
    case DoAppend(rec, w) => Some(AppendResult(s, rec, w).0)
    case DoMark(key, w) => Some(MarkResult(s, key, w).0)
    case Reopen =>
      if Rows(s.disk).Some? then Some(s.(cache := Replay(Rows(s.disk).value))) else None
  }

  function Run(s: State, ops: seq<Op>): Option<State> {
    if ops == [] then Some(s)
    else
      match Run(s, ops[..|ops| - 1])
      case Some(t) => Apply(t, ops[|ops| - 1])
      case None => None
  }

  const START := State(EMPTY_CACHE, EMPTY_DISK)

  /** Callers append records that are blank or pending, as the receipt processor does. */
  predicate Caller(op: Op) {
    op.DoAppend? ==> op.rec.dispatchStatus in {"", PENDING}
  }

  // ---- Writes ------------------------------------------------------------------------------------

  /** A write leaves the readable rows alone, adds its row at the end, or makes the log unreadable. */
  lemma RowsAfterWrite(d: Disk, row: Record, w: Write)
    ensures var r := Rows(PutLine(d, row, w));
            r.Some? ==> Rows(d).Some? && (r.value == Rows(d).value || r.value == Rows(d).value + [row])
    ensures w.Missing? ==> Rows(PutLine(d, row, w)) == Rows(d)
    ensures w.Done? || w.Landed? ==>
              Rows(PutLine(d, row, w)) ==
              if d.tail.Clean? && Rows(d).Some? then Some(Rows(d).value + [row]) else None
  {
    var line := if d.tail.Clean? then Row(row) else Garbage;
    assert (d.lines + [line])[..|d.lines|] == d.lines;
  }

  /** Durability: a record whose Append returned success survives a reload exactly when the log was readable
      and ended in a newline beforehand. */
  lemma AppendDurable(s: State, rec: Record)
    requires Key(rec) !in s.cache.records
    ensures var d := AppendResult(s, rec, Done).0.disk;
            (Rows(d).Some? && Key(rec) in Replay(Rows(d).value).records
             && Replay(Rows(d).value).records[Key(rec)] == Normal(rec))
            <==> (Rows(s.disk).Some? && s.disk.tail.Clean?)
  {
    var row := Normal(rec);
    RowsAfterWrite(s.disk, row, Done);
    if Rows(s.disk).Some? && s.disk.tail.Clean? {
      var rows := Rows(s.disk).value;
      assert (rows + [row])[..|rows|] == rows;
    }
  }

  /** Once unreadable, the log stays unreadable whatever is written after. */
  lemma {:induction false} UnreadableForever(s: State, ops: seq<Op>)
    requires Rows(s.disk) == None
    ensures Run(s, ops).Some? ==> Rows(Run(s, ops).value.disk) == None
    decreases |ops|
  {
    if ops != [] {
      UnreadableForever(s, ops[..|ops| - 1]);
      var r := Run(s, ops[..|ops| - 1]);
      if r.Some? {
        match ops[|ops| - 1]
        case DoAppend(rec, w) => RowsAfterWrite(r.value.disk, Normal(rec), w);
        case DoMark(k, w) =>
          if k in r.value.cache.records {
            RowsAfterWrite(r.value.disk, r.value.cache.records[k].(dispatchStatus := DISPATCHED), w);
          }
        case Reopen =>
      }
    }
  }

  // ---- All-or-nothing writes: the cache is the replay of the log -------------------------------------

  predicate AllOrNothing(op: Op) {
    (op.DoAppend? || op.DoMark?) ==> op.w.Done? || op.w.Missing?
  }

  predicate Exact(s: State) {
    Rows(s.disk).Some? && s.disk.tail.Clean? && s.cache == Replay(Rows(s.disk).value)
  }

  lemma ReplaySnoc(rows: seq<Record>, row: Record)
    ensures Replay(rows + [row]) == Load(Replay(rows), row)
  {
    assert (rows + [row])[..|rows|] == rows;
  }

  lemma ExactStep(s: State, op: Op)
    requires Exact(s) && AllOrNothing(op)
    ensures Apply(s, op).Some? && Exact(Apply(s, op).value)
  {
    var rows := Rows(s.disk).value;
    ReplayKeys(rows);
    match op
    case DoAppend(rec, w) =>
      RowsAfterWrite(s.disk, Normal(rec), w);
      ReplaySnoc(rows, Normal(rec));
    case DoMark(k, w) =>
      if k in s.cache.records {
        var row := s.cache.records[k].(dispatchStatus := DISPATCHED);
        RowsAfterWrite(s.disk, row, w);
        ReplaySnoc(rows, row);
      }
    case Reopen =>
  }

  /** Under all-or-nothing writes every run keeps map and order list equal to the replay of the log, so
      reopening at any moment changes nothing. */
  lemma {:induction false} CacheIsReplay(ops: seq<Op>)
    requires forall i :: 0 <= i < |ops| ==> AllOrNothing(ops[i])
    ensures Run(START, ops).Some? && Exact(Run(START, ops).value)
    ensures Apply(Run(START, ops).value, Reopen) == Run(START, ops)
    decreases |ops|
  {
    if ops != [] {
      CacheIsReplay(ops[..|ops| - 1]);
      ExactStep(Run(START, ops[..|ops| - 1]).value, ops[|ops| - 1]);
    }
  }

  // ---- Any write outcome: the log may run ahead of the cache ------------------------------------------

  predicate SameBody(a: Record, b: Record) {
    a.(dispatchStatus := "") == b.(dispatchStatus := "")
  }

  predicate CacheOk(c: Cache) {
    forall k :: k in c.records ==>
      Key(c.records[k]) == k && c.records[k].dispatchStatus in {PENDING, DISPATCHED}
  }

  /** No pending row for a key follows a dispatched one, and the dispatched rows of a key are all the same. */
  predicate NoRegress(rows: seq<Record>) {
    forall i, j :: 0 <= i < j < |rows| && Key(rows[i]) == Key(rows[j]) && rows[i].dispatchStatus == DISPATCHED
                   ==> rows[j] == rows[i]
  }

  /** Every cached record is the logged one, except that the log may already say dispatched; and whatever the
      log says is dispatched is cached. */
  predicate Behind(c: Cache, rows: seq<Record>) {
    && NoRegress(rows)
    && (forall i :: 0 <= i < |rows| ==> rows[i].dispatchStatus in {PENDING, DISPATCHED})
    && (forall i :: 0 <= i < |rows| && rows[i].dispatchStatus == DISPATCHED ==> Key(rows[i]) in c.records)
    && (forall k :: k in c.records ==>
          k in Replay(rows).records
          && SameBody(c.records[k], Replay(rows).records[k])
          && (c.records[k].dispatchStatus == DISPATCHED ==> Replay(rows).records[k].dispatchStatus == DISPATCHED))
  }

  predicate Inv(s: State) {
    CacheOk(s.cache) && (Rows(s.disk).Some? ==> Behind(s.cache, Rows(s.disk).value))
  }

  lemma {:induction false} LatestWith(rows: seq<Record>, k: string) returns (i: nat)
    requires k in Replay(rows).records
    ensures i < |rows| && Key(rows[i]) == k && Replay(rows).records[k] == Normal(rows[i])
    ensures forall j :: i < j < |rows| ==> Key(rows[j]) != k
    decreases |rows|
  {
    i := |rows| - 1;
    if Key(rows[i]) != k {
      i := LatestWith(rows[..|rows| - 1], k);
    }
  }

  /** A dispatched row for k is the record a reload keeps for k. */
  lemma DispatchedIsLatest(rows: seq<Record>, i: nat)
    requires NoRegress(rows) && i < |rows| && rows[i].dispatchStatus == DISPATCHED
    ensures Key(rows[i]) in Replay(rows).records && Replay(rows).records[Key(rows[i])] == rows[i]
  {
    ReplayKeys(rows);
    assert HasKey(rows, Key(rows[i]));
    var j := LatestWith(rows, Key(rows[i]));
    assert j == i || (i < j && rows[j] == rows[i]);
  }

  lemma NoRegressSnoc(c: Cache, rows: seq<Record>, row: Record)
    requires Behind(c, rows)
    requires row.dispatchStatus == PENDING ==> Key(row) !in c.records
    requires row.dispatchStatus == DISPATCHED ==>
               Key(row) in c.records && SameBody(row, c.records[Key(row)])
    requires row.dispatchStatus in {PENDING, DISPATCHED}
    ensures NoRegress(rows + [row])
  {
    hide Key, Replay;
    forall i | 0 <= i < |rows| && Key(rows[i]) == Key(row) && rows[i].dispatchStatus == DISPATCHED
      ensures row == rows[i]
    {
      DispatchedIsLatest(rows, i);
    }
  }

  /** The latest row of every other key stays, the new row is the latest of its own. */
  lemma LatestAfterRow(rows: seq<Record>, row: Record, k: string)
    requires row.dispatchStatus in {PENDING, DISPATCHED}
    ensures k in Replay(rows + [row]).records <==> k == Key(row) || k in Replay(rows).records
    ensures k == Key(row) ==> Replay(rows + [row]).records[k] == row
    ensures k != Key(row) && k in Replay(rows).records ==> Replay(rows + [row]).records[k] == Replay(rows).records[k]
  {
    ReplaySnoc(rows, row);
    hide Key, Replay;
  }

  lemma BehindAfterRow(c: Cache, d: Cache, rows: seq<Record>, row: Record)
    requires Behind(c, rows) && row.dispatchStatus in {PENDING, DISPATCHED}
    requires row.dispatchStatus == PENDING ==> Key(row) !in c.records
    requires row.dispatchStatus == DISPATCHED ==>
               Key(row) in c.records && SameBody(row, c.records[Key(row)])
    requires d.records == c.records || d.records == c.records[Key(row) := row]
    ensures Behind(d, rows + [row])
  {
    hide Key, Replay, NoRegress, Load;
    NoRegressSnoc(c, rows, row);
    var all := rows + [row];
    forall i | 0 <= i < |all|
      ensures all[i].dispatchStatus in {PENDING, DISPATCHED}
      ensures all[i].dispatchStatus == DISPATCHED ==> Key(all[i]) in d.records
    {
      assert all[i] == if i < |rows| then rows[i] else row;
    }
    forall k | k in d.records
      ensures k in Replay(all).records && SameBody(d.records[k], Replay(all).records[k])
      ensures d.records[k].dispatchStatus == DISPATCHED ==> Replay(all).records[k].dispatchStatus == DISPATCHED
    {
      LatestAfterRow(rows, row, k);
    }
  }

  lemma BehindOfReplay(c: Cache, rows: seq<Record>)
    requires Behind(c, rows)
    ensures CacheOk(Replay(rows)) && Behind(Replay(rows), rows)
  {
    ReplayKeys(rows);
    forall k | k in Replay(rows).records ensures Replay(rows).records[k].dispatchStatus in {PENDING, DISPATCHED} {
      var i := LatestWith(rows, k);
    }
    forall i | 0 <= i < |rows| ensures Key(rows[i]) in Replay(rows).records {
      assert HasKey(rows, Key(rows[i]));
    }
  }

  lemma AppendKeeps(s: State, rec: Record, w: Write)
    requires Inv(s) && rec.dispatchStatus in {"", PENDING}
    ensures Inv(AppendResult(s, rec, w).0)
  {
    hide Behind, PutLine, Rows, Replay;
    var row, t := Normal(rec), AppendResult(s, rec, w).0;
    RowsAfterWrite(s.disk, row, w);
    if Key(rec) !in s.cache.records && Rows(t.disk).Some? && Rows(t.disk) != Rows(s.disk) {
      BehindAfterRow(s.cache, t.cache, Rows(s.disk).value, row);
    }
  }

  lemma Longer(rows: seq<Record>, row: Record)
    ensures rows + [row] != rows
  {
    assert |rows + [row]| == |rows| + 1;
  }

  lemma MarkKeeps(s: State, k: string, w: Write)
    requires Inv(s)
    ensures Inv(MarkResult(s, k, w).0)
  {
    hide Behind, PutLine, Rows, Replay;
    if k in s.cache.records {
      var row, t := s.cache.records[k].(dispatchStatus := DISPATCHED), MarkResult(s, k, w).0;
      RowsAfterWrite(s.disk, row, w);
      if Rows(s.disk).Some? {
        Longer(Rows(s.disk).value, row);
      }
      if Rows(t.disk).Some? && Rows(t.disk) != Rows(s.disk) {
        BehindAfterRow(s.cache, t.cache, Rows(s.disk).value, row);
      }
    }
  }

  lemma InvStep(s: State, op: Op)
    requires Inv(s) && Caller(op)
    ensures Apply(s, op).Some? ==> Inv(Apply(s, op).value)
  {
    match op
    case DoAppend(rec, w) => AppendKeeps(s, rec, w);
    case DoMark(k, w) => MarkKeeps(s, k, w);
    case Reopen =>
      if Rows(s.disk).Some? {
        BehindOfReplay(s.cache, Rows(s.disk).value);
      }
  }

  lemma {:induction false} InvRun(ops: seq<Op>)
    requires forall i :: 0 <= i < |ops| ==> Caller(ops[i])
    ensures Run(START, ops).Some? ==> Inv(Run(START, ops).value)
    decreases |ops|
  {
    if ops != [] {
      InvRun(ops[..|ops| - 1]);
      if Run(START, ops[..|ops| - 1]).Some? {
        InvStep(Run(START, ops[..|ops| - 1]).value, ops[|ops| - 1]);
      }
    }
  }

  /** In every reachable log, whatever the writes did, no pending line for a key follows a dispatched one. */
  lemma NoPendingAfterDispatched(ops: seq<Op>, i: nat, j: nat)
    requires forall n :: 0 <= n < |ops| ==> Caller(ops[n])
    requires Run(START, ops).Some? && Rows(Run(START, ops).value.disk).Some?
    requires var rows := Rows(Run(START, ops).value.disk).value;
             i < j < |rows| && Key(rows[i]) == Key(rows[j]) && rows[i].dispatchStatus == DISPATCHED
    ensures Rows(Run(START, ops).value.disk).value[j].dispatchStatus == DISPATCHED
  {
    InvRun(ops);
  }

  /** Once the store serves a record, every later operation, reload included, serves the same body under the
      same key; only the status moves, and never back from dispatched. */
  lemma Frozen(s: State, op: Op, k: string)
    requires Inv(s) && Caller(op) && k in s.cache.records && Apply(s, op).Some?
    ensures var t := Apply(s, op).value;
            && k in t.cache.records
            && SameBody(s.cache.records[k], t.cache.records[k])
            && (s.cache.records[k].dispatchStatus == DISPATCHED ==> t.cache.records[k].dispatchStatus == DISPATCHED)
  {
  }

  lemma {:induction false} RunAppend(s: State, ops: seq<Op>, op: Op)
    ensures Run(s, ops + [op]) == match Run(s, ops) case Some(t) => Apply(t, op) case None => None
  {
    assert (ops + [op])[..|ops|] == ops;
  }

  /** The same over whole runs: whatever a reachable store serves, it serves with the same body after any further
      operations and reloads, and a dispatched record stays dispatched. */
  lemma {:induction false} FrozenForGood(ops: seq<Op>, more: seq<Op>, k: string)
    requires forall i :: 0 <= i < |ops + more| ==> Caller((ops + more)[i])
    requires Run(START, ops).Some? && k in Run(START, ops).value.cache.records && Run(START, ops + more).Some?
    ensures var c, d := Run(START, ops).value.cache, Run(START, ops + more).value.cache;
            && k in d.records && SameBody(c.records[k], d.records[k])
            && (c.records[k].dispatchStatus == DISPATCHED ==> d.records[k].dispatchStatus == DISPATCHED)
    decreases |more|
  {
    hide Apply, Inv, Run;
    if more == [] {
      assert ops + more == ops;
    } else {
      var init, last := more[..|more| - 1], more[|more| - 1];
      var all := ops + init;
      assert ops + more == all + [last];
      assert forall i :: 0 <= i < |all| ==> all[i] == (ops + more)[i];
      RunAppend(START, all, last);
      FrozenForGood(ops, init, k);
      InvRun(all);
      assert Caller((ops + more)[|all|]);
      Frozen(Run(START, all).value, last, k);
    }
  }

  // ---- What failed writes can do -------------------------------------------------------------------------

  lemma RunOne(op: Op)
    ensures Run(START, [op]) == Apply(START, op)
  {
    assert [op][..0] == [];
  }

  /** A cut line takes the next record with it: the second append returned success, and the log no longer loads. */
  lemma AppendLost(a: Record, b: Record)
    requires Key(a) != Key(b)
    ensures var r := Run(START, [DoAppend(a, Cut)] + [DoAppend(b, Done)]);
            && r.Some? && Key(b) in r.value.cache.records && Rows(r.value.disk) == None
            && AppendResult(Run(START, [DoAppend(a, Cut)]).value, b, Done).1 == NoError
  {
    hide Key, Run;
    RunOne(DoAppend(a, Cut));
    RunAppend(START, [DoAppend(a, Cut)], DoAppend(b, Done));
    RowsAfterWrite(Run(START, [DoAppend(a, Cut)]).value.disk, Normal(b), Done);
  }

  lemma NormalKey(rec: Record)
    ensures Key(Normal(rec)) == Key(rec) && Normal(Normal(rec)) == Normal(rec)
  {
  }

  /** A write that landed but was reported as failed reorders the queue at the next reload: the record is appended
      again after another one, but its first line is still in front. */
  lemma LandedReorders(s: State, a: Record, b: Record, again: Record)
    requires s.cache == EMPTY_CACHE && s.disk == EMPTY_DISK && Key(a) == Key(again) != Key(b)
    ensures var t := AppendResult(AppendResult(AppendResult(s, a, Landed).0, b, Done).0, again, Done).0;
            && t.cache.order == [Key(b), Key(a)] && Rows(t.disk).Some? && Replay(Rows(t.disk).value).order == [Key(a), Key(b)]
  {
    hide Key, Normal, PutLine, Rows, Replay;
    NormalKey(a);
    NormalKey(b);
    NormalKey(again);
    var x, y, z := Normal(a), Normal(b), Normal(again);
    var d1 := PutLine(s.disk, x, Landed);
    var d2 := PutLine(d1, y, Done);
    NothingLogged();
    RowsAfterWrite(s.disk, x, Landed);
    RowsAfterWrite(d1, y, Done);
    RowsAfterWrite(d2, z, Done);
    CleanAfterWrite(s.disk, x, Landed);
    CleanAfterWrite(d1, y, Done);
    assert [] + [x] == [x] && [x] + [y] == [x, y] && [x, y] + [z] == [x, y, z];
    ReplaySnoc([], x);
    ReplaySnoc([x], y);
    ReplaySnoc([x, y], z);
  }

  lemma NothingLogged()
    ensures Rows(EMPTY_DISK) == Some([]) && Replay([]) == EMPTY_CACHE
  {
  }

  lemma CleanAfterWrite(d: Disk, row: Record, w: Write)
    requires w.Done? || w.Landed?
    ensures PutLine(d, row, w).tail == Clean
  {
  }
}
