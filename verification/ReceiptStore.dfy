/** The receipt store: an append-only log file with a map and an order list as its cache
    (gateway/internal/core/receipt/store.go). The log is a sequence of lines, one record each. A write may
    fail in every way a file write can: nothing lands, everything lands but the call reports an error (a
    failed fsync), or only part of the line lands. */
module ReceiptStore {
  import opened Words

  const PENDING := "PENDING"
  const DISPATCHED := "DISPATCHED"

  datatype Record = Record(paymentId: string, settlementTxHash: string, satId: U32, amount: string,
                           assetId: U16, wallet: string, packetCHex: string, blockNumber: U64,
                           tsMs: int, dispatchStatus: string)

  datatype Error = NoError | ErrDuplicate | ErrUnknown | ErrWrite

  function DedupKey(paymentId: string, txHash: string): string {
    paymentId + "|" + txHash
  }

  function Key(rec: Record): string {
    DedupKey(rec.paymentId, rec.settlementTxHash)
  }

  /** Where the first separator of a key stands. */
  function SeparatorAt(s: string): nat {
    if s == [] || s[0] == '|' then 0 else 1 + SeparatorAt(s[1..])
  }

  lemma {:induction false} SeparatorAfterId(p: string, t: string)
    requires '|' !in p
    ensures SeparatorAt(DedupKey(p, t)) == |p|
    decreases |p|
  {
    if p != [] {
      assert DedupKey(p, t)[1..] == DedupKey(p[1..], t);
      SeparatorAfterId(p[1..], t);
    }
  }

  /** Payment ids without the separator never share a key. */
  lemma DedupKeyInjective(p: string, t: string, q: string, u: string)
    requires '|' !in p && '|' !in q
    requires DedupKey(p, t) == DedupKey(q, u)
    ensures p == q && t == u
  {
    SeparatorAfterId(p, t);
    SeparatorAfterId(q, u);
    var k := DedupKey(p, t);
    assert p == k[..|p|] && q == k[..|q|] && t == k[|p| + 1..] && u == k[|q| + 1..];
  }

  /** The separator matters: with one inside a payment id, different pairs collide. */
  lemma DedupKeyCollision()
    ensures DedupKey("1|2", "3") == DedupKey("1", "2|3")
  {
  }

  // ---- The file --------------------------------------------------------------------------------

  /** What one write of a line does to the file. Every outcome but Done is reported as an error. */
  datatype Write = Done | Missing | Landed | Unended | Cut

  datatype Line = Row(rec: Record) | Garbage

  /** Bytes after the last newline: none, a whole record without its newline, or a fragment. */
  datatype Tail = Clean | Whole(rec: Record) | Partial

  datatype Disk = Disk(lines: seq<Line>, tail: Tail)

  const EMPTY_DISK := Disk([], Clean)

  /** A line written after a dirty tail runs into it, and the joined line does not parse. */
  function PutLine(d: Disk, rec: Record, w: Write): Disk {
    match w
    case Missing => d
    case Done | Landed => Disk(d.lines + [if d.tail.Clean? then Row(rec) else Garbage], Clean)
    case Unended => d.(tail := if d.tail.Clean? then Whole(rec) else Partial)
    case Cut => d.(tail := Partial)
  }

  /** The records of a line sequence, or None if some line does not parse. */
  function RowsOf(lines: seq<Line>): Option<seq<Record>> {
    if lines == [] then Some([])
    else
      match (RowsOf(lines[..|lines| - 1]), lines[|lines| - 1])
      case (Some(rows), Row(rec)) => Some(rows + [rec])
      case _ => None
  }

  /** Everything a reload reads, or None if it fails on a malformed line. */
  function Rows(d: Disk): Option<seq<Record>> {
    match (RowsOf(d.lines), d.tail)
    case (Some(rows), Clean) => Some(rows)
    case (Some(rows), Whole(rec)) => Some(rows + [rec])
    case _ => None
  }

  // ---- The cache -------------------------------------------------------------------------------

  datatype Cache = Cache(records: map<string, Record>, order: seq<string>)

  const EMPTY_CACHE := Cache(map[], [])

  /** A record without a status counts as pending. */
  function Normal(rec: Record): Record {
    if rec.dispatchStatus == "" then rec.(dispatchStatus := PENDING) else rec
  }

  /** One line of the reload scan: first sight fixes the order, last sight fixes the record. */
  function Load(c: Cache, rec: Record): Cache {
    Cache(c.records[Key(rec) := Normal(rec)],
          if Key(rec) in c.records then c.order else c.order + [Key(rec)])
  }

  function Replay(rows: seq<Record>): Cache {
    if rows == [] then EMPTY_CACHE
    else Load(Replay(rows[..|rows| - 1]), rows[|rows| - 1])
  }

  /** The pending records under the given keys, in key order. */
  function PendingIn(records: map<string, Record>, keys: seq<string>): seq<Record> {
    if keys == [] then []
    else
      var k := keys[|keys| - 1];
      PendingIn(records, keys[..|keys| - 1])
        + (if k in records && records[k].dispatchStatus == PENDING then [records[k]] else [])
  }

  function Pending(c: Cache, limit: int): seq<Record> {
    var all := PendingIn(c.records, c.order);
    if limit <= 0 then [] else if |all| <= limit then all else all[..limit]
  }

  lemma {:induction false} PendingPrefix(records: map<string, Record>, keys: seq<string>, n: nat)
    requires n <= |keys|
    ensures PendingIn(records, keys[..n]) <= PendingIn(records, keys)
    decreases |keys|
  {
    if n == |keys| {
      assert keys[..n] == keys;
    } else {
      var init := keys[..|keys| - 1];
      assert keys[..n] == init[..n];
      PendingPrefix(records, init, n);
    }
  }

  predicate PendingAt(c: Cache, i: nat)
    requires i < |c.order|
  {
    c.order[i] in c.records && c.records[c.order[i]].dispatchStatus == PENDING
  }

  /** `out` are the records at these places of the order list, ascending, and at no pending place are they missing. */
  ghost predicate Places(c: Cache, upTo: nat, out: seq<Record>, at: seq<nat>)
    requires upTo <= |c.order|
  {
    && |at| == |out| && (forall m, n :: 0 <= m < n < |at| ==> at[m] < at[n])
    && (forall n :: 0 <= n < |at| ==> at[n] < upTo && PendingAt(c, at[n]) && out[n] == c.records[c.order[at[n]]])
    && (forall i: nat :: i < upTo && PendingAt(c, i) ==> i in at)
  }

  lemma PlacesSnoc(c: Cache, upTo: nat, out: seq<Record>, at: seq<nat>)
    requires upTo < |c.order| && Places(c, upTo, out, at)
    ensures if PendingAt(c, upTo) then Places(c, upTo + 1, out + [c.records[c.order[upTo]]], at + [upTo])
            else Places(c, upTo + 1, out, at)
  {
    hide PendingAt;
    var more := at + [upTo];
    assert more[|at|] == upTo;
    forall i | i in at ensures i in more {
      var n :| 0 <= n < |at| && at[n] == i;
      assert more[n] == i;
    }
  }

  lemma {:induction false} PendingPlaces(c: Cache, upTo: nat) returns (at: seq<nat>)
    requires upTo <= |c.order|
    ensures Places(c, upTo, PendingIn(c.records, c.order[..upTo]), at)
    decreases upTo
  {
    at := [];
    if upTo > 0 {
      at := PendingPlaces(c, upTo - 1);
      PlacesSnoc(c, upTo - 1, PendingIn(c.records, c.order[..upTo - 1]), at);
      assert c.order[..upTo][..upTo - 1] == c.order[..upTo - 1];
      hide Places;
      if PendingAt(c, upTo - 1) {
        at := at + [upTo - 1];
      }
    }
  }

  /** PendingRecords, place by place: the records at the first pending places of the order list, at most `limit`, and as
      many as that when any pending place is left out, which then comes later. */
  lemma PendingExactly(c: Cache, limit: int) returns (at: seq<nat>)
    ensures var out := Pending(c, limit);
            && |at| == |out| && (out == [] || |out| <= limit) && (forall m, n :: 0 <= m < n < |at| ==> at[m] < at[n])
            && (forall n :: 0 <= n < |at| ==>
                  at[n] < |c.order| && PendingAt(c, at[n]) && out[n] == c.records[c.order[at[n]]])
            && (forall i: nat :: i < |c.order| && PendingAt(c, i) && i !in at ==>
                  (limit <= 0 || |out| == limit) && forall n :: 0 <= n < |at| ==> at[n] < i)
  {
    var all := PendingPlaces(c, |c.order|);
    assert c.order[..|c.order|] == c.order;
    at := if limit <= 0 then [] else if |all| <= limit then all else all[..limit];
    var out := Pending(c, limit);
    hide PendingIn;
    assert forall m :: 0 <= m < |at| ==> at[m] == all[m];
    forall i: nat | i < |c.order| && PendingAt(c, i) && i !in at
      ensures (limit <= 0 || |out| == limit) && forall n :: 0 <= n < |at| ==> at[n] < i
    {
      var m :| 0 <= m < |all| && all[m] == i;
    }
  }

  // ---- The operations --------------------------------------------------------------------------

  datatype State = State(cache: Cache, disk: Disk)

  function AppendResult(s: State, rec: Record, w: Write): (State, Error) {
    var row := Normal(rec);
    if Key(rec) in s.cache.records then (s, ErrDuplicate)
    else if w.Done? then
      (State(Cache(s.cache.records[Key(rec) := row], s.cache.order + [Key(rec)]), PutLine(s.disk, row, w)), NoError)
    else (s.(disk := PutLine(s.disk, row, w)), ErrWrite)
  }

  function MarkResult(s: State, key: string, w: Write): (State, Error) {
    if key !in s.cache.records then (s, ErrUnknown)
    else if s.cache.records[key].dispatchStatus == DISPATCHED then (s, NoError)
    else
      var row := s.cache.records[key].(dispatchStatus := DISPATCHED);
      if w.Done? then
        (State(s.cache.(records := s.cache.records[key := row]), PutLine(s.disk, row, w)), NoError)
      else (s.(disk := PutLine(s.disk, row, w)), ErrWrite)
  }

  class LogFile {
    var disk: Disk

    constructor ()
      ensures disk == EMPTY_DISK
    {
      disk := EMPTY_DISK;
    }

    /** The write-and-sync of one line, with the outcome the file system picks. */
    method WriteLine(rec: Record, w: Write) returns (ok: bool)
      modifies this
      ensures disk == PutLine(old(disk), rec, w)
      ensures ok == w.Done?
    {
      disk := PutLine(disk, rec, w);
      ok := w.Done?;
    }
  }

  class Store {
    const file: LogFile
    var records: map<string, Record>
    var order: seq<string>

    function CacheOf(): Cache
      reads this
    {
      Cache(records, order)
    }

    function StateOf(): State
      reads this, file
    {
      State(CacheOf(), file.disk)
    }

    constructor (file: LogFile)
      ensures this.file == file && CacheOf() == EMPTY_CACHE
    {
      this.file := file;
      records, order := map[], [];
    }

    /** Opens the log; null stands for the error return. */
    static method NewStore(file: LogFile) returns (s: Store?)
      ensures s == null <==> Rows(file.disk) == None
      ensures s != null ==> fresh(s) && s.file == file && s.CacheOf() == Replay(Rows(file.disk).value)
    {
      var st := new Store(file);
      var ok := st.LoadRecords();
      s := if ok then st else null;
    }

    /** Scans every line; the scanner also yields a last line that has no newline. */
    method LoadRecords() returns (ok: bool)
      requires CacheOf() == EMPTY_CACHE
      modifies this
      ensures ok <==> Rows(file.disk).Some?
      ensures ok ==> CacheOf() == Replay(Rows(file.disk).value)
    {
      var lines := file.disk.lines;
      ghost var rows: seq<Record> := [];
      for i := 0 to |lines|
        invariant RowsOf(lines[..i]) == Some(rows) && |rows| == i
        invariant CacheOf() == Replay(rows)
      {
        assert lines[..i + 1][..i] == lines[..i];
        if lines[i].Garbage? {
          RowsOfPrefix(lines, i + 1);
          return false;
        }
        LoadOne(lines[i].rec);
        ghost var was := rows;
        rows := rows + [lines[i].rec];
        assert rows[..i] == was;
      }
      assert lines[..|lines|] == lines;
      match file.disk.tail
      case Clean =>
        ok := true;
      case Whole(rec) =>
        LoadOne(rec);
        assert (rows + [rec])[..|rows|] == rows;
        ok := true;
      case Partial =>
        ok := false;
    }

    method LoadOne(line: Record)
      modifies this
      ensures CacheOf() == Load(old(CacheOf()), line)
    {
      var rec := line;
      if rec.dispatchStatus == "" {
        rec := rec.(dispatchStatus := PENDING);
      }
      var key := DedupKey(rec.paymentId, rec.settlementTxHash);
      if key !in records {
        order := order + [key];
      }
      records := records[key := rec];
    }

    method Has(paymentId: string, txHash: string) returns (ok: bool)
      ensures ok <==> DedupKey(paymentId, txHash) in records
    {
      ok := DedupKey(paymentId, txHash) in records;
    }

    method Count() returns (n: nat)
      ensures n == |records|
    {
      n := |records|;
    }

    method Append(rec: Record, w: Write) returns (e: Error)
      modifies this, file
      ensures (StateOf(), e) == AppendResult(old(StateOf()), rec, w)
      ensures var k := rec.paymentId + "|" + rec.settlementTxHash;
              if k in old(records) then e == ErrDuplicate && StateOf() == old(StateOf())
              else if w.Done? then
                && e == NoError && order == old(order) + [k]
                && records == old(records)[k := if rec.dispatchStatus == "" then rec.(dispatchStatus := "PENDING") else rec]
              else e == ErrWrite && CacheOf() == old(CacheOf())
    {
      var key := DedupKey(rec.paymentId, rec.settlementTxHash);
      if key in records {
        return ErrDuplicate;
      }
      var row := rec;
      if row.dispatchStatus == "" {
        row := row.(dispatchStatus := PENDING);
      }
      var ok := file.WriteLine(row, w);
      if !ok {
        return ErrWrite;
      }
      records := records[key := row];
      order := order + [key];
      e := NoError;
    }

    method MarkDispatched(paymentId: string, txHash: string, w: Write) returns (e: Error)
      modifies this, file
      ensures (StateOf(), e) == MarkResult(old(StateOf()), DedupKey(paymentId, txHash), w)
      ensures order == old(order) && (e == ErrUnknown <==> paymentId + "|" + txHash !in old(records))
      ensures e != NoError ==> records == old(records)
      ensures var k := paymentId + "|" + txHash;
              k in old(records) ==>
                && (e == NoError <==> old(records)[k].dispatchStatus == "DISPATCHED" || w.Done?)
                && (e == NoError ==> records == old(records)[k := old(records)[k].(dispatchStatus := "DISPATCHED")])
                && (old(records)[k].dispatchStatus == "DISPATCHED" ==> StateOf() == old(StateOf()))
    {
      var key := DedupKey(paymentId, txHash);
      if key !in records {
        return ErrUnknown;
      }
      var rec := records[key];
      if rec.dispatchStatus == DISPATCHED {
        return NoError;
      }
      rec := rec.(dispatchStatus := DISPATCHED);
      var ok := file.WriteLine(rec, w);
      if !ok {
        return ErrWrite;
      }
      records := records[key := rec];
      e := NoError;
    }

    method PendingRecords(limit: int) returns (out: seq<Record>)
      ensures out == Pending(CacheOf(), limit)
    {
      out := [];
      if limit <= 0 {
        return;
      }
      var recs, keys := records, order;
      for i := 0 to |keys|
        invariant out == PendingIn(recs, keys[..i]) && |out| < limit
      {
        assert keys[..i + 1][..i] == keys[..i];
        PendingPrefix(recs, keys, i + 1);
        var key := keys[i];
        if key !in recs || recs[key].dispatchStatus != PENDING {
          continue;
        }
        out := out + [recs[key]];
        if |out| >= limit {
          return;
        }
      }
      assert keys[..|keys|] == keys;
    }
  }

  lemma {:induction false} RowsOfPrefix(lines: seq<Line>, n: nat)
    requires n <= |lines| && RowsOf(lines[..n]) == None
    ensures RowsOf(lines) == None
    decreases |lines|
  {
    if n == |lines| {
      assert lines[..n] == lines;
    } else {
      var init := lines[..|lines| - 1];
      assert lines[..n] == init[..n];
      RowsOfPrefix(init, n);
    }
  }

  // ---- Reload semantics ----------------------------------------------------------------------------

  predicate HasKey(rows: seq<Record>, k: string) {
    exists i :: 0 <= i < |rows| && Key(rows[i]) == k
  }

  /** The row a reload keeps for k is the last one with that key. */
  lemma {:induction false} ReplayIsLatest(rows: seq<Record>, i: nat)
    requires i < |rows|
    requires forall j :: i < j < |rows| ==> Key(rows[j]) != Key(rows[i])
    ensures Key(rows[i]) in Replay(rows).records && Replay(rows).records[Key(rows[i])] == Normal(rows[i])
    decreases |rows|
  {
    var init := rows[..|rows| - 1];
    if i < |init| {
      ReplayIsLatest(init, i);
    }
  }

  /** Every key the reload knows comes from some row. */
  lemma {:induction false} ReplayKeys(rows: seq<Record>)
    ensures forall k :: k in Replay(rows).records <==> HasKey(rows, k)
    ensures forall k :: k in Replay(rows).records ==> Key(Replay(rows).records[k]) == k
    decreases |rows|
  {
    if rows != [] {
      var init, last := rows[..|rows| - 1], rows[|rows| - 1];
      ReplayKeys(init);
      forall k ensures HasKey(rows, k) <==> HasKey(init, k) || k == Key(last) {
        if HasKey(init, k) {
          var i :| 0 <= i < |init| && Key(init[i]) == k;
          assert Key(rows[i]) == k;
        }
        if k == Key(last) {
          assert Key(rows[|init|]) == k;
        }
        if HasKey(rows, k) && k != Key(last) {
          var i :| 0 <= i < |rows| && Key(rows[i]) == k;
          assert Key(init[i]) == k;
        }
      }
    }
  }

  /** i is the first row with its key. */
  predicate First(rows: seq<Record>, i: nat) {
    i < |rows| && forall j :: 0 <= j < i ==> Key(rows[j]) != Key(rows[i])
  }

  /** The positions of the first rows, ascending. */
  function Firsts(rows: seq<Record>): (r: seq<nat>)
    ensures forall n :: 0 <= n < |r| ==> r[n] < |rows|
  {
    if rows == [] then []
    else
      Firsts(rows[..|rows| - 1]) + (if First(rows, |rows| - 1) then [|rows| - 1] else [])
  }

  lemma {:induction false} FirstsExact(rows: seq<Record>)
    ensures forall m, n :: 0 <= m < n < |Firsts(rows)| ==> Firsts(rows)[m] < Firsts(rows)[n]
    ensures forall i: nat :: First(rows, i) <==> i in Firsts(rows)
    decreases |rows|
  {
    if rows != [] {
      var init := rows[..|rows| - 1];
      FirstsExact(init);
      var f := Firsts(init);
      forall i: nat | i < |init| ensures First(rows, i) <==> First(init, i) {
      }
      var g := Firsts(rows);
      assert g == f + (if First(rows, |init|) then [|init| as nat] else []);
      forall m, n | 0 <= m < n < |g| ensures g[m] < g[n] {
        assert g[m] == f[m];
        assert n < |f| ==> g[n] == f[n];
      }
      forall i: nat ensures First(rows, i) <==> i in g {
        if i in g {
          var n :| 0 <= n < |g| && g[n] == i;
          assert n < |f| ==> f[n] == i;
        }
        if i < |init| && First(rows, i) {
          var n :| 0 <= n < |f| && f[n] == i;
          assert g[n] == i;
        }
        if i == |init| && First(rows, i) {
          assert g[|f|] == i;
        }
      }
    }
  }

  /** Drain order is first-append order: the order list names, in ascending position, exactly the rows that
      were the first with their key (FirstsExact says what Firsts is). */
  lemma {:induction false} OrderIsFirstAppend(rows: seq<Record>)
    ensures |Replay(rows).order| == |Firsts(rows)|
    ensures forall n :: 0 <= n < |Firsts(rows)| ==> Replay(rows).order[n] == Key(rows[Firsts(rows)[n]])
    decreases |rows|
  {
    if rows != [] {
      var init := rows[..|rows| - 1];
      OrderIsFirstAppend(init);
      FirstMeansNew(rows);
      forall n | 0 <= n < |Firsts(init)|
        ensures Replay(rows).order[n] == Key(rows[Firsts(rows)[n]])
      {
        assert Firsts(rows)[n] == Firsts(init)[n];
      }
    }
  }

  lemma FirstMeansNew(rows: seq<Record>)
    requires rows != []
    ensures First(rows, |rows| - 1)
            <==> Key(rows[|rows| - 1]) !in Replay(rows[..|rows| - 1]).records
  {
    var init := rows[..|rows| - 1];
    ReplayKeys(init);
    assert HasKey(init, Key(rows[|init|])) <==> !First(rows, |init|);
  }

  lemma OrderDistinct(rows: seq<Record>)
    ensures var o := Replay(rows).order;
            && (forall m, n :: 0 <= m < n < |o| ==> o[m] != o[n])
            && (forall k :: k in o <==> k in Replay(rows).records)
  {
    OrderIsFirstAppend(rows);
    FirstsExact(rows);
    ReplayKeys(rows);
    var o, f := Replay(rows).order, Firsts(rows);
    forall m, n | 0 <= m < n < |o| ensures o[m] != o[n] {
      assert f[m] < f[n] && First(rows, f[n]);
    }
    forall k | k in Replay(rows).records ensures k in o {
      var i := FirstWith(rows, k);
      var n :| 0 <= n < |f| && f[n] == i;
      assert o[n] == k;
    }
    forall k | k in o ensures k in Replay(rows).records {
      var n :| 0 <= n < |o| && o[n] == k;
      assert Key(rows[f[n]]) == k;
    }
  }

  lemma {:induction false} FirstWith(rows: seq<Record>, k: string) returns (i: nat)
    requires HasKey(rows, k)
    ensures First(rows, i) && Key(rows[i]) == k
  {
    var j: nat :| j < |rows| && Key(rows[j]) == k;
    i := 0;
    while Key(rows[i]) != k
      invariant i <= j
      invariant forall m :: 0 <= m < i ==> Key(rows[m]) != k
      decreases j - i
    {
      i := i + 1;
    }
  }
}
