/** The event watcher (gateway/internal/core/chain/watcher.go): a block cursor over the contract's logs, and the
    way a payment's identity travels through them (client.go DeriveTxNonce). */
module Watcher {
  import opened Words
  import Escrow

  /** One log of the contract carrying the SettlementCreated signature in its first topic. */
  datatype Log = Log(topics: seq<Bytes>, data: Bytes, txHash: Bytes, block: U64)

  datatype Event = Event(satId: U32, amount: U256, txNonce: U256, wallet: Address, txHash: Bytes, block: U64, time: U64)

  /** The chain as the node shows it: its logs in chain order, the height, and the header times. */
  datatype Chain = Chain(logs: seq<Log>, head: nat, time: nat -> U64) {
    ghost predicate Valid() {
      && (forall i :: 0 <= i < |logs| ==> logs[i].block <= head)
      && (forall i, j :: 0 <= i < j < |logs| ==> logs[i].block <= logs[j].block)
    }
  }

  /** Blocks are only added; the ones that are there keep their logs and their times. */
  ghost predicate Extends(c: Chain, d: Chain) {
    && c.head <= d.head && c.logs <= d.logs
    && (forall i :: |c.logs| <= i < |d.logs| ==> d.logs[i].block > c.head)
    && (forall b :: 0 <= b <= c.head ==> c.time(b) == d.time(b))
  }

  // ---- Decoding one log ---------------------------------------------------------------------------------

  /** The low n bytes of a big-endian word. */
  function Low(word: Bytes, n: nat): nat
    requires n <= |word|
  {
    BEVal(word[|word| - n..])
  }

  predicate Words32(l: Log) {
    forall i :: 0 <= i < |l.topics| ==> |l.topics[i]| == 32
  }

  lemma LowFits(word: Bytes, n: nat)
    requires n <= |word|
    ensures Low(word, n) < Pow256(n)
  {
    BEValFits(word[|word| - n..]);
  }

  lemma WordLimits()
    ensures Pow256(4) == TWO32 && Pow256(20) == TWO160 && Pow256(32) == TWO256
  {
    Pow256Values();
    assert Pow256(12) == 0x1_0000_0000 * Pow256(8);
    assert Pow256(16) == 0x1_0000_0000 * Pow256(12);
    assert Pow256(20) == 0x1_0000_0000 * Pow256(16);
    assert Pow256(24) == 0x1_0000_0000 * Pow256(20);
    assert Pow256(28) == 0x1_0000_0000 * Pow256(24);
    assert Pow256(32) == 0x1_0000_0000 * Pow256(28);
  }

  lemma LowLimits(word: Bytes)
    requires |word| == 32
    ensures Low(word, 4) < TWO32 && Low(word, 20) < TWO160 && Low(word, 32) < TWO256
  {
    hide Low, Pow256;
    WordLimits();
    LowFits(word, 4);
    LowFits(word, 20);
    LowFits(word, 32);
  }

  function AsU32(word: Bytes): U32
    requires |word| == 32
  {
    LowLimits(word);
    Low(word, 4)
  }

  function AsAddress(word: Bytes): Address
    requires |word| == 32
  {
    LowLimits(word);
    Low(word, 20)
  }

  function AsU256(word: Bytes): U256
    requires |word| == 32
  {
    LowLimits(word);
    Low(word, 32)
  }

  /** decodeSettlementCreated: four topics and 32 bytes of data, or an error. The time is filled in later. */
  function Decode(l: Log): Option<Event>
    requires Words32(l)
  {
    if |l.topics| != 4 || |l.data| != 32 then None
    else
      Some(Event(AsU32(l.topics[1]), AsU256(l.data), AsU256(l.topics[2]), AsAddress(l.topics[3]),
                 l.txHash, l.block, 0))
  }

  /** The log the contract's event turns into: indexed values as left-padded words, the amount as data. */
  function Emitted(e: Escrow.Created, signature: Bytes, txHash: Bytes, block: U64): Log {
    Log([signature, BE(e.satId, 32), BE(e.txNonce, 32), BE(e.wallet, 32)], BE(e.amount, 32), txHash, block)
  }

  lemma {:induction false} LowOfBE(v: nat, width: nat, n: nat)
    requires n <= width && v < Pow256(n)
    ensures Low(BE(v, width), n) == v
    decreases width
  {
    if n == 0 {
    } else {
      LowOfBE(v / 0x100, width - 1, n - 1);
      var b := BE(v, width);
      assert b[width - n..][..n - 1] == BE(v / 0x100, width - 1)[width - n..];
    }
  }

  lemma DecodeUndoesEmit(e: Escrow.Created, signature: Bytes, txHash: Bytes, block: U64)
    requires |signature| == 32
    ensures Words32(Emitted(e, signature, txHash, block))
    ensures Decode(Emitted(e, signature, txHash, block))
            == Some(Event(e.satId, e.amount, e.txNonce, e.wallet, txHash, block, 0))
  {
    hide BE, Low;
    WordLimits();
    LowOfBE(e.satId, 32, 4);
    LowOfBE(e.txNonce, 32, 32);
    LowOfBE(e.wallet, 32, 20);
    LowOfBE(e.amount, 32, 32);
  }

  // ---- The payment's identity ---------------------------------------------------------------------------

  /** DeriveTxNonce: the satellite above 64 bits of epoch. */
  function DeriveTxNonce(satId: U32, epoch: U64): U256 {
    satId * TWO64 + epoch
  }

  /** Uint64 of the nonce: what the receipt carries back. */
  function EncTxId(nonce: U256): U64 {
    nonce % TWO64
  }

  lemma NonceIdentifies(satId: U32, epoch: U64, satId2: U32, epoch2: U64)
    ensures DeriveTxNonce(satId, epoch) < TWO32 * TWO64
    ensures EncTxId(DeriveTxNonce(satId, epoch)) == epoch
    ensures DeriveTxNonce(satId, epoch) == DeriveTxNonce(satId2, epoch2) <==> satId == satId2 && epoch == epoch2
  {
  }

  // ---- One poll --------------------------------------------------------------------------------------------

  /** FilterLogs: the logs of the blocks from..upTo-1, in chain order. */
  function Within(logs: seq<Log>, from: nat, upTo: nat): seq<Log> {
    if logs == [] then []
    else
      var l := logs[|logs| - 1];
      Within(logs[..|logs| - 1], from, upTo) + if from <= l.block < upTo then [l] else []
  }

  ghost predicate AllWords32(logs: seq<Log>) {
    forall i :: 0 <= i < |logs| ==> Words32(logs[i])
  }

  predicate AllDecode(logs: seq<Log>)
    requires AllWords32(logs)
  {
    forall i :: 0 <= i < |logs| ==> Decode(logs[i]).Some?
  }

  /** The decoded logs, each with its block's time. */
  function Events(logs: seq<Log>, time: nat -> U64): (r: seq<Event>)
    requires AllWords32(logs) && AllDecode(logs)
    ensures |r| == |logs|
  {
    if logs == [] then []
    else
      var l := logs[|logs| - 1];
      Events(logs[..|logs| - 1], time) + [Decode(l).value.(time := time(l.block))]
  }

  /** The highest block among the logs, at least `from`. */
  function Highest(logs: seq<Log>, from: nat): nat {
    if logs == [] then from
    else
      var h := Highest(logs[..|logs| - 1], from);
      if logs[|logs| - 1].block > h then logs[|logs| - 1].block else h
  }

  /** How the node answers one poll. */
  datatype Rpc = Rpc(headOk: bool, head: nat, filterOk: bool, headerOk: nat -> bool)

  /** A poll meets no error. */
  predicate Clean(c: Chain, rpc: Rpc, from: nat)
    requires AllWords32(c.logs)
  {
    WithinFrom(c.logs, from, rpc.head + 1);
    var got := Within(c.logs, from, rpc.head + 1);
    rpc.headOk
    && (from <= rpc.head ==> rpc.filterOk && AllDecode(got)
                             && forall i :: 0 <= i < |got| ==> rpc.headerOk(got[i].block))
  }

  lemma {:induction false} WithinFrom(logs: seq<Log>, from: nat, upTo: nat)
    requires AllWords32(logs)
    ensures AllWords32(Within(logs, from, upTo))
    ensures forall i :: 0 <= i < |Within(logs, from, upTo)| ==> from <= Within(logs, from, upTo)[i].block < upTo
    ensures upTo <= from ==> Within(logs, from, upTo) == []
    decreases |logs|
  {
    hide Words32;
    if logs != [] {
      WithinFrom(logs[..|logs| - 1], from, upTo);
    }
  }

  /** Where the cursor stands after a poll: behind the highest block that had a log, or where it was. */
  function NextBlock(c: Chain, rpc: Rpc, from: nat): nat
    requires AllWords32(c.logs)
  {
    var got := Within(c.logs, from, rpc.head + 1);
    if Clean(c, rpc, from) && got != [] then Highest(got, from) + 1 else from
  }

  /** What a poll hands to the handler. */
  function Fetched(c: Chain, rpc: Rpc, from: nat): seq<Event>
    requires AllWords32(c.logs)
  {
    WithinFrom(c.logs, from, rpc.head + 1);
    if Clean(c, rpc, from) then Events(Within(c.logs, from, rpc.head + 1), c.time) else []
  }

  lemma NothingFetched(time: nat -> U64, from: nat)
    ensures AllWords32([]) && AllDecode([]) && Events([], time) == [] && Highest([], from) == from
  {
  }

  /** One more log at the end of those read so far. */
  lemma LogSnoc(logs: seq<Log>, i: nat, time: nat -> U64, from: nat)
    requires i < |logs| && AllWords32(logs) && AllDecode(logs[..i])
    ensures Decode(logs[i]).Some? ==>
              AllDecode(logs[..i + 1])
              && Events(logs[..i + 1], time) ==
                 Events(logs[..i], time) + [Decode(logs[i]).value.(time := time(logs[i].block))]
    ensures Highest(logs[..i + 1], from) ==
            if logs[i].block > Highest(logs[..i], from) then logs[i].block else Highest(logs[..i], from)
  {
    hide Decode, Words32;
    assert logs[..i + 1][..i] == logs[..i];
  }

  datatype Round = Round(c: Chain, rpc: Rpc)

  /** The node never reports a height above its own, and the chain only grows from poll to poll. */
  ghost predicate History(rounds: seq<Round>) {
    && (forall i :: 0 <= i < |rounds| ==>
          rounds[i].c.Valid() && AllWords32(rounds[i].c.logs) && rounds[i].rpc.head <= rounds[i].c.head)
    && (forall i :: 0 < i < |rounds| ==> Extends(rounds[i - 1].c, rounds[i].c))
  }

  function Cursor(fromBlock: nat, rounds: seq<Round>): nat
    requires forall i :: 0 <= i < |rounds| ==> AllWords32(rounds[i].c.logs)
  {
    if rounds == [] then fromBlock
    else
      var r := rounds[|rounds| - 1];
      NextBlock(r.c, r.rpc, Cursor(fromBlock, rounds[..|rounds| - 1]))
  }

  /** All events the successful polls returned, one poll after the other. */
  function Delivered(fromBlock: nat, rounds: seq<Round>): seq<Event>
    requires forall i :: 0 <= i < |rounds| ==> AllWords32(rounds[i].c.logs)
  {
    if rounds == [] then []
    else
      var r := rounds[|rounds| - 1];
      var before := rounds[..|rounds| - 1];
      Delivered(fromBlock, before) + Fetched(r.c, r.rpc, Cursor(fromBlock, before))
  }

  class Watcher {
    var nextBlock: nat

    constructor (fromBlock: nat)
      ensures nextBlock == fromBlock
    {
      nextBlock := fromBlock;
    }

    /** Poll. On an error the events gathered so far come back with it; Run drops them and returns. */
    method Poll(c: Chain, rpc: Rpc) returns (ok: bool, events: seq<Event>)
      requires AllWords32(c.logs)
      modifies this
      ensures ok <==> Clean(c, rpc, old(nextBlock))
      ensures nextBlock == NextBlock(c, rpc, old(nextBlock))
      ensures ok ==> events == Fetched(c, rpc, old(nextBlock))
    {
      hide Within, Decode, Words32, Events, Highest;
      NothingFetched(c.time, nextBlock);
      events := [];
      ghost var from := nextBlock;
      WithinFrom(c.logs, nextBlock, rpc.head + 1);
      if !rpc.headOk {
        return false, [];
      }
      if nextBlock > rpc.head {
        return true, [];
      }
      if !rpc.filterOk {
        return false, [];
      }
      var logs := Within(c.logs, nextBlock, rpc.head + 1);
      if |logs| == 0 {
        return true, [];
      }
      var highest := nextBlock;
      for i := 0 to |logs|
        invariant nextBlock == from
        invariant forall k :: 0 <= k < i ==> Decode(logs[k]).Some? && rpc.headerOk(logs[k].block)
        invariant events == Events(logs[..i], c.time)
        invariant highest == Highest(logs[..i], nextBlock)
      {
        LogSnoc(logs, i, c.time, nextBlock);
        var decoded := Decode(logs[i]);
        if decoded.None? {
          return false, events;
        }
        var ev := decoded.value;
        assert ev.block == logs[i].block by {
          DecodeBlock(logs[i]);
        }
        if ev.block >= nextBlock {
          if !rpc.headerOk(ev.block) {
            return false, events;
          }
          ev := ev.(time := c.time(ev.block));
        }
        events := events + [ev];
        if ev.block > highest {
          highest := ev.block;
        }
      }
      assert logs[..|logs|] == logs;
      nextBlock := highest + 1;
      ok := true;
    }

    /** Run, over the polls made until it is cancelled: a failed poll ends it, and what that poll had gathered is
        handed to nobody. */
    method Run(rounds: seq<Round>) returns (ok: bool, handled: seq<Event>, ghost n: nat)
      requires forall i :: 0 <= i < |rounds| ==> AllWords32(rounds[i].c.logs)
      modifies this
      ensures n <= |rounds| && (ok <==> n == |rounds|)
      ensures !ok ==> !Clean(rounds[n].c, rounds[n].rpc, Cursor(old(nextBlock), rounds[..n]))
      ensures nextBlock == Cursor(old(nextBlock), rounds[..n]) && handled == Delivered(old(nextBlock), rounds[..n])
    {
      hide AllWords32, Clean, NextBlock, Fetched;
      ghost var from := nextBlock;
      handled := [];
      for i := 0 to |rounds|
        invariant nextBlock == Cursor(from, rounds[..i]) && handled == Delivered(from, rounds[..i])
      {
        assert rounds[..i + 1][..i] == rounds[..i];
        var events;
        ok, events := Poll(rounds[i].c, rounds[i].rpc);
        if !ok {
          NothingOnError(rounds[i].c, rounds[i].rpc, Cursor(from, rounds[..i]));
          return false, handled, i;
        }
        handled := handled + events;
      }
      assert rounds[..|rounds|] == rounds;
      ok, n := true, |rounds|;
    }
  }

  lemma NothingOnError(c: Chain, rpc: Rpc, from: nat)
    requires AllWords32(c.logs) && !Clean(c, rpc, from)
    ensures NextBlock(c, rpc, from) == from && Fetched(c, rpc, from) == []
  {
    hide Clean, Within;
  }

  lemma DecodeBlock(l: Log)
    requires Words32(l) && Decode(l).Some?
    ensures Decode(l).value.block == l.block
  {
  }

  // ---- Every run of polls over a growing chain ----------------------------------------------------------------

  lemma WithinSnoc(logs: seq<Log>, from: nat, upTo: nat)
    requires logs != []
    ensures var l, init := logs[|logs| - 1], Within(logs[..|logs| - 1], from, upTo);
            Within(logs, from, upTo) == if from <= l.block < upTo then init + [l] else init
  {
  }

  lemma {:induction false} WithinAppend(a: seq<Log>, b: seq<Log>, from: nat, upTo: nat)
    ensures Within(a + b, from, upTo) == Within(a, from, upTo) + Within(b, from, upTo)
    decreases |b|
  {
    if b == [] {
      assert a + b == a;
    } else {
      WithinAppend(a, b[..|b| - 1], from, upTo);
      assert (a + b)[..|a + b| - 1] == a + b[..|b| - 1] && (a + b)[|a + b| - 1] == b[|b| - 1];
      WithinSnoc(a + b, from, upTo);
      WithinSnoc(b, from, upTo);
      hide Within;
    }
  }

  lemma {:induction false} NoneWithin(logs: seq<Log>, from: nat, upTo: nat)
    requires forall i :: 0 <= i < |logs| ==> logs[i].block >= upTo || logs[i].block < from
    ensures Within(logs, from, upTo) == []
    decreases |logs|
  {
    if logs != [] {
      NoneWithin(logs[..|logs| - 1], from, upTo);
    }
  }

  /** Blocks that were already there show the same logs later. */
  lemma WithinExtends(c: Chain, d: Chain, from: nat, upTo: nat)
    requires Extends(c, d) && (upTo <= c.head + 1 || upTo <= from)
    ensures Within(d.logs, from, upTo) == Within(c.logs, from, upTo)
  {
    if upTo <= from {
      NoneWithin(c.logs, from, upTo);
      NoneWithin(d.logs, from, upTo);
    } else {
      var rest := d.logs[|c.logs|..];
      assert d.logs == c.logs + rest;
      WithinAppend(c.logs, rest, from, upTo);
      NoneWithin(rest, from, upTo);
    }
  }

  lemma {:induction false} WithinSplit(logs: seq<Log>, a: nat, b: nat, c: nat)
    requires a <= b <= c && forall i, j :: 0 <= i < j < |logs| ==> logs[i].block <= logs[j].block
    ensures Within(logs, a, b) + Within(logs, b, c) == Within(logs, a, c)
    decreases |logs|
  {
    if logs != [] {
      var init := logs[..|logs| - 1];
      WithinSplit(init, a, b, c);
      if logs[|logs| - 1].block < b {
        NoneWithin(init, b, c);
      }
      WithinSnoc(logs, a, b);
      WithinSnoc(logs, b, c);
      WithinSnoc(logs, a, c);
      hide Within;
    }
  }

  lemma {:induction false} WithinTrim(logs: seq<Log>, from: nat, upTo: nat, h: nat)
    requires h < upTo && forall i :: 0 <= i < |Within(logs, from, upTo)| ==> Within(logs, from, upTo)[i].block <= h
    ensures Within(logs, from, upTo) == Within(logs, from, h + 1)
    decreases |logs|
  {
    if logs != [] {
      var w, init := Within(logs, from, upTo), Within(logs[..|logs| - 1], from, upTo);
      assert forall i :: 0 <= i < |init| ==> init[i] == w[i];
      WithinTrim(logs[..|logs| - 1], from, upTo, h);
      assert from <= logs[|logs| - 1].block < upTo ==> w[|w| - 1] == logs[|logs| - 1];
    }
  }

  lemma {:induction false} HighestIs(logs: seq<Log>, from: nat, upTo: nat)
    requires forall i :: 0 <= i < |logs| ==> from <= logs[i].block < upTo
    ensures from <= Highest(logs, from) && (logs != [] ==> Highest(logs, from) < upTo)
    ensures forall i :: 0 <= i < |logs| ==> logs[i].block <= Highest(logs, from)
    decreases |logs|
  {
    if logs != [] {
      HighestIs(logs[..|logs| - 1], from, upTo);
    }
  }

  lemma {:induction false} EventsAppend(a: seq<Log>, b: seq<Log>, time: nat -> U64)
    requires AllWords32(a) && AllWords32(b) && AllDecode(a) && AllDecode(b)
    ensures AllWords32(a + b) && AllDecode(a + b)
    ensures Events(a + b, time) == Events(a, time) + Events(b, time)
    decreases |b|
  {
    hide Decode, Words32;
    if b == [] {
      assert a + b == a;
    } else {
      EventsAppend(a, b[..|b| - 1], time);
      assert (a + b)[..|a + b| - 1] == a + b[..|b| - 1];
    }
  }

  lemma {:induction false} EventsTime(logs: seq<Log>, t: nat -> U64, u: nat -> U64)
    requires AllWords32(logs) && AllDecode(logs)
    requires forall i :: 0 <= i < |logs| ==> t(logs[i].block) == u(logs[i].block)
    ensures Events(logs, t) == Events(logs, u)
    decreases |logs|
  {
    hide Decode, Words32;
    if logs != [] {
      EventsTime(logs[..|logs| - 1], t, u);
    }
  }

  /** A poll from `from` delivers exactly the logs between the old and the new cursor, and a clean one leaves
      nothing behind at or below the height it saw. */
  lemma PollCovers(c: Chain, rpc: Rpc, from: nat)
    requires c.Valid() && AllWords32(c.logs) && rpc.head <= c.head
    ensures var next := NextBlock(c, rpc, from);
            && from <= next && (next == from || next <= c.head + 1)
            && AllWords32(Within(c.logs, from, next)) && AllDecode(Within(c.logs, from, next))
            && Fetched(c, rpc, from) == Events(Within(c.logs, from, next), c.time)
    ensures Clean(c, rpc, from) ==> Within(c.logs, NextBlock(c, rpc, from), rpc.head + 1) == []
  {
    hide Decode, Words32, Within, Highest, Events, AllDecode;
    var got, next := Within(c.logs, from, rpc.head + 1), NextBlock(c, rpc, from);
    WithinFrom(c.logs, from, rpc.head + 1);
    WithinFrom(c.logs, from, next);
    if Clean(c, rpc, from) && got != [] {
      HighestIs(got, from, rpc.head + 1);
      WithinTrim(c.logs, from, rpc.head + 1, Highest(got, from));
      WithinSplit(c.logs, from, Highest(got, from) + 1, rpc.head + 1);
    } else {
      WithinFrom(c.logs, from, from);
      NothingFetched(c.time, from);
    }
  }

  /** Whatever polls fail and however the chain grows between them: what has been delivered is every log below
      the cursor, once each and in chain order, with the time of its block. */
  lemma {:induction false} DeliversAllBelowCursor(fromBlock: nat, rounds: seq<Round>)
    requires History(rounds) && rounds != []
    ensures var c, cursor := rounds[|rounds| - 1].c, Cursor(fromBlock, rounds);
            && fromBlock <= cursor && (cursor == fromBlock || cursor <= c.head + 1)
            && AllWords32(Within(c.logs, fromBlock, cursor)) && AllDecode(Within(c.logs, fromBlock, cursor))
            && Delivered(fromBlock, rounds) == Events(Within(c.logs, fromBlock, cursor), c.time)
    decreases |rounds|
  {
    hide Decode, Words32, Events, Within, NextBlock, Fetched, Clean, History;
    var before, r := rounds[..|rounds| - 1], rounds[|rounds| - 1];
    HistoryParts(rounds);
    var c, at := r.c, Cursor(fromBlock, before);
    PollCovers(c, r.rpc, at);
    WithinFrom(c.logs, fromBlock, at);
    if before == [] {
      WithinFrom(c.logs, at, NextBlock(c, r.rpc, at));
    } else {
      var d := before[|before| - 1].c;
      DeliversAllBelowCursor(fromBlock, before);
      DeliveredSoFar(d, c, fromBlock, at);
      WithinSplit(c.logs, fromBlock, at, NextBlock(c, r.rpc, at));
      EventsAppend(Within(c.logs, fromBlock, at), Within(c.logs, at, NextBlock(c, r.rpc, at)), c.time);
    }
  }

  lemma HistoryParts(rounds: seq<Round>)
    requires History(rounds) && rounds != []
    ensures var before, r := rounds[..|rounds| - 1], rounds[|rounds| - 1];
            && History(before) && r.c.Valid() && AllWords32(r.c.logs) && r.rpc.head <= r.c.head
            && (forall i :: 0 <= i < |rounds| ==> AllWords32(rounds[i].c.logs))
            && (before != [] ==> Extends(before[|before| - 1].c, r.c))
  {
    hide Words32, AllWords32, Extends;
  }

  /** What was delivered from the shorter chain reads the same on the longer one. */
  lemma DeliveredSoFar(c: Chain, d: Chain, from: nat, upTo: nat)
    requires Extends(c, d) && AllWords32(c.logs) && AllWords32(d.logs) && (upTo <= c.head + 1 || upTo == from)
    requires AllWords32(Within(c.logs, from, upTo)) && AllDecode(Within(c.logs, from, upTo))
    ensures Within(d.logs, from, upTo) == Within(c.logs, from, upTo)
    ensures Events(Within(d.logs, from, upTo), d.time) == Events(Within(c.logs, from, upTo), c.time)
  {
    hide Decode, Words32;
    WithinExtends(c, d, from, upTo);
    WithinFrom(c.logs, from, upTo);
    EventsTime(Within(c.logs, from, upTo), c.time, d.time);
  }

  // ---- The same, log by log ------------------------------------------------------------------------------------

  /** `got` are the logs of some blocks, and `at` their positions, ascending. */
  ghost predicate Positions(logs: seq<Log>, from: nat, upTo: nat, got: seq<Log>, at: seq<nat>) {
    && |at| == |got| && (forall m, n :: 0 <= m < n < |at| ==> at[m] < at[n])
    && (forall n :: 0 <= n < |at| ==> at[n] < |logs| && from <= logs[at[n]].block < upTo && got[n] == logs[at[n]])
    && (forall i :: 0 <= i < |logs| && from <= logs[i].block < upTo ==> i in at)
  }

  lemma PositionsSnoc(init: seq<Log>, l: Log, from: nat, upTo: nat, got: seq<Log>, at: seq<nat>)
    requires Positions(init, from, upTo, got, at)
    ensures if from <= l.block < upTo then Positions(init + [l], from, upTo, got + [l], at + [|init|])
            else Positions(init + [l], from, upTo, got, at)
  {
    var logs, more := init + [l], at + [|init| as nat];
    assert forall i :: 0 <= i < |init| ==> logs[i] == init[i];
    assert more[|at|] == |init|;
    forall i | i in at ensures i in more {
      var n :| 0 <= n < |at| && at[n] == i;
      assert more[n] == i;
    }
  }

  lemma {:induction false} WithinAt(logs: seq<Log>, from: nat, upTo: nat) returns (at: seq<nat>)
    ensures Positions(logs, from, upTo, Within(logs, from, upTo), at)
    decreases |logs|
  {
    at := [];
    if logs != [] {
      var init, l := logs[..|logs| - 1], logs[|logs| - 1];
      at := WithinAt(init, from, upTo);
      WithinSnoc(logs, from, upTo);
      hide Within, Positions;
      PositionsSnoc(init, l, from, upTo, Within(init, from, upTo), at);
      assert logs == init + [l];
      if from <= l.block < upTo {
        at := at + [|init|];
      }
    }
  }

  lemma PositionOf(logs: seq<Log>, from: nat, upTo: nat, got: seq<Log>, at: seq<nat>, i: nat) returns (n: nat)
    requires Positions(logs, from, upTo, got, at) && i < |logs| && from <= logs[i].block < upTo
    ensures n < |got| && got[n] == logs[i]
  {
    n :| n < |at| && at[n] == i;
  }

  predicate Decodes(l: Log) {
    |l.topics| == 4 && |l.data| == 32
  }

  lemma DecodesIs(l: Log)
    requires Words32(l)
    ensures Decode(l).Some? <==> Decodes(l)
  {
  }

  /** What a poll has to meet, said of the chain's logs themselves: it succeeds if and only if the height comes and, unless
      the cursor is past it, the filter answers and every log between cursor and height has four topics, 32 bytes of
      data and a header that comes. */
  lemma CleanExactlyWhen(c: Chain, rpc: Rpc, from: nat)
    requires AllWords32(c.logs)
    ensures Clean(c, rpc, from) <==>
            rpc.headOk
            && (from <= rpc.head ==>
                  rpc.filterOk
                  && forall i :: 0 <= i < |c.logs| && from <= c.logs[i].block <= rpc.head ==>
                       Decodes(c.logs[i]) && rpc.headerOk(c.logs[i].block))
  {
    var at := WithinAt(c.logs, from, rpc.head + 1);
    var got := Within(c.logs, from, rpc.head + 1);
    WithinFrom(c.logs, from, rpc.head + 1);
    hide Within, Words32, Decode, Decodes;
    if Clean(c, rpc, from) && from <= rpc.head {
      hide Positions;
      forall i | 0 <= i < |c.logs| && from <= c.logs[i].block <= rpc.head
        ensures Decodes(c.logs[i]) && rpc.headerOk(c.logs[i].block)
      {
        var n := PositionOf(c.logs, from, rpc.head + 1, got, at, i);
        DecodesIs(got[n]);
      }
    } else {
      forall n | 0 <= n < |got| ensures Decodes(got[n]) ==> Decode(got[n]).Some? {
        DecodesIs(got[n]);
      }
    }
  }

  /** The event is what this log says, with the time of its block. */
  predicate OfLog(ev: Event, l: Log, time: nat -> U64)
    requires Words32(l)
  {
    && Decodes(l)
    && ev.satId == BEVal(l.topics[1][28..]) && ev.txNonce == BEVal(l.topics[2]) && ev.wallet == BEVal(l.topics[3][12..])
    && ev.amount == BEVal(l.data) && ev.txHash == l.txHash && ev.block == l.block && ev.time == time(l.block)
  }

  lemma DecodedIsOfLog(l: Log, time: nat -> U64)
    requires Words32(l) && Decode(l).Some?
    ensures OfLog(Decode(l).value.(time := time(l.block)), l, time)
  {
    assert l.topics[2][0..] == l.topics[2] && l.data[0..] == l.data;
  }

  lemma {:induction false} EventsAreOfLogs(logs: seq<Log>, time: nat -> U64, n: nat)
    requires AllWords32(logs) && AllDecode(logs) && n < |logs|
    ensures OfLog(Events(logs, time)[n], logs[n], time)
    decreases |logs|
  {
    hide Decode, Words32, OfLog;
    if n < |logs| - 1 {
      EventsAreOfLogs(logs[..|logs| - 1], time, n);
    } else {
      DecodedIsOfLog(logs[n], time);
    }
  }

  /** Over every history of polls: event n that was handed over is what log at[n] of the chain says, with the time of its
      block; the positions ascend, and they are exactly those of the logs from the first block to the cursor. */
  lemma DeliveredExactly(fromBlock: nat, rounds: seq<Round>) returns (at: seq<nat>)
    requires History(rounds) && rounds != []
    ensures var c, d := rounds[|rounds| - 1].c, Delivered(fromBlock, rounds);
            && AllWords32(c.logs) && |at| == |d| && (forall m, n :: 0 <= m < n < |at| ==> at[m] < at[n])
            && (forall n :: 0 <= n < |at| ==> at[n] < |c.logs| && OfLog(d[n], c.logs[at[n]], c.time))
            && (forall i :: 0 <= i < |c.logs| ==>
                  (i in at <==> fromBlock <= c.logs[i].block < Cursor(fromBlock, rounds)))
  {
    var c, cursor := rounds[|rounds| - 1].c, Cursor(fromBlock, rounds);
    DeliversAllBelowCursor(fromBlock, rounds);
    at := WithinAt(c.logs, fromBlock, cursor);
    HistoryParts(rounds);
    var got := Within(c.logs, fromBlock, cursor);
    hide Within, Words32, Events, OfLog, Decode, Cursor, Delivered, History;
    forall i | i in at ensures i < |c.logs| && fromBlock <= c.logs[i].block < cursor {
      var n :| 0 <= n < |at| && at[n] == i;
    }
    forall n | 0 <= n < |at| ensures OfLog(Events(got, c.time)[n], c.logs[at[n]], c.time) {
      EventsAreOfLogs(got, c.time, n);
    }
  }

  lemma {:induction false} HighestIsSome(logs: seq<Log>, from: nat)
    requires forall i :: 0 <= i < |logs| ==> from <= logs[i].block
    ensures logs != [] ==> exists i :: 0 <= i < |logs| && logs[i].block == Highest(logs, from)
    decreases |logs|
  {
    if |logs| > 1 {
      var init := logs[..|logs| - 1];
      HighestIsSome(init, from);
      var i :| 0 <= i < |init| && init[i].block == Highest(init, from);
      assert logs[i].block == Highest(init, from);
      assert logs[|logs| - 1].block > Highest(init, from) ==> logs[|logs| - 1].block == Highest(logs, from);
    } else if |logs| == 1 {
      assert Highest(logs[..0], from) == from;
      assert logs[0].block == Highest(logs, from);
    }
  }

  predicate BehindSome(logs: seq<Log>, from: nat, next: nat) {
    exists i :: 0 <= i < |logs| && from <= logs[i].block && logs[i].block + 1 == next
  }

  predicate AllBelow(logs: seq<Log>, from: nat, head: nat, next: nat) {
    forall i :: 0 <= i < |logs| && from <= logs[i].block <= head ==> logs[i].block < next
  }

  lemma HighestPlaced(logs: seq<Log>, from: nat, head: nat, got: seq<Log>, at: seq<nat>)
    requires Positions(logs, from, head + 1, got, at) && got != []
    ensures BehindSome(logs, from, Highest(got, from) + 1) && AllBelow(logs, from, head, Highest(got, from) + 1)
  {
    HighestIsSome(got, from);
    HighestIs(got, from, head + 1);
    hide Highest;
    var n :| 0 <= n < |got| && got[n].block == Highest(got, from);
    assert logs[at[n]].block + 1 == Highest(got, from) + 1;
    hide Positions;
    forall i | 0 <= i < |logs| && from <= logs[i].block <= head ensures logs[i].block < Highest(got, from) + 1 {
      var m := PositionOf(logs, from, head + 1, got, at, i);
    }
  }

  lemma NonePlaced(logs: seq<Log>, from: nat, head: nat, at: seq<nat>)
    requires Positions(logs, from, head + 1, [], at)
    ensures AllBelow(logs, from, head, from)
  {
    assert at == [];
  }

  lemma NextBlockIs(c: Chain, rpc: Rpc, from: nat)
    requires AllWords32(c.logs)
    ensures var got := Within(c.logs, from, rpc.head + 1);
            NextBlock(c, rpc, from) == if Clean(c, rpc, from) && got != [] then Highest(got, from) + 1 else from
  {
    hide Within, Words32, Highest, Clean;
  }

  /** The cursor moves only to just behind a block that has a log, and a clean poll leaves no log of the blocks it saw at
      or behind it. */
  lemma CursorStands(c: Chain, rpc: Rpc, from: nat)
    requires AllWords32(c.logs)
    ensures var next := NextBlock(c, rpc, from);
            && (next == from || BehindSome(c.logs, from, next))
            && (Clean(c, rpc, from) ==> AllBelow(c.logs, from, rpc.head, next))
  {
    var at := WithinAt(c.logs, from, rpc.head + 1);
    var got := Within(c.logs, from, rpc.head + 1);
    NextBlockIs(c, rpc, from);
    hide *;
    if got != [] {
      HighestPlaced(c.logs, from, rpc.head, got, at);
    } else {
      NonePlaced(c.logs, from, rpc.head, at);
    }
  }
}
