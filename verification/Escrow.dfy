/** The settlement contract (contracts/src/Escrow.sol) and the submitter's two tries at it
    (gateway/internal/core/chain/submitter.go, submit). */
module Escrow {
  import opened Words

  const USDC: U16 := 1
  const MAX_BATCH: nat := 10
  const NO_WALLET: Address := 0

  datatype Intent = Intent(satId: U32, amount: U256, assetId: U16, txNonce: U256, wallet: Address)

  datatype Status = NONE | PENDING

  datatype Settlement = Settlement(satId: U32, amount: U256, assetId: U16, txNonce: U256, wallet: Address, status: Status)

  datatype Created = Created(satId: U32, amount: U256, txNonce: U256, wallet: Address)

  datatype Result =
    | Settled
    | BatchEmpty
    | BatchTooLarge(size: nat)
    | InvalidAsset(assetId: U16)
    | EmptyWallet
    | DuplicateNonce(txNonce: U256)

  /** The contract's storage (a missing key is the all-zero entry) and the log of its events. */
  datatype Ledger = Ledger(settlements: map<U256, Settlement>, events: seq<Created>) {
    function StatusOf(nonce: U256): Status {
      if nonce in settlements then settlements[nonce].status else NONE
    }

    function Record(i: Intent): Ledger {
      Ledger(settlements[i.txNonce := Settlement(i.satId, i.amount, i.assetId, i.txNonce, i.wallet, PENDING)],
             events + [Created(i.satId, i.amount, i.txNonce, i.wallet)])
    }
  }

  /** The ledger after n intents have been recorded in order. */
  function Recorded(l: Ledger, intents: seq<Intent>, n: nat): Ledger
    requires n <= |intents|
  {
    if n == 0 then l else Recorded(l, intents, n - 1).Record(intents[n - 1])
  }

  // ---- When a batch is accepted ----------------------------------------------------------------------------

  predicate Sound(l: Ledger, intents: seq<Intent>, n: nat)
    requires n <= |intents|
  {
    && (forall i :: 0 <= i < n ==> intents[i].assetId == USDC && intents[i].wallet != NO_WALLET)
    && (forall i :: 0 <= i < n ==> l.StatusOf(intents[i].txNonce) == NONE)
    && (forall i, j :: 0 <= i < j < n ==> intents[i].txNonce != intents[j].txNonce)
  }

  /** 1 to 10 intents, all in USDC, all with a wallet, with nonces that are fresh and pairwise distinct. */
  predicate Accepts(l: Ledger, intents: seq<Intent>) {
    1 <= |intents| <= MAX_BATCH && Sound(l, intents, |intents|)
  }

  /** The revert reason points at the first intent that is at fault, and names its first fault. */
  predicate Blames(l: Ledger, intents: seq<Intent>, r: Result) {
    match r
    case Settled => false
    case BatchEmpty => intents == []
    case BatchTooLarge(size) => size == |intents| > MAX_BATCH
    case InvalidAsset(a) =>
      1 <= |intents| <= MAX_BATCH
      && exists i :: 0 <= i < |intents| && Sound(l, intents, i) && intents[i].assetId == a != USDC
    case EmptyWallet =>
      1 <= |intents| <= MAX_BATCH
      && exists i :: 0 <= i < |intents| && Sound(l, intents, i) && intents[i].assetId == USDC
                     && intents[i].wallet == NO_WALLET
    case DuplicateNonce(k) =>
      1 <= |intents| <= MAX_BATCH
      && exists i :: 0 <= i < |intents| && Sound(l, intents, i) && intents[i].assetId == USDC
                     && intents[i].wallet != NO_WALLET && intents[i].txNonce == k
                     && (l.StatusOf(k) == PENDING || exists j :: 0 <= j < i && intents[j].txNonce == k)
  }

  /** Why intent i is refused when those before it are not: asset first, then wallet, then nonce. */
  function FaultAt(l: Ledger, intents: seq<Intent>, i: nat): Result
    requires i < |intents|
  {
    var item := intents[i];
    if item.assetId != 1 then InvalidAsset(item.assetId)
    else if item.wallet == 0 then EmptyWallet
    else if l.StatusOf(item.txNonce) == PENDING || exists j :: 0 <= j < i && intents[j].txNonce == item.txNonce
    then DuplicateNonce(item.txNonce)
    else Settled
  }

  lemma SoundNeedsNoFault(l: Ledger, intents: seq<Intent>, n: nat)
    requires n <= |intents|
    ensures Sound(l, intents, n) <==> forall i :: 0 <= i < n ==> FaultAt(l, intents, i) == Settled
  {
    if forall i :: 0 <= i < n ==> FaultAt(l, intents, i) == Settled {
      forall i, j | 0 <= i < j < n ensures intents[i].txNonce != intents[j].txNonce {
        assert FaultAt(l, intents, j) == Settled;
      }
      assert forall i :: 0 <= i < n ==> FaultAt(l, intents, i) == Settled && intents[i].assetId == USDC;
    }
  }

  /** Every batch of 1 to 10 intents has exactly one answer: the fault of its first faulty intent, or none. */
  lemma BlameIsFirstFault(l: Ledger, intents: seq<Intent>, r: Result)
    requires 1 <= |intents| <= 10
    ensures Blames(l, intents, r) <==>
            r != Settled && exists i :: 0 <= i < |intents| && FaultAt(l, intents, i) == r
                                        && forall j :: 0 <= j < i ==> FaultAt(l, intents, j) == Settled
    ensures Accepts(l, intents) <==> forall i :: 0 <= i < |intents| ==> FaultAt(l, intents, i) == Settled
  {
    forall n | 0 <= n <= |intents|
      ensures Sound(l, intents, n) <==> forall i :: 0 <= i < n ==> FaultAt(l, intents, i) == Settled
    {
      SoundNeedsNoFault(l, intents, n);
    }
    hide Sound;
    if r != Settled {
      BlameSome(l, intents, r);
    }
  }

  lemma BlameSome(l: Ledger, intents: seq<Intent>, r: Result)
    requires 1 <= |intents| <= 10 && r != Settled
    ensures Blames(l, intents, r) <==>
            exists i :: 0 <= i < |intents| && Sound(l, intents, i) && FaultAt(l, intents, i) == r
  {
    hide Sound;
    if Blames(l, intents, r) {
      match r
      case InvalidAsset(a) =>
        var i :| 0 <= i < |intents| && Sound(l, intents, i) && intents[i].assetId == a != USDC;
        assert FaultAt(l, intents, i) == r;
      case EmptyWallet =>
        var i :| 0 <= i < |intents| && Sound(l, intents, i) && intents[i].assetId == USDC && intents[i].wallet == NO_WALLET;
        assert FaultAt(l, intents, i) == r;
      case DuplicateNonce(k) =>
        var i :| 0 <= i < |intents| && Sound(l, intents, i) && intents[i].assetId == USDC
                 && intents[i].wallet != NO_WALLET && intents[i].txNonce == k
                 && (l.StatusOf(k) == PENDING || exists j :: 0 <= j < i && intents[j].txNonce == k);
        assert FaultAt(l, intents, i) == r;
    }
  }

  function Settle(l: Ledger, intents: seq<Intent>): Ledger {
    if Accepts(l, intents) then Recorded(l, intents, |intents|) else l
  }

  /** After n recorded intents a nonce is taken exactly if it was before or one of the n carries it. */
  lemma {:induction false} RecordedStatus(l: Ledger, intents: seq<Intent>, n: nat, k: U256)
    requires n <= |intents|
    ensures Recorded(l, intents, n).StatusOf(k) == PENDING
            <==> l.StatusOf(k) == PENDING || exists j :: 0 <= j < n && intents[j].txNonce == k
    decreases n
  {
    if n > 0 {
      RecordedStatus(l, intents, n - 1, k);
      if intents[n - 1].txNonce != k {
        assert Recorded(l, intents, n).StatusOf(k) == Recorded(l, intents, n - 1).StatusOf(k);
      }
    }
  }

  /** Everything an accepted batch does: one event per intent, in order, behind the old ones; under each intent's nonce
      an entry with the intent's fields; and nothing else. */
  ghost predicate Applied(l: Ledger, intents: seq<Intent>, m: Ledger) {
    && |m.events| == |l.events| + |intents| && l.events <= m.events
    && (forall i :: 0 <= i < |intents| ==> Announces(m.events[|l.events| + i], intents[i]))
    && (forall i :: 0 <= i < |intents| ==> Stored(m, intents[i]))
    && (forall k: U256 :: (forall i :: 0 <= i < |intents| ==> intents[i].txNonce != k) ==> SameAt(l, m, k))
  }

  /** The event carries the intent's satellite, amount, nonce and wallet. */
  predicate Announces(e: Created, i: Intent) {
    e.satId == i.satId && e.amount == i.amount && e.txNonce == i.txNonce && e.wallet == i.wallet
  }

  predicate Stored(m: Ledger, i: Intent) {
    i.txNonce in m.settlements
    && var s := m.settlements[i.txNonce];
       s.satId == i.satId && s.amount == i.amount && s.assetId == i.assetId && s.txNonce == i.txNonce
       && s.wallet == i.wallet && s.status == PENDING
  }

  predicate SameAt(l: Ledger, m: Ledger, k: U256) {
    (k in m.settlements <==> k in l.settlements) && (k in l.settlements ==> m.settlements[k] == l.settlements[k])
  }

  lemma {:induction false} RecordedIsApplied(l: Ledger, intents: seq<Intent>, n: nat)
    requires n <= |intents| && Sound(l, intents, n)
    ensures Applied(l, intents[..n], Recorded(l, intents, n))
    decreases n
  {
    if n > 0 {
      RecordedIsApplied(l, intents, n - 1);
      ApplyOne(l, intents[..n - 1], Recorded(l, intents, n - 1), intents[n - 1]);
      assert intents[..n] == intents[..n - 1] + [intents[n - 1]];
    }
  }

  lemma ApplyOne(l: Ledger, done: seq<Intent>, m: Ledger, i: Intent)
    requires Applied(l, done, m) && forall j :: 0 <= j < |done| ==> done[j].txNonce != i.txNonce
    ensures Applied(l, done + [i], m.Record(i))
  {
    var all := done + [i];
    forall k: U256 | forall j :: 0 <= j < |all| ==> all[j].txNonce != k
      ensures SameAt(l, m.Record(i), k)
    {
      assert all[|done|].txNonce != k;
      assert forall j :: 0 <= j < |done| ==> all[j] == done[j];
      assert SameAt(l, m, k);
    }
  }

  class Contract {
    var settlements: map<U256, Settlement>
    var events: seq<Created>

    ghost function Now(): Ledger
      reads this
    {
      Ledger(settlements, events)
    }

    constructor ()
      ensures Now() == Ledger(map[], [])
    {
      settlements, events := map[], [];
    }

    /** settleBatch: a revert at any intent undoes the intents recorded before it. */
    method SettleBatch(intents: seq<Intent>) returns (r: Result)
      modifies this
      ensures r == Settled <==>
                && 1 <= |intents| <= 10
                && (forall i :: 0 <= i < |intents| ==> intents[i].assetId == 1 && intents[i].wallet != 0)
                && (forall i :: 0 <= i < |intents| ==> old(Now()).StatusOf(intents[i].txNonce) == NONE)
                && (forall i, j :: 0 <= i < j < |intents| ==> intents[i].txNonce != intents[j].txNonce)
      ensures r == Settled ==> Applied(old(Now()), intents, Now())
      ensures r != Settled ==> Blames(old(Now()), intents, r) && Now() == old(Now())
      ensures Now() == Settle(old(Now()), intents)
    {
      ghost var before := Now();
      if |intents| == 0 {
        return BatchEmpty;
      }
      if |intents| > MAX_BATCH {
        return BatchTooLarge(|intents|);
      }
      var savedSettlements, savedEvents := settlements, events;
      for i := 0 to |intents|
        invariant Sound(before, intents, i)
        invariant Now() == Recorded(before, intents, i)
      {
        var item := intents[i];
        RecordedStatus(before, intents, i, item.txNonce);
        if item.assetId != USDC {
          r := InvalidAsset(item.assetId);
        } else if item.wallet == NO_WALLET {
          r := EmptyWallet;
        } else if item.txNonce in settlements && settlements[item.txNonce].status != NONE {
          r := DuplicateNonce(item.txNonce);
        } else {
          r := Settled;
        }
        if r != Settled {
          settlements, events := savedSettlements, savedEvents;
          return;
        }
        settlements := settlements[item.txNonce := Settlement(item.satId, item.amount, item.assetId, item.txNonce,
                                                              item.wallet, PENDING)];
        events := events + [Created(item.satId, item.amount, item.txNonce, item.wallet)];
      }
      r := Settled;
      RecordedIsApplied(before, intents, |intents|);
      assert intents[..|intents|] == intents;
    }
  }

  // ---- Every run of the contract -----------------------------------------------------------------------------

  function Run(l: Ledger, batches: seq<seq<Intent>>): Ledger {
    if batches == [] then l else Settle(Run(l, batches[..|batches| - 1]), batches[|batches| - 1])
  }

  const EMPTY: Ledger := Ledger(map[], [])

  predicate Matches(l: Ledger, e: Created) {
    e.txNonce in l.settlements
    && l.settlements[e.txNonce] == Settlement(e.satId, e.amount, USDC, e.txNonce, e.wallet, PENDING)
    && e.wallet != NO_WALLET
  }

  predicate Announced(l: Ledger, k: U256) {
    exists i :: 0 <= i < |l.events| && l.events[i].txNonce == k
  }

  /** The event nonces are pairwise distinct, they are exactly the pending keys, and entries match their events. */
  ghost predicate Inv(l: Ledger) {
    && (forall i, j :: 0 <= i < j < |l.events| ==> l.events[i].txNonce != l.events[j].txNonce)
    && (forall i :: 0 <= i < |l.events| ==> Matches(l, l.events[i]))
    && (forall k: U256 :: k in l.settlements ==> l.settlements[k].status == PENDING && Announced(l, k))
  }

  lemma RecordKeeps(l: Ledger, i: Intent)
    requires Inv(l) && l.StatusOf(i.txNonce) == NONE && i.assetId == USDC && i.wallet != NO_WALLET
    ensures Inv(l.Record(i))
  {
    var m := l.Record(i);
    assert i.txNonce !in l.settlements;
    forall k: U256 | k in m.settlements ensures Announced(m, k) {
      if k == i.txNonce {
        assert m.events[|l.events|].txNonce == k;
      } else {
        var n :| 0 <= n < |l.events| && l.events[n].txNonce == k;
        assert m.events[n].txNonce == k;
      }
    }
    forall n | 0 <= n < |m.events| ensures Matches(m, m.events[n]) {
      assert n < |l.events| ==> Matches(l, l.events[n]);
    }
  }

  lemma {:induction false} RecordedKeeps(l: Ledger, intents: seq<Intent>, n: nat)
    requires Inv(l) && n <= |intents| && Sound(l, intents, n)
    ensures Inv(Recorded(l, intents, n))
    decreases n
  {
    hide Inv;
    if n > 0 {
      RecordedKeeps(l, intents, n - 1);
      RecordedStatus(l, intents, n - 1, intents[n - 1].txNonce);
      RecordKeeps(Recorded(l, intents, n - 1), intents[n - 1]);
    }
  }

  lemma {:induction false} RunInv(batches: seq<seq<Intent>>)
    ensures Inv(Run(EMPTY, batches))
    decreases |batches|
  {
    if batches != [] {
      var l := Run(EMPTY, batches[..|batches| - 1]);
      RunInv(batches[..|batches| - 1]);
      if Accepts(l, batches[|batches| - 1]) {
        RecordedKeeps(l, batches[|batches| - 1], |batches[|batches| - 1]|);
      }
    }
  }

  /** What is on chain stays as it is: the events only grow and no entry changes. */
  predicate Keeps(l: Ledger, m: Ledger) {
    l.events <= m.events
    && forall k: U256 :: l.StatusOf(k) == PENDING ==> k in m.settlements && m.settlements[k] == l.settlements[k]
  }

  lemma {:induction false} RecordedPermanent(l: Ledger, intents: seq<Intent>, n: nat)
    requires n <= |intents| && Sound(l, intents, n)
    ensures Keeps(l, Recorded(l, intents, n))
    decreases n
  {
    if n > 0 {
      RecordedPermanent(l, intents, n - 1);
    }
  }

  lemma {:induction false} Permanent(l: Ledger, batches: seq<seq<Intent>>)
    ensures Keeps(l, Run(l, batches))
    decreases |batches|
  {
    if batches != [] {
      var m := Run(l, batches[..|batches| - 1]);
      Permanent(l, batches[..|batches| - 1]);
      if Accepts(m, batches[|batches| - 1]) {
        RecordedPermanent(m, batches[|batches| - 1], |batches[|batches| - 1]|);
      }
    }
  }

  /** However often and whenever a batch is sent again, it takes effect at most once, and so does any batch that
      shares a nonce with it. */
  lemma AppliedOnce(l: Ledger, batch: seq<Intent>, between: seq<seq<Intent>>, again: seq<Intent>, i: nat, j: nat)
    requires Accepts(l, batch) && i < |batch| && j < |again| && batch[i].txNonce == again[j].txNonce
    ensures !Accepts(Run(Settle(l, batch), between), again)
  {
    RecordedStatus(l, batch, |batch|, batch[i].txNonce);
    Permanent(Settle(l, batch), between);
  }

  /** What settleBatch does to the ledger, and that it does nothing to it otherwise. */
  lemma SettleMeaning(l: Ledger, intents: seq<Intent>)
    ensures if Accepts(l, intents) then Applied(l, intents, Settle(l, intents)) else Settle(l, intents) == l
  {
    if Accepts(l, intents) {
      RecordedIsApplied(l, intents, |intents|);
      assert intents[..|intents|] == intents;
    }
  }

  /** Batch b of a run was accepted when it was sent. */
  predicate AcceptedIn(batches: seq<seq<Intent>>, b: nat)
    requires b < |batches|
  {
    Accepts(Run(EMPTY, batches[..b]), batches[b])
  }

  /** Over every run: each event announces, field by field, one intent of one accepted batch. */
  lemma {:induction false} EventIsIntent(batches: seq<seq<Intent>>, n: nat) returns (b: nat, i: nat)
    requires n < |Run(EMPTY, batches).events|
    ensures b < |batches| && AcceptedIn(batches, b) && i < |batches[b]|
    ensures Announces(Run(EMPTY, batches).events[n], batches[b][i])
    decreases |batches|
  {
    var init, last := batches[..|batches| - 1], batches[|batches| - 1];
    var l := Run(EMPTY, init);
    SettleMeaning(l, last);
    if n < |l.events| {
      b, i := EventIsIntent(init, n);
      assert batches[..b] == init[..b];
    } else {
      b, i := |init|, n - |l.events|;
    }
  }

  /** And each intent of an accepted batch is announced by exactly one event, and stored with its own fields. */
  lemma {:induction false} IntentIsAnnounced(batches: seq<seq<Intent>>, b: nat, i: nat) returns (n: nat)
    requires b < |batches| && AcceptedIn(batches, b) && i < |batches[b]|
    ensures var l := Run(EMPTY, batches);
            && n < |l.events| && Announces(l.events[n], batches[b][i]) && Stored(l, batches[b][i])
            && forall m :: 0 <= m < |l.events| && l.events[m].txNonce == batches[b][i].txNonce ==> m == n
    decreases |batches|
  {
    var init, last := batches[..|batches| - 1], batches[|batches| - 1];
    var l := Run(EMPTY, init);
    SettleMeaning(l, last);
    if b < |init| {
      assert batches[..b] == init[..b];
      n := IntentIsAnnounced(init, b, i);
      Permanent(l, [last]);
      RunOne(l, last);
    } else {
      assert batches[..b] == init;
      n := |l.events| + i;
    }
    RunInv(batches);
  }

  lemma RunOne(l: Ledger, batch: seq<Intent>)
    ensures Run(l, [batch]) == Settle(l, batch)
  {
    assert [batch][..0] == [];
  }

  // ---- The submitter's tries ------------------------------------------------------------------------------------

  /** One SettleBatch call as the submitter sees it: whether it reports an error, and whether the transaction
      reaches the chain all the same. */
  datatype Try = Try(reportsError: bool, lands: bool)

  const SUBMIT_TRIES: nat := 2

  /** Some try that is actually made lands. */
  predicate Lands(tries: seq<Try>) {
    exists i :: 0 <= i < |tries| && tries[i].lands && forall j :: 0 <= j < i ==> tries[j].reportsError
  }

  /** submit: stops at the first try without an error and drops the batch after the second. Whatever the tries
      do, the batch is applied once as a whole or not at all. */
  method Submit(c: Contract, batch: seq<Intent>, tries: seq<Try>)
    requires |tries| == 2
    modifies c
    ensures c.Now() == if Lands(tries) then Settle(old(c.Now()), batch) else old(c.Now())
  {
    ghost var before := c.Now();
    if |batch| == 0 {
      return;
    }
    for attempt := 0 to SUBMIT_TRIES
      invariant forall j :: 0 <= j < attempt ==> tries[j].reportsError
      invariant c.Now() == if Lands(tries[..attempt]) then Settle(before, batch) else before
    {
      if tries[attempt].lands {
        SettleTwice(before, batch);
        var _ := c.SettleBatch(batch);
      }
      assert Lands(tries[..attempt + 1]) <==> Lands(tries[..attempt]) || tries[attempt].lands by {
        LandsStep(tries, attempt);
      }
      if !tries[attempt].reportsError {
        LandsEnd(tries, attempt + 1);
        return;
      }
    }
    assert tries[..SUBMIT_TRIES] == tries;
  }

  lemma SettleTwice(l: Ledger, batch: seq<Intent>)
    ensures Settle(Settle(l, batch), batch) == Settle(l, batch)
  {
    if Accepts(l, batch) {
      AppliedOnce(l, batch, [], batch, 0, 0);
    }
  }

  lemma LandsStep(tries: seq<Try>, n: nat)
    requires n < |tries| && forall j :: 0 <= j < n ==> tries[j].reportsError
    ensures Lands(tries[..n + 1]) <==> Lands(tries[..n]) || tries[n].lands
  {
    var s, t := tries[..n], tries[..n + 1];
    if Lands(s) {
      var i :| 0 <= i < |s| && s[i].lands && forall j :: 0 <= j < i ==> s[j].reportsError;
      assert t[i].lands;
    }
    if tries[n].lands {
      assert t[n].lands;
    }
    if Lands(t) {
      var i :| 0 <= i < |t| && t[i].lands && forall j :: 0 <= j < i ==> t[j].reportsError;
      assert i < n ==> s[i].lands;
    }
  }

  /** Tries behind one that reports no error are never made. */
  lemma LandsEnd(tries: seq<Try>, n: nat)
    requires 0 < n <= |tries| && !tries[n - 1].reportsError
    ensures Lands(tries[..n]) <==> Lands(tries)
  {
    var s := tries[..n];
    if Lands(s) {
      var i :| 0 <= i < |s| && s[i].lands && forall j :: 0 <= j < i ==> s[j].reportsError;
      assert tries[i].lands;
    }
    if Lands(tries) {
      var i :| 0 <= i < |tries| && tries[i].lands && forall j :: 0 <= j < i ==> tries[j].reportsError;
      assert s[i].lands;
    }
  }
}
