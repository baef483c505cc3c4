/** The collector: one block after the other is looked up and saved, and retried until it is,
    while others, such as the collectors of other chains, use the same database. */
module Collector {
  import opened Collections
  import opened Tables
  import opened BlockSchema
  import opened Queries
  import opened BlockStore

  /** What one tick meets: the finder's answer, and the statements of the save that fail. */
  datatype Tick = Tick(found: Option<seq<Tx>>, fails: Faults)

  /** What happens to the database, one transaction after the other, as there is one connection:
      the save of a tick, or an operation of somebody else. */
  datatype Happening = Turn(tick: Tick) | Other(op: Op)

  ghost predicate OnlyWriter(chain: nat, schedule: seq<Happening>)
  {
    forall e :: e in schedule && e.Other? && e.op.Save? ==> e.op.chain != chain
  }

  ghost predicate Completes(t: Tick)
  {
    t.found.Some? && Acceptable(t.found.value) && Clean(t.fails, 0, 3 + TxsCost(t.found.value))
  }

  /** The lists that the ticks which go through have found, in order. */
  ghost function Completed(schedule: seq<Happening>): seq<seq<Tx>>
  {
    if schedule == [] then []
    else
      var e := schedule[|schedule| - 1];
      Completed(schedule[..|schedule| - 1]) +
      if e.Turn? && Completes(e.tick) then [e.tick.found.value] else []
  }

  /** The lists are stored for the chain at heights 1, 2, 3, ..., and at its other heights nothing
      has changed. */
  ghost predicate Collected(before: Ledger, after: Ledger, chain: nat, lists: seq<seq<Tx>>)
  {
    && (forall h: nat :: 1 <= h <= |lists| ==> (chain, h) in after && after[(chain, h)] == lists[h - 1])
    && (forall h: nat :: !(1 <= h <= |lists|) ==>
          ((chain, h) in after <==> (chain, h) in before)
          && ((chain, h) in before ==> after[(chain, h)] == before[(chain, h)]))
  }

  lemma OneMoreCollected(before: Ledger, now: Ledger, chain: nat, lists: seq<seq<Tx>>, txs: seq<Tx>)
    requires Collected(before, now, chain, lists)
    ensures Collected(before, now[(chain, |lists| + 1) := txs], chain, lists + [txs])
  {
  }

  lemma StillCollected(before: Ledger, now: Ledger, chain: nat, lists: seq<seq<Tx>>, key: (nat, nat), txs: seq<Tx>)
    requires Collected(before, now, chain, lists) && key.0 != chain
    ensures Collected(before, now[key := txs], chain, lists)
  {
  }

  method SaveTxsForHeight(db: BlockDb, chain: nat, height: nat, t: Tick) returns (ok: bool)
    requires Valid(db.d) && chain in db.d.chains.rows
    modifies db
    ensures Valid(db.d) && db.d.chains == old(db.d).chains
    ensures (ok <==> Completes(t)) && (ok ==> t.found.Some?)
    ensures ok <==>
            && t.found.Some? && (forall k :: 0 <= k <= 2 + TxsCost(t.found.value) ==> !t.fails(k))
            && (forall tx :: tx in t.found.value ==> forall e :: e in tx.events ==>
                  e.typ != "" && forall a :: a in e.attrs ==> a.key != "")
    ensures Contents(db.d) ==
            if ok then Contents(old(db.d))[(chain, height) := t.found.value] else Contents(old(db.d))
  {
    hide Valid, Contents, Acceptable;
    if t.found == None { return false; }
    AcceptableMeans(t.found.value);
    ok := db.SaveBlock(chain, height, t.found.value, t.fails);
  }

  /** What somebody else does. */
  method Interfere(db: BlockDb, op: Op)
    requires Valid(db.d)
    modifies db
    ensures Valid(db.d) && db.d == Step(old(db.d), op)
  {
    hide Valid, Contents, CanSave, CanCreate, CanAdd, Saved;
    match op {
      case Create(name, gitSha, now, failed) =>
        var _ := db.CreateTestCase(name, gitSha, now, failed);
      case Add(test, chainId, chainType, failed) =>
        var _ := db.AddChain(test, chainId, chainType, failed);
      case Save(chain, height, txs, fails) =>
        var _ := db.SaveBlock(chain, height, txs, fails);
    }
  }

  lemma OthersKeep(before: Ledger, d: Db, chain: nat, lists: seq<seq<Tx>>, op: Op)
    requires Valid(d) && chain in d.chains.rows && (op.Save? ==> op.chain != chain)
    requires Collected(before, Contents(d), chain, lists)
    ensures Valid(Step(d, op)) && chain in Step(d, op).chains.rows
    ensures Collected(before, Contents(Step(d, op)), chain, lists)
  {
    hide Unique, UniqueTests, UniqueChains, References, Bounded, Contents, Step, CanSave, Collected;
    StepRefines(d, op);
    if op.Save? { StillCollected(before, Contents(d), chain, lists, (op.chain, op.height), op.txs); }
  }

  /** Collect, for any schedule of ticks and of what others do to the database before it is
      cancelled. As the chain's only writer it completes heights 1, 2, 3, ... in order: what it
      found for them is stored, and nothing else of the chain has changed. */
  method Collect(db: BlockDb, chain: nat, schedule: seq<Happening>) returns (height: nat)
    requires Valid(db.d) && chain in db.d.chains.rows && OnlyWriter(chain, schedule)
    modifies db
    ensures Valid(db.d)
    ensures height == 1 + |Completed(schedule)|
    ensures Collected(Contents(old(db.d)), Contents(db.d), chain, Completed(schedule))
  {
    hide Unique, UniqueTests, UniqueChains, References, Bounded, Contents, Completes, Collected, Step;
    ghost var before, lists := Contents(db.d), [];
    NothingCollected(before, chain);
    height := 1;
    for i := 0 to |schedule|
      invariant Valid(db.d) && chain in db.d.chains.rows
      invariant lists == Completed(schedule[..i]) && height == 1 + |lists|
      invariant Collected(before, Contents(db.d), chain, lists)
    {
      assert schedule[..i + 1][..i] == schedule[..i];
      ghost var d := db.d;
      match schedule[i] {
        case Turn(t) =>
          var ok := SaveTxsForHeight(db, chain, height, t);
          if ok {
            OneMoreCollected(before, Contents(d), chain, lists, t.found.value);
            lists := lists + [t.found.value];
            height := height + 1;
          }
        case Other(op) =>
          assert schedule[i] in schedule;
          OthersKeep(before, d, chain, lists, op);
          Interfere(db, op);
      }
    }
    assert schedule[..|schedule|] == schedule;
  }

  /** What the ticks of a schedule find. */
  function Found(schedule: seq<Happening>): seq<seq<Tx>>
    requires forall e :: e in schedule && e.Turn? ==> e.tick.found.Some?
  {
    if schedule == [] then []
    else
      var init, e := schedule[..|schedule| - 1], schedule[|schedule| - 1];
      Found(init) + if e.Turn? then [e.tick.found.value] else []
  }

  /** When the finder always answers lists whose event types and attribute keys are not empty, and no
      statement fails, every tick completes: whatever else the lists hold, and also when they are empty. */
  lemma {:induction false} EveryTickCompletes(schedule: seq<Happening>)
    requires forall e :: e in schedule && e.Turn? ==> e.tick.found.Some? && forall k :: !e.tick.fails(k)
    requires forall e :: e in schedule && e.Turn? ==> forall tx :: tx in e.tick.found.value ==>
               forall ev :: ev in tx.events ==> ev.typ != "" && forall a :: a in ev.attrs ==> a.key != ""
    ensures Completed(schedule) == Found(schedule)
  {
    if schedule == [] {
    } else {
      var init, e := schedule[..|schedule| - 1], schedule[|schedule| - 1];
      assert e in schedule;
      EveryTickCompletes(init);
      if e.Turn? { AcceptableMeans(e.tick.found.value); }
    }
  }

  /** A tick that finds nothing, or meets a failing statement of its save, completes nothing. */
  lemma FailingTickIsRepeated(schedule: seq<Happening>, t: Tick)
    requires t.found == None || exists k :: 0 <= k <= 2 + TxsCost(t.found.value) && t.fails(k)
    ensures Completed(schedule + [Turn(t)]) == Completed(schedule)
  {
    assert (schedule + [Turn(t)])[..|schedule|] == schedule;
  }

  lemma NothingCollected(before: Ledger, chain: nat)
    ensures Collected(before, before, chain, [])
  {
  }

  /** The rows of lists stored at heights 1, 2, 3, ..., one after the other. */
  function Log(lists: seq<seq<Tx>>): seq<TxResult>
  {
    if lists == [] then [] else Log(lists[..|lists| - 1]) + Show(|lists|, lists[|lists| - 1])
  }

  /** So the transactions shown for a chain that was empty before are exactly the concatenation of
      the lists found for the completed heights: none missing, none twice. */
  lemma CollectedRows(before: Ledger, after: Ledger, chain: nat, lists: seq<seq<Tx>>)
    requires Collected(before, after, chain, lists) && forall h: nat :: (chain, h) !in before
    ensures Shown(after, chain) == Log(lists)
  {
    RowsAreLog(before, after, chain, lists, |lists|);
    assert lists[..|lists|] == lists;
    ShownBelow(after, chain, |lists| + 1);
  }

  lemma {:induction false} RowsAreLog(before: Ledger, after: Ledger, chain: nat, lists: seq<seq<Tx>>, n: nat)
    requires n <= |lists| && Collected(before, after, chain, lists) && forall h: nat :: (chain, h) !in before
    ensures LedgerRows(after, chain, n + 1) == Log(lists[..n])
  {
    if n > 0 {
      RowsAreLog(before, after, chain, lists, n - 1);
      assert lists[..n][..n - 1] == lists[..n - 1];
    } else {
      assert LedgerRows(after, chain, 0) == [];
      assert !(1 <= 0 <= |lists|);
    }
  }
}
