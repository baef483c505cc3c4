/** The block database in use: test cases and chains are registered, blocks saved in one
    transaction each, transactions read back; and what whole runs of that amount to. */
module BlockStore {
  import opened Collections
  import opened Tables
  import opened BlockSchema
  import opened Queries

  /** Which SQL statements of one call fail for a reason outside the data, numbered from 0:
      a cancelled context, a lost connection, a busy database. */
  type Faults = nat -> bool

  ghost predicate Clean(fails: Faults, from: nat, to: nat)
  {
    forall k :: from <= k < to ==> !fails(k)
  }

  // Statements a save executes between opening the transaction with the block and committing.

  function EventCost(e: Event): nat { 1 + |e.attrs| }

  function EventsCost(events: seq<Event>): nat
  {
    if events == [] then 0 else EventsCost(events[..|events| - 1]) + EventCost(events[|events| - 1])
  }

  function TxCost(tx: Tx): nat { 1 + EventsCost(tx.events) }

  function TxsCost(txs: seq<Tx>): nat
  {
    if txs == [] then 0 else TxsCost(txs[..|txs| - 1]) + TxCost(txs[|txs| - 1])
  }

  lemma {:induction false} EventsCostPrefix(events: seq<Event>, n: nat)
    requires n <= |events|
    ensures EventsCost(events[..n]) <= EventsCost(events)
  {
    if n < |events| {
      EventsCostPrefix(events[..|events| - 1], n);
      assert events[..|events| - 1][..n] == events[..n];
    } else {
      assert events[..n] == events;
    }
  }

  lemma {:induction false} TxsCostPrefix(txs: seq<Tx>, n: nat)
    requires n <= |txs|
    ensures TxsCost(txs[..n]) <= TxsCost(txs)
  {
    if n < |txs| {
      TxsCostPrefix(txs[..|txs| - 1], n);
      assert txs[..|txs| - 1][..n] == txs[..n];
    } else {
      assert txs[..n] == txs;
    }
  }

  lemma EventsCostStep(events: seq<Event>, i: nat)
    requires i < |events|
    ensures EventsCost(events[..i + 1]) == EventsCost(events[..i]) + EventCost(events[i]) <= EventsCost(events)
  {
    EventsCostPrefix(events, i + 1);
    assert events[..i + 1][..i] == events[..i];
  }

  lemma TxsCostStep(txs: seq<Tx>, i: nat)
    requires i < |txs|
    ensures TxsCost(txs[..i + 1]) == TxsCost(txs[..i]) + TxCost(txs[i]) <= TxsCost(txs)
  {
    TxsCostPrefix(txs, i + 1);
    assert txs[..i + 1][..i] == txs[..i];
  }

  /** Statement b of a stretch, and the stretches around it. */
  lemma CleanParts(fails: Faults, a: nat, b: nat, c: nat, end: nat)
    requires a <= b < c <= end && Clean(fails, a, b)
    ensures Clean(fails, a, end) ==> !fails(b) && Clean(fails, b + 1, c)
    ensures !fails(b) ==> (Clean(fails, a, c) <==> Clean(fails, b + 1, c))
  {
  }

  lemma CleanStep(fails: Faults, a: nat, b: nat, end: nat)
    requires a <= b < end && Clean(fails, a, b)
    ensures Clean(fails, a, b + 1) <==> !fails(b)
    ensures Clean(fails, a, end) ==> !fails(b)
  {
  }

  lemma NoAttrs(d: Db, event: nat, k: nat, fails: Faults)
    ensures PutAttrs(d, event, []) == d && Clean(fails, k, k)
  {
  }

  lemma AttrStep(d: Db, event: nat, attrs: seq<Attr>, i: nat)
    requires i < |attrs|
    ensures var e := PutAttrs(d, event, attrs[..i]);
            PutAttrs(d, event, attrs[..i + 1]) == e.(attrs := Insert(e.attrs, event, attrs[i]))
  {
    assert attrs[..i + 1][..i] == attrs[..i];
  }

  lemma NoEvents(d: Db, tx: nat, k: nat, fails: Faults)
    ensures PutEvents(d, tx, []) == d && AcceptableEvents([]) && EventsCost([]) == 0 && Clean(fails, k, k)
  {
  }

  lemma NoTxs(d: Db, block: nat, k: nat, fails: Faults)
    ensures PutTxs(d, block, []) == d && Acceptable([]) && TxsCost([]) == 0 && Clean(fails, k, k)
  {
  }

  lemma EventStep(d: Db, tx: nat, events: seq<Event>, i: nat)
    requires i < |events|
    ensures PutEvents(d, tx, events[..i + 1]) == PutEvent(PutEvents(d, tx, events[..i]), tx, events[i])
    ensures AcceptableEvents(events[..i]) ==> (AcceptableEvents(events[..i + 1]) <==> AcceptableEvent(events[i]))
    ensures AcceptableEvents(events) ==> AcceptableEvent(events[i])
    ensures AcceptableEvent(events[i]) <==> events[i].typ != "" && forall a :: a in events[i].attrs ==> a.key != ""
  {
    assert events[..i + 1][..i] == events[..i] && events[..i + 1] == events[..i] + [events[i]];
  }

  lemma TxStep(d: Db, block: nat, txs: seq<Tx>, i: nat)
    requires i < |txs|
    ensures PutTxs(d, block, txs[..i + 1]) == PutTx(PutTxs(d, block, txs[..i]), block, txs[i])
    ensures Acceptable(txs[..i]) ==> (Acceptable(txs[..i + 1]) <==> AcceptableEvents(txs[i].events))
    ensures Acceptable(txs) ==> AcceptableEvents(txs[i].events)
  {
    hide AcceptableEvents;
    assert txs[..i + 1][..i] == txs[..i] && txs[..i + 1] == txs[..i] + [txs[i]];
    assert AcceptableTx(txs[i]) <==> AcceptableEvents(txs[i].events);
    assert txs[i] in txs[..i + 1];
  }

  /** One statement is executed for each row that a save adds below its block. */
  lemma {:induction false} CostIsRows(d: Db, block: nat, txs: seq<Tx>)
    ensures var e := PutTxs(d, block, txs);
            e.txs.last + e.events.last + e.attrs.last == d.txs.last + d.events.last + d.attrs.last + TxsCost(txs)
  {
    if txs == [] {
    } else {
      var init, tx := txs[..|txs| - 1], txs[|txs| - 1];
      CostIsRows(d, block, init);
      var e := PutTxs(d, block, init);
      CostOfEvents(e.(txs := Insert(e.txs, block, tx.data)), e.txs.last + 1, tx.events);
    }
  }

  lemma {:induction false} CostOfEvents(d: Db, tx: nat, events: seq<Event>)
    ensures var e := PutEvents(d, tx, events);
            && e.events.last + e.attrs.last == d.events.last + d.attrs.last + EventsCost(events)
            && e.txs == d.txs
  {
    if events == [] {
    } else {
      var init, ev := events[..|events| - 1], events[|events| - 1];
      CostOfEvents(d, tx, init);
      EventRows(PutEvents(d, tx, init), tx, ev);
    }
  }

  lemma AcceptableMeans(txs: seq<Tx>)
    ensures Acceptable(txs) <==>
            forall tx :: tx in txs ==> forall e :: e in tx.events ==>
              e.typ != "" && forall a :: a in e.attrs ==> a.key != ""
  {
  }

  // ---------------------------------------------------------------- operations

  ghost predicate CanCreate(d: Db, name: string, gitSha: string, now: string, fails: bool)
  {
    !fails && name != "" && gitSha != "" && now != "" &&
    forall id :: id in d.tests.rows ==> d.tests.rows[id].val.name != name || d.tests.rows[id].val.createdAt != now
  }

  ghost predicate CanAdd(d: Db, test: nat, chainId: string, chainType: string, fails: bool)
  {
    !fails && chainId != "" && chainType != "" && test in d.tests.rows &&
    forall id :: id in d.chains.rows ==> d.chains.rows[id].parent != test || d.chains.rows[id].val.chainId != chainId
  }

  /** A save succeeds exactly when the chain exists, the CHECKs on event types and attribute
      keys hold, and every statement from BEGIN to COMMIT gets through. */
  ghost predicate CanSave(d: Db, chain: nat, txs: seq<Tx>, fails: Faults)
  {
    chain in d.chains.rows && Acceptable(txs) && Clean(fails, 0, 3 + TxsCost(txs))
  }

  /** How reading a query's rows may go: the query fails; the engine delivers no more than `stop`
      rows; row i cannot be scanned. That rows are missing is not reported: nobody asks for it. */
  datatype Reading = Reading(fails: bool, stop: nat, unreadable: nat -> bool)

  function Delivered<T>(rows: seq<T>, reading: Reading): (s: seq<T>)
    ensures s <= rows && |s| == if reading.stop < |rows| then reading.stop else |rows|
  {
    if reading.stop < |rows| then rows[..reading.stop] else rows
  }

  predicate Readable(n: nat, reading: Reading)
  {
    !reading.fails && forall i :: 0 <= i < n ==> !reading.unreadable(i)
  }

  class BlockDb {
    var d: Db

    constructor ()
      ensures d == EMPTY
    {
      d := EMPTY;
    }

    method CreateTestCase(name: string, gitSha: string, now: string, fails: bool) returns (id: Option<nat>)
      requires Valid(d)
      modifies this
      ensures id.Some? <==> CanCreate(old(d), name, gitSha, now, fails)
      ensures id.Some? <==>
              && !fails && name != "" && gitSha != "" && now != ""
              && forall t :: t in old(d).tests.rows ==>
                   !(old(d).tests.rows[t].val.name == name && old(d).tests.rows[t].val.createdAt == now)
      ensures id == None ==> d == old(d)
      ensures id.Some? ==> d == old(d).(tests := Insert(old(d).tests, 0, TestCase(name, gitSha, now)))
                           && id.value == d.tests.last && id.value !in old(d).tests.rows
      ensures Valid(d) && Contents(d) == Contents(old(d))
    {
      TestKeeps(d, name, gitSha, now, fails);
      if fails || name == "" || gitSha == "" || now == "" { return None; }
      if exists i | i in d.tests.rows :: d.tests.rows[i].val.name == name && d.tests.rows[i].val.createdAt == now {
        return None;
      }
      d := d.(tests := Insert(d.tests, 0, TestCase(name, gitSha, now)));
      return Some(d.tests.last);
    }

    method AddChain(test: nat, chainId: string, chainType: string, fails: bool) returns (id: Option<nat>)
      requires Valid(d)
      modifies this
      ensures id.Some? <==> CanAdd(old(d), test, chainId, chainType, fails)
      ensures id.Some? <==>
              && !fails && chainId != "" && chainType != "" && test in old(d).tests.rows
              && forall c :: c in old(d).chains.rows ==>
                   !(old(d).chains.rows[c].parent == test && old(d).chains.rows[c].val.chainId == chainId)
      ensures id == None ==> d == old(d)
      ensures id.Some? ==> d == old(d).(chains := Insert(old(d).chains, test, ChainInfo(chainId, chainType)))
                           && id.value == d.chains.last && id.value !in old(d).chains.rows
      ensures Valid(d) && Contents(d) == Contents(old(d))
    {
      ChainKeeps(d, test, chainId, chainType, fails);
      if fails || chainId == "" || chainType == "" || test !in d.tests.rows { return None; }
      if exists i | i in d.chains.rows :: d.chains.rows[i].parent == test && d.chains.rows[i].val.chainId == chainId {
        return None;
      }
      d := d.(chains := Insert(d.chains, test, ChainInfo(chainId, chainType)));
      return Some(d.chains.last);
    }

    /** The innermost loop of saveBlock; statement numbers start at k. */
    method InsertAttrs(event: nat, attrs: seq<Attr>, k: nat, fails: Faults) returns (ok: bool)
      modifies this
      ensures ok <==> (forall a :: a in attrs ==> a.key != "") && Clean(fails, k, k + |attrs|)
      ensures ok ==> d == PutAttrs(old(d), event, attrs)
    {
      hide PutAttrs, Clean, Insert;
      NoAttrs(d, event, k, fails);
      assert attrs[..0] == [];
      for i := 0 to |attrs|
        invariant forall a :: a in attrs[..i] ==> a.key != ""
        invariant Clean(fails, k, k + i)
        invariant d == PutAttrs(old(d), event, attrs[..i])
      {
        AttrStep(old(d), event, attrs, i);
        CleanStep(fails, k, k + i, k + |attrs|);
        if fails(k + i) || attrs[i].key == "" { return false; }
        d := d.(attrs := Insert(d.attrs, event, attrs[i]));
      }
      assert attrs[..|attrs|] == attrs;
      return true;
    }

    method InsertEvents(tx: nat, events: seq<Event>, k: nat, fails: Faults) returns (ok: bool)
      modifies this
      ensures ok <==> AcceptableEvents(events) && Clean(fails, k, k + EventsCost(events))
      ensures ok ==> d == PutEvents(old(d), tx, events)
    {
      hide AcceptableEvents, EventsCost, PutEvents, PutAttrs, AcceptableEvent, Clean;
      NoEvents(d, tx, k, fails);
      assert events[..0] == [] && events[..|events|] == events;
      for i := 0 to |events|
        invariant AcceptableEvents(events[..i])
        invariant Clean(fails, k, k + EventsCost(events[..i]))
        invariant d == PutEvents(old(d), tx, events[..i])
      {
        var e, at := events[i], k + EventsCost(events[..i]);
        EventsCostStep(events, i);
        EventStep(old(d), tx, events, i);
        CleanParts(fails, k, at, at + EventCost(e), k + EventsCost(events));
        if fails(at) { return false; }
        if e.typ == "" { return false; }
        d := d.(events := Insert(d.events, tx, e.typ));
        var done := InsertAttrs(d.events.last, e.attrs, at + 1, fails);
        if !done { return false; }
      }
      return true;
    }

    method InsertTxs(block: nat, txs: seq<Tx>, k: nat, fails: Faults) returns (ok: bool)
      modifies this
      ensures ok <==> Acceptable(txs) && Clean(fails, k, k + TxsCost(txs))
      ensures ok ==> d == PutTxs(old(d), block, txs)
    {
      hide AcceptableEvents, EventsCost, PutEvents, Acceptable, TxsCost, PutTxs, Clean;
      NoTxs(d, block, k, fails);
      assert txs[..0] == [] && txs[..|txs|] == txs;
      for i := 0 to |txs|
        invariant Acceptable(txs[..i])
        invariant Clean(fails, k, k + TxsCost(txs[..i]))
        invariant d == PutTxs(old(d), block, txs[..i])
      {
        var tx, at := txs[i], k + TxsCost(txs[..i]);
        TxsCostStep(txs, i);
        TxStep(old(d), block, txs, i);
        CleanParts(fails, k, at, at + TxCost(tx), k + TxsCost(txs));
        if fails(at) { return false; }
        d := d.(txs := Insert(d.txs, block, tx.data));
        var done := InsertEvents(d.txs.last, tx.events, at + 1, fails);
        if !done { return false; }
      }
      return true;
    }

    /** saveBlock: one transaction, rolled back unless everything in it succeeds. */
    method SaveBlock(chain: nat, height: nat, txs: seq<Tx>, fails: Faults) returns (ok: bool)
      requires Valid(d)
      modifies this
      ensures ok <==> CanSave(old(d), chain, txs, fails)
      ensures ok <==>
              && chain in old(d).chains.rows && (forall k :: 0 <= k < 3 + TxsCost(txs) ==> !fails(k))
              && (forall tx :: tx in txs ==> forall e :: e in tx.events ==>
                    e.typ != "" && forall a :: a in e.attrs ==> a.key != "")
      ensures Valid(d) && d.chains == old(d).chains
      ensures !ok ==> d == old(d)
      ensures ok ==> d == Saved(old(d), chain, height, txs)
                     && Contents(d) == Contents(old(d))[(chain, height) := txs]
    {
      hide Valid, Contents, PutTxs, ReplaceBlock, Acceptable;
      AcceptableMeans(txs);
      var snapshot := d;
      if fails(0) { return false; }
      if fails(1) || chain !in d.chains.rows { return false; }
      d := ReplaceBlock(d, chain, height);
      var blockId := d.blocks.last;
      assert blockId == snapshot.blocks.last + 1 by { NewBlockId(snapshot, chain, height); }
      var done := InsertTxs(blockId, txs, 2, fails);
      if !done || fails(2 + TxsCost(txs)) {
        d := snapshot;
        return false;
      }
      SaveRefines(snapshot, chain, height, txs);
      return true;
    }

    /** Transactions: `rows` are the tx ids in the order the engine delivers them. */
    method Transactions(chain: nat, rows: seq<nat>, reading: Reading) returns (results: Option<seq<TxResult>>)
      requires Valid(d) && IsResult(d, chain, rows)
      ensures results.Some? <==>
              !reading.fails && forall i :: 0 <= i < |rows| && i < reading.stop ==> !reading.unreadable(i)
      ensures results.Some? ==> results.value <= Shown(Contents(d), chain)
      ensures |Shown(Contents(d), chain)| == |rows|
      ensures results.Some? ==> |results.value| == if reading.stop < |rows| then reading.stop else |rows|
      ensures results.Some? ==>
                forall i, j :: 0 <= i < j < |results.value| ==> results.value[i].height <= results.value[j].height
    {
      hide Contents, IsResult, RowsOf, HeightOf, DataOf, Shown, UniqueTests, UniqueChains, References, Bounded, Unique;
      AllRowsShown(d, chain, rows);
      if reading.fails { return None; }
      var list, n := [], if reading.stop < |rows| then reading.stop else |rows|;
      RowsOfFirst(d, rows, 0);
      for i := 0 to n
        invariant list == RowsOf(d, rows[..i]) && Readable(i, reading)
      {
        if reading.unreadable(i) { return None; }
        RowsOfNext(d, rows, i);
        list := list + [TxResult(HeightOf(d, rows[i]), DataOf(d, rows[i]))];
      }
      RowsOfFirst(d, rows, n);
      ShownAscends(Contents(d), chain);
      return Some(list);
    }

    /** RecentTestCases: `chains` are the chains in the order the engine delivers them before it
        cuts off; a negative limit cuts off nothing. toLocal is timeToLocal. */
    method RecentTestCases(chains: seq<nat>, limit: int, reading: Reading, toLocal: string -> Option<string>)
        returns (results: Option<seq<TestCaseResult>>)
      requires Valid(d) && IsRecent(d, chains)
      ensures |chains| == |d.chains.rows|
      ensures results.Some? <==>
              var n := |Delivered(Limited(chains, limit), reading)|;
              !reading.fails &&
              forall i :: 0 <= i < n ==> !reading.unreadable(i) && toLocal(CreatedAt(d, chains[i])).Some?
      ensures results.Some? ==> |results.value| == |Delivered(Limited(chains, limit), reading)|
      // the columns of each row
      ensures results.Some? ==>
                forall i :: 0 <= i < |results.value| ==>
                  var c, r := chains[i], results.value[i];
                  && c in d.chains.rows && d.chains.rows[c].parent in d.tests.rows
                  && var chain, test := d.chains.rows[c], d.tests.rows[d.chains.rows[c].parent].val;
                  && r.chain == c && r.chainId == chain.val.chainId && r.chainType == chain.val.chainType
                  && r.test == chain.parent && r.name == test.name && r.gitSha == test.gitSha
                  && toLocal(test.createdAt) == Some(r.createdAt)
      ensures results.Some? ==>
                forall i :: 0 <= i < |results.value| ==>
                  var c, r := chains[i], results.value[i];
                  && r.txTotal == |Shown(Contents(d), c)|
                  && (forall h :: (c, h) in Contents(d) ==> h <= r.height)
                  && ((c, r.height) in Contents(d) || (r.height == 0 && forall h :: (c, h) !in Contents(d)))
      // their order
      ensures results.Some? ==>
                forall i, j :: 0 <= i < j < |results.value| ==>
                  var x, y := results.value[i], results.value[j];
                  x.test > y.test || (x.test == y.test && TextLess(x.chainId, y.chainId))
    {
      hide Valid, Contents, Group, AggregateRow, CreatedAt, IsRecent, Reports;
      AllChainsListed(d, chains);
      if reading.fails { return None; }
      var list, n := [], |Delivered(Limited(chains, limit), reading)|;
      for i := 0 to n
        invariant |list| == i && Readable(i, reading)
        invariant forall k :: 0 <= k < i ==> toLocal(CreatedAt(d, chains[k])).Some?
        invariant forall k :: 0 <= k < i ==> Reports(d, chains[k], list[k], toLocal)
      {
        if reading.unreadable(i) { return None; }
        RecentRow(d, chains, i);
        RowReports(d, chains[i], toLocal);
        var row := AggregateRow(d, chains[i]);
        var t := toLocal(row.createdAt);
        if t == None { return None; }
        list := list + [row.(createdAt := t.value)];
      }
      forall i | 0 <= i < n ensures Columns(d, chains[i], list[i], toLocal) && Totals(d, chains[i], list[i]) {
        ReportsMeans(d, chains[i], list[i], toLocal);
      }
      forall i, j | 0 <= i < j < n ensures Precedes(list[i], list[j]) {
        ReportsInOrder(d, chains, i, j, list, toLocal);
      }
      return Some(list);
    }
  }

  lemma RowsOfNext(d: Db, rows: seq<nat>, i: nat)
    requires i < |rows|
    ensures RowsOf(d, rows[..i + 1]) == RowsOf(d, rows[..i]) + [TxResult(HeightOf(d, rows[i]), DataOf(d, rows[i]))]
  {
  }

  lemma RowsOfFirst(d: Db, rows: seq<nat>, n: nat)
    requires n <= |rows|
    ensures RowsOf(d, rows[..n]) == RowsOf(d, rows)[..n] && RowsOf(d, rows[..0]) == [] && rows[..|rows|] == rows
  {
  }

  lemma AllRowsShown(d: Db, chain: nat, rows: seq<nat>)
    requires Valid(d) && IsResult(d, chain, rows)
    ensures RowsOf(d, rows) == Shown(Contents(d), chain)
  {
    hide Contents;
    ResultIsLedger(d, chain, rows, Above(Contents(d)));
  }

  lemma RecentRow(d: Db, chains: seq<nat>, i: nat)
    requires IsRecent(d, chains) && i < |chains|
    ensures chains[i] in d.chains.rows
  {
    assert chains[i] in chains;
  }

  /** LIMIT */
  function Limited<T>(rows: seq<T>, limit: int): (s: seq<T>)
    ensures s <= rows && |s| == if 0 <= limit < |rows| then limit else |rows|
  {
    if 0 <= limit < |rows| then rows[..limit] else rows
  }

  function CreatedAt(d: Db, chain: nat): string
  {
    if chain in d.chains.rows && d.chains.rows[chain].parent in d.tests.rows
    then d.tests.rows[d.chains.rows[chain].parent].val.createdAt else ""
  }

  ghost predicate IsTop(l: Ledger, chain: nat, h: nat)
  {
    && (forall g :: (chain, g) in l ==> g <= h)
    && ((chain, h) in l || (h == 0 && forall g :: (chain, g) !in l))
  }

  /** A row tells of its chain the top height saved and the length of its transactions. */
  ghost predicate Reports(d: Db, c: nat, r: TestCaseResult, toLocal: string -> Option<string>)
  {
    && Unique(d.blocks) && c in d.chains.rows && d.chains.rows[c].parent in d.tests.rows
    && toLocal(CreatedAt(d, c)) == Some(r.createdAt) && r == AggregateRow(d, c).(createdAt := r.createdAt)
    && IsTop(Contents(d), c, r.height) && r.txTotal == |Shown(Contents(d), c)|
  }

  ghost predicate Columns(d: Db, c: nat, r: TestCaseResult, toLocal: string -> Option<string>)
  {
    && c in d.chains.rows && d.chains.rows[c].parent in d.tests.rows
    && var chain, test := d.chains.rows[c], d.tests.rows[d.chains.rows[c].parent].val;
    && r.chain == c && r.chainId == chain.val.chainId && r.chainType == chain.val.chainType
    && r.test == chain.parent && r.name == test.name && r.gitSha == test.gitSha
    && toLocal(test.createdAt) == Some(r.createdAt)
  }

  ghost predicate Totals(d: Db, c: nat, r: TestCaseResult)
  {
    && Unique(d.blocks) && r.txTotal == |Shown(Contents(d), c)|
    && (forall h :: (c, h) in Contents(d) ==> h <= r.height)
    && ((c, r.height) in Contents(d) || (r.height == 0 && forall h :: (c, h) !in Contents(d)))
  }

  predicate Precedes(x: TestCaseResult, y: TestCaseResult)
  {
    x.test > y.test || (x.test == y.test && TextLess(x.chainId, y.chainId))
  }

  lemma ReportsMeans(d: Db, c: nat, r: TestCaseResult, toLocal: string -> Option<string>)
    requires Reports(d, c, r, toLocal)
    ensures Columns(d, c, r, toLocal) && Totals(d, c, r)
  {
    hide Contents, Group, Shown;
  }

  lemma ReportsInOrder(d: Db, chains: seq<nat>, i: nat, j: nat, list: seq<TestCaseResult>,
                       toLocal: string -> Option<string>)
    requires IsRecent(d, chains) && i < j < |list| <= |chains|
    requires Columns(d, chains[i], list[i], toLocal) && Columns(d, chains[j], list[j], toLocal)
    ensures Precedes(list[i], list[j])
  {
    assert MoreRecent(d, chains[i], chains[j]);
  }

  lemma AllChainsListed(d: Db, chains: seq<nat>)
    requires Valid(d) && IsRecent(d, chains)
    ensures |chains| == |d.chains.rows|
  {
    hide Valid;
    forall i, j | 0 <= i < j < |chains| ensures chains[i] != chains[j] {
      assert chains[i] in chains;
      NoTies(d, chains[i], chains[i]);
    }
    CountDistinct(chains, d.chains.rows.Keys);
  }

  lemma RowReports(d: Db, c: nat, toLocal: string -> Option<string>)
    requires Valid(d) && c in d.chains.rows
    ensures d.chains.rows[c].parent in d.tests.rows
    ensures var r, t := AggregateRow(d, c), toLocal(CreatedAt(d, c));
            r.createdAt == CreatedAt(d, c) && (t.Some? ==> Reports(d, c, r.(createdAt := t.value), toLocal))
  {
    hide Contents, Group;
    AggregateIsLedger(d, d.chains.rows[c].parent, c, Above(Contents(d)));
    TopReported(d, c);
  }

  lemma TopReported(d: Db, c: nat)
    requires Valid(d) && c in d.chains.rows && d.chains.rows[c].parent in d.tests.rows
    ensures IsTop(Contents(d), c, AggregateRow(d, c).height)
  {
    hide Contents, Group;
    GroupIsChain(d, d.chains.rows[c].parent, c);
    ChainTotals(d, d.chains.rows[c].parent, c);
    HeightsAre(d, c);
  }

  lemma NewBlockId(d: Db, chain: nat, height: nat)
    ensures ReplaceBlock(d, chain, height).blocks.last == d.blocks.last + 1
  {
  }

  lemma TestKeeps(d: Db, name: string, gitSha: string, now: string, fails: bool)
    requires Valid(d)
    ensures CanCreate(d, name, gitSha, now, fails) ==>
              var e := d.(tests := Insert(d.tests, 0, TestCase(name, gitSha, now)));
              Valid(e) && Contents(e) == Contents(d)
  {
    hide Contents;
    ContentsKept(d, d.(tests := Insert(d.tests, 0, TestCase(name, gitSha, now))));
  }

  lemma ChainKeeps(d: Db, test: nat, chainId: string, chainType: string, fails: bool)
    requires Valid(d)
    ensures CanAdd(d, test, chainId, chainType, fails) ==>
              var e := d.(chains := Insert(d.chains, test, ChainInfo(chainId, chainType)));
              Valid(e) && Contents(e) == Contents(d)
  {
    hide Contents;
    ContentsKept(d, d.(chains := Insert(d.chains, test, ChainInfo(chainId, chainType))));
  }

  lemma ContentsKept(d: Db, e: Db)
    requires Unique(d.blocks)
    requires e.blocks == d.blocks && e.txs == d.txs && e.events == d.events && e.attrs == d.attrs
    ensures Contents(e) == Contents(d)
  {
    hide LoadTxs;
    LoadsKept(d, e);
  }

  /** The ledger is read from the four lower tables alone. */
  lemma LoadsKept(d: Db, e: Db)
    requires e.blocks == d.blocks && e.txs == d.txs && e.events == d.events && e.attrs == d.attrs
    ensures forall b :: LoadTxs(e, b) == LoadTxs(d, b)
  {
    hide LoadEvents;
    EventsUnaffected(d, e);
    forall b: nat
      ensures LoadTxs(e, b) == LoadTxs(d, b)
    {
      GatherSame(e.txs.rows, d.txs.rows, b, d.txs.last, ShowTx(e), ShowTx(d));
    }
  }

  /** Saving the same block again leaves what is stored as it is. */
  lemma SaveIdempotent(d: Db, chain: nat, height: nat, txs: seq<Tx>)
    requires Valid(d) && chain in d.chains.rows && Acceptable(txs)
    ensures var once := Saved(d, chain, height, txs);
            var twice := Saved(once, chain, height, txs);
            && Valid(once) && Valid(twice) && Contents(twice) == Contents(once)
            && |twice.blocks.rows| == |once.blocks.rows|
  {
    hide Saved, Contents, LoadTxs, Acceptable, UniqueTests, UniqueChains, References, Bounded;
    var once := Saved(d, chain, height, txs);
    SaveRefines(d, chain, height, txs);
    SaveRefines(once, chain, height, txs);
    BlocksCounted(once);
    BlocksCounted(Saved(once, chain, height, txs));
  }

  /** Block rows and ledger entries correspond one to one. */
  lemma BlocksCounted(d: Db)
    requires Unique(d.blocks)
    ensures |d.blocks.rows| == |Contents(d)|
  {
    KeysCounted(d.blocks.rows, Contents(d).Keys);
  }

  lemma {:induction false} KeysCounted(rows: map<nat, Row<nat>>, keys: set<(nat, nat)>)
    requires forall i, j :: i in rows && j in rows && rows[i] == rows[j] ==> i == j
    requires forall k :: k in keys <==> exists b :: b in rows && rows[b] == Row(k.0, k.1)
    ensures |rows| == |keys|
  {
    if rows == map[] {
      assert forall k :: k !in keys;
    } else {
      var b :| b in rows;
      var key := (rows[b].parent, rows[b].val);
      assert rows[b] == Row(key.0, key.1) && key in keys;
      var rest := rows - {b};
      forall k | k in keys - {key}
        ensures exists c :: c in rest && rest[c] == Row(k.0, k.1)
      {
        var c :| c in rows && rows[c] == Row(k.0, k.1);
        assert c in rest && rest[c] == Row(k.0, k.1);
      }
      KeysCounted(rest, keys - {key});
    }
  }

  // ---------------------------------------------------------------- runs

  datatype Op =
    | Create(name: string, gitSha: string, now: string, failed: bool)
    | Add(test: nat, chainId: string, chainType: string, failed: bool)
    | Save(chain: nat, height: nat, txs: seq<Tx>, fails: Faults)

  ghost function Step(d: Db, op: Op): Db
  {
    match op
    case Create(name, gitSha, now, failed) =>
      if CanCreate(d, name, gitSha, now, failed)
      then d.(tests := Insert(d.tests, 0, TestCase(name, gitSha, now))) else d
    case Add(test, chainId, chainType, failed) =>
      if CanAdd(d, test, chainId, chainType, failed)
      then d.(chains := Insert(d.chains, test, ChainInfo(chainId, chainType))) else d
    case Save(chain, height, txs, fails) =>
      if CanSave(d, chain, txs, fails) then Saved(d, chain, height, txs) else d
  }

  ghost function Run(d: Db, ops: seq<Op>): Db
    decreases ops
  {
    if ops == [] then d else Run(Step(d, ops[0]), ops[1..])
  }

  /** The saves of a run that reported success, in order. */
  ghost function Successes(d: Db, ops: seq<Op>): seq<Op>
    decreases ops
  {
    if ops == [] then []
    else (if ops[0].Save? && CanSave(d, ops[0].chain, ops[0].txs, ops[0].fails) then [ops[0]] else [])
         + Successes(Step(d, ops[0]), ops[1..])
  }

  /** The last of some saves for a chain and height. */
  function LastSave(saves: seq<Op>, key: (nat, nat)): Option<seq<Tx>>
  {
    if saves == [] then None
    else
      var s := saves[|saves| - 1];
      if s.Save? && (s.chain, s.height) == key then Some(s.txs) else LastSave(saves[..|saves| - 1], key)
  }

  lemma StepRefines(d: Db, op: Op)
    requires Valid(d)
    ensures Valid(Step(d, op)) && (forall c :: c in d.chains.rows ==> c in Step(d, op).chains.rows)
    ensures Contents(Step(d, op)) ==
            if op.Save? && CanSave(d, op.chain, op.txs, op.fails)
            then Contents(d)[(op.chain, op.height) := op.txs] else Contents(d)
  {
    hide Contents, Saved, Acceptable;
    match op
    case Create(name, gitSha, now, failed) => TestKeeps(d, name, gitSha, now, failed);
    case Add(test, chainId, chainType, failed) => ChainKeeps(d, test, chainId, chainType, failed);
    case Save(chain, height, txs, fails) =>
      if CanSave(d, chain, txs, fails) { SaveRefines(d, chain, height, txs); }
  }

  lemma {:induction false} LastSaveCons(op: Op, saves: seq<Op>, key: (nat, nat))
    ensures LastSave([op] + saves, key) ==
            if LastSave(saves, key).Some? then LastSave(saves, key) else LastSave([op], key)
  {
    if saves == [] {
      assert [op] + saves == [op];
    } else {
      assert ([op] + saves)[..|saves|] == [op] + saves[..|saves| - 1];
      LastSaveCons(op, saves[..|saves| - 1], key);
    }
  }

  ghost predicate StoresLast(before: Ledger, after: Ledger, saves: seq<Op>)
  {
    forall key ::
      match LastSave(saves, key)
      case Some(txs) => key in after && after[key] == txs
      case None => (key in after <==> key in before) && (key in after ==> after[key] == before[key])
  }

  lemma StoresLastCons(before: Ledger, op: Op, after: Ledger, saves: seq<Op>)
    requires op.Save? && StoresLast(before[(op.chain, op.height) := op.txs], after, saves)
    ensures StoresLast(before, after, [op] + saves)
  {
    forall key
      ensures match LastSave([op] + saves, key)
              case Some(txs) => key in after && after[key] == txs
              case None => (key in after <==> key in before) && (key in after ==> after[key] == before[key])
    {
      LastSaveCons(op, saves, key);
    }
  }

  /** Over any run the tables stay consistent, and they store for every chain and height what
      the last successful save for it gave, whatever was saved in between and in whatever order. */
  lemma {:induction false} RunRefines(d: Db, ops: seq<Op>)
    requires Valid(d)
    ensures Valid(Run(d, ops))
    ensures StoresLast(Contents(d), Contents(Run(d, ops)), Successes(d, ops))
    decreases ops
  {
    hide Contents, Step, CanSave;
    if ops == [] {
    } else {
      var op, d' := ops[0], Step(d, ops[0]);
      StepRefines(d, op);
      RunRefines(d', ops[1..]);
      if op.Save? && CanSave(d, op.chain, op.txs, op.fails) {
        StoresLastCons(Contents(d), op, Contents(Run(d', ops[1..])), Successes(d', ops[1..]));
      } else {
        assert [] + Successes(d', ops[1..]) == Successes(d', ops[1..]);
      }
    }
  }

  /** From the empty database, any answer to the transactions query is the concatenation, by
      ascending height, of the lists last saved at each height of the chain. */
  lemma TransactionsAfterRun(ops: seq<Op>, chain: nat, ids: seq<nat>, n: nat)
    requires IsResult(Run(EMPTY, ops), chain, ids)
    requires forall s :: s in Successes(EMPTY, ops) && s.Save? && s.chain == chain ==> s.height < n
    ensures RowsOf(Run(EMPTY, ops), ids) == SavedRows(Successes(EMPTY, ops), chain, n)
  {
    hide Contents, LoadTxs;
    var d, saves := Run(EMPTY, ops), Successes(EMPTY, ops);
    EmptyIsValid();
    RunRefines(EMPTY, ops);
    forall h | (chain, h) in Contents(d)
      ensures h < n
    {
      LastSaveFound(saves, (chain, h));
    }
    ResultIsLedger(d, chain, ids, n);
    SavedRowsAre(Contents(d), saves, chain, n);
  }

  /** The same with no bound asked for: there is one above all heights saved. */
  lemma TransactionsAfterAnyRun(ops: seq<Op>, chain: nat, ids: seq<nat>) returns (n: nat)
    requires IsResult(Run(EMPTY, ops), chain, ids)
    ensures forall s :: s in Successes(EMPTY, ops) && s.Save? && s.chain == chain ==> s.height < n
    ensures RowsOf(Run(EMPTY, ops), ids) == SavedRows(Successes(EMPTY, ops), chain, n)
  {
    n := SavesBelow(Successes(EMPTY, ops), chain);
    TransactionsAfterRun(ops, chain, ids, n);
  }

  lemma {:induction false} SavesBelow(saves: seq<Op>, chain: nat) returns (n: nat)
    ensures forall s :: s in saves && s.Save? && s.chain == chain ==> s.height < n
  {
    n := 0;
    if saves == [] {
    } else {
      n := SavesBelow(saves[1..], chain);
      if saves[0].Save? && saves[0].height >= n { n := saves[0].height + 1; }
    }
  }

  /** The CHECKs on a block's height and a tx's data refuse nothing: a block at height 0 with an
      empty transaction is stored. */
  lemma HeightZeroIsSaved(d: Db, chain: nat)
    requires Valid(d) && chain in d.chains.rows
    ensures var op := Save(chain, 0, [Tx("", [])], k => false);
            Valid(Step(d, op)) && Contents(Step(d, op)) == Contents(d)[(chain, 0) := [Tx("", [])]]
  {
    hide Contents, Valid;
    StepRefines(d, Save(chain, 0, [Tx("", [])], k => false));
  }

  /** Rows that end early are not noticed: of a block with two transactions, read from a chain with
      nothing else, the first is returned as if it were all. */
  lemma EarlyEndIsNotNoticed(d: Db, chain: nat)
    requires Valid(d) && chain in d.chains.rows && forall h: nat :: (chain, h) !in Contents(d)
    ensures var e := Step(d, Save(chain, 1, [Tx("a", []), Tx("b", [])], k => false));
            && Valid(e)
            && var rows, reading := Shown(Contents(e), chain), Reading(false, 1, i => false);
            && rows == [TxResult(1, "a"), TxResult(1, "b")]
            && Readable(|Delivered(rows, reading)|, reading) && Delivered(rows, reading) == [TxResult(1, "a")]
  {
    hide Unique, UniqueTests, UniqueChains, References, Bounded, Contents, Step;
    var op := Save(chain, 1, [Tx("a", []), Tx("b", [])], k => false);
    assert CanSave(d, chain, op.txs, op.fails);
    StepRefines(d, op);
    OnlyBlockShown(Contents(d), chain, 1, op.txs);
  }

  lemma OnlyBlockShown(l: Ledger, chain: nat, height: nat, txs: seq<Tx>)
    requires forall h: nat :: (chain, h) !in l
    ensures Shown(l[(chain, height) := txs], chain) == Show(height, txs)
  {
    var m := l[(chain, height) := txs];
    ShownBelow(m, chain, height + 1);
    NoRowsBelow(m, chain, height);
  }

  lemma {:induction false} NoRowsBelow(l: Ledger, chain: nat, n: nat)
    requires forall h: nat :: h < n ==> (chain, h) !in l
    ensures LedgerRows(l, chain, n) == []
  {
    if n == 0 {
    } else {
      NoRowsBelow(l, chain, n - 1);
    }
  }

  function SavedRows(saves: seq<Op>, chain: nat, n: nat): seq<TxResult>
  {
    if n == 0 then []
    else SavedRows(saves, chain, n - 1) +
         match LastSave(saves, (chain, n - 1)) case Some(txs) => Show(n - 1, txs) case None => []
  }

  lemma {:induction false} SavedRowsAre(l: Ledger, saves: seq<Op>, chain: nat, n: nat)
    requires StoresLast(map[], l, saves)
    ensures LedgerRows(l, chain, n) == SavedRows(saves, chain, n)
  {
    if n == 0 {
    } else {
      SavedRowsAre(l, saves, chain, n - 1);
      assert LastSave(saves, (chain, n - 1)).Some? <==> (chain, n - 1) in l;
    }
  }

  lemma {:induction false} LastSaveFound(saves: seq<Op>, key: (nat, nat))
    requires LastSave(saves, key).Some?
    ensures exists s :: s in saves && s.Save? && (s.chain, s.height) == key
  {
    var s := saves[|saves| - 1];
    assert s in saves;
    if !(s.Save? && (s.chain, s.height) == key) {
      LastSaveFound(saves[..|saves| - 1], key);
    }
  }

  lemma EmptyIsValid()
    ensures Valid(EMPTY) && Contents(EMPTY) == map[]
  {
  }
}
