/** The ordered join of `Transactions` and the aggregate view `v_tx_agg`, against the ledger. */
module Queries {
  import opened Collections
  import opened Tables
  import opened BlockSchema

  datatype TxResult = TxResult(height: nat, tx: string)

  // ---------------------------------------------------------------- the ledger's answer

  function Show(height: nat, txs: seq<Tx>): (r: seq<TxResult>)
    ensures |r| == |txs|
  {
    seq(|txs|, i requires 0 <= i < |txs| => TxResult(height, txs[i].data))
  }

  /** The transactions a ledger holds for a chain, heights below n ascending. */
  function LedgerRows(l: Ledger, chain: nat, n: nat): seq<TxResult>
  {
    if n == 0 then []
    else LedgerRows(l, chain, n - 1) + if (chain, n - 1) in l then Show(n - 1, l[(chain, n - 1)]) else []
  }

  ghost predicate HeightsBelow(l: Ledger, chain: nat, n: nat)
  {
    forall h :: (chain, h) in l ==> h < n
  }

  /** Some height above all that a ledger has. */
  ghost function Above(l: Ledger): (n: nat)
    ensures forall key :: key in l ==> key.1 < n
  {
    AboveExists(l.Keys);
    var n: nat :| IsAbove(l.Keys, n);
    n
  }

  ghost predicate IsAbove(keys: set<(nat, nat)>, n: nat)
  {
    forall key :: key in keys ==> key.1 < n
  }

  lemma {:induction false} AboveExists(keys: set<(nat, nat)>)
    ensures exists n: nat :: IsAbove(keys, n)
  {
    if keys == {} {
      assert IsAbove(keys, 0);
    } else {
      var key: (nat, nat) :| key in keys;
      AboveExists(keys - {key});
      var n: nat :| IsAbove(keys - {key}, n);
      assert IsAbove(keys, if key.1 < n then n else key.1 + 1);
    }
  }

  /** All transactions that a ledger holds for a chain, by ascending height. */
  ghost function Shown(l: Ledger, chain: nat): seq<TxResult>
  {
    LedgerRows(l, chain, Above(l))
  }

  /** The bound does not matter: there are no rows above the heights stored. */
  lemma ShownBelow(l: Ledger, chain: nat, n: nat)
    requires HeightsBelow(l, chain, n)
    ensures LedgerRows(l, chain, n) == Shown(l, chain)
  {
    if n <= Above(l) { NoRowsAbove(l, chain, n, Above(l)); } else { NoRowsAbove(l, chain, Above(l), n); }
  }

  lemma {:induction false} NoRowsAbove(l: Ledger, chain: nat, n: nat, m: nat)
    requires n <= m && HeightsBelow(l, chain, n)
    ensures LedgerRows(l, chain, m) == LedgerRows(l, chain, n)
  {
    if n == m {
    } else {
      NoRowsAbove(l, chain, n, m - 1);
    }
  }

  /** The rows of one height. */
  function AtHeight(h: nat): TxResult -> bool
  {
    (r: TxResult) => r.height == h
  }

  /** What is shown, height by height: the data of each transaction stored there, in order, and
      nothing where nothing is stored. */
  lemma ShownAtHeight(l: Ledger, chain: nat, h: nat)
    ensures var rows := Filter(Shown(l, chain), AtHeight(h));
            && ((chain, h) !in l ==> rows == [])
            && ((chain, h) in l ==>
                  |rows| == |l[(chain, h)]|
                  && forall i :: 0 <= i < |rows| ==> rows[i].height == h && rows[i].tx == l[(chain, h)][i].data)
  {
    RowsAtHeight(l, chain, Above(l), h);
  }

  lemma {:induction false} RowsAtHeight(l: Ledger, chain: nat, n: nat, h: nat)
    ensures Filter(LedgerRows(l, chain, n), AtHeight(h)) ==
            if h < n && (chain, h) in l then Show(h, l[(chain, h)]) else []
  {
    if n == 0 {
    } else {
      var here := if (chain, n - 1) in l then Show(n - 1, l[(chain, n - 1)]) else [];
      RowsAtHeight(l, chain, n - 1, h);
      FilterAppend(LedgerRows(l, chain, n - 1), here, AtHeight(h));
      if n - 1 == h { FilterAll(here, AtHeight(h)); } else { FilterNone(here, AtHeight(h)); }
    }
  }

  ghost predicate HeightsAscend(rows: seq<TxResult>)
  {
    forall i, j :: 0 <= i < j < |rows| ==> rows[i].height <= rows[j].height
  }

  ghost predicate BelowHeight(rows: seq<TxResult>, n: nat)
  {
    forall i :: 0 <= i < |rows| ==> rows[i].height < n
  }

  /** And the heights ascend. */
  lemma ShownAscends(l: Ledger, chain: nat)
    ensures HeightsAscend(Shown(l, chain))
  {
    RowsAscend(l, chain, Above(l));
  }

  lemma {:induction false} RowsAscend(l: Ledger, chain: nat, n: nat)
    ensures BelowHeight(LedgerRows(l, chain, n), n) && HeightsAscend(LedgerRows(l, chain, n))
  {
    if n == 0 {
    } else {
      RowsAscend(l, chain, n - 1);
    }
  }

  // ---------------------------------------------------------------- the SQL's answer

  ghost predicate OnChain(d: Db, chain: nat, tx: nat)
  {
    && tx in d.txs.rows && d.txs.rows[tx].parent in d.blocks.rows
    && d.blocks.rows[d.txs.rows[tx].parent].parent == chain
  }

  function HeightOf(d: Db, tx: nat): nat
  {
    if tx in d.txs.rows && d.txs.rows[tx].parent in d.blocks.rows then d.blocks.rows[d.txs.rows[tx].parent].val
    else 0
  }

  /** ORDER BY block.height ASC, tx.id ASC */
  ghost predicate Ordered(d: Db, x: nat, y: nat)
  {
    HeightOf(d, x) < HeightOf(d, y) || (HeightOf(d, x) == HeightOf(d, y) && x < y)
  }

  /** The tx ids of the rows that the query returns: the inner join for the chain, ordered. */
  ghost predicate IsResult(d: Db, chain: nat, ids: seq<nat>)
  {
    && (forall x :: x in ids <==> OnChain(d, chain, x))
    && (forall i, j :: 0 <= i < j < |ids| ==> Ordered(d, ids[i], ids[j]))
  }

  /** The query has one answer, whatever plan computes it. */
  lemma {:induction false} ResultUnique(d: Db, a: seq<nat>, b: seq<nat>)
    requires forall x :: x in a <==> x in b
    requires forall i, j :: 0 <= i < j < |a| ==> Ordered(d, a[i], a[j])
    requires forall i, j :: 0 <= i < j < |b| ==> Ordered(d, b[i], b[j])
    ensures a == b
  {
    hide HeightOf;
    if b != [] { assert b[0] in a; }
    if a == [] {
    } else {
      assert a[0] in b;
      assert b[0] in a;
      assert a[0] == b[0];
      var at, bt := a[1..], b[1..];
      forall x
        ensures x in at <==> x in bt
      {
        assert x in at ==> x in a && x != a[0];
        assert x in bt ==> x in b && x != b[0];
        assert x in a ==> x == a[0] || x in at;
        assert x in b ==> x == b[0] || x in bt;
      }
      ResultUnique(d, at, bt);
    }
  }

  /** The same ids, gathered height by height. */
  ghost function IdsBelow(d: Db, chain: nat, n: nat): seq<nat>
    requires Unique(d.blocks)
  {
    if n == 0 then []
    else IdsBelow(d, chain, n - 1) +
         if (chain, n - 1) in Contents(d) then Select(d.txs, StoredBy(d, (chain, n - 1)), Id()) else []
  }

  function DataOf(d: Db, tx: nat): string
  {
    if tx in d.txs.rows then d.txs.rows[tx].val else ""
  }

  function RowsOf(d: Db, ids: seq<nat>): (r: seq<TxResult>)
    ensures |r| == |ids|
  {
    seq(|ids|, i requires 0 <= i < |ids| => TxResult(HeightOf(d, ids[i]), DataOf(d, ids[i])))
  }

  /** The ids of one block: what they are, their order, and the rows they give. */
  lemma BlockIds(d: Db, b: nat)
    requires Valid(d) && b in d.blocks.rows
    ensures var ids := Select(d.txs, b, Id());
            && Ascending(ids)
            && (forall x :: x in ids <==> x in d.txs.rows && d.txs.rows[x].parent == b)
            && RowsOf(d, ids) == Show(d.blocks.rows[b].val, LoadTxs(d, b))
  {
    hide LoadEvents;
    GatherIds(d.txs.rows, b, d.txs.last);
    GatherShown(d.txs.rows, b, d.txs.last, ShowTx(d));
  }

  lemma {:induction false} IdsBelowShape(d: Db, chain: nat, n: nat)
    requires Valid(d) && Unique(d.blocks)
    ensures var ids := IdsBelow(d, chain, n);
            && (forall x :: x in ids <==> OnChain(d, chain, x) && HeightOf(d, x) < n)
            && (forall i, j :: 0 <= i < j < |ids| ==> Ordered(d, ids[i], ids[j]))
            && RowsOf(d, ids) == LedgerRows(Contents(d), chain, n)
  {
    hide LoadTxs, Contents, Select, Valid, OnChain, HeightOf;
    if n == 0 {
    } else {
      var h := n - 1;
      IdsBelowShape(d, chain, h);
      if (chain, h) in Contents(d) {
        var b := StoredBy(d, (chain, h));
        StoredAs(d, b);
        BlockIds(d, b);
        OnlyBlock(d, chain, h, b);
        var init, ids := IdsBelow(d, chain, h), Select(d.txs, b, Id());
        assert RowsOf(d, init + ids) == RowsOf(d, init) + RowsOf(d, ids);
      } else {
        NoBlock(d, chain, h);
      }
    }
  }

  lemma OnlyBlock(d: Db, chain: nat, height: nat, b: nat)
    requires Valid(d) && b in d.blocks.rows && d.blocks.rows[b] == Row(chain, height)
    ensures forall x :: OnChain(d, chain, x) && HeightOf(d, x) == height <==>
                        x in d.txs.rows && d.txs.rows[x].parent == b
  {
  }

  lemma NoBlock(d: Db, chain: nat, height: nat)
    requires Valid(d) && (chain, height) !in Contents(d)
    ensures forall x :: OnChain(d, chain, x) ==> HeightOf(d, x) != height
  {
    hide Contents;
    forall x | OnChain(d, chain, x)
      ensures HeightOf(d, x) != height
    {
      StoredAs(d, d.txs.rows[x].parent);
    }
  }

  /** The ordered join is the ledger read by ascending height: any answer to the query shows,
      for each height, the list stored there, in its own order. */
  lemma ResultIsLedger(d: Db, chain: nat, ids: seq<nat>, n: nat)
    requires Valid(d) && IsResult(d, chain, ids) && HeightsBelow(Contents(d), chain, n)
    ensures RowsOf(d, ids) == LedgerRows(Contents(d), chain, n)
  {
    hide Contents, Ordered;
    IdsBelowShape(d, chain, n);
    AllBelow(d, chain, n);
    ResultUnique(d, ids, IdsBelow(d, chain, n));
  }

  /** There always is an answer. */
  lemma ResultExists(d: Db, chain: nat) returns (ids: seq<nat>)
    requires Valid(d)
    ensures IsResult(d, chain, ids)
  {
    hide Contents, Ordered, OnChain;
    var n := Above(Contents(d));
    ids := IdsBelow(d, chain, n);
    IdsBelowShape(d, chain, n);
    AllBelow(d, chain, n);
  }

  lemma AllBelow(d: Db, chain: nat, n: nat)
    requires Valid(d) && HeightsBelow(Contents(d), chain, n)
    ensures forall x :: OnChain(d, chain, x) ==> HeightOf(d, x) < n
  {
    hide Contents;
    forall x | OnChain(d, chain, x)
      ensures HeightOf(d, x) < n
    {
      StoredAs(d, d.txs.rows[x].parent);
    }
  }

  // ---------------------------------------------------------------- the aggregate view

  /** A row of the left joins test_case, chain, block, tx; the missing side of a join is None. */
  datatype Joined = Joined(test: nat, chain: Option<nat>, height: Option<nat>, tx: Option<nat>)

  function BlockRows(d: Db, test: nat, chain: nat, block: nat): seq<Joined>
  {
    var h := if block in d.blocks.rows then Some(d.blocks.rows[block].val) else None;
    var ids := Select(d.txs, block, Id());
    if ids == [] then [Joined(test, Some(chain), h, None)]
    else seq(|ids|, i requires 0 <= i < |ids| => Joined(test, Some(chain), h, Some(ids[i])))
  }

  function ChainRows(d: Db, test: nat, chain: nat): seq<Joined>
  {
    var blocks := Select(d.blocks, chain, Id());
    if blocks == [] then [Joined(test, Some(chain), None, None)]
    else Flatten(blocks, ChainPart(d, test, chain))
  }

  function ChainPart(d: Db, test: nat, chain: nat): nat -> seq<Joined>
  {
    (block: nat) => BlockRows(d, test, chain, block)
  }

  function TestRows(d: Db, test: nat): seq<Joined>
  {
    var chains := Select(d.chains, test, Id());
    if chains == [] then [Joined(test, None, None, None)]
    else Flatten(chains, TestPart(d, test))
  }

  function TestPart(d: Db, test: nat): nat -> seq<Joined>
  {
    (chain: nat) => ChainRows(d, test, chain)
  }

  /** FROM test_case LEFT JOIN chain LEFT JOIN block LEFT JOIN tx */
  function AllRows(d: Db): seq<Joined>
  {
    Flatten(TestIds(d, d.tests.last), AllPart(d))
  }

  function TestIds(d: Db, n: nat): seq<nat>
  {
    if n == 0 then [] else TestIds(d, n - 1) + if n in d.tests.rows then [n] else []
  }

  function AllPart(d: Db): nat -> seq<Joined>
  {
    (test: nat) => TestRows(d, test)
  }

  /** GROUP BY test_case.id, chain.id */
  function InGroup(test: nat, chain: nat): Joined -> bool
  {
    (r: Joined) => r.test == test && r.chain == Some(chain)
  }

  function Group(d: Db, test: nat, chain: nat): seq<Joined>
  {
    Filter(AllRows(d), InGroup(test, chain))
  }

  /** MAX(COALESCE(block.height, 0)) */
  function MaxHeight(rows: seq<Joined>): nat
  {
    if rows == [] then 0
    else
      var h, m := if rows[0].height.Some? then rows[0].height.value else 0, MaxHeight(rows[1..]);
      if h > m then h else m
  }

  /** COUNT(tx.data) counts the rows that have a transaction. */
  function TxsOf(rows: seq<Joined>): seq<nat>
  {
    if rows == [] then []
    else (if rows[0].tx.Some? then [rows[0].tx.value] else []) + TxsOf(rows[1..])
  }

  function TxTotal(rows: seq<Joined>): nat
  {
    |TxsOf(rows)|
  }

  // What the joins hold, from the inside out.

  lemma BlockRowsShape(d: Db, test: nat, chain: nat, block: nat)
    ensures var rows := BlockRows(d, test, chain, block);
            && (forall r :: r in rows ==> r.test == test && r.chain == Some(chain))
            && TxsOf(rows) == Select(d.txs, block, Id())
            && (block in d.blocks.rows ==> MaxHeight(rows) == d.blocks.rows[block].val)
  {
    var ids := Select(d.txs, block, Id());
    var h := if block in d.blocks.rows then Some(d.blocks.rows[block].val) else None;
    if ids == [] {
      assert BlockRows(d, test, chain, block)[1..] == [];
    } else {
      TxsOfMapped(test, chain, h, ids);
    }
  }

  lemma {:induction false} TxsOfMapped(test: nat, chain: nat, h: Option<nat>, ids: seq<nat>)
    ensures var rows := seq(|ids|, i requires 0 <= i < |ids| => Joined(test, Some(chain), h, Some(ids[i])));
            TxsOf(rows) == ids && (ids != [] ==> MaxHeight(rows) == if h.Some? then h.value else 0)
  {
    if ids == [] {
    } else {
      var rows := seq(|ids|, i requires 0 <= i < |ids| => Joined(test, Some(chain), h, Some(ids[i])));
      var rest := ids[1..];
      TxsOfMapped(test, chain, h, rest);
      assert rows[1..] == seq(|rest|, i requires 0 <= i < |rest| => Joined(test, Some(chain), h, Some(rest[i])));
    }
  }

  lemma {:induction false} TxsAppend(a: seq<Joined>, b: seq<Joined>)
    ensures TxsOf(a + b) == TxsOf(a) + TxsOf(b)
  {
    if a == [] {
      assert a + b == b;
    } else {
      assert (a + b)[1..] == a[1..] + b;
      TxsAppend(a[1..], b);
      var head := if a[0].tx.Some? then [a[0].tx.value] else [];
      assert head + (TxsOf(a[1..]) + TxsOf(b)) == head + TxsOf(a[1..]) + TxsOf(b);
    }
  }

  lemma {:induction false} MaxAppend(a: seq<Joined>, b: seq<Joined>)
    ensures MaxHeight(a + b) == if MaxHeight(a) > MaxHeight(b) then MaxHeight(a) else MaxHeight(b)
  {
    if a == [] {
      assert a + b == b;
    } else {
      assert (a + b)[1..] == a[1..] + b;
      MaxAppend(a[1..], b);
    }
  }

  /** Every transaction of the blocks occurs once in the rows, and nothing else does. */
  ghost predicate ListsTxs(d: Db, blocks: seq<nat>, rows: seq<Joined>)
  {
    && Distinct(TxsOf(rows))
    && forall x :: x in TxsOf(rows) <==> x in d.txs.rows && d.txs.rows[x].parent in blocks
  }

  ghost predicate TopHeight(d: Db, blocks: seq<nat>, m: nat)
  {
    && (forall b :: b in blocks ==> b in d.blocks.rows && d.blocks.rows[b].val <= m)
    && if blocks == [] then m == 0 else exists b :: b in blocks && d.blocks.rows[b].val == m
  }

  ghost predicate Marked(test: nat, chain: nat, rows: seq<Joined>)
  {
    forall r :: r in rows ==> r.test == test && r.chain == Some(chain)
  }

  lemma MarkedBoth(test: nat, chain: nat, a: seq<Joined>, b: seq<Joined>)
    requires Marked(test, chain, a) && Marked(test, chain, b)
    ensures Marked(test, chain, a + b)
  {
  }

  lemma OneBlockShape(d: Db, test: nat, chain: nat, b: nat)
    requires Valid(d) && b in d.blocks.rows
    ensures var rows := BlockRows(d, test, chain, b);
            && Marked(test, chain, rows) && ListsTxs(d, [b], rows) && TopHeight(d, [b], MaxHeight(rows))
  {
    BlockRowsShape(d, test, chain, b);
    BlockIds(d, b);
    assert b in [b];
  }

  lemma ListsBoth(d: Db, b: nat, rest: seq<nat>, here: seq<Joined>, later: seq<Joined>)
    requires ListsTxs(d, [b], here) && ListsTxs(d, rest, later) && b !in rest
    ensures ListsTxs(d, [b] + rest, here + later)
  {
    TxsAppend(here, later);
    var s, t := TxsOf(here), TxsOf(later);
    assert forall x :: x in s ==> x !in t;
    assert Distinct(s + t) by {
      forall i, j | 0 <= i < j < |s + t|
        ensures (s + t)[i] != (s + t)[j]
      {
        if i < |s| && j >= |s| { assert s[i] in s && t[j - |s|] in t; }
      }
    }
  }

  lemma TopOfBoth(d: Db, b: nat, rest: seq<nat>, here: seq<Joined>, later: seq<Joined>)
    requires TopHeight(d, [b], MaxHeight(here)) && TopHeight(d, rest, MaxHeight(later))
    ensures TopHeight(d, [b] + rest, MaxHeight(here + later))
  {
    MaxAppend(here, later);
    assert b in [b] && b in [b] + rest;
    assert d.blocks.rows[b].val == MaxHeight(here);
    if rest != [] {
      var c :| c in rest && d.blocks.rows[c].val == MaxHeight(later);
      assert c in [b] + rest;
    }
  }

  /** The rows of some blocks of a chain: every transaction of theirs once, and their top height. */
  lemma {:induction false} BlocksShape(d: Db, test: nat, chain: nat, blocks: seq<nat>)
    requires Valid(d) && Ascending(blocks) && forall b :: b in blocks ==> b in d.blocks.rows
    ensures var rows := Flatten(blocks, ChainPart(d, test, chain));
            && Marked(test, chain, rows) && ListsTxs(d, blocks, rows) && TopHeight(d, blocks, MaxHeight(rows))
  {
    hide Valid, BlockRows, ListsTxs, TopHeight, Marked;
    if blocks == [] {
      NoBlocksShape(d, test, chain);
    } else {
      var b, rest := blocks[0], blocks[1..];
      var here, later := BlockRows(d, test, chain, b), Flatten(rest, ChainPart(d, test, chain));
      BlocksShape(d, test, chain, rest);
      OneBlockShape(d, test, chain, b);
      assert [b] + rest == blocks;
      MarkedBoth(test, chain, here, later);
      ListsBoth(d, b, rest, here, later);
      TopOfBoth(d, b, rest, here, later);
    }
  }

  lemma NoBlocksShape(d: Db, test: nat, chain: nat)
    ensures Marked(test, chain, []) && ListsTxs(d, [], []) && TopHeight(d, [], MaxHeight([]))
  {
  }

  lemma {:induction false} TestIdsShape(d: Db, n: nat)
    ensures Ascending(TestIds(d, n))
    ensures forall id :: id in TestIds(d, n) <==> 1 <= id <= n && id in d.tests.rows
  {
    if n == 0 {
    } else {
      TestIdsShape(d, n - 1);
      AscendingNext(TestIds(d, n - 1), n);
    }
  }

  lemma ChildIds<T>(t: Table<T>, p: nat)
    requires Bounded(t)
    ensures var ids := Select(t, p, Id());
            Ascending(ids) && forall id :: id in ids <==> id in t.rows && t.rows[id].parent == p
  {
    GatherIds(t.rows, p, t.last);
  }

  lemma ChainRowsMarked(d: Db, test: nat, chain: nat)
    requires Valid(d)
    ensures forall r :: r in ChainRows(d, test, chain) ==> r.test == test && r.chain == Some(chain)
  {
    ChildIds(d.blocks, chain);
    BlocksShape(d, test, chain, Select(d.blocks, chain, Id()));
  }

  lemma {:induction false} FlattenMarked(d: Db, test: nat, chains: seq<nat>)
    requires Valid(d)
    ensures forall r :: r in Flatten(chains, TestPart(d, test)) ==> r.test == test
  {
    if chains == [] {
    } else {
      ChainRowsMarked(d, test, chains[0]);
      FlattenMarked(d, test, chains[1..]);
    }
  }

  /** Grouping picks out of the whole join exactly the rows of the one chain. */
  lemma GroupIsChain(d: Db, test: nat, chain: nat)
    requires Valid(d) && chain in d.chains.rows && d.chains.rows[chain].parent == test
    ensures Group(d, test, chain) == ChainRows(d, test, chain)
  {
    hide ChainRows;
    var p, chains := InGroup(test, chain), Select(d.chains, test, Id());
    TestIdsShape(d, d.tests.last);
    ChildIds(d.chains, test);
    forall id, r | id in TestIds(d, d.tests.last) && id != test && r in AllPart(d)(id)
      ensures !p(r)
    {
      FlattenMarked(d, id, Select(d.chains, id, Id()));
    }
    FilterFlatten(TestIds(d, d.tests.last), AllPart(d), p, test);
    forall id, r | id in chains && id != chain && r in TestPart(d, test)(id)
      ensures !p(r)
    {
      ChainRowsMarked(d, test, id);
    }
    FilterFlatten(chains, TestPart(d, test), p, chain);
    ChainRowsMarked(d, test, chain);
    FilterAll(ChainRows(d, test, chain), p);
  }

  /** For every chain the view reports the top height saved, zero if none, and as many
      transactions as `Transactions` returns, although its left joins repeat each block for
      each of its transactions. */
  lemma AggregateIsLedger(d: Db, test: nat, chain: nat, n: nat)
    requires Valid(d) && chain in d.chains.rows && d.chains.rows[chain].parent == test
    requires HeightsBelow(Contents(d), chain, n)
    ensures var rows, l := Group(d, test, chain), Contents(d);
            && TxTotal(rows) == |LedgerRows(l, chain, n)|
            && (forall h :: (chain, h) in l ==> h <= MaxHeight(rows))
            && ((chain, MaxHeight(rows)) in l || (MaxHeight(rows) == 0 && forall h :: (chain, h) !in l))
  {
    hide Contents, Group;
    GroupIsChain(d, test, chain);
    ChainTotals(d, test, chain);
    IdsBelowShape(d, chain, n);
    AllBelow(d, chain, n);
    OrderedDistinct(d, IdsBelow(d, chain, n));
    SameLength(TxsOf(ChainRows(d, test, chain)), IdsBelow(d, chain, n));
    HeightsAre(d, chain);
  }

  lemma OrderedDistinct(d: Db, ids: seq<nat>)
    requires forall i, j :: 0 <= i < j < |ids| ==> Ordered(d, ids[i], ids[j])
    ensures Distinct(ids)
  {
  }

  lemma HeightsAre(d: Db, chain: nat)
    requires Valid(d)
    ensures forall h :: (chain, h) in Contents(d) <==>
                        exists b :: b in d.blocks.rows && d.blocks.rows[b] == Row(chain, h)
  {
  }

  lemma ChainTotals(d: Db, test: nat, chain: nat)
    requires Valid(d)
    ensures var rows := ChainRows(d, test, chain);
            && Distinct(TxsOf(rows))
            && (forall x :: x in TxsOf(rows) <==> OnChain(d, chain, x))
            && (forall b :: b in d.blocks.rows && d.blocks.rows[b].parent == chain ==>
                  d.blocks.rows[b].val <= MaxHeight(rows))
            && ((exists b :: b in d.blocks.rows && d.blocks.rows[b] == Row(chain, MaxHeight(rows)))
                || (MaxHeight(rows) == 0 && forall b :: b in d.blocks.rows ==> d.blocks.rows[b].parent != chain))
  {
    var blocks := Select(d.blocks, chain, Id());
    ChildIds(d.blocks, chain);
    BlocksShape(d, test, chain, blocks);
    if blocks == [] {
      var rows := ChainRows(d, test, chain);
      assert rows[1..] == [];
    }
  }

  // ---------------------------------------------------------------- recent test cases

  /** The binary order of texts. */
  predicate TextLess(a: string, b: string)
  {
    b != "" && (a == "" || a[0] < b[0] || (a[0] == b[0] && TextLess(a[1..], b[1..])))
  }

  lemma {:induction false} TextOrder(a: string, b: string)
    ensures a != b ==> (TextLess(a, b) <==> !TextLess(b, a))
    ensures !TextLess(a, a)
  {
    if a == "" {
    } else {
      TextOrder(a[1..], a[1..]);
      if b != "" {
        TextOrder(a[1..], b[1..]);
        assert a[0] == b[0] && a[1..] == b[1..] ==> a == [a[0]] + a[1..] == [b[0]] + b[1..] == b;
      }
    }
  }

  /** ORDER BY test_case_id DESC, chain_id ASC */
  ghost predicate MoreRecent(d: Db, x: nat, y: nat)
  {
    x in d.chains.rows && y in d.chains.rows &&
    var a, b := d.chains.rows[x], d.chains.rows[y];
    a.parent > b.parent || (a.parent == b.parent && TextLess(a.val.chainId, b.val.chainId))
  }

  /** All chains in that order; what LIMIT cuts off comes last. */
  ghost predicate IsRecent(d: Db, chains: seq<nat>)
  {
    && (forall x :: x in chains <==> x in d.chains.rows)
    && (forall i, j :: 0 <= i < j < |chains| ==> MoreRecent(d, chains[i], chains[j]))
  }

  /** No two chains tie: within one test case the chain ids differ. */
  lemma NoTies(d: Db, x: nat, y: nat)
    requires Valid(d) && x in d.chains.rows && y in d.chains.rows
    ensures x != y ==> (MoreRecent(d, x, y) <==> !MoreRecent(d, y, x))
    ensures !MoreRecent(d, x, x)
  {
    TextOrder(d.chains.rows[x].val.chainId, d.chains.rows[y].val.chainId);
    TextOrder(d.chains.rows[x].val.chainId, d.chains.rows[x].val.chainId);
  }

  /** One text is below another when it is a proper beginning of it, or has the smaller character
      where they first differ. */
  lemma {:induction false} TextLessIff(a: string, b: string)
    ensures TextLess(a, b) <==>
            exists n :: 0 <= n <= |a| && n < |b| && a[..n] == b[..n] && (n == |a| || a[n] < b[n])
  {
    if b == "" {
    } else if a == "" {
      assert a[..0] == b[..0];
    } else {
      TextLessIff(a[1..], b[1..]);
      if a[0] == b[0] {
        if n :| 0 <= n <= |a[1..]| && n < |b[1..]| && a[1..][..n] == b[1..][..n]
                && (n == |a[1..]| || a[1..][n] < b[1..][n]) {
          assert a[..n + 1] == [a[0]] + a[1..][..n] == b[..n + 1];
        }
        if n :| 0 <= n <= |a| && n < |b| && a[..n] == b[..n] && (n == |a| || a[n] < b[n]) {
          assert n > 0;
          assert a[1..][..n - 1] == a[..n][1..] == b[1..][..n - 1];
        }
      } else {
        assert a[..0] == b[..0];
        assert forall n :: 0 < n <= |a| && n < |b| ==> a[..n][0] != b[..n][0];
      }
    }
  }

  lemma {:induction false} TextTransitive(a: string, b: string, c: string)
    requires TextLess(a, b) && TextLess(b, c)
    ensures TextLess(a, c)
  {
    if a != "" && a[0] == b[0] == c[0] { TextTransitive(a[1..], b[1..], c[1..]); }
  }

  lemma MoreRecentTransitive(d: Db, x: nat, y: nat, z: nat)
    requires MoreRecent(d, x, y) && MoreRecent(d, y, z)
    ensures MoreRecent(d, x, z)
  {
    var a, b, c := d.chains.rows[x], d.chains.rows[y], d.chains.rows[z];
    if a.parent == b.parent == c.parent { TextTransitive(a.val.chainId, b.val.chainId, c.val.chainId); }
  }

  /** So there always is an answer, */
  lemma RecentExists(d: Db) returns (chains: seq<nat>)
    requires Valid(d)
    ensures IsRecent(d, chains)
  {
    hide Valid;
    chains := SortRecent(d, d.chains.rows.Keys);
  }

  ghost predicate RecentOrder(d: Db, chains: seq<nat>, ids: set<nat>)
  {
    && (forall x :: x in chains <==> x in ids)
    && (forall i, j :: 0 <= i < j < |chains| ==> MoreRecent(d, chains[i], chains[j]))
  }

  lemma {:induction false} SortRecent(d: Db, ids: set<nat>) returns (chains: seq<nat>)
    requires Valid(d) && ids <= d.chains.rows.Keys
    ensures RecentOrder(d, chains, ids)
    decreases ids
  {
    hide Valid;
    chains := [];
    if ids == {} {
    } else {
      var x :| x in ids;
      var rest := SortRecent(d, ids - {x});
      chains := InsertRecent(d, rest, x, ids - {x});
      assert ids - {x} + {x} == ids;
    }
  }

  lemma {:induction false} InsertRecent(d: Db, chains: seq<nat>, x: nat, ids: set<nat>) returns (more: seq<nat>)
    requires Valid(d) && RecentOrder(d, chains, ids) && ids <= d.chains.rows.Keys
    requires x in d.chains.rows && x !in ids
    ensures RecentOrder(d, more, ids + {x})
    decreases chains
  {
    hide Valid, MoreRecent;
    if chains == [] {
      more := [x];
    } else {
      var y := chains[0];
      assert y in chains;
      NoTies(d, x, y);
      if MoreRecent(d, x, y) {
        more := [x] + chains;
        forall j | 0 <= j < |chains| ensures MoreRecent(d, x, chains[j]) {
          if j > 0 { MoreRecentTransitive(d, x, y, chains[j]); }
        }
      } else {
        TailOrder(d, chains, ids);
        var rest := InsertRecent(d, chains[1..], x, ids - {y});
        more := [y] + rest;
        forall z | z in rest ensures MoreRecent(d, y, z) {
          if z != x { assert z in chains[1..]; }
        }
        assert ids - {y} + {x} + {y} == ids + {x};
      }
    }
  }

  lemma TailOrder(d: Db, chains: seq<nat>, ids: set<nat>)
    requires Valid(d) && chains != [] && RecentOrder(d, chains, ids) && ids <= d.chains.rows.Keys
    ensures RecentOrder(d, chains[1..], ids - {chains[0]})
    ensures forall z :: z in chains[1..] ==> MoreRecent(d, chains[0], z)
  {
    hide Valid, MoreRecent;
    assert forall x :: x in chains ==> x in d.chains.rows;
    Rest(d, chains);
  }

  /** and only one, also when it is cut off. */
  lemma RecentUnique(d: Db, a: seq<nat>, b: seq<nat>)
    requires Valid(d) && IsRecent(d, a) && IsRecent(d, b)
    ensures a == b
  {
    hide Valid;
    RecentSame(d, a, b);
  }

  lemma {:induction false} RecentSame(d: Db, a: seq<nat>, b: seq<nat>)
    requires Valid(d) && (forall x :: x in a <==> x in b) && (forall x :: x in a ==> x in d.chains.rows)
    requires forall i, j :: 0 <= i < j < |a| ==> MoreRecent(d, a[i], a[j])
    requires forall i, j :: 0 <= i < j < |b| ==> MoreRecent(d, b[i], b[j])
    ensures a == b
  {
    hide Valid, MoreRecent;
    if b != [] { assert b[0] in a; }
    if a == [] {
    } else {
      assert a[0] in a && a[0] in b;
      assert b[0] in b && b[0] in a;
      NoTies(d, a[0], b[0]);
      assert a[0] == b[0];
      Rest(d, a);
      Rest(d, b);
      RecentSame(d, a[1..], b[1..]);
    }
  }

  lemma Rest(d: Db, a: seq<nat>)
    requires Valid(d) && a != [] && forall x :: x in a ==> x in d.chains.rows
    requires forall i, j :: 0 <= i < j < |a| ==> MoreRecent(d, a[i], a[j])
    ensures forall x :: x in a[1..] <==> x in a && x != a[0]
  {
    hide Valid, MoreRecent;
    assert a[0] in a;
    NoTies(d, a[0], a[0]);
  }

  datatype TestCaseResult = TestCaseResult(test: nat, name: string, gitSha: string, createdAt: string,
                                           chain: nat, chainId: string, chainType: string, height: nat, txTotal: nat)

  /** The view's row for a chain. */
  function AggregateRow(d: Db, chain: nat): TestCaseResult
    requires chain in d.chains.rows && d.chains.rows[chain].parent in d.tests.rows
  {
    var c := d.chains.rows[chain];
    var t, rows := d.tests.rows[c.parent].val, Group(d, c.parent, chain);
    TestCaseResult(c.parent, t.name, t.gitSha, t.createdAt, chain, c.val.chainId, c.val.chainType,
                   MaxHeight(rows), TxTotal(rows))
  }
}
