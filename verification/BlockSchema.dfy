/** The block database: its six tables with their constraints, and the statements that
    change them. */
module BlockSchema {
  import opened Tables

  datatype Attr = Attr(key: string, value: string)
  datatype Event = Event(typ: string, attrs: seq<Attr>)
  datatype Tx = Tx(data: string, events: seq<Event>)

  datatype TestCase = TestCase(name: string, gitSha: string, createdAt: string)
  datatype ChainInfo = ChainInfo(chainId: string, chainType: string)

  /** A block's own column is its height, a tx's its data, an event's its type. */
  datatype Db = Db(
    tests: Table<TestCase>, chains: Table<ChainInfo>, blocks: Table<nat>,
    txs: Table<string>, events: Table<string>, attrs: Table<Attr>)

  const EMPTY: Db := Db(Empty(), Empty(), Empty(), Empty(), Empty(), Empty())

  // ---------------------------------------------------------------- constraints

  ghost predicate References<T, U>(child: Table<T>, parent: Table<U>)
  {
    forall id :: id in child.rows ==> child.rows[id].parent in parent.rows
  }

  /** No two rows agree on the parent and the columns: UNIQUE over all of them. */
  ghost predicate Unique<T>(t: Table<T>)
  {
    forall i, j :: i in t.rows && j in t.rows && t.rows[i] == t.rows[j] ==> i == j
  }

  /** UNIQUE(name, created_at) */
  ghost predicate UniqueTests(t: Table<TestCase>)
  {
    forall i, j | i in t.rows && j in t.rows && i != j ::
      t.rows[i].val.name != t.rows[j].val.name || t.rows[i].val.createdAt != t.rows[j].val.createdAt
  }

  /** UNIQUE(chain_id, fk_test_id) */
  ghost predicate UniqueChains(t: Table<ChainInfo>)
  {
    forall i, j | i in t.rows && j in t.rows && i != j ::
      t.rows[i].parent != t.rows[j].parent || t.rows[i].val.chainId != t.rows[j].val.chainId
  }

  ghost predicate Valid(d: Db)
  {
    && Bounded(d.tests) && Bounded(d.chains) && Bounded(d.blocks)
    && Bounded(d.txs) && Bounded(d.events) && Bounded(d.attrs)
    && UniqueTests(d.tests) && UniqueChains(d.chains) && Unique(d.blocks)
    && References(d.chains, d.tests) && References(d.blocks, d.chains) && References(d.txs, d.blocks)
    && References(d.events, d.txs) && References(d.attrs, d.events)
    && (forall id :: id in d.events.rows ==> d.events.rows[id].val != "")
    && (forall id :: id in d.attrs.rows ==> d.attrs.rows[id].val.key != "")
  }

  // ---------------------------------------------------------------- reading back

  function ShowAttr(): (nat, Attr) -> Attr
  {
    (id: nat, a: Attr) => a
  }

  function LoadAttrs(d: Db, event: nat): seq<Attr>
  {
    Select(d.attrs, event, ShowAttr())
  }

  function ShowEvent(d: Db): (nat, string) -> Event
  {
    (id: nat, typ: string) => Event(typ, LoadAttrs(d, id))
  }

  function LoadEvents(d: Db, tx: nat): seq<Event>
  {
    Select(d.events, tx, ShowEvent(d))
  }

  function ShowTx(d: Db): (nat, string) -> Tx
  {
    (id: nat, data: string) => Tx(data, LoadEvents(d, id))
  }

  /** The transactions of a block, with their events and attributes, in order of id. */
  function LoadTxs(d: Db, block: nat): seq<Tx>
  {
    Select(d.txs, block, ShowTx(d))
  }

  /** What a maintainer means by the database: the transactions stored for chain and height. */
  type Ledger = map<(nat, nat), seq<Tx>>

  ghost function Contents(d: Db): (l: Ledger)
    requires Unique(d.blocks)
  {
    map b | b in d.blocks.rows :: (d.blocks.rows[b].parent, d.blocks.rows[b].val) := LoadTxs(d, b)
  }

  // ---------------------------------------------------------------- statements

  function PutAttrs(d: Db, event: nat, attrs: seq<Attr>): Db
  {
    if attrs == [] then d
    else
      var d' := PutAttrs(d, event, attrs[..|attrs| - 1]);
      d'.(attrs := Insert(d'.attrs, event, attrs[|attrs| - 1]))
  }

  function PutEvent(d: Db, tx: nat, e: Event): Db
  {
    PutAttrs(d.(events := Insert(d.events, tx, e.typ)), d.events.last + 1, e.attrs)
  }

  function PutEvents(d: Db, tx: nat, events: seq<Event>): Db
  {
    if events == [] then d
    else PutEvent(PutEvents(d, tx, events[..|events| - 1]), tx, events[|events| - 1])
  }

  function PutTx(d: Db, block: nat, tx: Tx): Db
  {
    PutEvents(d.(txs := Insert(d.txs, block, tx.data)), d.txs.last + 1, tx.events)
  }

  function PutTxs(d: Db, block: nat, txs: seq<Tx>): Db
  {
    if txs == [] then d
    else PutTx(PutTxs(d, block, txs[..|txs| - 1]), block, txs[|txs| - 1])
  }

  /** Deleting blocks with everything that hangs on them. */
  function DeleteBlocks(d: Db, dead: set<nat>): Db
  {
    var deadTxs := Orphans(d.txs, dead);
    var deadEvents := Orphans(d.events, deadTxs);
    d.(blocks := Delete(d.blocks, dead), txs := Delete(d.txs, deadTxs),
       events := Delete(d.events, deadEvents), attrs := Delete(d.attrs, Orphans(d.attrs, deadEvents)))
  }

  function Conflicting(d: Db, chain: nat, height: nat): set<nat>
  {
    set b | b in d.blocks.rows && d.blocks.rows[b] == Row(chain, height)
  }

  /** INSERT OR REPLACE INTO block */
  function ReplaceBlock(d: Db, chain: nat, height: nat): Db
  {
    var d' := DeleteBlocks(d, Conflicting(d, chain, height));
    d'.(blocks := Insert(d'.blocks, chain, height))
  }

  /** The database after a save that went through. */
  function Saved(d: Db, chain: nat, height: nat, txs: seq<Tx>): Db
  {
    PutTxs(ReplaceBlock(d, chain, height), d.blocks.last + 1, txs)
  }

  predicate AcceptableEvent(e: Event)
  {
    e.typ != "" && forall a :: a in e.attrs ==> a.key != ""
  }

  predicate AcceptableEvents(events: seq<Event>)
  {
    forall e :: e in events ==> AcceptableEvent(e)
  }

  predicate AcceptableTx(tx: Tx)
  {
    AcceptableEvents(tx.events)
  }

  predicate Acceptable(txs: seq<Tx>)
  {
    forall tx :: tx in txs ==> AcceptableTx(tx)
  }

  // ---------------------------------------------------------------- what statements do

  /** All that a statement on lower tables may change for the tables above. */
  ghost predicate SameUpToTxs(d: Db, e: Db)
  {
    e.tests == d.tests && e.chains == d.chains && e.blocks == d.blocks
  }

  lemma AttrInserted(d: Db, event: nat, a: Attr)
    requires Valid(d) && event in d.events.rows && a.key != ""
    ensures var e := d.(attrs := Insert(d.attrs, event, a));
            && Valid(e)
            && (forall id :: LoadAttrs(e, id) == LoadAttrs(d, id) + if id == event then [a] else [])
  {
    forall id: nat
      ensures LoadAttrs(d.(attrs := Insert(d.attrs, event, a)), id) ==
              LoadAttrs(d, id) + if id == event then [a] else []
    {
      SelectInsert(d.attrs, event, a, id, ShowAttr());
    }
  }

  lemma {:induction false} AttrsPut(d: Db, event: nat, attrs: seq<Attr>)
    requires Valid(d) && event in d.events.rows && forall a :: a in attrs ==> a.key != ""
    ensures var e := PutAttrs(d, event, attrs);
            && Valid(e) && SameUpToTxs(d, e) && e.txs == d.txs && e.events == d.events
            && (forall id :: LoadAttrs(e, id) == LoadAttrs(d, id) + if id == event then attrs else [])
  {
    hide Valid, LoadAttrs, Insert;
    if attrs == [] {
    } else {
      var init, a := attrs[..|attrs| - 1], attrs[|attrs| - 1];
      AttrsPut(d, event, init);
      assert a in attrs && init + [a] == attrs;
      AttrInserted(PutAttrs(d, event, init), event, a);
    }
  }

  lemma EventInserted(d: Db, tx: nat, typ: string)
    requires Valid(d) && tx in d.txs.rows && typ != ""
    ensures var e, id := d.(events := Insert(d.events, tx, typ)), d.events.last + 1;
            && Valid(e) && Bounded(d.events) && id in e.events.rows && LoadAttrs(e, id) == []
            && (forall i :: LoadAttrs(e, i) == LoadAttrs(d, i))
  {
    hide UniqueTests, UniqueChains, Unique;
    assert forall a :: a in d.attrs.rows ==> d.attrs.rows[a].parent != d.events.last + 1;
    GatherNone(d.attrs.rows, d.events.last + 1, d.attrs.last, ShowAttr());
  }

  lemma EventPut(d: Db, tx: nat, ev: Event)
    requires Valid(d) && tx in d.txs.rows && AcceptableEvent(ev)
    ensures var e := PutEvent(d, tx, ev);
            && Valid(e) && SameUpToTxs(d, e) && e.txs == d.txs
            && (forall id :: LoadEvents(e, id) == LoadEvents(d, id) + if id == tx then [ev] else [])
  {
    hide Valid, LoadAttrs, PutAttrs;
    var eventId := d.events.last + 1;
    var d' := d.(events := Insert(d.events, tx, ev.typ));
    var e := PutEvent(d, tx, ev);
    EventInserted(d, tx, ev.typ);
    AttrsPut(d', eventId, ev.attrs);
    EventShown(d, e, tx, ev);
  }

  lemma EventShown(d: Db, e: Db, tx: nat, ev: Event)
    requires Bounded(d.events) && e.events == Insert(d.events, tx, ev.typ)
    requires LoadAttrs(e, d.events.last + 1) == ev.attrs
    requires forall id :: id != d.events.last + 1 ==> LoadAttrs(e, id) == LoadAttrs(d, id)
    ensures forall id :: LoadEvents(e, id) == LoadEvents(d, id) + if id == tx then [ev] else []
  {
    hide LoadAttrs;
    forall id: nat
      ensures LoadEvents(e, id) == LoadEvents(d, id) + if id == tx then [ev] else []
    {
      SelectInsert(d.events, tx, ev.typ, id, ShowEvent(e));
      GatherSame(d.events.rows, d.events.rows, id, d.events.last, ShowEvent(e), ShowEvent(d));
    }
  }

  lemma {:induction false} EventsPut(d: Db, tx: nat, events: seq<Event>)
    requires Valid(d) && tx in d.txs.rows && AcceptableEvents(events)
    ensures var e := PutEvents(d, tx, events);
            && Valid(e) && SameUpToTxs(d, e) && e.txs == d.txs
            && (forall id :: LoadEvents(e, id) == LoadEvents(d, id) + if id == tx then events else [])
  {
    hide Valid, LoadEvents, PutEvent, AcceptableEvent;
    if events == [] {
    } else {
      var init, ev := events[..|events| - 1], events[|events| - 1];
      EventsPut(d, tx, init);
      assert ev in events && init + [ev] == events;
      EventPut(PutEvents(d, tx, init), tx, ev);
    }
  }

  lemma TxInserted(d: Db, block: nat, data: string)
    requires Valid(d) && block in d.blocks.rows
    ensures var e, id := d.(txs := Insert(d.txs, block, data)), d.txs.last + 1;
            && Valid(e) && Bounded(d.txs) && id in e.txs.rows && LoadEvents(e, id) == []
            && (forall i :: LoadEvents(e, i) == LoadEvents(d, i))
  {
    hide UniqueTests, UniqueChains, Unique;
    var e := d.(txs := Insert(d.txs, block, data));
    assert forall id :: id in d.events.rows ==> d.events.rows[id].parent != d.txs.last + 1;
    GatherNone(d.events.rows, d.txs.last + 1, d.events.last, ShowEvent(e));
    EventsUnaffected(d, e);
  }

  lemma TxPut(d: Db, block: nat, tx: Tx)
    requires Valid(d) && block in d.blocks.rows && AcceptableTx(tx)
    ensures var e := PutTx(d, block, tx);
            && Valid(e) && SameUpToTxs(d, e)
            && (forall id :: LoadTxs(e, id) == LoadTxs(d, id) + if id == block then [tx] else [])
  {
    hide Valid, LoadEvents, PutEvents, AcceptableEvents;
    var txId := d.txs.last + 1;
    var d' := d.(txs := Insert(d.txs, block, tx.data));
    TxInserted(d, block, tx.data);
    EventsPut(d', txId, tx.events);
    TxShown(d, PutTx(d, block, tx), block, tx);
  }

  lemma TxShown(d: Db, e: Db, block: nat, tx: Tx)
    requires Bounded(d.txs) && e.txs == Insert(d.txs, block, tx.data)
    requires LoadEvents(e, d.txs.last + 1) == tx.events
    requires forall id :: id != d.txs.last + 1 ==> LoadEvents(e, id) == LoadEvents(d, id)
    ensures forall id :: LoadTxs(e, id) == LoadTxs(d, id) + if id == block then [tx] else []
  {
    hide LoadEvents;
    forall id: nat
      ensures LoadTxs(e, id) == LoadTxs(d, id) + if id == block then [tx] else []
    {
      SelectInsert(d.txs, block, tx.data, id, ShowTx(e));
      GatherSame(d.txs.rows, d.txs.rows, id, d.txs.last, ShowTx(e), ShowTx(d));
    }
  }

  /** Events are read from the event and attribute tables alone. */
  lemma EventsUnaffected(d: Db, e: Db)
    requires e.events == d.events && e.attrs == d.attrs
    ensures forall id :: LoadEvents(e, id) == LoadEvents(d, id)
  {
    forall id
      ensures LoadEvents(e, id) == LoadEvents(d, id)
    {
      GatherSame(d.events.rows, d.events.rows, id, d.events.last, ShowEvent(e), ShowEvent(d));
    }
  }

  lemma {:induction false} TxsPut(d: Db, block: nat, txs: seq<Tx>)
    requires Valid(d) && block in d.blocks.rows && Acceptable(txs)
    ensures var e := PutTxs(d, block, txs);
            && Valid(e) && SameUpToTxs(d, e)
            && (forall id :: LoadTxs(e, id) == LoadTxs(d, id) + if id == block then txs else [])
  {
    hide Valid, LoadTxs, PutTx, AcceptableTx;
    if txs == [] {
    } else {
      var init, tx := txs[..|txs| - 1], txs[|txs| - 1];
      TxsPut(d, block, init);
      assert tx in txs && init + [tx] == txs;
      TxPut(PutTxs(d, block, init), block, tx);
    }
  }

  // ---------------------------------------------------------------- the rows themselves

  /** An event's attributes become rows of their own, in order, with key and value as given. */
  lemma {:induction false} AttrRows(d: Db, event: nat, attrs: seq<Attr>)
    ensures var e, n := PutAttrs(d, event, attrs), d.attrs.last;
            && e == d.(attrs := e.attrs) && e.attrs.last == n + |attrs|
            && (forall id :: n < id <= n + |attrs| ==>
                  id in e.attrs.rows && e.attrs.rows[id] == Row(event, attrs[id - n - 1]))
            && (forall id :: id <= n || id > n + |attrs| ==>
                  (id in e.attrs.rows <==> id in d.attrs.rows)
                  && (id in d.attrs.rows ==> e.attrs.rows[id] == d.attrs.rows[id]))
  {
    if attrs == [] {
    } else {
      AttrRows(d, event, attrs[..|attrs| - 1]);
    }
  }

  /** So does the event, with its type, and they refer to it. */
  lemma EventRows(d: Db, tx: nat, ev: Event)
    ensures var e, id := PutEvent(d, tx, ev), d.events.last + 1;
            && e == d.(events := e.events, attrs := e.attrs)
            && e.events == Table(d.events.rows[id := Row(tx, ev.typ)], id)
            && e.attrs.last == d.attrs.last + |ev.attrs|
            && forall a :: d.attrs.last < a <= e.attrs.last ==>
                 a in e.attrs.rows && e.attrs.rows[a] == Row(id, ev.attrs[a - d.attrs.last - 1])
  {
    AttrRows(d.(events := Insert(d.events, tx, ev.typ)), d.events.last + 1, ev.attrs);
  }

  /** And a transaction, with its data, below its block. */
  lemma TxRows(d: Db, block: nat, tx: Tx)
    ensures var e, id := PutTx(d, block, tx), d.txs.last + 1;
            e.txs == Table(d.txs.rows[id := Row(block, tx.data)], id) && e.blocks == d.blocks
  {
    EventsKeepTxs(d.(txs := Insert(d.txs, block, tx.data)), d.txs.last + 1, tx.events);
  }

  lemma {:induction false} EventsKeepTxs(d: Db, tx: nat, events: seq<Event>)
    ensures var e := PutEvents(d, tx, events); e == d.(events := e.events, attrs := e.attrs)
  {
    if events == [] {
    } else {
      EventsKeepTxs(d, tx, events[..|events| - 1]);
      EventRows(PutEvents(d, tx, events[..|events| - 1]), tx, events[|events| - 1]);
    }
  }

  // ---------------------------------------------------------------- replacing a block

  /** What hangs on surviving blocks survives the cascade, unchanged and in order. */
  lemma CascadeKeeps(d: Db, dead: set<nat>)
    requires Valid(d)
    ensures var e := DeleteBlocks(d, dead);
            && Valid(e)
            && (forall b :: b !in dead ==> LoadTxs(e, b) == LoadTxs(d, b))
  {
    var e := DeleteBlocks(d, dead);
    var deadTxs := Orphans(d.txs, dead);
    var deadEvents := Orphans(d.events, deadTxs);
    forall id | id !in deadEvents
      ensures LoadAttrs(e, id) == LoadAttrs(d, id)
    {
      GatherSame(e.attrs.rows, d.attrs.rows, id, d.attrs.last, ShowAttr(), ShowAttr());
    }
    forall id | id !in deadTxs
      ensures LoadEvents(e, id) == LoadEvents(d, id)
    {
      GatherSame(e.events.rows, d.events.rows, id, d.events.last, ShowEvent(e), ShowEvent(d));
    }
    forall b | b !in dead
      ensures LoadTxs(e, b) == LoadTxs(d, b)
    {
      GatherSame(e.txs.rows, d.txs.rows, b, d.txs.last, ShowTx(e), ShowTx(d));
    }
  }

  lemma BlockReplaced(d: Db, chain: nat, height: nat)
    requires Valid(d) && chain in d.chains.rows
    ensures var e, b := ReplaceBlock(d, chain, height), d.blocks.last + 1;
            && Valid(e) && b in e.blocks.rows && e.blocks.rows[b] == Row(chain, height)
            && e.blocks.rows == (d.blocks.rows - Conflicting(d, chain, height))[b := Row(chain, height)]
            && LoadTxs(e, b) == []
            && (forall id :: id in e.blocks.rows && id != b ==> LoadTxs(e, id) == LoadTxs(d, id))
  {
    hide Valid, LoadTxs, Conflicting;
    var dead := Conflicting(d, chain, height);
    var d' := DeleteBlocks(d, dead);
    CascadeKeeps(d, dead);
    NoConflict(d, chain, height);
    BlockInserted(d', chain, height);
  }

  /** After the conflicting rows are deleted, the new one is the only one. */
  lemma NoConflict(d: Db, chain: nat, height: nat)
    ensures var e := DeleteBlocks(d, Conflicting(d, chain, height));
            && e.blocks.rows == d.blocks.rows - Conflicting(d, chain, height) && e.chains == d.chains
            && forall id :: id in e.blocks.rows ==> e.blocks.rows[id] != Row(chain, height)
  {
  }

  lemma BlockInserted(d: Db, chain: nat, height: nat)
    requires Valid(d) && chain in d.chains.rows
    requires forall id :: id in d.blocks.rows ==> d.blocks.rows[id] != Row(chain, height)
    ensures var e, b := d.(blocks := Insert(d.blocks, chain, height)), d.blocks.last + 1;
            && Valid(e) && b !in d.blocks.rows && LoadTxs(e, b) == []
            && (forall id :: LoadTxs(e, id) == LoadTxs(d, id))
  {
    var e, b := d.(blocks := Insert(d.blocks, chain, height)), d.blocks.last + 1;
    GatherNone(e.txs.rows, b, e.txs.last, ShowTx(e));
    EventsUnaffected(d, e);
    forall id: nat
      ensures LoadTxs(e, id) == LoadTxs(d, id)
    {
      GatherSame(e.txs.rows, d.txs.rows, id, e.txs.last, ShowTx(e), ShowTx(d));
    }
  }

  lemma ContentsReplaced(d: Db, e: Db, chain: nat, height: nat, b: nat)
    requires Unique(d.blocks) && Unique(e.blocks) && b !in d.blocks.rows
    requires e.blocks.rows == (d.blocks.rows - Conflicting(d, chain, height))[b := Row(chain, height)]
    requires forall id :: id in e.blocks.rows && id != b ==> LoadTxs(e, id) == LoadTxs(d, id)
    ensures Contents(e) == Contents(d)[(chain, height) := LoadTxs(e, b)]
  {
    hide LoadTxs, Unique, Contents;
    var before, after, key := Contents(d), Contents(e), (chain, height);
    assert e.blocks.rows[b] == Row(chain, height);
    StoredAs(e, b);
    forall k | k in before && k != key
      ensures k in after && after[k] == before[k]
    {
      var id := StoredBy(d, k);
      StoredAs(d, id);
      StoredAs(e, id);
    }
    forall k | k in after && k != key
      ensures k in before
    {
      StoredAs(d, StoredBy(e, k));
    }
  }

  ghost function StoredBy(d: Db, key: (nat, nat)): (b: nat)
    requires Unique(d.blocks) && key in Contents(d)
    ensures b in d.blocks.rows && d.blocks.rows[b] == Row(key.0, key.1)
  {
    var b :| b in d.blocks.rows && key == (d.blocks.rows[b].parent, d.blocks.rows[b].val); b
  }

  lemma StoredAs(d: Db, b: nat)
    requires Unique(d.blocks) && b in d.blocks.rows
    ensures var key := (d.blocks.rows[b].parent, d.blocks.rows[b].val);
            key in Contents(d) && Contents(d)[key] == LoadTxs(d, b)
  {
    hide LoadTxs;
  }

  /** A save refines a map update: the tables then hold, for this chain and height, exactly the
      given transactions in their order, and for every other pair what they held before. */
  lemma SaveRefines(d: Db, chain: nat, height: nat, txs: seq<Tx>)
    requires Valid(d) && chain in d.chains.rows && Acceptable(txs)
    ensures var e := Saved(d, chain, height, txs);
            && Valid(e) && e.tests == d.tests && e.chains == d.chains
            && Contents(e) == Contents(d)[(chain, height) := txs]
  {
    var e, b := Saved(d, chain, height, txs), d.blocks.last + 1;
    assert b !in d.blocks.rows;
    SavedBlocks(d, chain, height, txs);
    ContentsReplaced(d, e, chain, height, b);
  }

  lemma SavedBlocks(d: Db, chain: nat, height: nat, txs: seq<Tx>)
    requires Valid(d) && chain in d.chains.rows && Acceptable(txs)
    ensures var e, b := Saved(d, chain, height, txs), d.blocks.last + 1;
            && Valid(e) && e.tests == d.tests && e.chains == d.chains
            && e.blocks.rows == (d.blocks.rows - Conflicting(d, chain, height))[b := Row(chain, height)]
            && LoadTxs(e, b) == txs
            && (forall id :: id in e.blocks.rows && id != b ==> LoadTxs(e, id) == LoadTxs(d, id))
  {
    hide Valid, LoadTxs, PutTxs, Acceptable;
    BlockReplaced(d, chain, height);
    TxsPut(ReplaceBlock(d, chain, height), d.blocks.last + 1, txs);
  }
}
