/** Relational tables with autoincrement ids and one foreign key, and what is read from them. */
module Tables {
  /** A row holds the id of its parent row and the remaining columns. */
  datatype Row<T> = Row(parent: nat, val: T)

  /** `last` is the largest id ever handed out; AUTOINCREMENT never reuses one. */
  datatype Table<T> = Table(rows: map<nat, Row<T>>, last: nat)

  function Empty<T>(): Table<T>
  {
    Table(map[], 0)
  }

  ghost predicate Bounded<T>(t: Table<T>)
  {
    forall id :: id in t.rows ==> 1 <= id <= t.last
  }

  function Insert<T>(t: Table<T>, parent: nat, val: T): (r: Table<T>)
    ensures Bounded(t) ==> Bounded(r)
  {
    Table(t.rows[t.last + 1 := Row(parent, val)], t.last + 1)
  }

  /** ON DELETE CASCADE: the rows whose parent is gone. */
  function Orphans<T>(t: Table<T>, dead: set<nat>): set<nat>
  {
    set id | id in t.rows && t.rows[id].parent in dead
  }

  function Delete<T>(t: Table<T>, dead: set<nat>): (r: Table<T>)
    ensures Bounded(t) ==> Bounded(r)
  {
    Table(map id | id in t.rows && id !in dead :: t.rows[id], t.last)
  }

  /** The children of p with ids up to n, in ascending order of id, each shown by f. */
  function Gather<T, U>(rows: map<nat, Row<T>>, p: nat, n: nat, f: (nat, T) -> U): seq<U>
  {
    if n == 0 then []
    else Gather(rows, p, n - 1, f) + (if n in rows && rows[n].parent == p then [f(n, rows[n].val)] else [])
  }

  /** Reading the children of p with ORDER BY id. */
  function Select<T, U>(t: Table<T>, p: nat, f: (nat, T) -> U): seq<U>
  {
    Gather(t.rows, p, t.last, f)
  }

  lemma {:induction false} GatherSame<T, U>(a: map<nat, Row<T>>, b: map<nat, Row<T>>, p: nat, n: nat,
                                            f: (nat, T) -> U, g: (nat, T) -> U)
    requires forall id :: (id in a && a[id].parent == p) <==> (id in b && b[id].parent == p)
    requires forall id :: id in a && a[id].parent == p ==> b[id] == a[id] && f(id, a[id].val) == g(id, a[id].val)
    ensures Gather(a, p, n, f) == Gather(b, p, n, g)
  {
    if n == 0 {
    } else {
      GatherSame(a, b, p, n - 1, f, g);
    }
  }

  /** Inserting appends to the new parent's children and changes no other parent's. */
  lemma SelectInsert<T, U>(t: Table<T>, parent: nat, val: T, p: nat, f: (nat, T) -> U)
    requires Bounded(t)
    ensures Select(Insert(t, parent, val), p, f) ==
            Select(t, p, f) + (if p == parent then [f(t.last + 1, val)] else [])
  {
    GatherPrefix(t.rows, Insert(t, parent, val).rows, p, t.last, f);
  }

  lemma {:induction false} GatherPrefix<T, U>(a: map<nat, Row<T>>, b: map<nat, Row<T>>, p: nat, n: nat,
                                              f: (nat, T) -> U)
    requires forall id :: 1 <= id <= n ==> (id in a <==> id in b)
    requires forall id :: 1 <= id <= n && id in a ==> a[id] == b[id]
    ensures Gather(a, p, n, f) == Gather(b, p, n, f)
  {
    if n == 0 {
    } else {
      GatherPrefix(a, b, p, n - 1, f);
    }
  }

  lemma {:induction false} GatherNone<T, U>(rows: map<nat, Row<T>>, p: nat, n: nat, f: (nat, T) -> U)
    requires forall id :: id in rows ==> rows[id].parent != p
    ensures Gather(rows, p, n, f) == []
  {
    if n == 0 {
    } else {
      GatherNone(rows, p, n - 1, f);
    }
  }

  function Id<T>(): (nat, T) -> nat
  {
    (id: nat, val: T) => id
  }

  ghost predicate Ascending(ids: seq<nat>)
  {
    forall i, j :: 0 <= i < j < |ids| ==> ids[i] < ids[j]
  }

  lemma NothingAscends()
    ensures Ascending([])
  {
  }

  lemma AscendingNext(ids: seq<nat>, n: nat)
    requires Ascending(ids) && forall id :: id in ids ==> id < n
    ensures Ascending(ids + [n])
  {
    assert forall i :: 0 <= i < |ids| ==> ids[i] in ids;
  }

  /** Every child is listed once, by ascending id. */
  lemma {:induction false} GatherIds<T>(rows: map<nat, Row<T>>, p: nat, n: nat)
    ensures Ascending(Gather(rows, p, n, Id()))
    ensures forall id :: id in Gather(rows, p, n, Id()) <==> 1 <= id <= n && id in rows && rows[id].parent == p
  {
    hide Ascending;
    if n == 0 {
      NothingAscends();
    } else {
      GatherIds(rows, p, n - 1);
      var init := Gather(rows, p, n - 1, Id());
      AscendingNext(init, n);
      assert init + [] == init;
    }
  }

  /** What a select lists is each child as f shows it. */
  lemma {:induction false} GatherShown<T, U>(rows: map<nat, Row<T>>, p: nat, n: nat, f: (nat, T) -> U)
    ensures var ids := Gather(rows, p, n, Id());
            && |Gather(rows, p, n, f)| == |ids|
            && (forall i :: 0 <= i < |ids| ==>
                  ids[i] in rows && Gather(rows, p, n, f)[i] == f(ids[i], rows[ids[i]].val))
  {
    if n == 0 {
    } else {
      GatherShown(rows, p, n - 1, f);
    }
  }

  // ---------------------------------------------------------------- sequences

  function Flatten<T>(ids: seq<nat>, f: nat -> seq<T>): seq<T>
  {
    if ids == [] then [] else f(ids[0]) + Flatten(ids[1..], f)
  }

  function Filter<T>(s: seq<T>, p: T -> bool): seq<T>
  {
    if s == [] then [] else (if p(s[0]) then [s[0]] else []) + Filter(s[1..], p)
  }

  lemma {:induction false} FilterAppend<T>(a: seq<T>, b: seq<T>, p: T -> bool)
    ensures Filter(a + b, p) == Filter(a, p) + Filter(b, p)
  {
    if a == [] {
      assert a + b == b;
    } else {
      assert (a + b)[1..] == a[1..] + b;
      FilterAppend(a[1..], b, p);
      var head, x, y := if p(a[0]) then [a[0]] else [], Filter(a[1..], p), Filter(b, p);
      assert head + (x + y) == head + x + y;
    }
  }

  lemma {:induction false} FilterAll<T>(s: seq<T>, p: T -> bool)
    requires forall x :: x in s ==> p(x)
    ensures Filter(s, p) == s
  {
    if s == [] {
    } else {
      FilterAll(s[1..], p);
    }
  }

  lemma {:induction false} FilterNone<T>(s: seq<T>, p: T -> bool)
    requires forall x :: x in s ==> !p(x)
    ensures Filter(s, p) == []
  {
    if s == [] {
    } else {
      FilterNone(s[1..], p);
    }
  }

  /** A filter that no row of any other part passes leaves the filter of the one part. */
  lemma {:induction false} FilterFlatten<T>(ids: seq<nat>, f: nat -> seq<T>, p: T -> bool, k: nat)
    requires Ascending(ids)
    requires forall id, x :: id in ids && id != k && x in f(id) ==> !p(x)
    ensures Filter(Flatten(ids, f), p) == if k in ids then Filter(f(k), p) else []
  {
    if ids == [] {
    } else {
      var rest := ids[1..];
      FilterAppend(f(ids[0]), Flatten(rest, f), p);
      FilterFlatten(rest, f, p, k);
      if ids[0] != k { FilterNone(f(ids[0]), p); }
    }
  }
}
