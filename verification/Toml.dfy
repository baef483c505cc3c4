/** Overriding a decoded TOML configuration with nested modifications. */
module Toml {
  type Path = seq<string>

  /** The dynamic type of a Go map: `Toml`, `map[string]any`, or some other map type. */
  datatype Tag = TomlMap | PlainMap | OtherMap

  /** A leaf is anything whose kind is not a map; its content is opaque. */
  datatype Value = Leaf(content: string) | Section(tag: Tag, entries: map<string, Value>)

  datatype Status = Ok | ConversionError | Panic

  // ---------------------------------------------------------------- specification

  /** The section found under a key when it converts to map[string]any. A missing one does not:
      the fresh map made for it has type Toml. */
  predicate Opens(c: map<string, Value>, key: string)
  {
    key in c && c[key].Section? && c[key].tag == PlainMap
  }

  /** Modifications that go through: every section they mention exists as a plain map in the
      configuration, at every depth, and is itself given as a Toml. */
  predicate Fits(c: map<string, Value>, m: Value)
    requires m.Section?
    decreases m
  {
    forall key :: key in m.entries && m.entries[key].Section? ==>
      m.entries[key].tag == TomlMap && Opens(c, key) && Fits(c[key].entries, m.entries[key])
  }

  /** The merged configuration: leaves of m replace, sections of m merge, the rest stays. */
  function Merge(c: map<string, Value>, m: Value): map<string, Value>
    requires m.Section?
    decreases m
  {
    map key | key in c.Keys + m.entries.Keys ::
      if key !in m.entries then c[key]
      else if m.entries[key].Section? then
        if Opens(c, key) then Section(PlainMap, Merge(c[key].entries, m.entries[key])) else m.entries[key]
      else m.entries[key]
  }

  /** A modified section that does not exist as a plain map, at some depth. */
  predicate MissesSection(c: map<string, Value>, m: Value)
    requires m.Section?
    decreases m
  {
    exists key :: key in m.entries && m.entries[key].Section? &&
      (!Opens(c, key) || (m.entries[key].tag == TomlMap && MissesSection(c[key].entries, m.entries[key])))
  }

  /** A nested modification that is a map but not a Toml, under existing sections. */
  predicate Mistyped(c: map<string, Value>, m: Value)
    requires m.Section?
    decreases m
  {
    exists key :: key in m.entries && m.entries[key].Section? && Opens(c, key) &&
      (m.entries[key].tag != TomlMap || Mistyped(c[key].entries, m.entries[key]))
  }

  /** A configuration modified in part: each key as it was or as modified, recursively. */
  predicate Between(c: map<string, Value>, m: Value, d: map<string, Value>)
    requires m.Section?
    decreases m, 0
  {
    && c.Keys <= d.Keys <= c.Keys + m.entries.Keys
    && forall key :: key in d.Keys ==>
         || (key in c && d[key] == c[key])
         || (key in m.entries && Touched(c, m.entries[key], key, d[key]))
  }

  predicate Touched(c: map<string, Value>, v: Value, key: string, now: Value)
    decreases v, 1
  {
    if v.Section? then
      Opens(c, key) && now.Section? && now.tag == PlainMap && Between(c[key].entries, v, now.entries)
    else now == v
  }

  /** Modifications go through unless a section is missing or mistyped. */
  lemma {:induction false} FitsIff(c: map<string, Value>, m: Value)
    requires m.Section?
    ensures Fits(c, m) <==> !MissesSection(c, m) && !Mistyped(c, m)
    decreases m
  {
    forall key | key in m.entries && m.entries[key].Section? && Opens(c, key)
      ensures Fits(c[key].entries, m.entries[key]) <==>
              !MissesSection(c[key].entries, m.entries[key]) && !Mistyped(c[key].entries, m.entries[key])
    {
      FitsIff(c[key].entries, m.entries[key]);
    }
  }

  /** The comment in the source announces that a missing section is populated fresh; it is not.
      By `FitsIff` and the method below, it succeeds just when no mentioned section is missing. */
  lemma FreshSectionFails()
    ensures var section := Section(TomlMap, map["laddr" := Leaf("tcp://0.0.0.0:26656")]);
            !Fits(map[], Section(TomlMap, map["p2p" := section])) &&
            Fits(map["p2p" := Section(PlainMap, map[])], Section(TomlMap, map["p2p" := section]))
  {
    var section := Section(TomlMap, map["laddr" := Leaf("tcp://0.0.0.0:26656")]);
    var m := Section(TomlMap, map["p2p" := section]);
    assert "p2p" in m.entries && m.entries["p2p"] == section;
  }

  /** One section with leaves in it, by the type of the map alone: it goes through if the section
      exists as a plain map and is given as a Toml, and else fails for the reason that applies. */
  lemma OneSection(c: map<string, Value>, key: string, tag: Tag, leaves: map<string, Value>)
    requires forall k :: k in leaves ==> leaves[k].Leaf?
    ensures var m := Section(TomlMap, map[key := Section(tag, leaves)]);
            var plain := key in c && c[key].Section? && c[key].tag == PlainMap;
            && (Fits(c, m) <==> plain && tag == TomlMap)
            && (MissesSection(c, m) <==> !plain)
            && (Mistyped(c, m) <==> plain && tag != TomlMap)
  {
    var m := Section(TomlMap, map[key := Section(tag, leaves)]);
    assert key in m.entries && m.entries[key] == Section(tag, leaves);
  }

  /** Leaves alone always go through. */
  lemma LeavesFit(c: map<string, Value>, tag: Tag, leaves: map<string, Value>)
    requires forall k :: k in leaves ==> leaves[k].Leaf?
    ensures Fits(c, Section(tag, leaves))
  {
  }

  // ---------------------------------------------------------------- the recursion

  /** recursiveModifyToml. The loop takes the keys in any order, so that what is ensured holds
      for every order Go may choose at every level: whether it succeeds and the result then do
      not depend on the order. A nested map is one object with the entry it came from, so that a
      failure inside it leaves it modified in part. */
  method RecursiveModifyToml(c: map<string, Value>, m: Value) returns (status: Status, c': map<string, Value>)
    requires m.Section?
    ensures status == Ok <==> Fits(c, m)
    ensures status == Ok ==> c' == Merge(c, m)
    ensures status == ConversionError ==> MissesSection(c, m)
    ensures status == Panic ==> Mistyped(c, m)
    ensures Between(c, m, c')
    decreases m
  {
    hide Between, Merge, Modified, Touched;
    c' := c;
    Untouched(c, m);
    var rest := m.entries.Keys;
    NothingModified(c, m);
    while rest != {}
      invariant rest <= m.entries.Keys && Modified(c, m, rest, c') && Between(c, m, c')
      decreases rest
    {
      var key :| key in rest;
      var value := m.entries[key];
      NotYetModified(c, m, rest, c', key);
      MergedAt(c, m, key);
      if value.Section? {
        var cV := if key in c' then c'[key] else Section(TomlMap, map[]);
        if !(cV.Section? && cV.tag == PlainMap) { return ConversionError, c'; }
        if value.tag != TomlMap { return Panic, c'; }
        var status', cVM := RecursiveModifyToml(cV.entries, value);
        SectionTouched(c, value, key, cVM);
        StillBetween(c, m, c', key, Section(PlainMap, cVM));
        if status' != Ok { return status', c'[key := Section(PlainMap, cVM)]; }
        OneMoreModified(c, m, rest, c', key, Section(PlainMap, cVM));
        c' := c'[key := Section(PlainMap, cVM)];
      } else {
        LeafTouched(c, value, key);
        StillBetween(c, m, c', key, value);
        OneMoreModified(c, m, rest, c', key, value);
        c' := c'[key := value];
      }
      rest := rest - {key};
    }
    AllModified(c, m, c');
    return Ok, c';
  }

  /** All keys but the rest have been set, which went through; everything else is as before. */
  ghost predicate Modified(c: map<string, Value>, m: Value, rest: set<string>, d: map<string, Value>)
    requires m.Section?
  {
    && d.Keys == c.Keys + (m.entries.Keys - rest)
    && (forall key :: key in c && key !in m.entries.Keys - rest ==> d[key] == c[key])
    && (forall key :: key in m.entries.Keys - rest ==> d[key] == Merge(c, m)[key] && Goes(c, m, key))
  }

  predicate Goes(c: map<string, Value>, m: Value, key: string)
    requires m.Section? && key in m.entries
  {
    m.entries[key].Section? ==>
      m.entries[key].tag == TomlMap && Opens(c, key) && Fits(c[key].entries, m.entries[key])
  }

  lemma NothingModified(c: map<string, Value>, m: Value)
    requires m.Section?
    ensures Modified(c, m, m.entries.Keys, c)
  {
  }

  lemma NotYetModified(c: map<string, Value>, m: Value, rest: set<string>, d: map<string, Value>, key: string)
    requires m.Section? && Modified(c, m, rest, d) && key in rest
    ensures key in d <==> key in c
    ensures key in c ==> d[key] == c[key]
  {
  }

  /** What the merged configuration has under a key. */
  lemma MergedAt(c: map<string, Value>, m: Value, key: string)
    requires m.Section?
    ensures key in Merge(c, m) <==> key in c || key in m.entries
    ensures key in Merge(c, m) ==>
              Merge(c, m)[key] ==
              if key !in m.entries then c[key]
              else if m.entries[key].Section? && Opens(c, key)
              then Section(PlainMap, Merge(c[key].entries, m.entries[key])) else m.entries[key]
  {
  }

  lemma OneMoreModified(c: map<string, Value>, m: Value, rest: set<string>, d: map<string, Value>, key: string,
                        now: Value)
    requires m.Section? && Modified(c, m, rest, d) && key in rest && rest <= m.entries.Keys
    requires key in Merge(c, m) && now == Merge(c, m)[key] && Goes(c, m, key)
    ensures Modified(c, m, rest - {key}, d[key := now])
  {
    hide Merge, Goes;
  }

  lemma AllModified(c: map<string, Value>, m: Value, d: map<string, Value>)
    requires m.Section? && Modified(c, m, {}, d)
    ensures Fits(c, m) && d == Merge(c, m)
  {
    assert forall key :: key in m.entries ==> Goes(c, m, key);
  }

  lemma SectionTouched(c: map<string, Value>, v: Value, key: string, now: map<string, Value>)
    requires v.Section? && Opens(c, key) && Between(c[key].entries, v, now)
    ensures Touched(c, v, key, Section(PlainMap, now))
  {
  }

  lemma LeafTouched(c: map<string, Value>, v: Value, key: string)
    requires !v.Section?
    ensures Touched(c, v, key, v)
  {
  }

  lemma Untouched(c: map<string, Value>, m: Value)
    requires m.Section?
    ensures Between(c, m, c)
  {
  }

  lemma StillBetween(c: map<string, Value>, m: Value, d: map<string, Value>, key: string, now: Value)
    requires m.Section? && Between(c, m, d) && key in m.entries && Touched(c, m.entries[key], key, now)
    ensures Between(c, m, d[key := now])
  {
  }

  // ---------------------------------------------------------------- path law

  datatype Lookup = Missing | Found(value: Value)

  function Get(v: Value, p: Path): Lookup
  {
    if p == [] then Found(v)
    else if v.Section? && p[0] in v.entries then Get(v.entries[p[0]], p[1..])
    else Missing
  }

  /** Where a path leads in the modifications: off them, to or past a leaf, or to a section. */
  datatype Walk = Outside | AtLeaf(leaf: Value, rest: Path) | Inside(section: Value)

  function Follow(m: Value, p: Path): (w: Walk)
    ensures w.Inside? ==> w.section.Section?
  {
    if m.Leaf? then AtLeaf(m, p)
    else if p == [] then Inside(m)
    else if p[0] in m.entries then Follow(m.entries[p[0]], p[1..])
    else Outside
  }

  /** What a lookup shows after modifying: the modifications' leaf where they set one and nothing
      below it; the original where they say nothing; and a merged section in between. */
  lemma {:induction false} PathLaw(c: Value, m: Value, p: Path)
    requires c.Section? && m.Section? && Fits(c.entries, m)
    ensures var after := Get(Section(c.tag, Merge(c.entries, m)), p);
            match Follow(m, p)
            case Outside => after == Get(c, p)
            case AtLeaf(leaf, rest) => after == if rest == [] then Found(leaf) else Missing
            case Inside(s) =>
              && Get(c, p).Found? && Get(c, p).value.Section?
              && after == Found(Section(Get(c, p).value.tag, Merge(Get(c, p).value.entries, s)))
    decreases p
  {
    if p == [] {
    } else {
      var key := p[0];
      if key in m.entries && m.entries[key].Section? {
        var x, y := c.entries[key], m.entries[key];
        assert Merge(c.entries, m)[key] == Section(x.tag, Merge(x.entries, y));
        PathLaw(x, y, p[1..]);
        assert Get(c, p) == Get(x, p[1..]) && Follow(m, p) == Follow(y, p[1..]);
      } else if key !in m.entries {
        var merged := Merge(c.entries, m);
        assert key in merged <==> key in c.entries;
        assert key in merged ==> merged[key] == c.entries[key];
        assert Get(Section(c.tag, merged), p) == Get(c, p);
      } else {
        assert Follow(m, p) == Follow(m.entries[key], p[1..]) == AtLeaf(m.entries[key], p[1..]);
      }
    }
  }

  /** What a lookup may show after a run that failed half way: at a leaf of the modifications the
      original or the leaf, off them the original, and a section where it showed one before. */
  lemma {:induction false} PartialPathLaw(c: Value, m: Value, d: map<string, Value>, p: Path)
    requires c.Section? && m.Section? && Between(c.entries, m, d)
    ensures var before, after := Get(c, p), Get(Section(c.tag, d), p);
            match Follow(m, p)
            case Outside => after == before
            case AtLeaf(leaf, rest) => after == before || after == if rest == [] then Found(leaf) else Missing
            case Inside(_) =>
              after == before || (before.Found? && after.Found? && before.value.Section? && after.value.Section?
                                  && after.value.tag == before.value.tag)
    decreases p
  {
    if p == [] {
    } else {
      var key := p[0];
      var after := Section(c.tag, d);
      if key in d && !(key in c.entries && d[key] == c.entries[key]) {
        assert key in m.entries && Touched(c.entries, m.entries[key], key, d[key]);
        assert Follow(m, p) == Follow(m.entries[key], p[1..]);
        if m.entries[key].Section? {
          PartialPathLaw(c.entries[key], m.entries[key], d[key].entries, p[1..]);
          assert Get(after, p) == Get(d[key], p[1..]) && Get(c, p) == Get(c.entries[key], p[1..]);
        }
      }
    }
  }

  // ---------------------------------------------------------------- algebra

  /** Applying modifications a second time succeeds and changes nothing. */
  lemma {:induction false} Idempotent(c: map<string, Value>, m: Value)
    requires m.Section? && Fits(c, m)
    ensures Fits(Merge(c, m), m) && Merge(Merge(c, m), m) == Merge(c, m)
    decreases m
  {
    forall key | key in m.entries && m.entries[key].Section?
      ensures var sub := Merge(c[key].entries, m.entries[key]);
              Fits(sub, m.entries[key]) && Merge(sub, m.entries[key]) == sub
    {
      Idempotent(c[key].entries, m.entries[key]);
    }
  }

  /** One set of modifications with the effect of a and then b. */
  function Combine(a: Value, b: Value): (r: Value)
    requires a.Section? && b.Section?
    ensures r.Section? && r.tag == TomlMap
    decreases b
  {
    Section(TomlMap, map key | key in a.entries.Keys + b.entries.Keys ::
      if key !in b.entries then a.entries[key]
      else if b.entries[key].Section? && key in a.entries && a.entries[key].Section?
      then Combine(a.entries[key], b.entries[key])
      else b.entries[key])
  }

  /** Applying a and then b is applying their combination. */
  lemma {:induction false} Composes(c: map<string, Value>, a: Value, b: Value)
    requires a.Section? && b.Section? && Fits(c, a) && Fits(Merge(c, a), b)
    ensures Fits(c, Combine(a, b)) && Merge(c, Combine(a, b)) == Merge(Merge(c, a), b)
    decreases b
  {
    forall key | InBoth(a, b, key)
      ensures Composed(c, a, b, key)
    {
      Composes(c[key].entries, a.entries[key], b.entries[key]);
    }
    CombinationFits(c, a, b);
    CombinationMerges(c, a, b);
  }

  /** Both have a section under the key. */
  predicate InBoth(a: Value, b: Value, key: string)
    requires a.Section? && b.Section?
  {
    key in b.entries && b.entries[key].Section? && key in a.entries && a.entries[key].Section?
  }

  /** What is claimed of the combination holds in the section under the key. */
  ghost predicate Composed(c: map<string, Value>, a: Value, b: Value, key: string)
    requires a.Section? && b.Section? && Fits(c, a) && InBoth(a, b, key)
  {
    var sub, x, y := c[key].entries, a.entries[key], b.entries[key];
    Fits(sub, Combine(x, y)) && Merge(sub, Combine(x, y)) == Merge(Merge(sub, x), y)
  }

  lemma CombinationFits(c: map<string, Value>, a: Value, b: Value)
    requires a.Section? && b.Section? && Fits(c, a) && Fits(Merge(c, a), b)
    requires forall key :: InBoth(a, b, key) ==> Composed(c, a, b, key)
    ensures Fits(c, Combine(a, b))
  {
    var m, ab := Merge(c, a), Combine(a, b);
    forall key | key in ab.entries && ab.entries[key].Section?
      ensures ab.entries[key].tag == TomlMap && Opens(c, key) && Fits(c[key].entries, ab.entries[key])
    {
      if InBoth(a, b, key) {
        assert Composed(c, a, b, key);
      } else if key in b.entries {
        assert Opens(m, key) && m[key] == c[key];
      }
    }
  }

  lemma CombinationMerges(c: map<string, Value>, a: Value, b: Value)
    requires a.Section? && b.Section? && Fits(c, a) && Fits(Merge(c, a), b) && Fits(c, Combine(a, b))
    requires forall key :: InBoth(a, b, key) ==> Composed(c, a, b, key)
    ensures Merge(c, Combine(a, b)) == Merge(Merge(c, a), b)
  {
    hide Merge, Combine, Composed;
    var one, two := Merge(c, Combine(a, b)), Merge(Merge(c, a), b);
    forall key
      ensures (key in one <==> key in two) && (key in one ==> one[key] == two[key])
    {
      CombinationMergesAt(c, a, b, key);
    }
    assert one.Keys == two.Keys;
  }

  lemma CombinationMergesAt(c: map<string, Value>, a: Value, b: Value, key: string)
    requires a.Section? && b.Section? && Fits(c, a) && Fits(Merge(c, a), b) && Fits(c, Combine(a, b))
    requires InBoth(a, b, key) ==> Composed(c, a, b, key)
    ensures var one, two := Merge(c, Combine(a, b)), Merge(Merge(c, a), b);
            (key in one <==> key in two) && (key in one ==> one[key] == two[key])
  {
    var m, ab := Merge(c, a), Combine(a, b);
    CombinedAt(a, b, key);
    MergedAt(c, a, key);
    MergedAt(m, b, key);
    MergedAt(c, ab, key);
    hide Merge, Combine;
  }

  lemma CombinedAt(a: Value, b: Value, key: string)
    requires a.Section? && b.Section?
    ensures key in Combine(a, b).entries <==> key in a.entries || key in b.entries
    ensures key in Combine(a, b).entries ==>
              Combine(a, b).entries[key] ==
              if InBoth(a, b, key) then Combine(a.entries[key], b.entries[key])
              else if key in b.entries then b.entries[key] else a.entries[key]
  {
  }
}
