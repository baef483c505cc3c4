/** Optional values, and lists without repetition. */
module Collections {
  datatype Option<+T> = None | Some(value: T)

  ghost predicate Distinct<T>(s: seq<T>)
  {
    forall i, j :: 0 <= i < j < |s| ==> s[i] != s[j]
  }

  /** A list without repetition of the elements of a set is as long as the set is large. */
  lemma {:induction false} CountDistinct<T>(s: seq<T>, elements: set<T>)
    requires Distinct(s) && forall x :: x in s <==> x in elements
    ensures |s| == |elements|
  {
    if s == [] {
      assert elements == {};
    } else {
      assert forall x :: x in s <==> x == s[0] || x in s[1..];
      assert s[0] !in s[1..];
      CountDistinct(s[1..], elements - {s[0]});
    }
  }

  /** Two lists without repetition of the same elements are equally long. */
  lemma SameLength<T>(a: seq<T>, b: seq<T>)
    requires Distinct(a) && Distinct(b) && forall x :: x in a <==> x in b
    ensures |a| == |b|
  {
    var elements := set x | x in a;
    CountDistinct(a, elements);
    CountDistinct(b, elements);
  }
}
