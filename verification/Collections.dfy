/** Regrouping facts the solver does not find on its own. */
module Collections {
  lemma Associates<T>(a: seq<T>, b: seq<T>, c: seq<T>)
    ensures a + b + c == a + (b + c)
  {
  }

  lemma UnionAssociates<T>(a: set<T>, b: set<T>, c: set<T>)
    ensures a + b + c == a + (b + c)
  {
  }

  // Every element where it stands first.
  function FirstOccurrences<T(==)>(s: seq<T>): (r: seq<T>) {
    if s == [] then []
    else
      var n := |s| - 1;
      FirstOccurrences(s[..n]) + if s[n] in s[..n] then [] else [s[n]]
  }

  lemma {:induction false} FirstSame<T>(s: seq<T>, x: T)
    ensures x in FirstOccurrences(s) <==> x in s
  {
    if s != [] {
      FirstSame(s[..|s| - 1], x);
      assert s == s[..|s| - 1] + [s[|s| - 1]];
    }
  }

  lemma FirstSnoc<T>(s: seq<T>, x: T)
    ensures FirstOccurrences(s + [x]) == FirstOccurrences(s) + if x in FirstOccurrences(s) then [] else [x]
  {
    FirstSame(s, x);
    assert (s + [x])[..|s|] == s;
  }

  lemma {:induction false} FirstDistinct<T>(s: seq<T>)
    ensures forall i, j :: 0 <= i < j < |FirstOccurrences(s)| ==> FirstOccurrences(s)[i] != FirstOccurrences(s)[j]
  {
    if s != [] {
      FirstDistinct(s[..|s| - 1]);
      FirstSame(s[..|s| - 1], s[|s| - 1]);
    }
  }
}
