/** Facts about sets and sequences that several components use. */
module Collections {

  function Take<T>(n: nat, s: seq<T>): (front: seq<T>)
    ensures |front| == if |s| <= n then |s| else n
  {
    if |s| <= n then s else s[..n]
  }

  /** Adding or removing one element changes the size by one, or not at all. */
  lemma Sizes<T>(s: set<T>, x: T)
    ensures |s + {x}| == |s| + (if x in s then 0 else 1)
    ensures |s - {x}| == |s| - (if x in s then 1 else 0)
  {
    assert x in s ==> s + {x} == s && s == (s - {x}) + {x};
    assert x !in s ==> s - {x} == s;
  }
}
