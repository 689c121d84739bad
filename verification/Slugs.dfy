/** Course codes made from subject titles: lower case, every run of other characters one hyphen. */
module Slugs {
  import opened Hosts

  predicate IsWordChar(c: char) {
    'a' <= c <= 'z' || '0' <= c <= '9'
  }

  predicate EndsInHyphen(s: string) {
    s != "" && s[|s| - 1] == '-'
  }

  /** Each run of characters that are not lower case letters or digits becomes one hyphen. */
  function Hyphenated(s: string): string {
    if s == "" then ""
    else
      var front, c := Hyphenated(s[..|s| - 1]), s[|s| - 1];
      if IsWordChar(c) then front + [c] else if EndsInHyphen(front) then front else front + "-"
  }

  /** At most one hyphen is taken off each end. */
  function Trimmed(s: string): string {
    var front := if s != "" && s[0] == '-' then s[1..] else s;
    if EndsInHyphen(front) then front[..|front| - 1] else front
  }

  function Slugify(v: string): string {
    var s := Trimmed(Hyphenated(Lower(v)));
    if s == "" then "x" else s
  }

  /** Words of lower case letters and digits with single hyphens between them. */
  predicate IsSlug(s: string) {
    && s != "" && s[0] != '-' && s[|s| - 1] != '-'
    && (forall i :: 0 <= i < |s| ==> IsWordChar(s[i]) || s[i] == '-')
    && (forall i :: 0 < i < |s| ==> !(s[i - 1] == '-' && s[i] == '-'))
  }

  predicate Spaced(s: string) {
    && (forall i :: 0 <= i < |s| ==> IsWordChar(s[i]) || s[i] == '-')
    && (forall i :: 0 < i < |s| ==> !(s[i - 1] == '-' && s[i] == '-'))
  }

  lemma {:induction false} HyphenatedSpaced(s: string)
    ensures Spaced(Hyphenated(s))
  {
    if s != "" { HyphenatedSpaced(s[..|s| - 1]); }
  }

  lemma TrimmedSpaced(s: string)
    requires Spaced(s)
    ensures Spaced(Trimmed(s)) && (Trimmed(s) != "" ==> IsSlug(Trimmed(s)))
  {
    var front := if s != "" && s[0] == '-' then s[1..] else s;
    assert Spaced(front);
    assert |s| > 1 && s[0] == '-' ==> s[1] != '-';
    var t := Trimmed(s);
    assert EndsInHyphen(front) && |front| > 1 ==> front[|front| - 2] != '-';
    assert forall i :: 0 <= i < |t| ==> t[i] == front[i];
  }

  /** Whatever the title, its code is a slug. */
  lemma SlugifyIsSlug(v: string)
    ensures IsSlug(Slugify(v))
  {
    HyphenatedSpaced(Lower(v));
    TrimmedSpaced(Hyphenated(Lower(v)));
  }

  lemma {:induction false} SpacedStays(s: string)
    requires Spaced(s)
    ensures Hyphenated(s) == s
  {
    if s != "" {
      SpacedStays(s[..|s| - 1]);
      assert s == s[..|s| - 1] + [s[|s| - 1]];
    }
  }

  /** The slugs are exactly the titles that are their own codes; so a code made twice is made once. */
  lemma SlugIsItsOwnCode(v: string)
    ensures Slugify(v) == v <==> IsSlug(v)
    ensures Slugify(Slugify(v)) == Slugify(v)
  {
    SlugifyIsSlug(v);
    SlugStays(Slugify(v));
    if IsSlug(v) { SlugStays(v); }
  }

  lemma SlugStays(s: string)
    requires IsSlug(s)
    ensures Slugify(s) == s
  {
    assert Lower(s) == s;
    SpacedStays(s);
  }
}
