/** Host names: lower case, without the port, and the tenant label in front of a base domain. */
module Hosts {
  import opened Wrappers
  import opened Text

  function LowerChar(c: char): char {
    if 'A' <= c <= 'Z' then c - 'A' + 'a' else c
  }

  function Lower(s: string): (r: string)
    ensures |r| == |s| && forall i :: 0 <= i < |s| ==> r[i] == LowerChar(s[i])
  {
    seq(|s|, i requires 0 <= i < |s| => LowerChar(s[i]))
  }

  /** The host before any port, in lower case. */
  function BareHost(host: string): (bare: string)
    ensures |bare| <= |host|
  {
    FirstPiece(host, ':');
    Lower(Split(host, ':')[0])
  }

  predicate EndsWith(s: string, tail: string) {
    |tail| <= |s| && s[|s| - |tail|..] == tail
  }

  predicate IsLower(s: string) {
    forall i :: 0 <= i < |s| ==> !('A' <= s[i] <= 'Z')
  }

  /** The leading label of `host` below `domain`, if it has one that is not `www`. */
  function SubdomainOf(host: string, domain: string): (slug: Option<string>)
    ensures slug.Some? ==> IsLabel(slug.value)
  {
    var h, base := BareHost(host), BareHost(domain);
    BareHostShape(host);
    if h == "" || base == "" || h == base || h == "www." + base then None
    else if EndsWith(h, "." + base) then
      var front := h[..|h| - |base| - 1];
      var slug := Split(front, '.')[0];
      FirstPiece(front, '.');
      if slug != "" && slug != "www" then Some(slug) else None
    else None
  }

  /** What a label can be: lower case, no dot, no colon, not `www`. */
  predicate IsLabel(s: string) {
    s != "" && s != "www" && '.' !in s && ':' !in s && IsLower(s)
  }

  // ----- lemmas about pieces -----

  lemma {:induction false} FirstPiece(s: string, sep: char)
    ensures var p := Split(s, sep)[0]; p <= s && sep !in p
    ensures var p := Split(s, sep)[0]; p == s || s[|p|] == sep
  {
    if s != "" && s[0] != sep {
      FirstPiece(s[1..], sep);
      var q := Split(s[1..], sep)[0];
      assert Split(s, sep)[0] == [s[0]] + q;
      assert s == [s[0]] + s[1..];
    }
  }

  lemma {:induction false} FirstPieceAfter(x: string, y: string, sep: char)
    requires sep !in x
    ensures Split(x + y, sep)[0] == x + Split(y, sep)[0]
  {
    if x == "" {
      assert x + y == y;
    } else {
      assert (x + y)[1..] == x[1..] + y;
      FirstPieceAfter(x[1..], y, sep);
      assert x == [x[0]] + x[1..];
    }
  }

  lemma BareHostShape(host: string)
    ensures ':' !in BareHost(host) && IsLower(BareHost(host))
  {
    FirstPiece(host, ':');
  }

  lemma LowerConcat(x: string, y: string)
    ensures Lower(x + y) == Lower(x) + Lower(y)
  {
  }

  lemma LowerOfLower(s: string)
    requires IsLower(s)
    ensures Lower(s) == s
  {
  }

  /** Putting lower-case text without a colon in front of a host puts it in front of the bare host. */
  lemma BareHostAfter(x: string, host: string)
    requires ':' !in x && IsLower(x)
    ensures BareHost(x + host) == x + BareHost(host)
  {
    FirstPieceAfter(x, host, ':');
    LowerConcat(x, Split(host, ':')[0]);
    LowerOfLower(x);
  }

  lemma SameTail(a: string, b: string, tail: string)
    ensures a + tail == b + tail ==> a == b
    ensures |a + tail| == |b + tail| ==> |a| == |b|
  {
    if |a| == |b| {
      assert (a + tail)[..|a|] == a && (b + tail)[..|b|] == b;
    }
  }

  /** A label in front of a base domain is read back as that label. */
  lemma LabelReadsBack(slug: string, domain: string)
    requires IsLabel(slug) && BareHost(domain) != ""
    ensures SubdomainOf(slug + "." + domain, domain) == Some(slug)
  {
    var base := BareHost(domain);
    assert slug + "." + domain == (slug + ".") + domain;
    BareHostAfter(slug + ".", domain);
    var h := slug + "." + base;
    assert BareHost(slug + "." + domain) == h;
    SameTail(slug, "www", "." + base);
    assert "www." + base == "www" + ("." + base) && h == slug + ("." + base);
    assert h[|slug|..] == "." + base && h[..|slug|] == slug;
    SplitWhole(slug, '.');
  }

  lemma PrefixLacks(p: string, s: string, c: char)
    requires p <= s && c !in s
    ensures c !in p
  {
    assert forall i :: 0 <= i < |p| ==> p[i] == s[i];
  }

  lemma LowerLacksSlash(s: string)
    requires '/' !in s
    ensures '/' !in Lower(s)
  {
    assert forall i :: 0 <= i < |s| ==> s[i] != '/';
  }

  /** A label holds no slash when its host holds none. */
  lemma LabelHasNoSlash(host: string, domain: string)
    requires '/' !in host && SubdomainOf(host, domain).Some?
    ensures '/' !in SubdomainOf(host, domain).value
  {
    hide IsLabel;
    FirstPiece(host, ':');
    PrefixLacks(Split(host, ':')[0], host, '/');
    LowerLacksSlash(Split(host, ':')[0]);
    var h := BareHost(host);
    var front := h[..|h| - |BareHost(domain)| - 1];
    FirstPiece(front, '.');
    PrefixLacks(Split(front, '.')[0], h, '/');
  }
}
