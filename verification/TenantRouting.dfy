/**
 * Where a tenant lives: the origin its links point at, the base its internal links carry, and what
 * the middleware does with a request for a host and path.
 */
module TenantRouting {
  import opened Wrappers
  import opened Text
  import opened Hosts

  // ----- the origin of a tenant's links -----

  /** A missing base throws; a local base has no origin; any other base has the host of an https origin. */
  datatype Origin = Absent | Local | Host(host: string)

  predicate IsSpace(c: char) {
    var n := c as int;
    0x9 <= n <= 0xD || n == 0x20 || n == 0xA0 || n == 0x1680 || 0x2000 <= n <= 0x200A
    || n == 0x2028 || n == 0x2029 || n == 0x202F || n == 0x205F || n == 0x3000 || n == 0xFEFF
  }

  predicate IsBlank(s: string) {
    forall i :: 0 <= i < |s| ==> IsSpace(s[i])
  }

  predicate IsLocalName(h: string) {
    h == "localhost" || EndsWith(h, ".localhost") || "127." <= h || h == "::1"
  }

  predicate IsLocalHost(host: string) {
    IsLocalName(BareHost(host))
  }

  /** Drop leading copies of `prefix` while a second one follows. */
  function Undouble(b: string, prefix: string): (r: string)
    ensures !(prefix + prefix <= Lower(r)) || prefix == ""
    decreases |b|
  {
    if prefix != "" && prefix + prefix <= Lower(b) then Undouble(b[|prefix|..], prefix) else b
  }

  /** The case the origin falls in, and its host. */
  function OriginOf(slug: string, base: string): Origin {
    var s, bare := Lower(slug), BareHost(base);
    if IsBlank(bare) then Absent
    else if IsLocalHost(base) then Local
    else if bare == s then Host(base)
    else if s + "." <= bare then Host(Undouble(base, s + "."))
    else Host(s + "." + base)
  }

  method TenantOrigin(slug: string, base: string) returns (origin: Origin)
    ensures origin == OriginOf(slug, base)
  {
    var s := Lower(slug);
    var bare := BareHost(base);
    if IsBlank(bare) {
      return Absent;
    }
    if IsLocalHost(base) {
      return Local;
    }
    if bare == s {
      return Host(base);
    }
    if s + "." <= bare {
      var prefix := s + ".";
      var b := base;
      while prefix + prefix <= Lower(b)
        invariant Undouble(b, prefix) == Undouble(base, prefix)
        decreases |b|
      {
        b := b[|prefix|..];
      }
      return Host(b);
    }
    return Host(s + "." + base);
  }

  /** Whether the slug is put in front of the base: neither the base itself nor leading it already. */
  predicate Prepends(slug: string, base: string) {
    OriginOf(slug, base).Host? && BareHost(base) != Lower(slug) && !(Lower(slug) + "." <= BareHost(base))
  }

  /** A slug that, put in front of a base, is still read back as a slug in front of it. */
  predicate Stable(slug: string) {
    var s := Lower(slug);
    ':' !in s && s != "127" && !("127." <= s)
  }

  // ----- idempotence -----

  lemma LowerIsLower(s: string)
    ensures IsLower(Lower(s))
  {
  }

  lemma LowerDrop(s: string, n: nat)
    requires n <= |s|
    ensures Lower(s[n..]) == Lower(s)[n..] && Lower(s[..n]) == Lower(s)[..n]
  {
  }

  /** Within the part before any port, dropping characters commutes with taking the bare host. */
  lemma BareHostDrop(host: string, n: nat)
    requires n <= |BareHost(host)|
    ensures BareHost(host[n..]) == BareHost(host)[n..]
  {
    FirstPiece(host, ':');
    var first := Split(host, ':')[0];
    assert host[..n] == first[..n];
    FirstPieceAfter(host[..n], host[n..], ':');
    assert host[..n] + host[n..] == host;
    assert first[n..] == Split(host[n..], ':')[0];
    LowerDrop(first, n);
  }

  /** Text without a colon leads a host in lower case exactly when it leads the bare host. */
  lemma LeadsBareHost(prefix: string, host: string)
    requires ':' !in prefix && IsLower(prefix)
    ensures prefix <= Lower(host) <==> prefix <= BareHost(host)
  {
    FirstPiece(host, ':');
    var first := Split(host, ':')[0];
    assert Lower(first) == Lower(host)[..|first|] by { LowerDrop(host, |first|); assert host[..|first|] == first; }
    assert |first| < |host| ==> Lower(host)[|first|] == ':';
  }

  /** Undoubling keeps one copy in front and cuts the host only inside its bare part. */
  lemma {:induction false} UndoubleBareHost(b: string, prefix: string) returns (n: nat)
    requires prefix != "" && ':' !in prefix && IsLower(prefix)
    requires prefix <= BareHost(b)
    ensures n <= |BareHost(b)| && Undouble(b, prefix) == b[n..]
    ensures BareHost(Undouble(b, prefix)) == BareHost(b)[n..]
    ensures prefix <= BareHost(Undouble(b, prefix))
    decreases |b|
  {
    hide *;
    UndoubleOnce(b, prefix);
    n := 0;
    assert b[0..] == b && BareHost(b)[0..] == BareHost(b);
    if prefix + prefix <= Lower(b) {
      LowerTwice(prefix);
      LeadsBareHost(prefix + prefix, b);
      var k := |prefix|;
      BareHostDrop(b, k);
      DropOne(prefix, BareHost(b));
      n := UndoubleBareHost(b[k..], prefix);
      DropTwice(b, k, n);
      DropTwice(BareHost(b), k, n);
      n := n + k;
    }
  }

  lemma UndoubleOnce(b: string, prefix: string)
    requires prefix != ""
    ensures Undouble(b, prefix) == if prefix + prefix <= Lower(b) then Undouble(b[|prefix|..], prefix) else b
  {
  }

  lemma LowerTwice(s: string)
    requires IsLower(s) && ':' !in s
    ensures IsLower(s + s) && ':' !in s + s
  {
  }

  lemma DropOne(prefix: string, s: string)
    requires prefix + prefix <= s
    ensures prefix <= s[|prefix|..]
  {
    assert s[|prefix|..][..|prefix|] == (prefix + prefix)[|prefix|..];
  }

  lemma DropTwice(s: string, k: nat, n: nat)
    requires k + n <= |s|
    ensures s[k..][n..] == s[n + k..]
  {
  }

  lemma DotsStayApart(s: string, bare: string)
    ensures EndsWith(s + "." + bare, ".localhost") ==> bare == "localhost" || EndsWith(bare, ".localhost")
  {
    var h := s + "." + bare;
    assert h[|s|] == '.';
    if EndsWith(h, ".localhost") {
      var tail := h[|h| - 10..];
      assert tail == ".localhost";
      if |bare| >= 10 {
        assert bare[|bare| - 10..] == tail;
      } else if |bare| == 9 {
        assert bare == tail[1..];
      }
    }
  }

  /** Putting a slug in front of a base that is not local makes a local host only for the slugs named. */
  lemma PrependedIsLocal(slug: string, base: string)
    requires IsLower(slug) && ':' !in slug && !IsLocalHost(base)
    ensures BareHost(slug + "." + base) == slug + "." + BareHost(base)
    ensures IsLocalHost(slug + "." + base) <==> slug == "127" || "127." <= slug
  {
    var bare := BareHost(base);
    assert slug + "." + base == (slug + ".") + base;
    BareHostAfter(slug + ".", base);
    DotsStayApart(slug, bare);
    var h := slug + "." + bare;
    assert h[|slug|] == '.';
    BareHostShape(h);
    if "127." <= h && |slug| >= 4 {
      assert slug[..4] == h[..4];
    }
    if "127." <= h && |slug| < 4 {
      assert h[..|slug|] == slug && "127."[..|slug|] == slug;
      assert |slug| == 3;
    }
    if "127." <= slug { assert h[..4] == slug[..4]; }
  }

  lemma TailEnds(s: string, n: nat, tail: string)
    requires n <= |s| && EndsWith(s[n..], tail)
    ensures EndsWith(s, tail)
  {
  }

  lemma SameFront(p: string, a: string, b: string)
    requires p <= a && p <= b
    ensures forall q: string :: |q| <= |p| && q <= a ==> q <= b
  {
    forall q: string | |q| <= |p| && q <= a ensures q <= b {
      assert forall i :: 0 <= i < |q| ==> q[i] == a[i] == p[i] == b[i];
    }
  }

  /** Cutting copies of `s.` off the front of a name that is not local leaves one that is not either. */
  lemma StillNotLocal(s: string, bare: string, n: nat)
    requires ':' !in bare && !IsLocalName(bare)
    requires n <= |bare| && s + "." <= bare && s + "." <= bare[n..]
    ensures !IsLocalName(bare[n..]) && !IsBlank(bare[n..])
  {
    var rest := bare[n..];
    assert rest[|s|] == (s + ".")[|s|] == '.';
    assert !IsBlank(rest);
    assert '.' in rest && rest != "localhost" && rest[|s|] != ':';
    if EndsWith(rest, ".localhost") { TailEnds(bare, n, ".localhost"); }
    if "127." <= rest { StillNotLoopback(s, bare, rest); }
    NoColonLeft(bare, n);
  }

  lemma NoColonLeft(s: string, n: nat)
    requires n <= |s| && ':' !in s
    ensures ':' !in s[n..] && s[n..] != "::1"
  {
    var loopback := "::1";
    assert loopback[0] == ':' && ':' in loopback;
  }

  lemma StillNotLoopback(s: string, bare: string, rest: string)
    requires s + "." <= bare && s + "." <= rest && "127." <= rest
    ensures "127." <= bare
  {
    assert rest[|s|] == (s + ".")[|s|] == '.';
    assert forall i :: 0 <= i < 3 ==> rest[i] == "127."[i] != '.';
    SameFront(s + ".", rest, bare);
  }

  /**
   * Asking for the origin again on the host already built gives the same host, exactly when the slug
   * did not have to be put in front, or holds no colon and does not make the host look like a
   * loopback address.
   */
  lemma OriginIdempotent(slug: string, base: string)
    requires OriginOf(slug, base).Host?
    ensures OriginOf(slug, OriginOf(slug, base).host) == OriginOf(slug, base) <==> (Prepends(slug, base) ==> Stable(slug))
  {
    LowerIsLower(slug);
    BareHostShape(base);
    if BareHost(base) == Lower(slug) {
    } else if Lower(slug) + "." <= BareHost(base) {
      UndoubledAgain(slug, base);
    } else if ':' !in Lower(slug) {
      PrependedAgain(slug, base);
    } else {
      ColonSlugGrows(slug, base);
    }
  }

  lemma UndoubledAgain(slug: string, base: string)
    requires !IsLocalHost(base) && Lower(slug) + "." <= BareHost(base)
    ensures OriginOf(slug, Undouble(base, Lower(slug) + ".")) == Host(Undouble(base, Lower(slug) + "."))
  {
    hide BareHost, Lower, IsLocalName, IsBlank;
    var s, bare := Lower(slug), BareHost(base);
    var prefix := s + ".";
    var h := Undouble(base, prefix);
    LowerIsLower(slug);
    BareHostShape(base);
    assert forall i :: 0 <= i < |s| ==> s[i] == bare[i];
    var n := UndoubleBareHost(base, prefix);
    StillNotLocal(s, bare, n);
    assert Undouble(h, prefix) == h;
    assert |prefix| > |s|;
  }

  /** A slug put in front of a base it does not lead is not doubled. */
  lemma StaysSingle(s: string, base: string)
    requires IsLower(s) && ':' !in s && !(s + "." <= BareHost(base))
    ensures Undouble(s + "." + base, s + ".") == s + "." + base
  {
    var h, prefix := s + "." + base, s + ".";
    assert h == prefix + base;
    BareHostAfter(prefix, base);
    LeadsBareHost(prefix + prefix, h);
    assert (prefix + BareHost(base))[|prefix|..] == BareHost(base);
    if prefix + prefix <= prefix + BareHost(base) {
      DropOne(prefix, prefix + BareHost(base));
    }
  }

  lemma PrependedAgain(slug: string, base: string)
    requires !IsLocalHost(base) && ':' !in Lower(slug) && !(Lower(slug) + "." <= BareHost(base))
    ensures OriginOf(slug, Lower(slug) + "." + base) == Host(Lower(slug) + "." + base) <==> Stable(slug)
  {
    hide BareHost, Lower, IsLocalName;
    var s := Lower(slug);
    var h := s + "." + base;
    LowerIsLower(slug);
    PrependedIsLocal(s, base);
    StaysSingle(s, base);
    assert BareHost(h)[|s|] == '.' && s + "." <= BareHost(h);
    assert !IsBlank(BareHost(h));
  }

  lemma ColonSlugGrows(slug: string, base: string)
    requires ':' in Lower(slug)
    ensures OriginOf(slug, Lower(slug) + "." + base) != Host(Lower(slug) + "." + base)
  {
    hide BareHost, Lower, IsLocalName, IsBlank;
    var s := Lower(slug);
    var h := s + "." + base;
    BareHostShape(h);
    var i :| 0 <= i < |s| && s[i] == ':';
    assert s != BareHost(h) && (s + ".")[i] == ':';
    assert |s + "." + h| > |h|;
  }

  /**
   * An origin's host leads with the slug twice exactly when the slug holds a colon and the base
   * leads with it already, past what counts as its bare host; a slug without one is never doubled.
   */
  lemma DoubledExactlyWhen(slug: string, base: string)
    requires OriginOf(slug, base).Host?
    ensures Lower(slug) + "." + (Lower(slug) + ".") <= Lower(OriginOf(slug, base).host)
       <==> ':' in slug && Lower(slug) + "." <= Lower(base)
  {
    var s := Lower(slug);
    var h := OriginOf(slug, base).host;
    LowerIsLower(slug);
    BareHostShape(base);
    ColonSurvives(slug);
    if ':' in slug {
      ColonIsPrepended(slug, base);
      LowerConcat(s + ".", base);
      LowerOfLower(s + ".");
      assert Lower(h) == (s + ".") + Lower(base);
      LeadTwice(s + ".", Lower(base));
    } else if BareHost(base) == s {
      LeadsBareHost(s + "." + (s + "."), base);
    } else if s + "." <= BareHost(base) {
      assert s + "." + (s + ".") == (s + ".") + (s + ".");
    } else {
      StaysSingle(s, base);
      assert Undouble(h, s + ".") == h;
      assert s + "." + (s + ".") == (s + ".") + (s + ".");
    }
  }

  lemma ColonSurvives(slug: string)
    ensures ':' in slug <==> ':' in Lower(slug)
  {
    if ':' in slug {
      var i :| 0 <= i < |slug| && slug[i] == ':';
      assert Lower(slug)[i] == ':';
    }
    if ':' in Lower(slug) {
      var i :| 0 <= i < |slug| && Lower(slug)[i] == ':';
      assert slug[i] == ':';
    }
  }

  /** A slug holding a colon is never the bare host, nor in front of it. */
  lemma ColonIsPrepended(slug: string, base: string)
    requires OriginOf(slug, base).Host? && ':' in Lower(slug)
    ensures OriginOf(slug, base).host == (Lower(slug) + ".") + base
  {
    BareHostShape(base);
    var i :| 0 <= i < |Lower(slug)| && Lower(slug)[i] == ':';
    assert (Lower(slug) + ".")[i] == ':';
    assert Lower(slug) + "." + base == (Lower(slug) + ".") + base;
  }

  lemma LeadTwice(p: string, rest: string)
    ensures p + p <= p + rest <==> p <= rest
  {
    assert (p + rest)[|p|..] == rest;
    if p + p <= p + rest { assert (p + rest)[|p|..][..|p|] == p; }
  }

  /** The slug `127` is one that loses it: its own origin is taken for a loopback host. */
  lemma Slug127IsNotIdempotent(base: string)
    requires OriginOf("127", base).Host? && Prepends("127", base)
    ensures OriginOf("127", OriginOf("127", base).host) == Local
  {
    LowerOfLower("127");
    PrependedIsLocal("127", base);
    assert BareHost("127" + "." + base)[3] == '.';
  }

  // ----- resolving a request -----

  /** The configured hosts: the base tenants nest under, the platform root, and the legacy root. */
  datatype Domains = Domains(tenantBase: string, platform: Option<string>, legacy: string)

  datatype RoutePlan =
    | Redirect(pathname: string, host: Option<string>)
    | Rewrite(pathname: string, slug: string)
    | Next(named: Option<string>)

  predicate IsPlatformHost(host: string, platform: Option<string>) {
    platform.Some? && BareHost(host) == BareHost(platform.value)
  }

  /** The base of tenant-relative links: nothing on a tenant's own host, its path anywhere else. */
  function TenantBaseForHost(host: string, slug: string, d: Domains): string {
    if IsPlatformHost(host, d.platform) || SubdomainOf(host, d.tenantBase).None? then "/u/" + slug else ""
  }

  predicate IsMedia(pathname: string) {
    pathname == "/media" || "/media/" <= pathname
  }

  /** The tenant a host names directly. */
  function TenantOf(host: string, d: Domains): (slug: Option<string>)
    ensures slug.Some? ==> IsLabel(slug.value)
  {
    if IsPlatformHost(host, d.platform) then None else SubdomainOf(host, d.tenantBase)
  }

  /** The tenant a host on the legacy root names, when that root is still a different one. */
  function LegacyTenantOf(host: string, d: Domains): (slug: Option<string>)
    ensures slug.Some? ==> IsLabel(slug.value)
  {
    if IsPlatformHost(host, d.platform) || TenantOf(host, d).Some? then None
    else if BareHost(d.legacy) == BareHost(d.tenantBase) || BareHost(host) == BareHost(d.tenantBase) then None
    else SubdomainOf(host, d.legacy)
  }

  /** The path as its tenant's own host shows it: without a leading `/u/{slug}`. */
  function WithoutTenant(pathname: string, slug: string): Option<string> {
    var dupe := "/u/" + slug;
    if pathname == dupe then Some("/")
    else if dupe + "/" <= pathname then Some(pathname[|dupe|..])
    else None
  }

  function UnderTenant(pathname: string, slug: string): string {
    "/u/" + slug + (if pathname == "/" then "" else pathname)
  }

  /** The tenant a path names: what follows `/u/`. */
  function PathTenant(pathname: string): Option<string> {
    if "/u/" <= pathname then
      var parts := Split(pathname, '/');
      var slug := if |parts| > 2 then parts[2] else "";
      if slug != "" then Some(slug) else None
    else None
  }

  function PlanRoute(host: string, pathname: string, d: Domains): RoutePlan {
    if IsMedia(pathname) then Next(None)
    else if TenantOf(host, d).Some? then
      var slug := TenantOf(host, d).value;
      match WithoutTenant(pathname, slug)
      case Some(clean) => Redirect(clean, None)
      case None => Rewrite(UnderTenant(pathname, slug), slug)
    else if LegacyTenantOf(host, d).Some? then
      Redirect(pathname, Some(LegacyTenantOf(host, d).value + "." + d.tenantBase))
    else Next(PathTenant(pathname))
  }

  // ----- the links and the resolver agree -----

  /**
   * The host of a tenant's origin resolves back to that tenant, exactly when the slug had to be put
   * in front of the base and is not `www`.
   */
  lemma OriginResolves(slug: string, d: Domains)
    requires slug != "" && '.' !in slug && ':' !in slug
    requires OriginOf(slug, d.tenantBase).Host?
    ensures SubdomainOf(OriginOf(slug, d.tenantBase).host, d.tenantBase) == Some(Lower(slug))
       <==> Prepends(slug, d.tenantBase) && Lower(slug) != "www"
  {
    var s, base := Lower(slug), d.tenantBase;
    var h := OriginOf(slug, base).host;
    LowerIsLower(slug);
    if Prepends(slug, base) {
      if s != "www" {
        assert IsLabel(s);
        LabelReadsBack(s, base);
      }
    } else if BareHost(base) != s {
      assert forall i :: 0 <= i < |s| ==> s[i] == BareHost(base)[i];
      var n := UndoubleBareHost(base, s + ".");
      ShorterHasNoLabel(h, base);
    }
  }

  /** A host no longer than the base has no label in front of it. */
  lemma ShorterHasNoLabel(host: string, base: string)
    requires |BareHost(host)| <= |BareHost(base)|
    ensures SubdomainOf(host, base).None?
  {
  }

  /** The path as its tenant's own host shows it in the end: without any leading `/u/{slug}`. */
  function Stripped(pathname: string, slug: string): string
    decreases |pathname|
  {
    match WithoutTenant(pathname, slug)
    case Some(clean) => Stripped(clean, slug)
    case None => pathname
  }

  /** A link built for a host, as the path it asks for. */
  function LinkTo(host: string, slug: string, path: string, d: Domains): string {
    TenantBaseForHost(host, slug, d) + path
  }

  /** With or without the `/u/{slug}` in front, a link strips to the page it is about. */
  lemma LinkStrips(host: string, slug: string, path: string, d: Domains)
    requires "/" <= path
    ensures Stripped(LinkTo(host, slug, path, d), slug) == Stripped(path, slug)
    ensures LinkTo(host, slug, path, d) == path || LinkTo(host, slug, path, d) == "/u/" + slug + path
  {
    var dupe := "/u/" + slug;
    assert "" + path == path;
    assert dupe + path != dupe && dupe + "/" <= dupe + path by { assert (dupe + path)[..|dupe| + 1] == dupe + "/"; }
    assert (dupe + path)[|dupe|..] == path;
  }

  /** By path a link names its tenant, and is never media. */
  lemma LinkNamesTenant(slug: string, path: string)
    requires slug != "" && '/' !in slug && "/" <= path
    ensures PathTenant("/u/" + slug + path) == Some(slug) && !IsMedia("/u/" + slug + path)
  {
    var full := "/u/" + slug + path;
    assert full[1] == 'u' && "/media"[1] == 'm';
    SlugOfPath(slug, path);
  }

  /**
   * Where a link to `path` goes, on the tenant's own host and by path elsewhere: onto the same
   * `/u/{slug}` tree, home page included.
   */
  lemma LinksReachTheTenant(host: string, slug: string, path: string, d: Domains)
    requires slug != "" && '/' !in slug
    requires "/" <= path && !IsMedia(path) && WithoutTenant(path, slug).None?
    requires TenantOf(host, d) == Some(slug) || (TenantOf(host, d).None? && LegacyTenantOf(host, d).None?)
    ensures PlanRoute(host, LinkTo(host, slug, path, d), d) ==
      if TenantOf(host, d).Some? then Rewrite(UnderTenant(path, slug), slug) else Next(Some(slug))
  {
    LinkStrips(host, slug, path, d);
    LinkNamesTenant(slug, path);
  }

  lemma SlugOfPath(slug: string, path: string)
    requires '/' !in slug && "/" <= path
    ensures var parts := Split("/u/" + slug + path, '/'); |parts| > 2 && parts[2] == slug
  {
    var rest := slug + path[1..];
    var tail := slug + path;
    assert tail == slug + ['/'] + path[1..];
    SplitAround(slug, '/', path[1..]);
    SplitWhole(slug, '/');
    assert "/u/" + slug + path == "" + ['/'] + ("u" + ['/'] + tail);
    SplitAround("", '/', "u" + ['/'] + tail);
    SplitAround("u", '/', tail);
    SplitWhole("u", '/');
    SplitWhole("", '/');
  }

  // ----- moving off the legacy root -----

  /** The host a legacy request is sent to is never a legacy host itself. */
  lemma MovedHostIsNotLegacy(host: string, d: Domains)
    requires LegacyTenantOf(host, d).Some?
    ensures LegacyTenantOf(LegacyTenantOf(host, d).value + "." + d.tenantBase, d).None?
  {
    var slug := LegacyTenantOf(host, d).value;
    var moved := slug + "." + d.tenantBase;
    if BareHost(d.tenantBase) != "" {
      LabelReadsBack(slug, d.tenantBase);
    } else {
      assert moved == (slug + ".") + d.tenantBase;
      BareHostAfter(slug + ".", d.tenantBase);
      assert BareHost(moved) == slug + "." + "" == slug + ".";
      NoLabelInLabel(slug, BareHost(d.legacy));
    }
  }

  lemma NoLabelInLabel(slug: string, base: string)
    requires '.' !in slug && base != ""
    ensures !EndsWith(slug + ".", "." + base)
  {
    var h := slug + ".";
    assert forall i :: 0 <= i < |slug| ==> h[i] == slug[i] != '.';
    assert |base| < |h| ==> h[|h| - |base| - 1] == h[|h| - |base| - 1..][0];
  }

  /** It names the same tenant, unless it is the platform's own host or there is no tenant base. */
  lemma MovedHostKeepsTenant(host: string, d: Domains)
    requires LegacyTenantOf(host, d).Some? && BareHost(d.tenantBase) != ""
    ensures var moved := LegacyTenantOf(host, d).value + "." + d.tenantBase;
            TenantOf(moved, d) == (if IsPlatformHost(moved, d.platform) then None else LegacyTenantOf(host, d))
  {
    LabelReadsBack(LegacyTenantOf(host, d).value, d.tenantBase);
  }
}
