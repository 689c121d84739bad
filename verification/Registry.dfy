/** The tenants by slug and alias, and the tenant a host belongs to. */
module Registry {
  import opened Wrappers
  import opened Hosts
  import opened TenantRouting

  datatype Config = Config(slug: string, aliases: seq<string>)

  datatype Problem = InvalidConfig | DuplicateKey(key: string)

  predicate IsSlugChar(c: char) {
    'a' <= c <= 'z' || '0' <= c <= '9'
  }

  /** Up to 63 lower-case letters and digits, with hyphens inside. */
  predicate IsSlug(s: string) {
    && 1 <= |s| <= 63 && IsSlugChar(s[0]) && IsSlugChar(s[|s| - 1])
    && forall i :: 0 <= i < |s| ==> IsSlugChar(s[i]) || s[i] == '-'
  }

  function KeysOf(c: Config): seq<string> {
    [c.slug] + c.aliases
  }

  predicate IsValid(c: Config) {
    forall i :: 0 <= i < |KeysOf(c)| ==> IsSlug(KeysOf(c)[i])
  }

  function AllKeys(configs: seq<Config>): seq<string> {
    if configs == [] then [] else AllKeys(configs[..|configs| - 1]) + KeysOf(configs[|configs| - 1])
  }

  predicate Unique(keys: seq<string>) {
    forall i, j :: 0 <= i < j < |keys| ==> keys[i] != keys[j]
  }

  /** Each key leads to the tenant it was configured for, and nothing else is a key. */
  ghost predicate Indexes(bySlug: map<string, Config>, configs: seq<Config>) {
    && (forall k :: k in bySlug <==> k in AllKeys(configs))
    && (forall c, k {:trigger k in KeysOf(c), c in configs} :: c in configs && k in KeysOf(c) ==> k in bySlug && bySlug[k] == c)
  }

  /** The map while the keys of one more configuration go in: its first `i` lead to it. */
  ghost predicate Entering(bySlug: map<string, Config>, front: seq<Config>, config: Config, i: nat) {
    && i <= |KeysOf(config)|
    && Unique(AllKeys(front) + KeysOf(config)[..i])
    && (forall k :: k in bySlug <==> k in AllKeys(front) + KeysOf(config)[..i])
    && (forall c, k {:trigger k in KeysOf(c), c in front} :: c in front && k in KeysOf(c) ==> k in bySlug && bySlug[k] == c)
    && (forall k :: k in KeysOf(config)[..i] ==> bySlug[k] == config)
  }

  class TenantRegistry {
    var bySlug: map<string, Config>
    var list: seq<Config>

    ghost predicate Valid()
      reads this
    {
      Unique(AllKeys(list)) && Indexes(bySlug, list) && forall c :: c in list ==> IsValid(c)
    }

    constructor ()
      ensures Valid() && list == []
    {
      bySlug, list := map[], [];
    }

    /** Take in the configurations; an invalid one or a repeated key stops with the problem. */
    method Load(configs: seq<Config>) returns (problem: Option<Problem>)
      requires Valid() && list == []
      modifies this
      ensures problem.None? <==> Unique(AllKeys(configs)) && forall c :: c in configs ==> IsValid(c)
      ensures problem.None? ==> Valid() && list == configs
    {
      hide IsValid, Unique, Indexes, AllKeys, Entering;
      for n := 0 to |configs|
        invariant list == configs[..n] && Valid()
      {
        var config := configs[n];
        if !IsValid(config) {
          return Some(InvalidConfig);
        }
        ghost var before := list;
        list := list + [config];
        assert configs[..n + 1] == before + [config];
        var keys := KeysOf(config);
        EnterNone(bySlug, before, config);
        for i := 0 to |keys|
          invariant list == before + [config]
          invariant Entering(bySlug, before, config, i)
        {
          if keys[i] in bySlug {
            RepeatedKey(bySlug, before, config, i);
            AllKeysPrefix(configs, n + 1);
            return Some(DuplicateKey(keys[i]));
          }
          EnterOne(bySlug, before, config, i);
          bySlug := bySlug[keys[i] := config];
        }
        EnteredAll(bySlug, before, config);
      }
      assert configs[..|configs|] == configs;
      return None;
    }

    function ResolveBySlug(slug: string): Option<Config>
      reads this
    {
      var key := Lower(slug);
      if key in bySlug then Some(bySlug[key]) else None
    }

    function ResolveByHost(host: string, domain: string): Option<Config>
      reads this
    {
      match SubdomainOf(host, domain)
      case None => None
      case Some(slug) => if slug in bySlug then Some(bySlug[slug]) else None
    }
  }

  lemma {:induction false} AllKeysPrefix(configs: seq<Config>, n: nat)
    requires n <= |configs| && !Unique(AllKeys(configs[..n]))
    ensures !Unique(AllKeys(configs))
  {
    if n < |configs| {
      assert configs[..|configs| - 1][..n] == configs[..n];
      AllKeysPrefix(configs[..|configs| - 1], n);
      var front := AllKeys(configs[..|configs| - 1]);
      var i, j :| 0 <= i < j < |front| && front[i] == front[j];
      assert AllKeys(configs)[i] == AllKeys(configs)[j];
    } else {
      assert configs[..n] == configs;
    }
  }

  lemma AllKeysAppend(front: seq<Config>, config: Config)
    ensures AllKeys(front + [config]) == AllKeys(front) + KeysOf(config)
  {
    assert (front + [config])[..|front|] == front;
  }

  lemma RepeatedKey(bySlug: map<string, Config>, front: seq<Config>, config: Config, i: nat)
    requires Entering(bySlug, front, config, i) && i < |KeysOf(config)| && KeysOf(config)[i] in bySlug
    ensures !Unique(AllKeys(front + [config]))
  {
    AllKeysAppend(front, config);
    var before, keys := AllKeys(front), KeysOf(config);
    var j :| 0 <= j < |before| + i && (before + keys[..i])[j] == keys[i];
    assert (before + keys)[j] == (before + keys)[|before| + i] == keys[i];
  }

  lemma EnterNone(bySlug: map<string, Config>, front: seq<Config>, config: Config)
    requires Unique(AllKeys(front)) && Indexes(bySlug, front)
    ensures Entering(bySlug, front, config, 0)
  {
    assert AllKeys(front) + KeysOf(config)[..0] == AllKeys(front);
  }

  lemma EnterOne(bySlug: map<string, Config>, front: seq<Config>, config: Config, i: nat)
    requires Entering(bySlug, front, config, i) && i < |KeysOf(config)| && KeysOf(config)[i] !in bySlug
    ensures Entering(bySlug[KeysOf(config)[i] := config], front, config, i + 1)
  {
    hide KeysOf, AllKeys;
    var before, keys := AllKeys(front), KeysOf(config);
    assert before + keys[..i + 1] == before + keys[..i] + [keys[i]];
  }

  lemma EnteredAll(bySlug: map<string, Config>, front: seq<Config>, config: Config)
    requires Entering(bySlug, front, config, |KeysOf(config)|)
    ensures Unique(AllKeys(front + [config])) && Indexes(bySlug, front + [config])
  {
    AllKeysAppend(front, config);
    assert KeysOf(config)[..|KeysOf(config)|] == KeysOf(config);
  }

  /**
   * A configured tenant's own origin resolves back to it, under every slug and alias it has, as
   * long as the base is not local and not already led by that slug.
   */
  lemma OriginBelongsToTenant(registry: TenantRegistry, c: Config, key: string, base: string)
    requires registry.Valid() && c in registry.list && key in KeysOf(c)
    requires key != "www" && Prepends(key, base)
    ensures registry.ResolveByHost(OriginOf(key, base).host, base) == Some(c)
    ensures registry.ResolveBySlug(key) == Some(c)
  {
    assert IsSlug(key);
    SlugIsPlain(key);
    LowerOfLower(key);
    OriginResolves(key, Domains(base, None, base));
  }

  lemma SlugIsPlain(s: string)
    requires IsSlug(s)
    ensures '.' !in s && ':' !in s && IsLower(s)
  {
  }
}
