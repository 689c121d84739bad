/**
 * The middleware over a whole chain of redirects: the legacy host hop, the `/u/{slug}` hop and the
 * timetable query hop, until a request is rewritten onto its tenant or passed through.
 */
module Middleware {
  import opened Wrappers
  import opened Hosts
  import opened TenantRouting
  import opened TimetableUrl

  type Headers = map<string, string>

  const TENANT_HEADER := "x-tenant-slug"

  datatype Request = Request(host: string, pathname: string, query: Query, headers: Headers)

  datatype Response =
    | Moved(status: int, to: Request)
    | Rewritten(pathname: string, query: Query, headers: Headers)
    | Passed(headers: Headers)

  /** The request's headers with the tenant header taken out and, when a tenant is known, set to it. */
  function TenantHeaders(from: Headers, slug: Option<string>): (headers: Headers)
    ensures forall k :: k != TENANT_HEADER ==> (k in headers <==> k in from) && (k in from ==> headers[k] == from[k])
    ensures TENANT_HEADER in headers <==> slug.Some? && slug.value != ""
    ensures TENANT_HEADER in headers ==> headers[TENANT_HEADER] == slug.value
  {
    var headers := from - {TENANT_HEADER};
    if slug.Some? && slug.value != "" then headers[TENANT_HEADER := slug.value] else headers
  }

  function Respond(req: Request, d: Domains): Response {
    match PlanRoute(req.host, req.pathname, d)
    case Redirect(pathname, host) =>
      Moved(308, req.(host := if host.Some? then host.value else req.host, pathname := pathname))
    case plan =>
      match LegacyTimetableRedirect(req.pathname, req.query)
      case Some(path) => Moved(301, req.(pathname := path, query := []))
      case None =>
        match plan
        case Rewrite(pathname, slug) => Rewritten(pathname, req.query, TenantHeaders(req.headers, Some(slug)))
        case Next(named) => Passed(TenantHeaders(req.headers, named))
  }

  /** The tenant a request that is not redirected is for: the host's, else the path's, and none for media. */
  function NamedTenant(host: string, pathname: string, d: Domains): Option<string> {
    if IsMedia(pathname) then None
    else if TenantOf(host, d).Some? then TenantOf(host, d)
    else PathTenant(pathname)
  }

  function HeaderOf(headers: Headers): Option<string> {
    if TENANT_HEADER in headers then Some(headers[TENANT_HEADER]) else None
  }

  /**
   * One request through the middleware; `to` starts as the request's own URL and is changed in place.
   * A redirect is permanent: 308 where the query survives, 301 only for a timetable query moved into
   * the path of the same host. Anything else carries the tenant the host or path names in the tenant
   * header, and never what the client put there.
   */
  method Handle(req: Request, d: Domains) returns (response: Response)
    ensures response == Respond(req, d)
    ensures response.Moved? ==> response.status == 308 || response.status == 301
    ensures response.Moved? && response.status == 308 <==> PlanRoute(req.host, req.pathname, d).Redirect?
    ensures response.Moved? && response.status == 308 ==> response.to.query == req.query
    ensures response.Moved? && response.status == 301
      ==> response.to.query == [] && response.to.host == req.host && req.query != []
    ensures response.Moved? && response.to.host != req.host ==> response.status == 308 && LegacyTenantOf(req.host, d).Some?
    ensures response.Rewritten? ==> TenantOf(req.host, d).Some? && !IsMedia(req.pathname)
    ensures !response.Moved? ==> HeaderOf(response.headers) == NamedTenant(req.host, req.pathname, d)
  {
    MovesOnlyQueries(req.pathname, req.query);
    var plan := PlanRoute(req.host, req.pathname, d);
    if plan.Redirect? {
      var to := req;
      if plan.host.Some? {
        to := to.(host := plan.host.value);
      }
      to := to.(pathname := plan.pathname);
      to := to.(query := req.query);
      return Moved(308, to);
    }
    var legacyPath := LegacyTimetableRedirect(req.pathname, req.query);
    if legacyPath.Some? {
      var to := req;
      to := to.(pathname := legacyPath.value);
      to := to.(query := []);
      return Moved(301, to);
    }
    if plan.Rewrite? {
      return Rewritten(plan.pathname, req.query, TenantHeaders(req.headers, Some(plan.slug)));
    }
    return Passed(TenantHeaders(req.headers, plan.named));
  }

  // ----- the chain of redirects -----

  function LegacyRank(req: Request, d: Domains): nat {
    if LegacyTenantOf(req.host, d).Some? then 1 else 0
  }

  datatype Hop = HostHop | PathHop | QueryHop

  function HopKind(req: Request, d: Domains): Hop
    requires Respond(req, d).Moved?
  {
    match PlanRoute(req.host, req.pathname, d)
    case Redirect(_, host) => if host.Some? then HostHop else PathHop
    case _ => QueryHop
  }

  /** Each hop leaves the legacy root for good, or shortens the path, or drops the query. */
  lemma HopsDescend(req: Request, d: Domains)
    requires Respond(req, d).Moved?
    ensures var to := Respond(req, d).to;
            match HopKind(req, d)
            case HostHop => LegacyRank(req, d) == 1 && LegacyRank(to, d) == 0
            case PathHop => to.host == req.host && to.query == req.query && |to.pathname| < |req.pathname|
            case QueryHop => to.host == req.host && to.query == [] && req.query != []
  {
    if HopKind(req, d) == HostHop {
      MovedHostIsNotLegacy(req.host, d);
    }
    MovesOnlyQueries(req.pathname, req.query);
  }

  /** The response at the end of the redirects. */
  function Settle(req: Request, d: Domains): (r: Response)
    ensures !r.Moved?
    decreases LegacyRank(req, d), |req.query|, |req.pathname|
  {
    var r := Respond(req, d);
    if r.Moved? then
      HopsDescend(req, d);
      Settle(r.to, d)
    else r
  }

  /** The hops on the way there. */
  function Hops(req: Request, d: Domains): seq<Hop>
    decreases LegacyRank(req, d), |req.query|, |req.pathname|
  {
    var r := Respond(req, d);
    if r.Moved? then
      HopsDescend(req, d);
      [HopKind(req, d)] + Hops(r.to, d)
    else []
  }

  predicate NoHostHop(hops: seq<Hop>) {
    forall i :: 0 <= i < |hops| ==> hops[i] != HostHop
  }

  /** A request whose host is not legacy, or whose path is media, is never sent to another host. */
  lemma {:induction false} StaysOnHost(req: Request, d: Domains)
    requires LegacyTenantOf(req.host, d).None? || IsMedia(req.pathname)
    ensures NoHostHop(Hops(req, d))
    decreases LegacyRank(req, d), |req.query|, |req.pathname|
  {
    var r := Respond(req, d);
    if r.Moved? {
      HopsDescend(req, d);
      if IsMedia(req.pathname) { MediaStaysMedia(req.pathname, req.query); }
      StaysOnHost(r.to, d);
    }
  }

  lemma MediaStaysMedia(pathname: string, query: Query)
    requires IsMedia(pathname) && LegacyTimetableRedirect(pathname, query).Some?
    ensures IsMedia(LegacyTimetableRedirect(pathname, query).value)
  {
    var path := LegacyTimetableRedirect(pathname, query).value;
    assert path[..|pathname|] == pathname;
    assert pathname != "/media" by {
      assert "/media"[0] == '/' && |"/media"| < 10;
    }
    assert path[..7] == pathname[..7];
  }

  /** The host hop can only come first. */
  lemma HostHopComesFirst(req: Request, d: Domains)
    ensures forall i :: 0 <= i < |Hops(req, d)| && Hops(req, d)[i] == HostHop ==> i == 0
  {
    var r := Respond(req, d);
    if r.Moved? {
      HopsDescend(req, d);
      if HopKind(req, d) == QueryHop && LegacyTenantOf(req.host, d).Some? {
        MediaStaysMedia(req.pathname, req.query);
      }
      StaysOnHost(r.to, d);
      assert Hops(req, d)[1..] == Hops(r.to, d);
    }
  }

  /** Moving a timetable query into the path never makes the path lead with its tenant. */
  lemma QueryHopKeepsPathClean(pathname: string, query: Query, slug: string)
    requires LegacyTimetableRedirect(pathname, query).Some?
    requires '/' !in slug && WithoutTenant(pathname, slug).None?
    ensures WithoutTenant(LegacyTimetableRedirect(pathname, query).value, slug).None?
  {
    var path := LegacyTimetableRedirect(pathname, query).value;
    var dupe := "/u/" + slug;
    assert path[..|pathname|] == pathname;
    assert |path| > |pathname| ==> path[|pathname|] == '/';
    assert pathname == "timetable" ==> path[0] == 't' && dupe[0] == '/';
    assert forall i :: 3 <= i < |dupe| ==> dupe[i] == slug[i - 3] != '/';
    ShorterPrefix(dupe + "/", pathname, path);
    ShorterPrefix(dupe, pathname, path);
    assert dupe <= dupe + "/";
  }

  lemma ShorterPrefix(p: string, q: string, s: string)
    ensures p <= s && q <= s && |p| <= |q| ==> p <= q
  {
  }

  /** Once the query has moved into the path there is nothing left to redirect. */
  lemma QueryHopComesLast(req: Request, d: Domains)
    requires '/' !in req.host
    requires Respond(req, d).Moved? && HopKind(req, d) == QueryHop
    ensures !Respond(Respond(req, d).to, d).Moved?
  {
    var to := Respond(req, d).to;
    HopsDescend(req, d);
    MovesOnlyQueries(to.pathname, to.query);
    if IsMedia(req.pathname) {
      MediaStaysMedia(req.pathname, req.query);
    } else if TenantOf(req.host, d).Some? {
      LabelHasNoSlash(req.host, d.tenantBase);
      QueryHopKeepsPathClean(req.pathname, req.query, TenantOf(req.host, d).value);
    }
  }

  // ----- the tenant a chain ends at -----

  /** The tenant a host names, directly or after the hop off the legacy root. */
  function EventualTenant(host: string, d: Domains): Option<string> {
    if TenantOf(host, d).Some? then TenantOf(host, d)
    else if LegacyTenantOf(host, d).Some? then TenantOf(LegacyTenantOf(host, d).value + "." + d.tenantBase, d)
    else None
  }

  /** The path the last request of a chain asks for. */
  function FinalPath(req: Request, d: Domains): string
    decreases LegacyRank(req, d), |req.query|, |req.pathname|
  {
    var r := Respond(req, d);
    if r.Moved? then
      HopsDescend(req, d);
      FinalPath(r.to, d)
    else req.pathname
  }

  /** A response that serves a page of a tenant: the page under the tenant's tree, with the header naming it. */
  predicate Serves(r: Response, slug: string, page: string) {
    r.Rewritten? && r.pathname == UnderTenant(page, slug) && HeaderOf(r.headers) == Some(slug)
  }

  /** A response that passes a path through, with the header naming the tenant the path names if any. */
  predicate PassesThrough(r: Response, page: string) {
    r.Passed? && HeaderOf(r.headers) == if IsMedia(page) then None else PathTenant(page)
  }

  /**
   * A request for a tenant's host, current or legacy, ends at the page of that tenant the last path
   * asks for, under the tenant's tree exactly once, and passes through only as media, without the
   * tenant header. Off every tenant host it passes through with the tenant the path names.
   */
  lemma {:induction false} ChainEndsAtTenant(req: Request, d: Domains)
    ensures var tenant := EventualTenant(req.host, d);
      var page := FinalPath(req, d);
      if tenant.Some? && !IsMedia(page)
      then Serves(Settle(req, d), tenant.value, page) && WithoutTenant(page, tenant.value).None?
      else PassesThrough(Settle(req, d), page)
    decreases LegacyRank(req, d), |req.query|, |req.pathname|
  {
    var r := Respond(req, d);
    if r.Moved? {
      HopsDescend(req, d);
      HopKeepsTenant(req, d);
      ChainEndsAtTenant(r.to, d);
    }
  }

  /** No hop changes the tenant a host eventually names. */
  lemma HopKeepsTenant(req: Request, d: Domains)
    requires Respond(req, d).Moved?
    ensures EventualTenant(Respond(req, d).to.host, d) == EventualTenant(req.host, d)
  {
    HopsDescend(req, d);
    if HopKind(req, d) == HostHop { MovedHostIsNotLegacy(req.host, d); }
  }

  /** The page a path asks a tenant for: without its `/u/{slug}`, and with a timetable query moved into the path. */
  function PageOf(pathname: string, query: Query, slug: string): string {
    var clean := Stripped(pathname, slug);
    match LegacyTimetableRedirect(clean, query)
    case Some(moved) => moved
    case None => clean
  }

  /** On a tenant's host, current or legacy, the chain ends at exactly the page the first path asks for. */
  lemma {:induction false} FinalPathIsPage(req: Request, d: Domains)
    requires '/' !in req.host && EventualTenant(req.host, d).Some?
    ensures FinalPath(req, d) == PageOf(req.pathname, req.query, EventualTenant(req.host, d).value)
    decreases LegacyRank(req, d), |req.query|, |req.pathname|
  {
    var r := Respond(req, d);
    var slug := EventualTenant(req.host, d).value;
    MediaStrips(req.pathname, slug);
    if r.Moved? {
      HopsDescend(req, d);
      if HopKind(req, d) == QueryHop {
        QueryHopComesLast(req, d);
      } else if HopKind(req, d) == PathHop {
        FinalPathIsPage(r.to, d);
      } else {
        LegacyTenantMoves(req.host, d);
        FinalPathOnTenantHost(r.to, d, slug);
      }
    }
  }

  /** After the hop off the legacy root the label that is left has no slash in it, whatever the base holds. */
  lemma LegacyTenantMoves(host: string, d: Domains)
    requires '/' !in host && LegacyTenantOf(host, d).Some? && EventualTenant(host, d).Some?
    ensures '/' !in EventualTenant(host, d).value
    ensures TenantOf(LegacyTenantOf(host, d).value + "." + d.tenantBase, d) == EventualTenant(host, d)
  {
    LabelHasNoSlash(host, d.legacy);
    if BareHost(d.tenantBase) != "" {
      MovedHostKeepsTenant(host, d);
    }
  }

  lemma {:induction false} FinalPathOnTenantHost(req: Request, d: Domains, slug: string)
    requires TenantOf(req.host, d) == Some(slug) && '/' !in slug
    ensures FinalPath(req, d) == PageOf(req.pathname, req.query, slug)
    decreases |req.query|, |req.pathname|
  {
    var r := Respond(req, d);
    MediaStrips(req.pathname, slug);
    if r.Moved? {
      HopsDescend(req, d);
      if HopKind(req, d) == QueryHop {
        MovesOnlyQueries(r.to.pathname, r.to.query);
        if IsMedia(req.pathname) {
          MediaStaysMedia(req.pathname, req.query);
        } else {
          QueryHopKeepsPathClean(req.pathname, req.query, slug);
        }
      } else {
        FinalPathOnTenantHost(r.to, d, slug);
      }
    }
  }

  lemma MediaStrips(pathname: string, slug: string)
    ensures IsMedia(pathname) ==> Stripped(pathname, slug) == pathname
  {
    assert "/u/" + slug == "/u" + ("/" + slug) && "/media"[1] == 'm';
    if IsMedia(pathname) {
      assert pathname[1] == 'm' && ("/u/" + slug)[1] == 'u';
      assert ("/u/" + slug + "/")[1] == 'u';
    }
  }

  /** A path that leads with `/u/{slug}` on a host of no tenant is not redirected, query aside. */
  lemma {:induction false} FinalPathElsewhere(req: Request, d: Domains)
    requires EventualTenant(req.host, d).None? && req.query == []
    ensures FinalPath(req, d) == req.pathname
    decreases LegacyRank(req, d)
  {
    var r := Respond(req, d);
    MovesOnlyQueries(req.pathname, req.query);
    if r.Moved? {
      HopsDescend(req, d);
      HopKeepsTenant(req, d);
      FinalPathElsewhere(r.to, d);
    }
  }

  /**
   * Every link the emitter builds for a page of a tenant, on any host but another tenant's, legacy
   * hosts and the home page included, is resolved to that page: under the tenant's tree on its own
   * host, by the path that names the tenant elsewhere, and as media if that is what it is about.
   */
  lemma LinkReachesItsPage(host: string, slug: string, path: string, d: Domains, headers: Headers)
    requires slug != "" && '/' !in slug && '/' !in host && "/" <= path
    requires EventualTenant(host, d).Some? ==> EventualTenant(host, d).value == slug
    ensures var r := Settle(Request(host, LinkTo(host, slug, path, d), [], headers), d);
      var page := Stripped(path, slug);
      if EventualTenant(host, d).None?
      then r.Passed? && HeaderOf(r.headers) == Some(slug) && LinkTo(host, slug, path, d) == "/u/" + slug + path
      else if IsMedia(page) then r.Passed? && HeaderOf(r.headers) == None
      else Serves(r, slug, page)
  {
    var req := Request(host, LinkTo(host, slug, path, d), [], headers);
    ChainEndsAtTenant(req, d);
    LinkStrips(host, slug, path, d);
    if EventualTenant(host, d).None? {
      FinalPathElsewhere(req, d);
      LinkNamesTenant(slug, path);
    } else {
      FinalPathIsPage(req, d);
      MovesOnlyQueries(Stripped(path, slug), []);
    }
  }

  /** What the client sends as the tenant header changes no response. */
  lemma HeaderIsNeverTheClients(req: Request, d: Domains, headers: Headers)
    requires forall k :: k != TENANT_HEADER ==> (k in headers <==> k in req.headers) && (k in headers ==> headers[k] == req.headers[k])
    ensures Settle(req.(headers := headers), d) == Settle(req, d)
    decreases LegacyRank(req, d), |req.query|, |req.pathname|
  {
    var other := req.(headers := headers);
    assert headers - {TENANT_HEADER} == req.headers - {TENANT_HEADER};
    var r := Respond(req, d);
    if r.Moved? {
      HopsDescend(req, d);
      HopsDescend(other, d);
      assert Respond(other, d).to == r.to.(headers := headers);
      HeaderIsNeverTheClients(r.to, d, headers);
    }
  }
}
