/**
 * Lists of posts: scope and filters, the four pageable sorts, and keyset paging, where a page
 * continues strictly after the key its cursor names.
 */
module Feed {
  import opened Wrappers
  import opened Collections
  import opened Cursors

  /** `hotScore` and `controversy` count ten-millionths, times are milliseconds, ids are the 128-bit numbers. */
  datatype Post = Post(
    id: int, communityId: int, publicAuthorId: Option<int>, flairId: Option<int>, pinnedAt: Option<int>,
    removed: bool, deleted: bool, score: int, hotScore: int, controversy: int, createdAt: int)

  datatype FeedSort = Hot | New | Top | Controversial

  datatype TopWindow = Hour | Day | Week | Month | All

  datatype FeedScope = Community(communityId: int) | Everywhere | Home

  /** How a column is written into a cursor and read back from one. */
  datatype Format = Format(text: int -> string, value: string -> Option<int>)

  datatype Formats = Formats(time: Format, count: Format, decimal: Format, id: Format)

  /**
   * A request with everything the query reads about the viewer: the communities that are public and
   * live, those joined, what was hidden, who was blocked, and the clock.
   */
  datatype Request = Request(
    scope: FeedScope, sort: FeedSort, window: TopWindow, flair: Option<int>, limit: int,
    now: int, open: set<int>, joined: set<int>, hidden: set<int>, blocked: set<int>, formats: Formats)

  const PINS_SHOWN := 10

  /** A value survives being written into a cursor and read back, alone and among others. */
  predicate Carries(f: Format, n: int) {
    f.text(n) != "" && '|' !in f.text(n) && f.value(f.text(n)) == Some(n)
  }

  /** The columns a sort writes into the cursor of a post survive it. */
  predicate CarriesPost(fs: Formats, sort: FeedSort, p: Post) {
    forall i :: 0 <= i < |Columns(fs, sort)| ==> Carries(Columns(fs, sort)[i], KeyOf(sort, p)[i])
  }

  predicate CarriesRows(q: Request, rows: seq<Post>) {
    forall p :: p in rows ==> CarriesPost(q.formats, q.sort, p)
  }

  predicate DistinctIds(rows: seq<Post>) {
    forall i, j :: 0 <= i < j < |rows| ==> rows[i].id != rows[j].id
  }

  // ----- order and continuation -----

  function KeyOf(sort: FeedSort, p: Post): (k: seq<int>)
    ensures |k| == (if sort == Top then 3 else 2) && k[|k| - 1] == p.id
  {
    match sort
    case New => [p.createdAt, p.id]
    case Top => [p.score, p.createdAt, p.id]
    case Controversial => [p.controversy, p.id]
    case Hot => [p.hotScore, p.id]
  }

  function Columns(fs: Formats, sort: FeedSort): (cs: seq<Format>)
    ensures |cs| == if sort == Top then 3 else 2
  {
    match sort
    case New => [fs.time, fs.id]
    case Top => [fs.count, fs.time, fs.id]
    case Controversial => [fs.decimal, fs.id]
    case Hot => [fs.decimal, fs.id]
  }

  /** What the query asks of a row to continue after a position: columns compared one inside another. */
  predicate Continues(sort: FeedSort, after: seq<int>, p: Post)
    requires |after| == |KeyOf(sort, p)|
  {
    match sort
    case Top => p.score < after[0] || (p.score == after[0] && (p.createdAt < after[1] || (p.createdAt == after[1] && p.id < after[2])))
    case New => p.createdAt < after[0] || (p.createdAt == after[0] && p.id < after[1])
    case Controversial => p.controversy < after[0] || (p.controversy == after[0] && p.id < after[1])
    case Hot => p.hotScore < after[0] || (p.hotScore == after[0] && p.id < after[1])
  }

  /** Descending order on keys: the first column that differs decides. */
  predicate Above(a: seq<int>, b: seq<int>) {
    |a| > 0 && |b| > 0 && (a[0] > b[0] || (a[0] == b[0] && Above(a[1..], b[1..])))
  }

  predicate Leads(sort: FeedSort, p: Post, q: Post) {
    Above(KeyOf(sort, p), KeyOf(sort, q))
  }

  /** Continuing after a row means coming later in the sort's own order, for every sort. */
  lemma ContinuesIsLater(sort: FeedSort, p: Post, q: Post)
    ensures |KeyOf(sort, p)| == |KeyOf(sort, q)|
    ensures Continues(sort, KeyOf(sort, p), q) <==> Leads(sort, p, q)
  {
    var a, b := KeyOf(sort, p), KeyOf(sort, q);
    assert Above(a, b) == (a[0] > b[0] || (a[0] == b[0] && Above(a[1..], b[1..])));
    assert Above(a[1..], b[1..]) == (a[1] > b[1] || (a[1] == b[1] && Above(a[1..][1..], b[1..][1..])));
    if sort == Top {
      assert a[1..][1..] == [p.id] && b[1..][1..] == [q.id];
      assert [p.id][1..] == [] == [q.id][1..];
      assert Above([p.id], [q.id]) == (p.id > q.id);
    } else {
      assert a[1..][1..] == [] == b[1..][1..];
    }
  }

  lemma {:induction false} AboveTransitive(a: seq<int>, b: seq<int>, c: seq<int>)
    requires Above(a, b) && Above(b, c)
    ensures Above(a, c)
  {
    if a[0] == b[0] == c[0] {
      AboveTransitive(a[1..], b[1..], c[1..]);
    }
  }

  lemma {:induction false} AboveAsymmetric(a: seq<int>, b: seq<int>)
    requires Above(a, b)
    ensures !Above(b, a)
  {
    if a[0] == b[0] { AboveAsymmetric(a[1..], b[1..]); }
  }

  lemma {:induction false} AboveTotal(a: seq<int>, b: seq<int>)
    requires |a| == |b| && a != b
    ensures Above(a, b) || Above(b, a)
  {
    if a[0] == b[0] {
      assert a == [a[0]] + a[1..] && b == [b[0]] + b[1..];
      AboveTotal(a[1..], b[1..]);
    }
  }

  lemma LeadsTotal(sort: FeedSort, p: Post, q: Post)
    requires p.id != q.id
    ensures Leads(sort, p, q) != Leads(sort, q, p)
  {
    AboveTotal(KeyOf(sort, p), KeyOf(sort, q));
    if Leads(sort, p, q) { AboveAsymmetric(KeyOf(sort, p), KeyOf(sort, q)); }
  }

  lemma LeadsTransitive(sort: FeedSort, p: Post, q: Post, r: Post)
    requires Leads(sort, p, q) && Leads(sort, q, r)
    ensures Leads(sort, p, r)
  {
    AboveTransitive(KeyOf(sort, p), KeyOf(sort, q), KeyOf(sort, r));
  }

  lemma LeadsAsymmetric(sort: FeedSort, p: Post, q: Post)
    requires Leads(sort, p, q)
    ensures !Leads(sort, q, p) && p != q
  {
    AboveAsymmetric(KeyOf(sort, p), KeyOf(sort, q));
  }

  // ----- sorting -----

  predicate Ordered(sort: FeedSort, ps: seq<Post>) {
    forall i, j :: 0 <= i < j < |ps| ==> Leads(sort, ps[i], ps[j])
  }

  function Insert(sort: FeedSort, p: Post, ps: seq<Post>): (r: seq<Post>)
    ensures multiset(r) == multiset(ps) + multiset{p} && |r| == |ps| + 1
  {
    if ps == [] || !Leads(sort, ps[0], p) then [p] + ps
    else
      assert ps == [ps[0]] + ps[1..];
      [ps[0]] + Insert(sort, p, ps[1..])
  }

  function Sort(sort: FeedSort, ps: seq<Post>): (r: seq<Post>)
    ensures multiset(r) == multiset(ps) && |r| == |ps|
  {
    if ps == [] then []
    else
      assert ps == [ps[0]] + ps[1..];
      Insert(sort, ps[0], Sort(sort, ps[1..]))
  }

  lemma SameElements(a: seq<Post>, b: seq<Post>)
    requires multiset(a) == multiset(b)
    ensures forall p :: p in a <==> p in b
  {
    forall p ensures p in a <==> p in b {
      assert p in a <==> p in multiset(a);
      assert p in b <==> p in multiset(b);
    }
  }

  lemma HeadLeads(sort: FeedSort, ps: seq<Post>, x: Post)
    requires Ordered(sort, ps) && ps != [] && x in ps[1..]
    ensures Leads(sort, ps[0], x)
  {
    var k :| 0 <= k < |ps[1..]| && ps[1..][k] == x;
    assert ps[k + 1] == x;
  }

  lemma PrependOrdered(sort: FeedSort, p: Post, ps: seq<Post>)
    requires Ordered(sort, ps) && forall x :: x in ps ==> Leads(sort, p, x)
    ensures Ordered(sort, [p] + ps)
  {
    hide Leads;
    assert forall j :: 0 <= j < |ps| ==> ps[j] in ps;
  }

  lemma {:induction false} InsertOrdered(sort: FeedSort, p: Post, ps: seq<Post>)
    requires Ordered(sort, ps) && forall q :: q in ps ==> q.id != p.id
    ensures Ordered(sort, Insert(sort, p, ps))
  {
    hide Leads;
    if ps == [] {
    } else if Leads(sort, ps[0], p) {
      InsertOrdered(sort, p, ps[1..]);
      var rest := Insert(sort, p, ps[1..]);
      SameElements(rest, ps[1..] + [p]);
      forall x | x in rest ensures Leads(sort, ps[0], x) {
        if x != p { HeadLeads(sort, ps, x); }
      }
      PrependOrdered(sort, ps[0], rest);
    } else {
      LeadsTotal(sort, p, ps[0]);
      forall x | x in ps ensures Leads(sort, p, x) {
        if x != ps[0] {
          assert ps == [ps[0]] + ps[1..];
          HeadLeads(sort, ps, x);
          LeadsTransitive(sort, p, ps[0], x);
        }
      }
      PrependOrdered(sort, p, ps);
    }
  }

  lemma {:induction false} SortOrdered(sort: FeedSort, ps: seq<Post>)
    requires DistinctIds(ps)
    ensures Ordered(sort, Sort(sort, ps))
  {
    if ps != [] {
      SortOrdered(sort, ps[1..]);
      var rest := Sort(sort, ps[1..]);
      SameElements(rest, ps[1..]);
      forall q | q in rest ensures q.id != ps[0].id {
        var k :| 0 <= k < |ps[1..]| && ps[1..][k] == q;
        assert ps[k + 1] == q;
      }
      InsertOrdered(sort, ps[0], rest);
    }
  }

  lemma SameEmptiness(a: seq<Post>, b: seq<Post>)
    requires forall p :: p in a <==> p in b
    ensures a == [] <==> b == []
  {
    if a != [] { assert a[0] in b; }
    if b != [] { assert b[0] in a; }
  }

  /** Two ordered lists of the same posts are the same list. */
  lemma {:induction false} OrderedUnique(sort: FeedSort, a: seq<Post>, b: seq<Post>)
    requires Ordered(sort, a) && Ordered(sort, b) && forall p :: p in a <==> p in b
    ensures a == b
  {
    hide Leads;
    SameEmptiness(a, b);
    if a != [] {
      assert a[0] in b && b[0] in a;
      var i :| 0 <= i < |a| && a[i] == b[0];
      var j :| 0 <= j < |b| && b[j] == a[0];
      if a[0] != b[0] { LeadsAsymmetric(sort, a[0], b[0]); }
      assert a[0] == b[0];
      forall p ensures p in a[1..] <==> p in b[1..] {
        TailWithoutHead(sort, a, p);
        TailWithoutHead(sort, b, p);
      }
      OrderedUnique(sort, a[1..], b[1..]);
      assert a == [a[0]] + a[1..] && b == [b[0]] + b[1..];
    }
  }

  lemma TailWithoutHead(sort: FeedSort, a: seq<Post>, p: Post)
    requires Ordered(sort, a) && a != []
    ensures p in a[1..] <==> p in a && p != a[0]
  {
    if p in a[1..] {
      var k :| 0 <= k < |a[1..]| && a[1..][k] == p;
      assert Leads(sort, a[0], a[k + 1]);
      if p == a[0] { AboveAsymmetric(KeyOf(sort, p), KeyOf(sort, p)); }
    }
    assert a == [a[0]] + a[1..];
  }

  // ----- which posts a request lists -----

  function WindowMs(w: TopWindow): Option<int> {
    match w
    case Hour => Some(3_600_000)
    case Day => Some(86_400_000)
    case Week => Some(7 * 86_400_000)
    case Month => Some(30 * 86_400_000)
    case All => None
  }

  predicate InScope(q: Request, p: Post) {
    match q.scope
    case Community(c) => p.communityId == c
    case Everywhere => p.communityId in q.open
    case Home => p.communityId in q.joined
  }

  /** Neither deleted nor removed, and nothing the viewer hid or whose signed author they blocked. */
  predicate Live(q: Request, p: Post) {
    && !p.deleted && !p.removed && p.id !in q.hidden
    && !(p.publicAuthorId.Some? && p.publicAuthorId.value in q.blocked)
    && (q.flair.Some? ==> p.flairId == q.flair)
  }

  predicate InWindow(q: Request, p: Post) {
    q.sort == Top && WindowMs(q.window).Some? ==> p.createdAt > q.now - WindowMs(q.window).value
  }

  /** The posts the paged query lists: in a community the pinned ones are left to lead the first page. */
  predicate Listed(q: Request, p: Post) {
    InScope(q, p) && (q.scope.Community? ==> p.pinnedAt.None?) && Live(q, p) && InWindow(q, p)
  }

  predicate Pinned(q: Request, p: Post) {
    q.scope.Community? && InScope(q, p) && p.pinnedAt.Some? && Live(q, p)
  }

  predicate Remains(q: Request, after: Option<seq<int>>, p: Post)
    requires after.Some? ==> |after.value| == |Columns(q.formats, q.sort)|
  {
    Listed(q, p) && (after.Some? ==> Continues(q.sort, after.value, p))
  }

  function Matching(rows: seq<Post>, q: Request, after: Option<seq<int>>): (r: seq<Post>)
    requires after.Some? ==> |after.value| == |Columns(q.formats, q.sort)|
    ensures forall p :: p in r <==> p in rows && Remains(q, after, p)
  {
    if rows == [] then []
    else
      assert rows == [rows[0]] + rows[1..];
      var rest := Matching(rows[1..], q, after);
      if Remains(q, after, rows[0]) then [rows[0]] + rest else rest
  }

  lemma {:induction false} MatchingDistinct(rows: seq<Post>, q: Request, after: Option<seq<int>>)
    requires DistinctIds(rows)
    requires after.Some? ==> |after.value| == |Columns(q.formats, q.sort)|
    ensures DistinctIds(Matching(rows, q, after))
  {
    if rows != [] {
      MatchingDistinct(rows[1..], q, after);
      forall p | p in rows[1..] ensures p.id != rows[0].id {
        var k :| 0 <= k < |rows[1..]| && rows[1..][k] == p;
        assert rows[k + 1] == p;
      }
      assert forall i :: 0 <= i < |Matching(rows[1..], q, after)| ==> Matching(rows[1..], q, after)[i] in rows[1..];
    }
  }

  /** What is left to show after a position, in order. */
  function Rest(rows: seq<Post>, q: Request, after: Option<seq<int>>): (r: seq<Post>)
    requires after.Some? ==> |after.value| == |Columns(q.formats, q.sort)|
    ensures forall p :: p in r <==> p in rows && Remains(q, after, p)
  {
    var ps := Matching(rows, q, after);
    SameElements(Sort(q.sort, ps), ps);
    Sort(q.sort, ps)
  }

  /** The whole filtered list in the sort's order. */
  function Listing(rows: seq<Post>, q: Request): seq<Post> {
    Rest(rows, q, None)
  }

  lemma RestOrdered(rows: seq<Post>, q: Request, after: Option<seq<int>>)
    requires DistinctIds(rows)
    requires after.Some? ==> |after.value| == |Columns(q.formats, q.sort)|
    ensures Ordered(q.sort, Rest(rows, q, after))
  {
    MatchingDistinct(rows, q, after);
    SortOrdered(q.sort, Matching(rows, q, after));
  }

  /** Continuing after the n-th post still to show leaves exactly the posts behind it. */
  lemma RestAfterPost(rows: seq<Post>, q: Request, after: Option<seq<int>>, n: nat)
    requires DistinctIds(rows)
    requires after.Some? ==> |after.value| == |Columns(q.formats, q.sort)|
    requires n < |Rest(rows, q, after)|
    ensures |KeyOf(q.sort, Rest(rows, q, after)[n])| == |Columns(q.formats, q.sort)|
    ensures Rest(rows, q, Some(KeyOf(q.sort, Rest(rows, q, after)[n]))) == Rest(rows, q, after)[n + 1..]
  {
    var r := Rest(rows, q, after);
    var next := Some(KeyOf(q.sort, r[n]));
    RestOrdered(rows, q, after);
    RestOrdered(rows, q, next);
    assert r[n] in r;
    forall p ensures p in Rest(rows, q, next) <==> p in r[n + 1..] {
      if p in rows && Listed(q, p) {
        ContinuesIsLater(q.sort, r[n], p);
        if Leads(q.sort, r[n], p) && after.Some? {
          LaterStillContinues(q.sort, after.value, r[n], p);
        }
        if p in r {
          var k :| 0 <= k < |r| && r[k] == p;
          if k < n { AboveAsymmetric(KeyOf(q.sort, r[k]), KeyOf(q.sort, r[n])); }
          if k == n && Leads(q.sort, p, p) { AboveAsymmetric(KeyOf(q.sort, p), KeyOf(q.sort, p)); }
          assert p in r[n + 1..] ==> Leads(q.sort, r[n], p);
          assert k > n ==> r[n + 1..][k - n - 1] == p;
        }
      }
    }
    OrderedUnique(q.sort, Rest(rows, q, next), r[n + 1..]);
  }

  lemma LaterStillContinues(sort: FeedSort, after: seq<int>, p: Post, r: Post)
    requires |after| == |KeyOf(sort, p)| && Continues(sort, after, p) && Leads(sort, p, r)
    ensures |after| == |KeyOf(sort, r)| && Continues(sort, after, r)
  {
    ContinuesIsLater(sort, p, r);
  }

  // ----- a page -----

  /** A page of posts; `next` is empty at the end of the list. */
  datatype Page = Page(pinned: seq<Post>, shown: seq<Post>, next: string)

  /** A cursor that decodes to parts its columns cannot read fails the query. */
  datatype BadCursor = BadCursor

  function Texts(cs: seq<Format>, key: seq<int>): (ts: seq<string>)
    requires |cs| == |key|
    ensures |ts| == |cs| && forall i :: 0 <= i < |cs| ==> ts[i] == cs[i].text(key[i])
  {
    seq(|cs|, i requires 0 <= i < |cs| => cs[i].text(key[i]))
  }

  function Values(cs: seq<Format>, parts: seq<string>): (r: Option<seq<int>>)
    requires |cs| == |parts|
    ensures r.Some? ==> |r.value| == |cs|
  {
    if cs == [] then Some([])
    else
      match (cs[0].value(parts[0]), Values(cs[1..], parts[1..]))
      case (Some(v), Some(vs)) => Some([v] + vs)
      case _ => None
  }

  function CursorOf(q: Request, p: Post): string
    requires |KeyOf(q.sort, p)| == |Columns(q.formats, q.sort)|
  {
    EncodeCursor(Texts(Columns(q.formats, q.sort), KeyOf(q.sort, p)))
  }

  /** Where a cursor continues from: nowhere in particular when there is none or it does not decode. */
  function Position(q: Request, cursor: string): (r: Result<Option<seq<int>>, BadCursor>)
    ensures r.Ok? && r.value.Some? ==> |r.value.value| == |Columns(q.formats, q.sort)|
  {
    var cs := Columns(q.formats, q.sort);
    if cursor == "" then Ok(None)
    else
      match DecodeCursor(cursor, |cs|)
      case None => Ok(None)
      case Some(parts) =>
        match Values(cs, parts)
        case None => Err(BadCursor)
        case Some(key) => Ok(Some(key))
  }

  function Limit(q: Request): (n: nat)
    ensures 1 <= n <= 100
  {
    var low := if q.limit < 1 then 1 else q.limit;
    if low > 100 then 100 else low
  }

  function PinKey(p: Post): int {
    if p.pinnedAt.Some? then p.pinnedAt.value else 0
  }

  /** Pinned posts latest pin first; ties keep the order the rows came in. */
  function InsertPin(p: Post, ps: seq<Post>): (r: seq<Post>)
    ensures multiset(r) == multiset(ps) + multiset{p}
  {
    if ps == [] || PinKey(p) >= PinKey(ps[0]) then [p] + ps
    else
      assert ps == [ps[0]] + ps[1..];
      [ps[0]] + InsertPin(p, ps[1..])
  }

  function Pins(rows: seq<Post>, q: Request): (r: seq<Post>)
    ensures forall p :: p in r ==> p in rows && Pinned(q, p)
  {
    if rows == [] then []
    else
      assert rows == [rows[0]] + rows[1..];
      var rest := Pins(rows[1..], q);
      if Pinned(q, rows[0]) then
        var r := InsertPin(rows[0], rest);
        assert forall p :: p in r <==> p in multiset(r);
        r
      else rest
  }

  function ShowPage(rows: seq<Post>, q: Request, cursor: string): Result<Page, BadCursor> {
    match Position(q, cursor)
    case Err(e) => Err(e)
    case Ok(after) =>
      var pinned := if q.scope.Community? && cursor == "" then Take(PINS_SHOWN, Pins(rows, q)) else [];
      var found := Take(Limit(q) + 1, Rest(rows, q, after));
      var shown := Take(Limit(q), found);
      var next := if |found| > Limit(q) then CursorOf(q, shown[|shown| - 1]) else "";
      Ok(Page(pinned, shown, next))
  }

  lemma {:induction false} ValuesOfTexts(cs: seq<Format>, key: seq<int>)
    requires |cs| == |key| && forall i :: 0 <= i < |cs| ==> Carries(cs[i], key[i])
    ensures Values(cs, Texts(cs, key)) == Some(key)
  {
    if cs != [] {
      ValuesOfTexts(cs[1..], key[1..]);
      assert Texts(cs, key)[1..] == Texts(cs[1..], key[1..]);
      assert Values(cs, Texts(cs, key)) == Some([key[0]] + key[1..]);
      assert [key[0]] + key[1..] == key;
    } else {
      assert key == [];
    }
  }

  /** The cursor of a post names that post's own position, and is never the empty cursor. */
  lemma CursorNamesPost(q: Request, p: Post)
    requires CarriesPost(q.formats, q.sort, p)
    ensures |KeyOf(q.sort, p)| == |Columns(q.formats, q.sort)|
    ensures CursorOf(q, p) != ""
    ensures Position(q, CursorOf(q, p)) == Ok(Some(KeyOf(q.sort, p)))
  {
    var cs := Columns(q.formats, q.sort);
    var key := KeyOf(q.sort, p);
    var texts := Texts(cs, key);
    forall i | 0 <= i < |cs| ensures texts[i] != "" && '|' !in texts[i] {
      assert Carries(cs[i], key[i]) && texts[i] == cs[i].text(key[i]);
    }
    DecodeOfEncode(texts, |cs|);
    ValuesOfTexts(cs, key);
    NoCursorDecodesToNothing(|cs|);
  }

  lemma NoCursorDecodesToNothing(n: nat)
    ensures DecodeCursor("", n).None?
  {
    assert Base64Url.Decode("") == Some([]) && Utf8.Decode([]) == Some("");
    var parts := Text.Split("", '|');
    assert parts == [""] && |parts[0]| == 0;
  }

  // ----- following the cursors -----

  function Remaining(rows: seq<Post>, q: Request, cursor: string): seq<Post> {
    match Position(q, cursor)
    case Err(_) => []
    case Ok(after) => Rest(rows, q, after)
  }

  /**
   * One page shows the front of what remains, and either ends the list or names the cursor whose
   * remainder is exactly what this page did not show.
   */
  lemma PageTakesFront(rows: seq<Post>, q: Request, cursor: string)
    requires DistinctIds(rows) && CarriesRows(q, rows)
    ensures ShowPage(rows, q, cursor).Err? <==> Position(q, cursor).Err?
    ensures var left := Remaining(rows, q, cursor);
            match ShowPage(rows, q, cursor)
            case Err(_) => left == []
            case Ok(page) =>
              if |left| <= Limit(q) then page.shown == left && page.next == ""
              else page.shown == left[..Limit(q)] && page.next != ""
                   && left[Limit(q) - 1] in rows
                   && |KeyOf(q.sort, left[Limit(q) - 1])| == |Columns(q.formats, q.sort)|
                   && Position(q, page.next) == Ok(Some(KeyOf(q.sort, left[Limit(q) - 1])))
                   && Remaining(rows, q, page.next) == left[Limit(q)..]
  {
    hide KeyOf, Columns, CarriesPost, DistinctIds, CursorOf, Rest;
    if Position(q, cursor).Ok? {
      var after := Position(q, cursor).value;
      var left := Rest(rows, q, after);
      if |left| > Limit(q) {
        var last := Limit(q) - 1;
        assert left[..Limit(q) + 1][..Limit(q)] == left[..Limit(q)];
        assert left[last] in left;
        RestAfterPost(rows, q, after, last);
        CursorNamesPost(q, left[last]);
      }
    }
  }

  /** Every post shown on the way from a cursor to the end of the list, page after page. */
  ghost function Chase(rows: seq<Post>, q: Request, cursor: string): seq<Post>
    requires DistinctIds(rows) && CarriesRows(q, rows)
    decreases |Remaining(rows, q, cursor)|
  {
    match ShowPage(rows, q, cursor)
    case Err(_) => []
    case Ok(page) =>
      PageTakesFront(rows, q, cursor);
      page.shown + (if page.next == "" then [] else Chase(rows, q, page.next))
  }

  /**
   * Following the cursors shows exactly what remained, once each and in the sort's order; from the
   * first page, that is the whole filtered list.
   */
  lemma {:induction false} ChaseShowsAll(rows: seq<Post>, q: Request, cursor: string)
    requires DistinctIds(rows) && CarriesRows(q, rows)
    ensures Chase(rows, q, cursor) == Remaining(rows, q, cursor)
    ensures cursor == "" ==> Chase(rows, q, cursor) == Listing(rows, q)
    decreases |Remaining(rows, q, cursor)|
  {
    FirstPosition(rows, q);
    hide ShowPage, Remaining, Position, Listing;
    PageTakesFront(rows, q, cursor);
    if ShowPage(rows, q, cursor).Ok? && ShowPage(rows, q, cursor).value.next != "" {
      ChaseShowsAll(rows, q, ShowPage(rows, q, cursor).value.next);
      var left := Remaining(rows, q, cursor);
      assert left[..Limit(q)] + left[Limit(q)..] == left;
    }
  }

  lemma FirstPosition(rows: seq<Post>, q: Request)
    ensures Remaining(rows, q, "") == Listing(rows, q)
  {
  }

  /** The filtered list holds each matching post once, in strictly descending key order. */
  lemma ListingIsSorted(rows: seq<Post>, q: Request)
    requires DistinctIds(rows)
    ensures Ordered(q.sort, Listing(rows, q))
    ensures forall p :: p in Listing(rows, q) <==> p in rows && Listed(q, p)
    ensures DistinctIds(Listing(rows, q))
  {
    RestOrdered(rows, q, None);
    var r := Listing(rows, q);
    forall i, j | 0 <= i < j < |r| ensures r[i].id != r[j].id {
      MatchingDistinct(rows, q, None);
      if r[i].id == r[j].id {
        SameIdSamePost(rows, r[i], r[j]);
        AboveAsymmetric(KeyOf(q.sort, r[i]), KeyOf(q.sort, r[j]));
      }
    }
  }

  lemma SameIdSamePost(rows: seq<Post>, a: Post, b: Post)
    requires DistinctIds(rows) && a in rows && b in rows && a.id == b.id
    ensures a == b
  {
    var i :| 0 <= i < |rows| && rows[i] == a;
    var j :| 0 <= j < |rows| && rows[j] == b;
  }

  // ----- paging while the table changes -----

  /** The posts shown when each page is read from a later state of the table than the one before it. */
  function ChaseThrough(tables: seq<seq<Post>>, q: Request, cursor: string): seq<Post> {
    if tables == [] then []
    else
      match ShowPage(tables[0], q, cursor)
      case Err(_) => []
      case Ok(page) => page.shown + (if page.next == "" then [] else ChaseThrough(tables[1..], q, page.next))
  }

  /** Whether the last page came before the tables ran out. */
  predicate Ended(tables: seq<seq<Post>>, q: Request, cursor: string) {
    tables != [] &&
    match ShowPage(tables[0], q, cursor)
    case Err(_) => true
    case Ok(page) => page.next == "" || Ended(tables[1..], q, page.next)
  }

  predicate Sane(tables: seq<seq<Post>>, q: Request) {
    forall t :: t in tables ==> DistinctIds(t) && CarriesRows(q, t)
  }

  /** A post that continues after the cursor's position. */
  predicate After(q: Request, cursor: string, p: Post) {
    Position(q, cursor).Ok? && (Position(q, cursor).value.Some? ==> Continues(q.sort, Position(q, cursor).value.value, p))
  }

  lemma PageThenRest(rows: seq<Post>, q: Request, cursor: string)
    requires DistinctIds(rows) && CarriesRows(q, rows)
    ensures ShowPage(rows, q, cursor).Err? ==> Remaining(rows, q, cursor) == []
    ensures ShowPage(rows, q, cursor).Ok? ==>
              var page := ShowPage(rows, q, cursor).value;
              var left := Remaining(rows, q, cursor);
              page.shown <= left && (page.next == "" ==> page.shown == left) && (page.next != "" ==> 1 <= |page.shown| < |left|)
  {
    hide ShowPage, Remaining, Position;
    PageTakesFront(rows, q, cursor);
  }

  /** When there is a next page its cursor is the position of the last post shown. */
  lemma LastShown(rows: seq<Post>, q: Request, cursor: string) returns (last: Post)
    requires DistinctIds(rows) && CarriesRows(q, rows)
    requires ShowPage(rows, q, cursor).Ok? && ShowPage(rows, q, cursor).value.next != ""
    ensures var page := ShowPage(rows, q, cursor).value;
            && page.shown != [] && last == page.shown[|page.shown| - 1] && last in rows
            && Position(q, page.next) == Ok(Some(KeyOf(q.sort, last)))
            && page.shown + Rest(rows, q, Some(KeyOf(q.sort, last))) == Remaining(rows, q, cursor)
  {
    hide ShowPage, Position, Rest, Columns;
    var left := Remaining(rows, q, cursor);
    PageTakesFront(rows, q, cursor);
    last := left[Limit(q) - 1];
    assert left[..Limit(q)] + left[Limit(q)..] == left;
  }

  lemma RemainingIsAfter(rows: seq<Post>, q: Request, cursor: string)
    requires DistinctIds(rows)
    ensures Ordered(q.sort, Remaining(rows, q, cursor))
    ensures forall p :: p in Remaining(rows, q, cursor) <==> p in rows && Listed(q, p) && After(q, cursor, p)
  {
    hide Listed, Continues;
    if Position(q, cursor).Ok? {
      RestOrdered(rows, q, Position(q, cursor).value);
    }
  }

  lemma ShownIsAfter(rows: seq<Post>, q: Request, cursor: string)
    requires DistinctIds(rows) && CarriesRows(q, rows) && ShowPage(rows, q, cursor).Ok?
    ensures var shown := ShowPage(rows, q, cursor).value.shown;
      Ordered(q.sort, shown) && forall p :: p in shown ==> p in rows && Listed(q, p) && After(q, cursor, p)
  {
    hide ShowPage, Remaining, Listed, After, Leads;
    PageThenRest(rows, q, cursor);
    RemainingIsAfter(rows, q, cursor);
    var shown, left := ShowPage(rows, q, cursor).value.shown, Remaining(rows, q, cursor);
    assert forall i :: 0 <= i < |shown| ==> shown[i] == left[i] && left[i] in left;
  }

  lemma JoinOrdered(sort: FeedSort, a: seq<Post>, b: seq<Post>)
    requires Ordered(sort, a) && Ordered(sort, b) && a != []
    requires forall p :: p in b ==> Leads(sort, a[|a| - 1], p)
    ensures Ordered(sort, a + b)
    ensures forall i, p :: 0 <= i < |a| && p in b ==> Leads(sort, a[i], p)
  {
    hide Leads;
    forall i, p | 0 <= i < |a| && p in b ensures Leads(sort, a[i], p) {
      if i < |a| - 1 { LeadsTransitive(sort, a[i], a[|a| - 1], p); }
    }
    assert forall k :: 0 <= k < |b| ==> b[k] in b;
  }

  /**
   * Whatever happens to the table between pages, the posts shown come in strictly descending order
   * of their keys as read, all of them after the cursor the reading started from.
   */
  lemma {:induction false} PagesDescend(tables: seq<seq<Post>>, q: Request, cursor: string)
    requires Sane(tables, q)
    ensures Ordered(q.sort, ChaseThrough(tables, q, cursor))
    ensures forall p :: p in ChaseThrough(tables, q, cursor) ==> After(q, cursor, p)
    decreases |tables|
  {
    hide ShowPage, Leads, After, Ordered;
    if tables == [] {
      NothingOrdered(q.sort);
    } else if ShowPage(tables[0], q, cursor).Err? {
      NothingOrdered(q.sort);
    } else {
      var page := ShowPage(tables[0], q, cursor).value;
      assert tables[0] in tables;
      ShownIsAfter(tables[0], q, cursor);
      if page.next != "" {
        var rest := ChaseThrough(tables[1..], q, page.next);
        var last := LastShown(tables[0], q, cursor);
        assert Sane(tables[1..], q);
        PagesDescend(tables[1..], q, page.next);
        forall p | p in rest ensures Leads(q.sort, last, p) && After(q, cursor, p) {
          assert After(q, page.next, p);
          AfterLast(q, cursor, page.next, last, p);
        }
        JoinOrdered(q.sort, page.shown, rest);
      } else {
        assert page.shown + [] == page.shown;
      }
    }
  }

  lemma NothingOrdered(sort: FeedSort)
    ensures Ordered(sort, [])
  {
  }

  lemma AfterLast(q: Request, cursor: string, next: string, last: Post, p: Post)
    requires After(q, cursor, last) && Position(q, next) == Ok(Some(KeyOf(q.sort, last))) && After(q, next, p)
    ensures Leads(q.sort, last, p) && After(q, cursor, p)
  {
    hide Position, Leads;
    ContinuesIsLater(q.sort, last, p);
    var after := Position(q, cursor).value;
    if after.Some? { LaterStillContinues(q.sort, after.value, last, p); }
  }

  /** A post in some state of the table. */
  predicate InSome(tables: seq<seq<Post>>, p: Post) {
    exists t :: t in tables && p in t
  }

  lemma {:induction false} ShownWasThere(tables: seq<seq<Post>>, q: Request, cursor: string)
    requires Sane(tables, q)
    ensures forall p :: p in ChaseThrough(tables, q, cursor) ==> InSome(tables, p)
    decreases |tables|
  {
    hide ShowPage;
    if tables != [] && ShowPage(tables[0], q, cursor).Ok? {
      var page := ShowPage(tables[0], q, cursor).value;
      assert tables[0] in tables;
      ShownIsAfter(tables[0], q, cursor);
      assert Sane(tables[1..], q);
      ShownWasThere(tables[1..], q, page.next);
      forall p | InSome(tables[1..], p) ensures InSome(tables, p) {
        var t :| t in tables[1..] && p in t;
        assert t in tables;
      }
    }
  }

  /** A post's sort key never changes; under "new" it is its creation time and id, which nothing updates. */
  ghost predicate StableKeys(tables: seq<seq<Post>>, sort: FeedSort) {
    forall p, o :: InSome(tables, p) && InSome(tables, o) && p.id == o.id ==> KeyOf(sort, p) == KeyOf(sort, o)
  }

  /** So nothing is shown twice while sort keys stay, whatever else comes, goes or changes between pages. */
  lemma NothingRepeats(tables: seq<seq<Post>>, q: Request, cursor: string)
    requires Sane(tables, q) && StableKeys(tables, q.sort)
    ensures DistinctIds(ChaseThrough(tables, q, cursor))
  {
    hide ChaseThrough, InSome, KeyOf;
    var shown := ChaseThrough(tables, q, cursor);
    PagesDescend(tables, q, cursor);
    ShownWasThere(tables, q, cursor);
    forall i, j | 0 <= i < j < |shown| ensures shown[i].id != shown[j].id {
      assert shown[i] in shown && shown[j] in shown && Leads(q.sort, shown[i], shown[j]);
      if KeyOf(q.sort, shown[i]) == KeyOf(q.sort, shown[j]) {
        AboveAsymmetric(KeyOf(q.sort, shown[i]), KeyOf(q.sort, shown[j]));
      }
    }
  }

  /** The list holds this post, by id and key. */
  predicate Holds(ps: seq<Post>, sort: FeedSort, id: int, key: seq<int>) {
    exists p :: p in ps && p.id == id && KeyOf(sort, p) == key
  }

  /** A state of the table lists this post, by id and key. */
  predicate Lists(rows: seq<Post>, q: Request, id: int, key: seq<int>) {
    exists p :: p in rows && p.id == id && KeyOf(q.sort, p) == key && Listed(q, p)
  }

  lemma SameKeyContinues(sort: FeedSort, after: seq<int>, p: Post, o: Post)
    requires |after| == |KeyOf(sort, p)| && KeyOf(sort, p) == KeyOf(sort, o)
    ensures Continues(sort, after, p) <==> Continues(sort, after, o)
  {
    var k, l := KeyOf(sort, p), KeyOf(sort, o);
    assert k[0] == l[0] && k[1] == l[1];
    if sort == Top { assert k[2] == l[2]; }
  }

  lemma SameKeyAfter(q: Request, cursor: string, p: Post, o: Post)
    requires KeyOf(q.sort, p) == KeyOf(q.sort, o)
    ensures After(q, cursor, p) <==> After(q, cursor, o)
  {
    hide Position, KeyOf, Continues;
    var at := Position(q, cursor);
    if at.Ok? && at.value.Some? { SameKeyContinues(q.sort, at.value.value, p, o); }
  }

  /** One page shows a listed post, or leaves it after the next cursor. */
  lemma ShownOrLeft(rows: seq<Post>, q: Request, cursor: string, p: Post)
    requires DistinctIds(rows) && CarriesRows(q, rows) && p in rows && Listed(q, p) && After(q, cursor, p)
    ensures ShowPage(rows, q, cursor).Ok?
    ensures var page := ShowPage(rows, q, cursor).value;
      p in page.shown || (page.next != "" && After(q, page.next, p))
  {
    hide ShowPage, Listed, Continues, Position, KeyOf;
    PageTakesFront(rows, q, cursor);
    RemainingIsAfter(rows, q, cursor);
    PageThenRest(rows, q, cursor);
    var page, left := ShowPage(rows, q, cursor).value, Remaining(rows, q, cursor);
    assert p in left;
    if p !in page.shown {
      var last := LastShown(rows, q, cursor);
      assert p in Rest(rows, q, Some(KeyOf(q.sort, last)));
    }
  }

  /**
   * And nothing is dropped: a post that every state of the table lists, with its key unchanged and
   * after the cursor the reading started from, is shown by the time the pages end, whatever else
   * comes, goes or changes.
   */
  lemma {:induction false} NothingDropped(tables: seq<seq<Post>>, q: Request, cursor: string, p: Post)
    requires Sane(tables, q) && After(q, cursor, p)
    requires forall t :: t in tables ==> Lists(t, q, p.id, KeyOf(q.sort, p))
    ensures Ended(tables, q, cursor) ==> Holds(ChaseThrough(tables, q, cursor), q.sort, p.id, KeyOf(q.sort, p))
    decreases |tables|
  {
    hide ShowPage, Listed, After, KeyOf;
    if tables != [] {
      var key := KeyOf(q.sort, p);
      assert tables[0] in tables && Lists(tables[0], q, p.id, key);
      var o :| o in tables[0] && o.id == p.id && KeyOf(q.sort, o) == key && Listed(q, o);
      SameKeyAfter(q, cursor, p, o);
      ShownOrLeft(tables[0], q, cursor, o);
      var page := ShowPage(tables[0], q, cursor).value;
      if o in page.shown {
        assert o in ChaseThrough(tables, q, cursor);
      } else {
        SameKeyAfter(q, page.next, p, o);
        assert Sane(tables[1..], q);
        NothingDropped(tables[1..], q, page.next, p);
        HoldsFurther(page.shown, ChaseThrough(tables[1..], q, page.next), q.sort, p.id, key);
      }
    }
  }

  lemma HoldsFurther(a: seq<Post>, b: seq<Post>, sort: FeedSort, id: int, key: seq<int>)
    ensures Holds(b, sort, id, key) ==> Holds(a + b, sort, id, key)
  {
    hide KeyOf;
    if Holds(b, sort, id, key) {
      var p :| p in b && p.id == id && KeyOf(sort, p) == key;
      assert p in a + b;
    }
  }

  // ----- posts that arrive while someone is paging through the newest -----

  /** What "new" and its filters read of a post: everything but its counts. */
  function Essence(p: Post): Post {
    p.(score := 0, hotScore := 0, controversy := 0)
  }

  function Essences(ps: seq<Post>): (es: seq<Post>)
    ensures |es| == |ps| && forall i :: 0 <= i < |ps| ==> es[i] == Essence(ps[i])
  {
    seq(|ps|, i requires 0 <= i < |ps| => Essence(ps[i]))
  }

  /**
   * `later` still has every post of `earlier`, its counts aside, and anything else in it is ahead of
   * the post `p` the cursor names: newer, or of the same moment with a larger id.
   */
  predicate ArrivedAhead(earlier: seq<Post>, later: seq<Post>, p: Post) {
    && (forall x :: x in earlier ==> Essence(x) in Essences(later))
    && (forall y :: y in later && Essence(y) !in Essences(earlier) ==> !Leads(New, p, y))
  }

  /** Between any two pages posts only arrived ahead of the last one shown. */
  predicate OnlyAhead(tables: seq<seq<Post>>, q: Request, cursor: string) {
    |tables| >= 2 && ShowPage(tables[0], q, cursor).Ok? && ShowPage(tables[0], q, cursor).value.next != "" ==>
      var page := ShowPage(tables[0], q, cursor).value;
      && page.shown != [] && ArrivedAhead(tables[0], tables[1], page.shown[|page.shown| - 1])
      && OnlyAhead(tables[1..], q, page.next)
  }

  lemma EssenceReads(q: Request, after: Option<seq<int>>, p: Post)
    requires q.sort == New && (after.Some? ==> |after.value| == 2)
    ensures Remains(q, after, p) <==> Remains(q, after, Essence(p))
    ensures KeyOf(New, p) == KeyOf(New, Essence(p))
  {
  }

  lemma EssencesOrdered(ps: seq<Post>)
    ensures Ordered(New, ps) <==> Ordered(New, Essences(ps))
  {
    hide Above;
    forall i, j | 0 <= i < |ps| && 0 <= j < |ps| ensures Leads(New, ps[i], ps[j]) <==> Leads(New, Essences(ps)[i], Essences(ps)[j]) {
    }
  }

  lemma InEssences(ps: seq<Post>, e: Post)
    ensures e in Essences(ps) <==> exists p :: p in ps && Essence(p) == e
  {
    if p :| p in ps && Essence(p) == e {
      var i :| 0 <= i < |ps| && ps[i] == p;
      assert Essences(ps)[i] == e;
    }
  }

  /** What is left after a post does not depend on what arrived ahead of it. */
  lemma ArrivalsDoNotContinue(earlier: seq<Post>, later: seq<Post>, q: Request, p: Post)
    requires DistinctIds(earlier) && DistinctIds(later) && q.sort == New && ArrivedAhead(earlier, later, p)
    ensures Essences(Rest(later, q, Some(KeyOf(New, p)))) == Essences(Rest(earlier, q, Some(KeyOf(New, p))))
  {
    hide Rest, Leads, Ordered, Remains, KeyOf, Essence;
    var after := Some(KeyOf(New, p));
    var a, b := Rest(earlier, q, after), Rest(later, q, after);
    RestOrdered(earlier, q, after);
    RestOrdered(later, q, after);
    EssencesOrdered(a);
    EssencesOrdered(b);
    forall e ensures e in Essences(a) <==> e in Essences(b) {
      InEssences(a, e);
      InEssences(b, e);
      if x :| x in a && Essence(x) == e {
        EssenceLeft(earlier, later, q, after, x);
      }
      if y :| y in b && Essence(y) == e {
        NothingNewLeft(earlier, later, q, p, y);
        EssenceLeft(later, earlier, q, after, y);
      }
    }
    OrderedUnique(New, Essences(a), Essences(b));
  }

  /** A post left to show in one state is left to show in any state that has it, counts aside. */
  lemma EssenceLeft(rows: seq<Post>, others: seq<Post>, q: Request, after: Option<seq<int>>, x: Post)
    requires q.sort == New && (after.Some? ==> |after.value| == 2)
    requires x in Rest(rows, q, after) && Essence(x) in Essences(others)
    ensures exists y :: y in Rest(others, q, after) && Essence(y) == Essence(x)
  {
    hide Rest, Remains, Essence;
    InEssences(others, Essence(x));
    var y :| y in others && Essence(y) == Essence(x);
    EssenceReads(q, after, x);
    EssenceReads(q, after, y);
    assert y in Rest(others, q, after);
  }

  lemma NothingNewLeft(earlier: seq<Post>, later: seq<Post>, q: Request, p: Post, y: Post)
    requires q.sort == New && ArrivedAhead(earlier, later, p) && y in Rest(later, q, Some(KeyOf(New, p)))
    ensures Essence(y) in Essences(earlier)
  {
    hide Rest, Leads, KeyOf, Essence;
    ContinuesIsLater(New, p, y);
  }

  lemma EssencesJoin(a: seq<Post>, b: seq<Post>)
    ensures Essences(a + b) == Essences(a) + Essences(b)
  {
    hide Essence;
  }

  /**
   * Paging through the newest posts while others arrive ahead of the cursor and old ones are voted
   * on: however many pages are read, the posts shown are, counts aside, a prefix of the list as the
   * first page saw it, nothing twice and nothing skipped, and all of it once there were pages enough.
   */
  lemma {:induction false} ArrivalsNeverDisturb(tables: seq<seq<Post>>, q: Request, cursor: string)
    requires |tables| >= 1 && q.sort == New && Sane(tables, q) && OnlyAhead(tables, q, cursor)
    ensures Essences(ChaseThrough(tables, q, cursor)) <= Essences(Remaining(tables[0], q, cursor))
    ensures |Remaining(tables[0], q, cursor)| <= |tables| ==>
              Essences(ChaseThrough(tables, q, cursor)) == Essences(Remaining(tables[0], q, cursor))
    decreases |tables|
  {
    hide ShowPage, Position, Remaining, Essences, ArrivedAhead;
    assert tables[0] in tables;
    var left := Remaining(tables[0], q, cursor);
    PageThenRest(tables[0], q, cursor);
    if ShowPage(tables[0], q, cursor).Ok? {
      var page := ShowPage(tables[0], q, cursor).value;
      var rest := tables[1..];
      if page.next != "" && rest != [] {
        assert Sane(rest, q) && rest[0] in tables;
        NextTable(tables[0], rest[0], q, cursor);
        ArrivalsNeverDisturb(rest, q, page.next);
        EssencesJoin(page.shown, ChaseThrough(rest, q, page.next));
      } else {
        assert page.shown + [] == page.shown;
        EssencesPrefix(page.shown, left);
      }
    } else {
      EssencesPrefix([], left);
    }
  }

  lemma EssencesPrefix(a: seq<Post>, b: seq<Post>)
    ensures a <= b ==> Essences(a) <= Essences(b)
  {
    hide Essence;
  }

  /** The next page, read from a table that only grew ahead of the cursor, shows what this one had left. */
  lemma NextTable(earlier: seq<Post>, later: seq<Post>, q: Request, cursor: string)
    requires DistinctIds(earlier) && DistinctIds(later) && CarriesRows(q, earlier) && q.sort == New
    requires ShowPage(earlier, q, cursor).Ok? && ShowPage(earlier, q, cursor).value.next != ""
    requires var page := ShowPage(earlier, q, cursor).value;
      page.shown != [] && ArrivedAhead(earlier, later, page.shown[|page.shown| - 1])
    ensures var page := ShowPage(earlier, q, cursor).value;
      && Essences(page.shown) + Essences(Remaining(later, q, page.next)) == Essences(Remaining(earlier, q, cursor))
      && 1 <= |page.shown| && |Remaining(later, q, page.next)| < |Remaining(earlier, q, cursor)|
  {
    hide ShowPage, ArrivedAhead, Position, Essences, KeyOf, Rest;
    var last := LastShown(earlier, q, cursor);
    ArrivalsDoNotContinue(earlier, later, q, last);
    EssencesJoin(ShowPage(earlier, q, cursor).value.shown, Rest(earlier, q, Some(KeyOf(New, last))));
  }

  /** A post lost to a cursor that reads back an earlier moment: created since then, or then with a larger id. */
  predicate Skipped(read: int, p: Post, o: Post) {
    o.createdAt > read || (o.createdAt == read && o.id >= p.id)
  }

  lemma SkippedExactly(q: Request, p: Post, o: Post, read: int)
    requires q.sort == New && read <= p.createdAt
    ensures Remains(q, Some([read, p.id]), o) <==> Remains(q, Some(KeyOf(New, p)), o) && !Skipped(read, p, o)
  {
  }

  lemma SkippedLead(p: Post, x: Post, y: Post, read: int)
    requires Leads(New, x, y) && Skipped(read, p, y)
    ensures Skipped(read, p, x)
  {
    ContinuesIsLater(New, x, y);
  }

  /**
   * What a cursor that does not carry the creation time exactly loses: reading back an earlier moment,
   * the next page starts `n` posts too late, and those are exactly the posts after the last one shown
   * that were created since that moment, or at it with an id not below.
   */
  lemma RoundedTimeSkips(rows: seq<Post>, q: Request, p: Post, read: int) returns (n: nat)
    requires DistinctIds(rows) && q.sort == New && read <= p.createdAt
    ensures n <= |Rest(rows, q, Some(KeyOf(New, p)))|
    ensures Rest(rows, q, Some([read, p.id])) == Rest(rows, q, Some(KeyOf(New, p)))[n..]
    ensures forall i :: 0 <= i < |Rest(rows, q, Some(KeyOf(New, p)))| ==>
              (i < n <==> Skipped(read, p, Rest(rows, q, Some(KeyOf(New, p)))[i]))
  {
    hide Rest, Remains, Leads, Skipped;
    var left, after := Rest(rows, q, Some(KeyOf(New, p))), Some([read, p.id]);
    RestOrdered(rows, q, Some(KeyOf(New, p)));
    RestOrdered(rows, q, after);
    n := 0;
    while n < |left| && Skipped(read, p, left[n])
      invariant n <= |left| && forall i :: 0 <= i < n ==> Skipped(read, p, left[i])
    {
      n := n + 1;
    }
    forall i | n < i < |left| ensures !Skipped(read, p, left[i]) {
      if Skipped(read, p, left[i]) { SkippedLead(p, left[n], left[i], read); }
    }
    forall o ensures o in Rest(rows, q, after) <==> o in left[n..] {
      SkippedExactly(q, p, o, read);
      if o in left {
        var k :| 0 <= k < |left| && left[k] == o;
        if k >= n { assert left[n..][k - n] == o; }
      }
    }
    OrderedUnique(New, Rest(rows, q, after), left[n..]);
  }

  // ----- the pins in front -----

  predicate LatestFirst(ps: seq<Post>) {
    forall i, j :: 0 <= i < j < |ps| ==> PinKey(ps[i]) >= PinKey(ps[j])
  }

  lemma {:induction false} InsertPinKeepsOrder(p: Post, ps: seq<Post>)
    requires LatestFirst(ps)
    ensures LatestFirst(InsertPin(p, ps))
  {
    if ps != [] && PinKey(p) < PinKey(ps[0]) {
      InsertPinKeepsOrder(p, ps[1..]);
      SameElements(InsertPin(p, ps[1..]), ps[1..] + [p]);
      forall x | x in InsertPin(p, ps[1..]) ensures PinKey(x) <= PinKey(ps[0]) {
        if x != p {
          var k :| 0 <= k < |ps[1..]| && ps[1..][k] == x;
          assert ps[k + 1] == x;
        }
      }
      assert forall j :: 0 <= j < |InsertPin(p, ps[1..])| ==> InsertPin(p, ps[1..])[j] in InsertPin(p, ps[1..]);
    }
  }

  lemma {:induction false} InsertPinKeepsIds(p: Post, ps: seq<Post>)
    requires DistinctIds(ps) && forall x :: x in ps ==> x.id != p.id
    ensures DistinctIds(InsertPin(p, ps))
  {
    if ps != [] && PinKey(p) < PinKey(ps[0]) {
      InsertPinKeepsIds(p, ps[1..]);
      SameElements(InsertPin(p, ps[1..]), ps[1..] + [p]);
      forall x | x in InsertPin(p, ps[1..]) ensures x.id != ps[0].id {
        if x != p {
          var k :| 0 <= k < |ps[1..]| && ps[1..][k] == x;
          assert ps[k + 1] == x;
        }
      }
      assert forall j :: 0 <= j < |InsertPin(p, ps[1..])| ==> InsertPin(p, ps[1..])[j] in InsertPin(p, ps[1..]);
    }
  }

  lemma {:induction false} PinsAreAllPinned(rows: seq<Post>, q: Request)
    requires DistinctIds(rows)
    ensures DistinctIds(Pins(rows, q)) && LatestFirst(Pins(rows, q))
    ensures forall p :: p in Pins(rows, q) <==> p in rows && Pinned(q, p)
  {
    if rows != [] {
      PinsAreAllPinned(rows[1..], q);
      assert rows == [rows[0]] + rows[1..];
      var rest := Pins(rows[1..], q);
      if Pinned(q, rows[0]) {
        SameElements(InsertPin(rows[0], rest), rest + [rows[0]]);
        forall x | x in rest ensures x.id != rows[0].id {
          var k :| 0 <= k < |rows[1..]| && rows[1..][k] == x;
          assert rows[k + 1] == x;
        }
        InsertPinKeepsIds(rows[0], rest);
        InsertPinKeepsOrder(rows[0], rest);
      }
    }
  }

  /**
   * A community's first page leads with its ten latest pins, and since the paged list leaves pinned
   * posts out, every pinned post is shown exactly when there are at most ten of them.
   */
  lemma PinsBeyondTenAreNeverShown(rows: seq<Post>, q: Request)
    requires DistinctIds(rows) && CarriesRows(q, rows)
    ensures ShowPage(rows, q, "").Ok?
    ensures (forall p :: p in rows && Pinned(q, p) ==> p in ShowPage(rows, q, "").value.pinned || p in Chase(rows, q, ""))
       <==> |Pins(rows, q)| <= PINS_SHOWN
    ensures forall p, o ::
              (p in ShowPage(rows, q, "").value.pinned && o in rows && Pinned(q, o) && o !in ShowPage(rows, q, "").value.pinned)
              ==> PinKey(p) >= PinKey(o)
  {
    hide *;
    PinsAreAllPinned(rows, q);
    ChaseShowsAll(rows, q, "");
    ListingHasNoPins(rows, q);
    FirstPagePins(rows, q);
    LedByLatest(Pins(rows, q), PINS_SHOWN);
  }

  /** So many posts of one community, all live and pinned, each later than the one before. */
  function ManyPins(n: nat, communityId: int): (rows: seq<Post>)
    ensures |rows| == n
    ensures forall i :: 0 <= i < n ==> rows[i] == Post(i, communityId, None, None, Some(i), false, false, 0, 0, 0, i)
  {
    if n == 0 then []
    else ManyPins(n - 1, communityId) + [Post(n - 1, communityId, None, None, Some(n - 1), false, false, 0, 0, 0, n - 1)]
  }

  /** On a community's feed of eleven such posts or more, the first one pinned is on no page. */
  lemma FirstPinIsLost(n: nat, communityId: int, q: Request)
    requires n > PINS_SHOWN && q.scope == Community(communityId) && q.flair.None? && q.hidden == {} && q.blocked == {}
    requires CarriesRows(q, ManyPins(n, communityId))
    ensures var rows := ManyPins(n, communityId);
      && DistinctIds(rows) && Pinned(q, rows[0]) && ShowPage(rows, q, "").Ok?
      && rows[0] !in ShowPage(rows, q, "").value.pinned && rows[0] !in Chase(rows, q, "")
  {
    hide ShowPage, Chase, Listing, Pins;
    var rows := ManyPins(n, communityId);
    PinsAreAllPinned(rows, q);
    ChaseShowsAll(rows, q, "");
    ListingHasNoPins(rows, q);
    FirstPagePins(rows, q);
    LedByLatest(Pins(rows, q), PINS_SHOWN);
    forall i | 0 <= i < n ensures rows[i] in Pins(rows, q) {
      assert rows[i] in rows && Pinned(q, rows[i]);
    }
    if rows[0] in ShowPage(rows, q, "").value.pinned {
      AllLedIfLast(rows, Pins(rows, q));
    }
  }

  lemma AllLedIfLast(rows: seq<Post>, all: seq<Post>)
    requires |rows| > PINS_SHOWN && DistinctIds(rows) && forall p :: p in rows ==> p in all
    requires forall i :: 0 < i < |rows| ==> PinKey(rows[i]) > PinKey(rows[0])
    requires forall p, o :: p in Take(PINS_SHOWN, all) && o in all && o !in Take(PINS_SHOWN, all) ==> PinKey(p) >= PinKey(o)
    ensures rows[0] !in Take(PINS_SHOWN, all)
  {
    hide PinKey;
    var led := Take(PINS_SHOWN, all);
    if rows[0] in led {
      forall i | 0 <= i < |rows| ensures rows[i] in led {
        assert rows[i] in all;
      }
      MoreThanFit(rows, led);
    }
  }

  /** Distinct posts that are all in a list are no more than it holds. */
  lemma {:induction false} MoreThanFit(a: seq<Post>, b: seq<Post>)
    requires DistinctIds(a) && forall i :: 0 <= i < |a| ==> a[i] in b
    ensures |a| <= |b|
  {
    if a != [] {
      var k :| 0 <= k < |b| && b[k] == a[0];
      var c := b[..k] + b[k + 1..];
      forall i | 0 <= i < |a[1..]| ensures a[1..][i] in c {
        var j :| 0 <= j < |b| && b[j] == a[i + 1];
        assert a[i + 1].id != a[0].id;
        assert j < k ==> c[j] == b[j];
        assert j > k ==> c[j - 1] == b[j];
      }
      MoreThanFit(a[1..], c);
    }
  }

  /** The first `n` of a list newest first hold all of it exactly when there are no more, and the newest in any case. */
  lemma LedByLatest(all: seq<Post>, n: nat)
    requires DistinctIds(all) && LatestFirst(all)
    ensures forall p :: p in Take(n, all) ==> p in all
    ensures (forall p :: p in all ==> p in Take(n, all)) <==> |all| <= n
    ensures forall p, o :: p in Take(n, all) && o in all && o !in Take(n, all) ==> PinKey(p) >= PinKey(o)
  {
    hide PinKey;
    var led := Take(n, all);
    assert led <= all;
    if |all| > n {
      var lost := all[n];
      assert lost in all && forall k :: 0 <= k < n ==> all[k].id != lost.id;
      assert lost !in led;
    }
    forall p, o | p in led && o in all && o !in led ensures PinKey(p) >= PinKey(o) {
      var i :| 0 <= i < |led| && led[i] == p;
      var j :| 0 <= j < |all| && all[j] == o;
      assert forall k :: 0 <= k < |led| ==> all[k] == led[k] && led[k] in led;
    }
  }

  lemma FirstPagePins(rows: seq<Post>, q: Request)
    ensures ShowPage(rows, q, "").Ok?
    ensures ShowPage(rows, q, "").value.pinned == Take(PINS_SHOWN, Pins(rows, q))
  {
    if !q.scope.Community? { NoPinsElsewhere(rows, q); }
  }

  lemma ListingHasNoPins(rows: seq<Post>, q: Request)
    ensures forall p :: p in Listing(rows, q) ==> !Pinned(q, p)
  {
  }

  lemma {:induction false} NoPinsElsewhere(rows: seq<Post>, q: Request)
    requires !q.scope.Community?
    ensures Pins(rows, q) == []
  {
    if rows != [] { NoPinsElsewhere(rows[1..], q); }
  }
}
