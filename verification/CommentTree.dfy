/**
 * Comments under a post: how a reply is placed (parent, depth, dotted path), and how the flat
 * rows are read back as a tree, siblings sorted and walked depth first.
 */
module CommentTree {
  import opened Wrappers
  import opened Text

  type Id = string

  /** A row of the comments table. `controversy` and `bestScore` count ten-millionths. */
  datatype Comment = Comment(
    id: Id, postId: Id, parentId: Option<Id>, path: string, depth: nat,
    authorId: Id, isAnonymous: bool, body: string, removed: bool, deleted: bool,
    score: int, createdAt: int, controversy: int, bestScore: int, editedAt: Option<int>)

  datatype CommentSort = Best | Top | New | Old | Controversial

  // ----- paths -----

  function ChildPath(parentPath: Option<string>, id: Id): string {
    if parentPath.Some? && parentPath.value != "" then parentPath.value + "." + id else id
  }

  function DepthOf(path: string): int {
    |Split(path, '.')| - 1
  }

  predicate CanReplyAt(parentDepth: nat, cap: nat) {
    parentDepth + 1 <= cap
  }

  /** Whether `candidate` lies in the subtree rooted at `ancestor`. */
  predicate IsWithin(ancestor: string, candidate: string) {
    candidate == ancestor || ancestor + "." <= candidate
  }

  /** The ids on the way down to a comment, its own last. */
  function Trail(c: Comment): (t: seq<string>)
    ensures |t| >= 1
  {
    Split(c.path, '.')
  }

  lemma {:induction false} JoinConcat(a: seq<string>, b: seq<string>, sep: char)
    requires |a| >= 1 && |b| >= 1
    ensures Join(a + b, sep) == Join(a, sep) + [sep] + Join(b, sep)
  {
    if |a| == 1 {
      assert (a + b)[1..] == b;
    } else {
      assert (a + b)[1..] == a[1..] + b;
      JoinConcat(a[1..], b, sep);
    }
  }

  /** The string test for a subtree is exactly the prefix order on the ids along the path. */
  lemma IsWithinIsPrefix(a: string, b: string)
    ensures IsWithin(a, b) <==> Split(a, '.') <= Split(b, '.')
  {
    if a + "." <= b {
      var y := b[|a| + 1..];
      assert b == a + ['.'] + y;
      SplitAround(a, '.', y);
    }
    if Split(a, '.') <= Split(b, '.') {
      JoinSplit(a, '.');
      JoinSplit(b, '.');
      var rest := Split(b, '.')[|Split(a, '.')|..];
      assert Split(b, '.') == Split(a, '.') + rest;
      if rest != [] {
        JoinConcat(Split(a, '.'), rest, '.');
      } else {
        assert Split(b, '.') == Split(a, '.');
      }
    }
  }

  // ----- the shape replies keep -----

  predicate DistinctIds(rows: seq<Comment>) {
    forall i, j :: 0 <= i < j < |rows| ==> rows[i].id != rows[j].id
  }

  predicate Placed(rows: seq<Comment>, c: Comment) {
    && c.id != "" && '.' !in c.id
    && match c.parentId
       case None => c.path == c.id && c.depth == 0
       case Some(p) => exists q :: q in rows && q.id == p && q.postId == c.postId && c.path == q.path + "." + c.id && c.depth == q.depth + 1
  }

  /** One post's rows: ids are unique, and every row sits under its parent, or at the root. */
  predicate Threaded(rows: seq<Comment>) {
    DistinctIds(rows) && forall c {:trigger Placed(rows, c)} :: c in rows ==> Placed(rows, c)
  }

  lemma SameId(rows: seq<Comment>, a: Comment, b: Comment)
    requires DistinctIds(rows) && a in rows && b in rows && a.id == b.id
    ensures a == b
  {
    var i :| 0 <= i < |rows| && rows[i] == a;
    var j :| 0 <= j < |rows| && rows[j] == b;
  }

  /** A reply's trail is its parent's trail and its own id. */
  lemma TrailOf(rows: seq<Comment>, c: Comment)
    requires Threaded(rows) && c in rows
    ensures |Trail(c)| == c.depth + 1
    ensures Trail(c)[c.depth] == c.id
    ensures c.parentId.None? ==> c.depth == 0 && Trail(c) == [c.id]
    ensures c.parentId.Some? ==> exists q :: q in rows && q.id == c.parentId.value && c.depth == q.depth + 1 && Trail(c) == Trail(q) + [c.id]
    decreases c.depth
  {
    assert Placed(rows, c);
    SplitWhole(c.id, '.');
    if c.parentId.Some? {
      var q :| q in rows && q.id == c.parentId.value && q.postId == c.postId && c.path == q.path + "." + c.id && c.depth == q.depth + 1;
      TrailOf(rows, q);
      SplitAround(q.path, '.', c.id);
    }
  }

  /** The stored depth is the number of dots in the stored path. */
  lemma DepthIsDots(rows: seq<Comment>, c: Comment)
    requires Threaded(rows) && c in rows
    ensures DepthOf(c.path) == c.depth
  {
    TrailOf(rows, c);
  }

  lemma SameTrail(rows: seq<Comment>, a: Comment, b: Comment)
    requires Threaded(rows) && a in rows && b in rows && Trail(a) == Trail(b)
    ensures a == b
  {
    TrailOf(rows, a);
    TrailOf(rows, b);
    SameId(rows, a, b);
  }

  /** Every id along a trail belongs to a row with exactly that trail. */
  lemma {:induction false} AncestorRow(rows: seq<Comment>, c: Comment, n: nat) returns (q: Comment)
    requires Threaded(rows) && c in rows && 0 < n <= |Trail(c)|
    ensures q in rows && Trail(q) == Trail(c)[..n]
    decreases c.depth
  {
    TrailOf(rows, c);
    q := c;
    if n < |Trail(c)| {
      var p :| p in rows && p.id == c.parentId.value && c.depth == p.depth + 1 && Trail(c) == Trail(p) + [c.id];
      q := AncestorRow(rows, p, n);
      assert Trail(c)[..n] == Trail(p)[..n];
    }
  }

  // ----- sorting siblings -----

  function Key(sort: CommentSort, c: Comment): int {
    match sort
    case Top => -c.score
    case New => -c.createdAt
    case Old => c.createdAt
    case Controversial => -c.controversy
    case Best => -c.bestScore
  }

  predicate RowOrder(rows: seq<Comment>, a: Comment, b: Comment) {
    exists x, y :: 0 <= x < y < |rows| && rows[x] == a && rows[y] == b
  }

  /** The order siblings are shown in: by key, and on equal keys as the rows came. */
  predicate Before(rows: seq<Comment>, sort: CommentSort, a: Comment, b: Comment) {
    Key(sort, a) < Key(sort, b) || (Key(sort, a) == Key(sort, b) && RowOrder(rows, a, b))
  }

  predicate InOrder(rows: seq<Comment>, sort: CommentSort, cs: seq<Comment>) {
    forall i, j :: 0 <= i < j < |cs| ==> Before(rows, sort, cs[i], cs[j])
  }

  function ParentIdOf(parent: Option<Comment>): Option<Id> {
    match parent case None => None case Some(p) => Some(p.id)
  }

  /** The rows that reply to `parentId`, in row order: what the map by parent holds for it. */
  function RepliesTo(rows: seq<Comment>, parentId: Option<Id>): (cs: seq<Comment>)
    ensures forall c :: c in cs <==> c in rows && c.parentId == parentId
  {
    if rows == [] then []
    else
      assert forall c :: c in rows <==> c in rows[..|rows| - 1] || c == rows[|rows| - 1];
      RepliesTo(rows[..|rows| - 1], parentId)
      + (if rows[|rows| - 1].parentId == parentId then [rows[|rows| - 1]] else [])
  }

  lemma {:induction false} RepliesInRowOrder(rows: seq<Comment>, parentId: Option<Id>)
    ensures forall i, j :: 0 <= i < j < |RepliesTo(rows, parentId)| ==>
              RowOrder(rows, RepliesTo(rows, parentId)[i], RepliesTo(rows, parentId)[j])
  {
    if rows != [] {
      var front, last := rows[..|rows| - 1], rows[|rows| - 1];
      RepliesInRowOrder(front, parentId);
      var cs := RepliesTo(rows, parentId);
      forall i, j | 0 <= i < j < |cs| ensures RowOrder(rows, cs[i], cs[j]) {
        var before := RepliesTo(front, parentId);
        if j < |before| {
          assert RowOrder(front, before[i], before[j]);
        } else {
          assert cs[i] in front;
          var x :| 0 <= x < |front| && front[x] == cs[i];
          assert rows[x] == cs[i] && rows[|rows| - 1] == cs[j];
        }
      }
    }
  }

  function InsertByKey(sort: CommentSort, c: Comment, cs: seq<Comment>): (r: seq<Comment>)
    ensures multiset(r) == multiset(cs) + multiset{c}
    ensures |r| == |cs| + 1
  {
    if cs == [] || Key(sort, c) <= Key(sort, cs[0]) then [c] + cs
    else
      assert cs == [cs[0]] + cs[1..];
      [cs[0]] + InsertByKey(sort, c, cs[1..])
  }

  /** A stable sort by key. */
  function SortByKey(sort: CommentSort, cs: seq<Comment>): (r: seq<Comment>)
    ensures multiset(r) == multiset(cs) && |r| == |cs|
  {
    if cs == [] then []
    else
      assert cs == [cs[0]] + cs[1..];
      InsertByKey(sort, cs[0], SortByKey(sort, cs[1..]))
  }

  lemma SameElements(a: seq<Comment>, b: seq<Comment>)
    requires multiset(a) == multiset(b)
    ensures forall c :: c in a <==> c in b
  {
    forall c ensures c in a <==> c in b {
      assert c in a <==> c in multiset(a);
      assert c in b <==> c in multiset(b);
    }
  }

  lemma {:induction false} InsertKeepsOrder(rows: seq<Comment>, sort: CommentSort, c: Comment, cs: seq<Comment>)
    requires InOrder(rows, sort, cs)
    requires forall e :: e in cs ==> RowOrder(rows, c, e)
    ensures InOrder(rows, sort, InsertByKey(sort, c, cs))
  {
    if cs != [] && Key(sort, cs[0]) < Key(sort, c) {
      var rest := InsertByKey(sort, c, cs[1..]);
      InsertKeepsOrder(rows, sort, c, cs[1..]);
      SameElements(rest, cs[1..] + [c]);
      forall i, j | 0 <= i < j < |[cs[0]] + rest| ensures Before(rows, sort, ([cs[0]] + rest)[i], ([cs[0]] + rest)[j]) {
        if i == 0 {
          var e := rest[j - 1];
          assert e in rest;
          if e != c {
            var k :| 0 <= k < |cs[1..]| && cs[1..][k] == e;
            assert cs[k + 1] == e;
          }
        }
      }
    } else if cs != [] {
      forall j | 0 <= j < |cs| ensures Before(rows, sort, c, cs[j]) {
        if j > 0 { assert Before(rows, sort, cs[0], cs[j]); }
      }
    }
  }

  lemma {:induction false} SortKeepsOrder(rows: seq<Comment>, sort: CommentSort, cs: seq<Comment>)
    requires forall i, j :: 0 <= i < j < |cs| ==> RowOrder(rows, cs[i], cs[j])
    ensures InOrder(rows, sort, SortByKey(sort, cs))
  {
    if cs != [] {
      SortKeepsOrder(rows, sort, cs[1..]);
      var rest := SortByKey(sort, cs[1..]);
      SameElements(rest, cs[1..]);
      forall e | e in rest ensures RowOrder(rows, cs[0], e) {
        var k :| 0 <= k < |cs[1..]| && cs[1..][k] == e;
        assert cs[k + 1] == e;
      }
      InsertKeepsOrder(rows, sort, cs[0], rest);
    }
  }

  /** The children of one parent as the walk visits them. */
  function Children(rows: seq<Comment>, sort: CommentSort, parentId: Option<Id>): (cs: seq<Comment>)
    ensures forall c :: c in cs <==> c in rows && c.parentId == parentId
  {
    var replies := RepliesTo(rows, parentId);
    var cs := SortByKey(sort, replies);
    SameElements(cs, replies);
    cs
  }

  lemma ChildrenInOrder(rows: seq<Comment>, sort: CommentSort, parentId: Option<Id>)
    ensures InOrder(rows, sort, Children(rows, sort, parentId))
  {
    RepliesInRowOrder(rows, parentId);
    SortKeepsOrder(rows, sort, RepliesTo(rows, parentId));
  }

  // ----- the walk -----

  /** More than every depth among the rows, so that going down can be measured. */
  function Height(rows: seq<Comment>): (h: nat)
    ensures forall c :: c in rows ==> c.depth < h
  {
    if rows == [] then 0
    else
      var rest := Height(rows[1..]);
      assert rows == [rows[0]] + rows[1..];
      if rows[0].depth < rest then rest else rows[0].depth + 1
  }

  function Level(parent: Option<Comment>): nat {
    match parent case None => 0 case Some(p) => p.depth + 1
  }

  lemma ChildLevel(rows: seq<Comment>, parent: Option<Comment>, c: Comment)
    requires Threaded(rows) && c in rows && c.parentId == ParentIdOf(parent)
    requires parent.Some? ==> parent.value in rows
    ensures c.depth == Level(parent) < Height(rows)
    ensures Level(Some(c)) == Level(parent) + 1
  {
    TrailOf(rows, c);
    if parent.Some? {
      var q :| q in rows && q.id == c.parentId.value && c.depth == q.depth + 1 && Trail(c) == Trail(q) + [c.id];
      SameId(rows, q, parent.value);
    }
  }

  /** The subtree below a parent, depth first: each child followed by its own subtree. */
  function Walk(rows: seq<Comment>, sort: CommentSort, parent: Option<Comment>): seq<Comment>
    requires Threaded(rows) && (parent.Some? ==> parent.value in rows)
    decreases Height(rows) - Level(parent), 1, 0
  {
    var cs := Children(rows, sort, ParentIdOf(parent));
    WalkEach(rows, sort, parent, cs)
  }

  function WalkEach(rows: seq<Comment>, sort: CommentSort, parent: Option<Comment>, cs: seq<Comment>): seq<Comment>
    requires Threaded(rows) && (parent.Some? ==> parent.value in rows)
    requires forall c :: c in cs ==> c in rows && c.parentId == ParentIdOf(parent)
    decreases Height(rows) - Level(parent), 0, |cs|
  {
    if cs == [] then []
    else
      ChildLevel(rows, parent, cs[0]);
      [cs[0]] + Walk(rows, sort, Some(cs[0])) + WalkEach(rows, sort, parent, cs[1..])
  }

  // ----- what the walk visits -----

  function Root(parent: Option<Comment>): seq<string> {
    match parent case None => [] case Some(p) => Trail(p)
  }

  predicate Under(cs: seq<Comment>, c: Comment) {
    exists k :: k in cs && Trail(k) <= Trail(c)
  }

  lemma ChildTrail(rows: seq<Comment>, parent: Option<Comment>, c: Comment)
    requires Threaded(rows) && c in rows && c.parentId == ParentIdOf(parent)
    requires parent.Some? ==> parent.value in rows
    ensures Trail(c) == Root(parent) + [c.id] && c.depth == |Root(parent)|
  {
    TrailOf(rows, c);
    if parent.Some? {
      var q :| q in rows && q.id == c.parentId.value && c.depth == q.depth + 1 && Trail(c) == Trail(q) + [c.id];
      SameId(rows, q, parent.value);
      TrailOf(rows, q);
    }
  }

  lemma SiblingTrails(rows: seq<Comment>, a: Comment, b: Comment)
    requires Threaded(rows) && a in rows && b in rows && a.parentId == b.parentId
    ensures a.depth == b.depth && |Trail(a)| == |Trail(b)| == a.depth + 1
    ensures Trail(a)[..a.depth] == Trail(b)[..a.depth]
  {
    TrailOf(rows, a);
    TrailOf(rows, b);
    if a.parentId.Some? {
      var p :| p in rows && p.id == a.parentId.value && a.depth == p.depth + 1 && Trail(a) == Trail(p) + [a.id];
      var q :| q in rows && q.id == b.parentId.value && b.depth == q.depth + 1 && Trail(b) == Trail(q) + [b.id];
      SameId(rows, p, q);
    }
  }

  /** A row one id below a parent's trail is a reply to it. */
  lemma ChildByTrail(rows: seq<Comment>, parent: Option<Comment>, k: Comment)
    requires Threaded(rows) && k in rows
    requires parent.Some? ==> parent.value in rows
    requires |Trail(k)| == |Root(parent)| + 1 && Root(parent) <= Trail(k)
    ensures k.parentId == ParentIdOf(parent)
  {
    hide Threaded;
    TrailOf(rows, k);
    if parent.Some? {
      var q :| q in rows && q.id == k.parentId.value && k.depth == q.depth + 1 && Trail(k) == Trail(q) + [k.id];
      assert Trail(q) == Trail(k)[..|Trail(q)|];
      SameTrail(rows, q, parent.value);
    }
  }

  /** Whatever lies strictly below a parent lies in the subtree of one of its children. */
  lemma BelowIsUnderChild(rows: seq<Comment>, sort: CommentSort, parent: Option<Comment>, c: Comment)
    requires Threaded(rows) && c in rows && Root(parent) < Trail(c)
    requires parent.Some? ==> parent.value in rows
    ensures Under(Children(rows, sort, ParentIdOf(parent)), c)
  {
    var n := |Root(parent)|;
    var k := AncestorRow(rows, c, n + 1);
    ChildByTrail(rows, parent, k);
    assert k in Children(rows, sort, ParentIdOf(parent));
  }

  lemma UnderChildIsBelow(rows: seq<Comment>, sort: CommentSort, parent: Option<Comment>, c: Comment)
    requires Threaded(rows) && c in rows
    requires parent.Some? ==> parent.value in rows
    ensures Under(Children(rows, sort, ParentIdOf(parent)), c) <==> Root(parent) < Trail(c)
  {
    hide Threaded, Children;
    var cs := Children(rows, sort, ParentIdOf(parent));
    if Under(cs, c) {
      var k :| k in cs && Trail(k) <= Trail(c);
      ChildTrail(rows, parent, k);
    }
    if Root(parent) < Trail(c) {
      BelowIsUnderChild(rows, sort, parent, c);
    }
  }

  lemma WalkIsEach(rows: seq<Comment>, sort: CommentSort, parent: Option<Comment>)
    requires Threaded(rows) && (parent.Some? ==> parent.value in rows)
    ensures Walk(rows, sort, parent) == WalkEach(rows, sort, parent, Children(rows, sort, ParentIdOf(parent)))
  {
  }

  /** The walk below a parent visits exactly the rows strictly below it. */
  lemma {:induction false} WalkMembers(rows: seq<Comment>, sort: CommentSort, parent: Option<Comment>)
    requires Threaded(rows) && (parent.Some? ==> parent.value in rows)
    ensures forall c :: c in Walk(rows, sort, parent) <==> c in rows && Root(parent) < Trail(c)
    decreases Height(rows) - Level(parent), 1, 0
  {
    hide *;
    WalkIsEach(rows, sort, parent);
    WalkEachMembers(rows, sort, parent, Children(rows, sort, ParentIdOf(parent)));
    forall c | c in rows ensures Under(Children(rows, sort, ParentIdOf(parent)), c) <==> Root(parent) < Trail(c) {
      UnderChildIsBelow(rows, sort, parent, c);
    }
  }

  lemma UnderFirstOrRest(rows: seq<Comment>, cs: seq<Comment>, c: Comment)
    requires Threaded(rows) && cs != [] && cs[0] in rows && c in rows
    ensures Under(cs, c) <==> c == cs[0] || Trail(cs[0]) < Trail(c) || Under(cs[1..], c)
  {
    if Trail(cs[0]) == Trail(c) { SameTrail(rows, cs[0], c); }
    assert forall k :: k in cs <==> k == cs[0] || k in cs[1..];
  }

  lemma {:induction false} WalkEachMembers(rows: seq<Comment>, sort: CommentSort, parent: Option<Comment>, cs: seq<Comment>)
    requires Threaded(rows) && (parent.Some? ==> parent.value in rows)
    requires forall c :: c in cs ==> c in rows && c.parentId == ParentIdOf(parent)
    ensures forall c :: c in WalkEach(rows, sort, parent, cs) <==> c in rows && Under(cs, c)
    decreases Height(rows) - Level(parent), 0, |cs|
  {
    if cs != [] {
      ChildLevel(rows, parent, cs[0]);
      var below, rest := Walk(rows, sort, Some(cs[0])), WalkEach(rows, sort, parent, cs[1..]);
      assert WalkEach(rows, sort, parent, cs) == [cs[0]] + below + rest;
      forall c ensures c in [cs[0]] + below + rest <==> c in rows && Under(cs, c) {
        WalkMembers(rows, sort, Some(cs[0]));
        WalkEachMembers(rows, sort, parent, cs[1..]);
        if c in rows { UnderFirstOrRest(rows, cs, c); }
      }
    }
  }

  // ----- the shape of what it returns -----

  predicate Distinct(w: seq<Comment>) {
    forall i, j :: 0 <= i < j < |w| ==> w[i] != w[j]
  }

  /** Rows `i` up to `n` are exactly the subtree rooted at row `i`. */
  predicate Block(w: seq<Comment>, i: nat, n: nat) {
    && i < n <= |w|
    && forall j :: 0 <= j < |w| ==> (Trail(w[i]) <= Trail(w[j]) <==> i <= j < n)
  }

  ghost predicate HasBlock(w: seq<Comment>, i: nat) {
    exists n :: Block(w, i, n)
  }

  ghost predicate Nested(w: seq<Comment>) {
    forall i :: 0 <= i < |w| ==> HasBlock(w, i)
  }

  predicate SiblingsInOrder(rows: seq<Comment>, sort: CommentSort, w: seq<Comment>) {
    forall i, j :: 0 <= i < j < |w| && w[i].parentId == w[j].parentId ==> Before(rows, sort, w[i], w[j])
  }

  ghost predicate WellShaped(rows: seq<Comment>, sort: CommentSort, w: seq<Comment>) {
    Distinct(w) && Nested(w) && SiblingsInOrder(rows, sort, w)
  }

  predicate Unrelated(a: Comment, b: Comment) {
    !(Trail(a) <= Trail(b)) && !(Trail(b) <= Trail(a))
  }

  /** Two well shaped lists with nothing of one above or below anything of the other. */
  lemma AppendShaped(rows: seq<Comment>, sort: CommentSort, a: seq<Comment>, b: seq<Comment>)
    requires WellShaped(rows, sort, a) && WellShaped(rows, sort, b)
    requires forall x, y :: x in a && y in b ==> Unrelated(x, y)
    requires forall x, y :: x in a && y in b && x.parentId == y.parentId ==> Before(rows, sort, x, y)
    ensures WellShaped(rows, sort, a + b)
  {
    var w := a + b;
    forall i | 0 <= i < |w| ensures HasBlock(w, i) {
      if i < |a| {
        assert HasBlock(a, i);
        var n: nat :| Block(a, i, n);
        forall j | 0 <= j < |w| ensures Trail(w[i]) <= Trail(w[j]) <==> i <= j < n {
          if j >= |a| { assert Unrelated(a[i], b[j - |a|]); }
        }
        assert Block(w, i, n);
      } else {
        assert HasBlock(b, i - |a|);
        var n: nat :| Block(b, i - |a|, n);
        forall j | 0 <= j < |w| ensures Trail(w[i]) <= Trail(w[j]) <==> i <= j < n + |a| {
          if j < |a| { assert Unrelated(a[j], b[i - |a|]); }
        }
        assert Block(w, i, n + |a|);
      }
    }
    forall i, j | 0 <= i < j < |w| ensures w[i] != w[j] {
      if i < |a| <= j { assert Unrelated(a[i], b[j - |a|]); }
    }
  }

  /** A row in front of everything strictly below it. */
  lemma PrependShaped(rows: seq<Comment>, sort: CommentSort, c: Comment, w: seq<Comment>)
    requires Threaded(rows) && c in rows
    requires WellShaped(rows, sort, w)
    requires forall x :: x in w ==> x in rows && Trail(c) < Trail(x)
    ensures WellShaped(rows, sort, [c] + w)
  {
    var v := [c] + w;
    forall i | 0 <= i < |v| ensures HasBlock(v, i) {
      if i == 0 {
        assert Block(v, 0, |v|);
      } else {
        assert HasBlock(w, i - 1);
        var n: nat :| Block(w, i - 1, n);
        assert Block(v, i, n + 1);
      }
    }
    forall i, j | 0 <= i < j < |v| && v[i].parentId == v[j].parentId ensures Before(rows, sort, v[i], v[j]) {
      SiblingTrails(rows, v[i], v[j]);
    }
  }

  lemma {:induction false} WalkShaped(rows: seq<Comment>, sort: CommentSort, parent: Option<Comment>)
    requires Threaded(rows) && (parent.Some? ==> parent.value in rows)
    ensures WellShaped(rows, sort, Walk(rows, sort, parent))
    decreases Height(rows) - Level(parent), 1, 0
  {
    var cs := Children(rows, sort, ParentIdOf(parent));
    ChildrenInOrder(rows, sort, ParentIdOf(parent));
    forall i, j | 0 <= i < j < |cs| ensures cs[i] != cs[j] {
      RepliesDistinct(rows, ParentIdOf(parent));
      assert multiset(cs) == multiset(RepliesTo(rows, ParentIdOf(parent)));
      DistinctByCount(RepliesTo(rows, ParentIdOf(parent)), cs);
    }
    WalkEachShaped(rows, sort, parent, cs);
  }

  lemma TailShaped(rows: seq<Comment>, sort: CommentSort, cs: seq<Comment>)
    ensures Distinct(cs) && InOrder(rows, sort, cs) && cs != [] ==> Distinct(cs[1..]) && InOrder(rows, sort, cs[1..])
    ensures WellShaped(rows, sort, [])
  {
  }

  lemma {:induction false} WalkEachShaped(rows: seq<Comment>, sort: CommentSort, parent: Option<Comment>, cs: seq<Comment>)
    requires Threaded(rows) && (parent.Some? ==> parent.value in rows)
    requires forall c :: c in cs ==> c in rows && c.parentId == ParentIdOf(parent)
    requires Distinct(cs) && InOrder(rows, sort, cs)
    ensures WellShaped(rows, sort, WalkEach(rows, sort, parent, cs))
    decreases Height(rows) - Level(parent), 0, |cs|
  {
    if cs != [] {
      hide Threaded, WellShaped, Distinct, InOrder, Under, Unrelated, Before;
      ChildLevel(rows, parent, cs[0]);
      TailShaped(rows, sort, cs);
      var below, rest := Walk(rows, sort, Some(cs[0])), WalkEach(rows, sort, parent, cs[1..]);
      WalkShaped(rows, sort, Some(cs[0]));
      WalkEachShaped(rows, sort, parent, cs[1..]);
      WalkMembers(rows, sort, Some(cs[0]));
      WalkEachMembers(rows, sort, parent, cs[1..]);
      PrependShaped(rows, sort, cs[0], below);
      forall x, y | x in [cs[0]] + below && y in rest
        ensures Unrelated(x, y)
        ensures x.parentId == y.parentId ==> Before(rows, sort, x, y)
      {
        FirstBeforeRest(rows, sort, parent, cs, x, y);
      }
      AppendShaped(rows, sort, [cs[0]] + below, rest);
    }
  }

  /** Siblings from the subtrees of two siblings are those two. */
  lemma SiblingsOfBranches(rows: seq<Comment>, a: Comment, k: Comment, x: Comment, y: Comment)
    requires Threaded(rows) && a in rows && k in rows && x in rows && y in rows
    requires a.parentId == k.parentId && x.parentId == y.parentId && a != k
    requires Trail(a) <= Trail(x) && Trail(k) <= Trail(y)
    ensures x == a && y == k
  {
    hide *;
    SiblingTrails(rows, x, y);
    SiblingTrails(rows, a, k);
    assert forall n :: 0 <= n < x.depth ==> Trail(x)[n] == Trail(x)[..x.depth][n] == Trail(y)[n];
    if Trail(a) == Trail(k) { SameTrail(rows, a, k); }
    assert Trail(x)[a.depth] == Trail(a)[a.depth] && Trail(y)[a.depth] == Trail(k)[a.depth];
    assert Trail(a)[a.depth] != Trail(k)[a.depth];
    SameTrail(rows, x, a);
    SameTrail(rows, y, k);
  }

  /** The first child's subtree against a row in a later child's subtree. */
  lemma FirstBeforeRest(rows: seq<Comment>, sort: CommentSort, parent: Option<Comment>, cs: seq<Comment>, x: Comment, y: Comment)
    requires Threaded(rows) && (parent.Some? ==> parent.value in rows)
    requires forall c :: c in cs ==> c in rows && c.parentId == ParentIdOf(parent)
    requires cs != [] && Distinct(cs) && InOrder(rows, sort, cs)
    requires x in rows && y in rows && Trail(cs[0]) <= Trail(x) && Under(cs[1..], y)
    ensures Unrelated(x, y)
    ensures x.parentId == y.parentId ==> Before(rows, sort, x, y)
  {
    hide Threaded, Before, Trail;
    var i :| 0 <= i < |cs[1..]| && Trail(cs[1..][i]) <= Trail(y);
    var k := cs[i + 1];
    assert k in cs[1..] && k in cs && cs[0] in cs && cs[0] != k;
    assert Before(rows, sort, cs[0], k);
    ApartBelow(rows, parent, cs, k, x, y);
    if x.parentId == y.parentId {
      SiblingsOfBranches(rows, cs[0], k, x, y);
    }
  }

  /** Subtrees of different siblings have nothing above or below one another. */
  lemma ApartBelow(rows: seq<Comment>, parent: Option<Comment>, cs: seq<Comment>, k: Comment, x: Comment, y: Comment)
    requires Threaded(rows) && (parent.Some? ==> parent.value in rows)
    requires forall c :: c in cs ==> c in rows && c.parentId == ParentIdOf(parent)
    requires Distinct(cs) && cs != [] && k in cs[1..]
    requires Trail(cs[0]) <= Trail(x) && Trail(k) <= Trail(y)
    ensures Unrelated(x, y) && !(Trail(cs[0]) <= Trail(y))
  {
    var i :| 0 <= i < |cs[1..]| && cs[1..][i] == k;
    assert cs[0] != cs[i + 1];
    ChildTrail(rows, parent, cs[0]);
    ChildTrail(rows, parent, k);
    if cs[0].id == k.id { SameId(rows, cs[0], k); }
    var n := |Root(parent)|;
    assert Trail(x)[n] == Trail(cs[0])[n] != Trail(k)[n] == Trail(y)[n];
  }

  lemma DistinctByCount(a: seq<Comment>, b: seq<Comment>)
    requires Distinct(a) && multiset(a) == multiset(b)
    ensures Distinct(b)
  {
    DistinctCounts(a);
    forall i, j | 0 <= i < j < |b| ensures b[i] != b[j] {
      assert b == b[..j] + [b[j]] + b[j + 1..];
      assert multiset(b) == multiset(b[..j]) + multiset{b[j]} + multiset(b[j + 1..]);
      assert b[i] in b[..j];
      assert multiset(b)[b[j]] <= 1;
    }
  }

  lemma {:induction false} DistinctCounts(a: seq<Comment>)
    requires Distinct(a)
    ensures forall c :: multiset(a)[c] == if c in a then 1 else 0
  {
    if a != [] {
      var front, last := a[..|a| - 1], a[|a| - 1];
      DistinctCounts(front);
      assert a == front + [last];
    }
  }

  lemma {:induction false} RepliesDistinct(rows: seq<Comment>, parentId: Option<Id>)
    requires DistinctIds(rows)
    ensures Distinct(RepliesTo(rows, parentId))
  {
    if rows != [] {
      RepliesDistinct(rows[..|rows| - 1], parentId);
    }
  }

  lemma SameMembersSameCounts(a: seq<Comment>, b: seq<Comment>)
    requires Distinct(a) && Distinct(b) && forall c :: c in a <==> c in b
    ensures multiset(a) == multiset(b)
  {
    DistinctCounts(a);
    DistinctCounts(b);
  }

  // ----- the main result -----

  /** Rows `i` up to `n` are exactly what the path test calls the subtree of row `i`. */
  predicate Subtree(w: seq<Comment>, i: nat, n: nat) {
    && i < n <= |w|
    && forall j :: 0 <= j < |w| ==> (IsWithin(w[i].path, w[j].path) <==> i <= j < n)
  }

  ghost predicate HasSubtree(w: seq<Comment>, i: nat) {
    exists n :: Subtree(w, i, n)
  }

  /**
   * Reading a post's comments back as a tree: every row once, each subtree in one piece with its
   * root in front, and siblings by key with ties left as the rows came.
   */
  lemma ReadTreeIsPreorder(rows: seq<Comment>, sort: CommentSort)
    requires Threaded(rows)
    ensures multiset(Walk(rows, sort, None)) == multiset(rows)
    ensures forall i :: 0 <= i < |Walk(rows, sort, None)| ==> HasSubtree(Walk(rows, sort, None), i)
    ensures SiblingsInOrder(rows, sort, Walk(rows, sort, None))
  {
    var w := Walk(rows, sort, None);
    WalkMembers(rows, sort, None);
    WalkShaped(rows, sort, None);
    SameMembersSameCounts(w, rows);
    forall i | 0 <= i < |w| ensures HasSubtree(w, i) {
      assert HasBlock(w, i);
      var n: nat :| Block(w, i, n);
      forall j | 0 <= j < |w| ensures IsWithin(w[i].path, w[j].path) <==> i <= j < n {
        IsWithinIsPrefix(w[i].path, w[j].path);
      }
      assert Subtree(w, i, n);
    }
  }

  /** Whatever order the query returns threaded rows in, they are threaded. */
  lemma PermutedStaysThreaded(rows: seq<Comment>, permuted: seq<Comment>)
    requires Threaded(rows) && multiset(permuted) == multiset(rows)
    ensures Threaded(permuted)
  {
    SameElements(permuted, rows);
    DistinctByCount(rows, permuted);
    forall i, j | 0 <= i < j < |permuted| ensures permuted[i].id != permuted[j].id {
      if permuted[i].id == permuted[j].id {
        assert permuted[i] in rows && permuted[j] in rows;
        SameId(rows, permuted[i], permuted[j]);
      }
    }
    forall c | c in permuted ensures Placed(permuted, c) {
      assert Placed(rows, c);
    }
  }

  /** A parent always comes before its replies. */
  lemma ParentsFirst(rows: seq<Comment>, sort: CommentSort, i: nat, j: nat)
    requires Threaded(rows)
    requires i < |Walk(rows, sort, None)| && j < |Walk(rows, sort, None)|
    requires Walk(rows, sort, None)[j].parentId == Some(Walk(rows, sort, None)[i].id)
    ensures i < j
  {
    var w := Walk(rows, sort, None);
    WalkMembers(rows, sort, None);
    WalkShaped(rows, sort, None);
    assert w[i] in w && w[j] in w;
    ChildTrail(rows, Some(w[i]), w[j]);
    assert HasBlock(w, i);
    var n: nat :| Block(w, i, n);
    assert Trail(w[i]) <= Trail(w[j]);
  }

  // ----- replying, editing, deleting -----

  /** A row as another row shows it after an edit or a deletion: same place, same sort keys. */
  predicate SamePlace(a: Comment, b: Comment) {
    && a.id == b.id && a.postId == b.postId && a.parentId == b.parentId && a.path == b.path && a.depth == b.depth
    && a.score == b.score && a.createdAt == b.createdAt && a.controversy == b.controversy && a.bestScore == b.bestScore
  }

  predicate SamePlaces(a: seq<Comment>, b: seq<Comment>) {
    |a| == |b| && forall i :: 0 <= i < |a| ==> SamePlace(a[i], b[i])
  }

  /** A new reply keeps the post's rows threaded. */
  lemma ReplyKeepsThreads(rows: seq<Comment>, c: Comment)
    requires Threaded(rows)
    requires forall r :: r in rows ==> r.id != c.id
    requires Placed(rows, c)
    ensures Threaded(rows + [c])
  {
    forall r | r in rows + [c] ensures Placed(rows + [c], r) {
      assert Placed(rows, r);
    }
  }

  lemma SamePlacesKeepThreads(a: seq<Comment>, b: seq<Comment>)
    requires Threaded(a) && SamePlaces(a, b)
    ensures Threaded(b)
  {
    forall i | 0 <= i < |b| ensures Placed(b, b[i]) {
      assert SamePlace(a[i], b[i]);
      assert Placed(a, a[i]);
      if a[i].parentId.Some? {
        var j :| 0 <= j < |a| && a[j].id == a[i].parentId.value && a[j].postId == a[i].postId
          && a[i].path == a[j].path + "." + a[i].id && a[i].depth == a[j].depth + 1;
        assert SamePlace(a[j], b[j]) && b[j] in b;
      }
    }
    forall i, j | 0 <= i < j < |b| ensures b[i].id != b[j].id {
      assert SamePlace(a[i], b[i]) && SamePlace(a[j], b[j]);
    }
  }

  lemma {:induction false} RepliesSamePlaces(a: seq<Comment>, b: seq<Comment>, parentId: Option<Id>)
    requires SamePlaces(a, b)
    ensures SamePlaces(RepliesTo(a, parentId), RepliesTo(b, parentId))
  {
    if a != [] {
      RepliesSamePlaces(a[..|a| - 1], b[..|b| - 1], parentId);
      assert SamePlace(a[|a| - 1], b[|a| - 1]);
    }
  }

  lemma ConcatSamePlaces(a: seq<Comment>, b: seq<Comment>, c: seq<Comment>, d: seq<Comment>)
    requires SamePlaces(a, b) && SamePlaces(c, d)
    ensures SamePlaces(a + c, b + d)
  {
  }

  lemma {:induction false} InsertSamePlaces(sort: CommentSort, x: Comment, y: Comment, a: seq<Comment>, b: seq<Comment>)
    requires SamePlace(x, y) && SamePlaces(a, b)
    ensures SamePlaces(InsertByKey(sort, x, a), InsertByKey(sort, y, b))
  {
    if a == [] || Key(sort, x) <= Key(sort, a[0]) {
      assert a != [] ==> SamePlace(a[0], b[0]);
      ConcatSamePlaces([x], [y], a, b);
    } else {
      assert SamePlace(a[0], b[0]);
      InsertSamePlaces(sort, x, y, a[1..], b[1..]);
      ConcatSamePlaces([a[0]], [b[0]], InsertByKey(sort, x, a[1..]), InsertByKey(sort, y, b[1..]));
    }
  }

  lemma {:induction false} SortSamePlaces(sort: CommentSort, a: seq<Comment>, b: seq<Comment>)
    requires SamePlaces(a, b)
    ensures SamePlaces(SortByKey(sort, a), SortByKey(sort, b))
  {
    if a != [] {
      SortSamePlaces(sort, a[1..], b[1..]);
      InsertSamePlaces(sort, a[0], b[0], SortByKey(sort, a[1..]), SortByKey(sort, b[1..]));
    }
  }

  predicate SameParent(p: Option<Comment>, q: Option<Comment>) {
    match p case None => q.None? case Some(x) => q.Some? && SamePlace(x, q.value)
  }

  /**
   * Editing or deleting comments never moves anything: the tree read back afterwards has the same
   * rows in the same places, replies included.
   */
  lemma {:induction false} WalkSamePlaces(a: seq<Comment>, b: seq<Comment>, sort: CommentSort, p: Option<Comment>, q: Option<Comment>)
    requires Threaded(a) && Threaded(b) && SamePlaces(a, b) && SameParent(p, q)
    requires (p.Some? ==> p.value in a) && (q.Some? ==> q.value in b)
    ensures SamePlaces(Walk(a, sort, p), Walk(b, sort, q))
    decreases Height(a) - Level(p), 1, 0
  {
    RepliesSamePlaces(a, b, ParentIdOf(p));
    SortSamePlaces(sort, RepliesTo(a, ParentIdOf(p)), RepliesTo(b, ParentIdOf(p)));
    WalkEachSamePlaces(a, b, sort, p, q, Children(a, sort, ParentIdOf(p)), Children(b, sort, ParentIdOf(q)));
  }

  lemma {:induction false} WalkEachSamePlaces(a: seq<Comment>, b: seq<Comment>, sort: CommentSort, p: Option<Comment>, q: Option<Comment>,
                                              cs: seq<Comment>, ds: seq<Comment>)
    requires Threaded(a) && Threaded(b) && SamePlaces(a, b) && SameParent(p, q)
    requires (p.Some? ==> p.value in a) && (q.Some? ==> q.value in b)
    requires SamePlaces(cs, ds)
    requires forall c :: c in cs ==> c in a && c.parentId == ParentIdOf(p)
    requires forall d :: d in ds ==> d in b && d.parentId == ParentIdOf(q)
    ensures SamePlaces(WalkEach(a, sort, p, cs), WalkEach(b, sort, q, ds))
    decreases Height(a) - Level(p), 0, |cs|
  {
    hide *;
    EachStep(a, sort, p, cs);
    EachStep(b, sort, q, ds);
    SamePlacesEnds(cs, ds);
    if cs != [] {
      FirstOfEach(a, b, p, q, cs, ds);
      WalkSamePlaces(a, b, sort, Some(cs[0]), Some(ds[0]));
      WalkEachSamePlaces(a, b, sort, p, q, cs[1..], ds[1..]);
      var x, y := Walk(a, sort, Some(cs[0])), Walk(b, sort, Some(ds[0]));
      ConcatSamePlaces([cs[0]], [ds[0]], x, y);
      ConcatSamePlaces([cs[0]] + x, [ds[0]] + y, WalkEach(a, sort, p, cs[1..]), WalkEach(b, sort, q, ds[1..]));
    }
  }

  lemma SamePlacesEnds(a: seq<Comment>, b: seq<Comment>)
    requires SamePlaces(a, b)
    ensures |a| == |b| && SamePlaces([], [])
  {
  }

  lemma EachStep(rows: seq<Comment>, sort: CommentSort, parent: Option<Comment>, cs: seq<Comment>)
    requires Threaded(rows) && (parent.Some? ==> parent.value in rows)
    requires forall c :: c in cs ==> c in rows && c.parentId == ParentIdOf(parent)
    ensures cs == [] ==> WalkEach(rows, sort, parent, cs) == []
    ensures cs != [] ==>
              WalkEach(rows, sort, parent, cs)
              == [cs[0]] + Walk(rows, sort, Some(cs[0])) + WalkEach(rows, sort, parent, cs[1..])
  {
  }

  lemma FirstOfEach(a: seq<Comment>, b: seq<Comment>, p: Option<Comment>, q: Option<Comment>, cs: seq<Comment>, ds: seq<Comment>)
    requires Threaded(a) && Threaded(b) && SameParent(p, q) && SamePlaces(cs, ds) && cs != [] && ds != []
    requires (p.Some? ==> p.value in a) && (q.Some? ==> q.value in b)
    requires cs[0] in a && cs[0].parentId == ParentIdOf(p)
    requires ds[0] in b && ds[0].parentId == ParentIdOf(q)
    ensures |cs| == |ds| && SamePlaces([cs[0]], [ds[0]]) && SamePlaces(cs[1..], ds[1..])
    ensures SameParent(Some(cs[0]), Some(ds[0]))
    ensures Level(Some(cs[0])) == Level(p) + 1 && Level(p) < Height(a)
    ensures Level(Some(ds[0])) == Level(q) + 1 && Level(q) < Height(b)
  {
    assert SamePlace(cs[0], ds[0]);
    ChildLevel(a, p, cs[0]);
    ChildLevel(b, q, ds[0]);
  }
}
