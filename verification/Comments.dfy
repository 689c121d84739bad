/**
 * The comment tables and the operations on them: replying, editing, deleting, and reading a
 * post's comments back in tree order.
 */
module Comments {
  import opened Wrappers
  import opened Access
  import opened CommentTree

  datatype Post = Post(communityId: Id, removed: bool, deleted: bool, locked: bool, commentCount: nat)

  datatype Community = Community(deleted: bool, archived: bool, allowAnonymous: bool)

  datatype Settings = Settings(anonymousPosting: bool, commentDepth: nat)

  /** One post's rows, in the order they were inserted. */
  function RowsOf(comments: seq<Comment>, postId: Id): (rows: seq<Comment>)
    ensures forall c :: c in rows <==> c in comments && c.postId == postId
  {
    if comments == [] then []
    else
      assert comments == comments[..|comments| - 1] + [comments[|comments| - 1]];
      RowsOf(comments[..|comments| - 1], postId)
      + (if comments[|comments| - 1].postId == postId then [comments[|comments| - 1]] else [])
  }

  lemma RowsOfAppend(comments: seq<Comment>, c: Comment, postId: Id)
    ensures RowsOf(comments + [c], postId) == RowsOf(comments, postId) + (if c.postId == postId then [c] else [])
  {
    assert (comments + [c])[..|comments|] == comments;
  }

  lemma {:induction false} RowsOfSamePlaces(a: seq<Comment>, b: seq<Comment>, postId: Id)
    requires SamePlaces(a, b)
    ensures SamePlaces(RowsOf(a, postId), RowsOf(b, postId))
  {
    if a != [] {
      RowsOfSamePlaces(a[..|a| - 1], b[..|b| - 1], postId);
      assert SamePlace(a[|a| - 1], b[|a| - 1]);
    }
  }

  /**
   * What every reachable state keeps: ids are unique, each post's rows are threaded, and each
   * post's cached count is the number of its rows, held, removed and deleted ones included.
   */
  predicate Consistent(posts: map<Id, Post>, comments: seq<Comment>) {
    && DistinctIds(comments)
    && (forall c :: c in comments ==> c.postId in posts)
    && (forall p {:trigger PostConsistent(posts, comments, p)} :: p in posts ==> PostConsistent(posts, comments, p))
  }

  predicate PostConsistent(posts: map<Id, Post>, comments: seq<Comment>, p: Id)
    requires p in posts
  {
    Threaded(RowsOf(comments, p)) && posts[p].commentCount == |RowsOf(comments, p)|
  }

  function OneMore(posts: map<Id, Post>, postId: Id): map<Id, Post>
    requires postId in posts
  {
    posts[postId := posts[postId].(commentCount := posts[postId].commentCount + 1)]
  }

  lemma ReplyKeepsPost(posts: map<Id, Post>, comments: seq<Comment>, c: Comment, p: Id)
    requires p in posts && c.postId in posts && PostConsistent(posts, comments, p)
    requires forall x :: x in comments ==> x.id != c.id
    requires Placed(RowsOf(comments, c.postId), c)
    ensures PostConsistent(OneMore(posts, c.postId), comments + [c], p)
  {
    RowsOfAppend(comments, c, p);
    if p == c.postId {
      ReplyKeepsThreads(RowsOf(comments, p), c);
    } else {
      assert RowsOf(comments + [c], p) == RowsOf(comments, p);
    }
  }

  /** Adding a placed row with a fresh id, and one to its post's count, keeps the tables consistent. */
  lemma ReplyKeepsConsistent(posts: map<Id, Post>, comments: seq<Comment>, c: Comment)
    requires Consistent(posts, comments) && c.postId in posts
    requires forall x :: x in comments ==> x.id != c.id
    requires Placed(RowsOf(comments, c.postId), c)
    ensures Consistent(OneMore(posts, c.postId), comments + [c])
  {
    forall p | p in posts ensures PostConsistent(OneMore(posts, c.postId), comments + [c], p) {
      assert PostConsistent(posts, comments, p);
      ReplyKeepsPost(posts, comments, c, p);
    }
  }

  /** Changing rows in place, without moving them, keeps the tables consistent. */
  lemma EditKeepsConsistent(posts: map<Id, Post>, a: seq<Comment>, b: seq<Comment>)
    requires Consistent(posts, a) && SamePlaces(a, b)
    ensures Consistent(posts, b)
  {
    forall i, j | 0 <= i < j < |b| ensures b[i].id != b[j].id {
      assert SamePlace(a[i], b[i]) && SamePlace(a[j], b[j]);
    }
    forall p | p in posts ensures PostConsistent(posts, b, p) {
      assert PostConsistent(posts, a, p);
      RowsOfSamePlaces(a, b, p);
      SamePlacesKeepThreads(RowsOf(a, p), RowsOf(b, p));
    }
    forall i | 0 <= i < |b| ensures b[i].postId in posts {
      assert SamePlace(a[i], b[i]) && a[i] in a;
    }
  }

  /** Why a reply is refused before its parent is looked at, in the order the checks run. */
  function Objection(posts: map<Id, Post>, communities: map<Id, Community>, caller: Caller, postId: Id,
                     isAnonymous: bool, body: string, settings: Settings): Option<Refusal>
  {
    if |body| < 1 || |body| > 10_000 then Some(Invalid)
    else if postId !in posts || posts[postId].deleted || posts[postId].removed then Some(NotFound)
    else if posts[postId].locked then Some(Locked)
    else
      var community := posts[postId].communityId;
      if community !in communities || communities[community].deleted then Some(NotFound)
      else if communities[community].archived then Some(Archived)
      else if isAnonymous && (!communities[community].allowAnonymous || !settings.anonymousPosting) then Some(AnonymousNotAllowed)
      else if !caller.verified then Some(NotVerified)
      else if caller.banned then Some(BannedHere)
      else if caller.muted then Some(MutedHere)
      else if !caller.allowed then Some(NotAllowed)
      else if caller.gate.Some? then caller.gate
      else if caller.recent >= COMMENTS_PER_HOUR then Some(RateLimited)
      else None
  }

  /** The comment a reply names as its parent: on the same post, whatever its standing. */
  ghost predicate IsParent(comments: seq<Comment>, postId: Id, parentId: Id, p: Comment) {
    p in comments && p.postId == postId && p.id == parentId
  }

  /** The row a successful reply adds. */
  ghost predicate IsReply(rows: seq<Comment>, c: Comment, caller: Caller, postId: Id, parentId: Option<Id>,
                          isAnonymous: bool, body: string, id: Id, held: bool, now: int)
  {
    && Placed(rows, c)
    && c == Comment(id, postId, parentId, c.path, c.depth, caller.userId, isAnonymous, body, held, false, 0, now, 0, 0, None)
  }

  lemma OnlyParent(comments: seq<Comment>, postId: Id, parentId: Id, p: Comment)
    requires DistinctIds(comments) && IsParent(comments, postId, parentId, p)
    ensures forall q :: IsParent(comments, postId, parentId, q) ==> q == p
  {
    forall q | IsParent(comments, postId, parentId, q) ensures q == p {
      SameId(comments, p, q);
    }
  }

  lemma PathNotEmpty(rows: seq<Comment>, c: Comment)
    requires Threaded(rows) && c in rows
    ensures c.path != ""
  {
    assert Placed(rows, c);
  }

  class Board {
    var posts: map<Id, Post>
    var comments: seq<Comment>
    var communities: map<Id, Community>
    /** The texts edits replaced, oldest first. */
    var edits: seq<(Id, string)>

    ghost predicate Valid()
      reads this
    {
      Consistent(posts, comments)
    }

    constructor (posts: map<Id, Post>, communities: map<Id, Community>)
      requires forall p :: p in posts ==> posts[p].commentCount == 0
      ensures Valid() && this.posts == posts && this.communities == communities && comments == [] && edits == []
    {
      this.posts, this.communities, this.comments, this.edits := posts, communities, [], [];
    }

    /** The parent a reply names, looked up on the same post. */
    method FindParent(postId: Id, parentId: Id) returns (found: Option<Comment>)
      ensures found.None? ==> forall c :: c in comments && c.postId == postId ==> c.id != parentId
      ensures found.Some? ==> found.value in comments && found.value.id == parentId && found.value.postId == postId
    {
      for i := 0 to |comments|
        invariant forall k :: 0 <= k < i ==> comments[k].postId != postId || comments[k].id != parentId
      {
        if comments[i].id == parentId && comments[i].postId == postId {
          return Some(comments[i]);
        }
      }
      return None;
    }

    /**
     * Reply to a post or to a comment on it. `body` is already trimmed; `id` is the fresh random
     * id, `held` whether the filter holds the text for a moderator, `now` the clock.
     */
    method CreateComment(caller: Caller, postId: Id, parentId: Option<Id>, isAnonymous: bool, body: string,
                         settings: Settings, id: Id, held: bool, now: int)
      returns (r: Result<Id, Refusal>)
      requires Valid()
      requires id != "" && '.' !in id && forall c :: c in comments ==> c.id != id
      modifies this
      ensures Valid() && communities == old(communities) && edits == old(edits)
      ensures r.Err? ==> comments == old(comments) && posts == old(posts)
      ensures var objection := Objection(old(posts), communities, caller, postId, isAnonymous, body, settings);
              if objection.Some? then r == Err(objection.value)
              else
                match parentId
                case None => r == Ok(id)
                case Some(p) =>
                  && (r == Err(NotFound) <==> !exists q :: IsParent(old(comments), postId, p, q))
                  && (r == Err(TooDeep) <==> exists q :: IsParent(old(comments), postId, p, q) && q.depth >= settings.commentDepth)
                  && (r == Ok(id) || r == Err(NotFound) || r == Err(TooDeep))
      ensures r.Ok? ==>
        && postId in old(posts) && posts == OneMore(old(posts), postId)
        && |comments| == |old(comments)| + 1 && comments[..|old(comments)|] == old(comments)
        && IsReply(RowsOf(old(comments), postId), comments[|old(comments)|], caller, postId, parentId, isAnonymous, body, id, held, now)
        && comments[|old(comments)|].depth <= settings.commentDepth
    {
      var objection := Objection(posts, communities, caller, postId, isAnonymous, body, settings);
      if objection.Some? {
        return Err(objection.value);
      }
      var parentPath: Option<string> := None;
      var depth: nat := 0;
      if parentId.Some? {
        var parent := FindParent(postId, parentId.value);
        if parent.None? {
          return Err(NotFound);
        }
        assert IsParent(comments, postId, parentId.value, parent.value);
        OnlyParent(comments, postId, parentId.value, parent.value);
        if !CanReplyAt(parent.value.depth, settings.commentDepth) {
          return Err(TooDeep);
        }
        parentPath := Some(parent.value.path);
        depth := parent.value.depth + 1;
        assert PostConsistent(posts, comments, postId);
        PathNotEmpty(RowsOf(comments, postId), parent.value);
      }
      var c := Comment(id, postId, parentId, ChildPath(parentPath, id), depth, caller.userId, isAnonymous,
                       body, held, false, 0, now, 0, 0, None);
      assert Placed(RowsOf(comments, postId), c);
      ReplyKeepsConsistent(posts, comments, c);
      comments := comments + [c];
      posts := OneMore(posts, postId);
      return Ok(id);
    }

    /** Where a comment's row is. */
    method Find(id: Id) returns (found: Option<nat>)
      ensures found.None? ==> forall k :: 0 <= k < |comments| ==> comments[k].id != id
      ensures found.Some? ==> found.value < |comments| && comments[found.value].id == id
    {
      for i := 0 to |comments|
        invariant forall k :: 0 <= k < i ==> comments[k].id != id
      {
        if comments[i].id == id {
          return Some(i);
        }
      }
      return None;
    }

    /** Edit your own comment. `text` is already trimmed, `now` the clock; the previous text is kept. */
    method EditComment(actor: Id, id: Id, text: string, now: int) returns (r: Result<bool, Refusal>)
      requires Valid()
      modifies this
      ensures Valid() && posts == old(posts) && communities == old(communities)
      ensures SamePlaces(old(comments), comments)
      ensures r.Err? ==> comments == old(comments) && edits == old(edits)
      ensures r == Err(Invalid) <==> |text| == 0 || |text| > 10_000
      ensures r == Err(NotFound) <==> 1 <= |text| <= 10_000 && forall c :: c in old(comments) && c.id == id ==> c.deleted
      ensures forall c :: c in old(comments) && c.id == id && !c.deleted && 1 <= |text| <= 10_000 ==>
        && (r == Err(NotAllowed) <==> c.authorId != actor)
        && (r == Err(Locked) <==> c.authorId == actor && c.removed)
      ensures r.Ok? ==> exists k ::
        && 0 <= k < |old(comments)| && old(comments)[k].id == id && old(comments)[k].authorId == actor
        && !old(comments)[k].deleted && !old(comments)[k].removed && 1 <= |text| <= 10_000
        && comments == old(comments)[k := old(comments)[k].(body := text, editedAt := Some(now))]
        && edits == old(edits) + [(id, old(comments)[k].body)]
    {
      if |text| == 0 || |text| > 10_000 {
        return Err(Invalid);
      }
      var found := Find(id);
      if found.None? || comments[found.value].deleted {
        return Err(NotFound);
      }
      var own := comments[found.value];
      if own.authorId != actor {
        return Err(NotAllowed);
      }
      if own.removed {
        return Err(Locked);
      }
      edits := edits + [(id, own.body)];
      comments := comments[found.value := own.(body := text, editedAt := Some(now))];
      EditKeepsConsistent(posts, old(comments), comments);
      return Ok(true);
    }

    /** Delete your own comment: it stays in its place, and so do its replies. */
    method DeleteComment(actor: Id, id: Id) returns (r: Result<bool, Refusal>)
      requires Valid()
      modifies this
      ensures Valid() && posts == old(posts) && communities == old(communities) && edits == old(edits)
      ensures SamePlaces(old(comments), comments)
      ensures r != Ok(true) ==> comments == old(comments)
      ensures r == Err(NotFound) <==> forall c :: c in old(comments) ==> c.id != id
      ensures forall k :: 0 <= k < |old(comments)| && old(comments)[k].id == id ==>
        && (r == Err(NotAllowed) <==> old(comments)[k].authorId != actor)
        && (r.Ok? ==> r.value == !old(comments)[k].deleted && comments == old(comments)[k := old(comments)[k].(deleted := true)])
    {
      var found := Find(id);
      if found.None? {
        return Err(NotFound);
      }
      var own := comments[found.value];
      if own.authorId != actor {
        return Err(NotAllowed);
      }
      if own.deleted {
        assert comments == comments[found.value := own.(deleted := true)];
        return Ok(false);
      }
      comments := comments[found.value := own.(deleted := true)];
      EditKeepsConsistent(posts, old(comments), comments);
      return Ok(true);
    }
  }

  // ----- reading the tree -----

  datatype Viewer = Viewer(userId: Option<Id>, blocked: set<Id>, handles: map<Id, string>)

  datatype View = View(
    id: Id, parentId: Option<Id>, depth: nat, body: string, author: Option<string>,
    publicAuthorId: Option<Id>, isOwn: bool, score: int, editedAt: Option<int>, blocked: bool)

  /** The author column the read view exposes: nothing for an anonymous comment. */
  function PublicAuthor(c: Comment): Option<Id> {
    if c.isAnonymous then None else Some(c.authorId)
  }

  /** One row as a viewer sees it: a blocked author's name and words are withheld. */
  function ViewOf(viewer: Viewer, c: Comment): View {
    var author := PublicAuthor(c);
    var isBlocked := author.Some? && author.value in viewer.blocked;
    View(c.id, c.parentId, c.depth,
         if isBlocked then "" else c.body,
         if author.Some? && author.value in viewer.handles && !isBlocked then Some(viewer.handles[author.value]) else None,
         author, viewer.userId == Some(c.authorId), c.score, c.editedAt, isBlocked)
  }

  function Views(viewer: Viewer, rows: seq<Comment>): (vs: seq<View>)
    ensures |vs| == |rows|
  {
    if rows == [] then [] else Views(viewer, rows[..|rows| - 1]) + [ViewOf(viewer, rows[|rows| - 1])]
  }

  /** Two people's anonymous comments look alike to everyone but the two of them. */
  lemma AnonymousTellsNothing(viewer: Viewer, c: Comment, other: Id)
    requires c.isAnonymous && viewer.userId != Some(c.authorId) && viewer.userId != Some(other)
    ensures ViewOf(viewer, c) == ViewOf(viewer, c.(authorId := other))
  {
  }

  lemma {:induction false} ViewsConcat(viewer: Viewer, a: seq<Comment>, b: seq<Comment>)
    ensures Views(viewer, a + b) == Views(viewer, a) + Views(viewer, b)
  {
    if b == [] {
      assert a + b == a;
    } else {
      ViewsConcat(viewer, a, b[..|b| - 1]);
      assert (a + b)[..|a + b| - 1] == a + b[..|b| - 1];
    }
  }

  lemma Associate<T>(a: seq<T>, b: seq<T>, c: seq<T>)
    ensures a + (b + c) == (a + b) + c
  {
  }

  lemma NothingLeft(rows: seq<Comment>, sort: CommentSort, viewer: Viewer, parent: Option<Comment>, cs: seq<Comment>)
    requires Threaded(rows) && (parent.Some? ==> parent.value in rows)
    requires forall c :: c in cs ==> c in rows && c.parentId == ParentIdOf(parent)
    ensures Views(viewer, WalkEach(rows, sort, parent, cs[|cs|..])) == []
  {
  }

  /** Visiting one child pushes it, then its subtree, then leaves the later children to do. */
  lemma VisitChild(rows: seq<Comment>, sort: CommentSort, viewer: Viewer, parent: Option<Comment>, cs: seq<Comment>, i: nat)
    requires Threaded(rows) && (parent.Some? ==> parent.value in rows)
    requires forall c :: c in cs ==> c in rows && c.parentId == ParentIdOf(parent)
    requires i < |cs|
    ensures Views(viewer, WalkEach(rows, sort, parent, cs[i..]))
         == [ViewOf(viewer, cs[i])] + Views(viewer, CommentTree.Walk(rows, sort, Some(cs[i])))
            + Views(viewer, WalkEach(rows, sort, parent, cs[i + 1..]))
  {
    assert cs[i..][1..] == cs[i + 1..];
    var below, rest := CommentTree.Walk(rows, sort, Some(cs[i])), WalkEach(rows, sort, parent, cs[i + 1..]);
    assert Views(viewer, [cs[i]]) == [ViewOf(viewer, cs[i])];
    ViewsConcat(viewer, [cs[i]] + below, rest);
    ViewsConcat(viewer, [cs[i]], below);
  }

  lemma NoReplies()
    ensures forall p :: RepliesTo([], p) == []
  {
  }

  /** One row more is one reply more to its parent, the last one, and none to any other. */
  lemma OneReplyMore(rows: seq<Comment>, i: nat)
    requires i < |rows|
    ensures forall p :: RepliesTo(rows[..i + 1], p) == RepliesTo(rows[..i], p) + (if rows[i].parentId == p then [rows[i]] else [])
  {
    assert rows[..i + 1][..i] == rows[..i] && rows[..i + 1] != [];
  }

  /** One read: the rows grouped by parent, and the list the walk pushes onto. */
  class TreeReader {
    const sort: CommentSort
    const viewer: Viewer
    var byParent: map<Option<Id>, seq<Comment>>
    var out: seq<View>

    constructor (sort: CommentSort, viewer: Viewer)
      ensures this.sort == sort && this.viewer == viewer && byParent == map[] && out == []
    {
      this.sort, this.viewer, this.byParent, this.out := sort, viewer, map[], [];
    }

    /** The map holds each parent's replies in row order, and nothing for a parent with none. */
    ghost predicate Grouped(rows: seq<Comment>)
      reads this`byParent
    {
      forall p :: RepliesTo(rows, p) == if p in byParent then byParent[p] else []
    }

    method Group(rows: seq<Comment>)
      requires byParent == map[]
      modifies this`byParent
      ensures Grouped(rows)
    {
      hide RepliesTo;
      NoReplies();
      assert rows[..0] == [];
      for i := 0 to |rows|
        invariant Grouped(rows[..i])
      {
        var r := rows[i];
        var list := if r.parentId in byParent then byParent[r.parentId] else [];
        OneReplyMore(rows, i);
        byParent := byParent[r.parentId := list + [r]];
      }
      assert rows[..|rows|] == rows;
    }

    /** Push one child and then everything below it. */
    method Visit(child: Comment, ghost rows: seq<Comment>)
      requires Threaded(rows) && Grouped(rows) && child in rows
      modifies this`out
      ensures out == old(out) + ([ViewOf(viewer, child)] + Views(viewer, CommentTree.Walk(rows, sort, Some(child))))
      decreases Height(rows) - Level(Some(child)), 2
    {
      hide Views, CommentTree.Walk;
      out := out + [ViewOf(viewer, child)];
      Walk(Some(child.id), rows, Some(child));
    }

    /** Push each child in turn, with everything below it. */
    method VisitEach(children: seq<Comment>, ghost rows: seq<Comment>, ghost parent: Option<Comment>)
      requires Threaded(rows) && Grouped(rows) && (parent.Some? ==> parent.value in rows)
      requires forall c :: c in children ==> c in rows && c.parentId == ParentIdOf(parent)
      modifies this`out
      ensures out == old(out) + Views(viewer, WalkEach(rows, sort, parent, children))
      decreases Height(rows) - Level(parent), 0
    {
      hide *;
      ghost var start, done: seq<View> := out, [];
      ghost var total := Views(viewer, WalkEach(rows, sort, parent, children));
      ghost var todo := total;
      var i := 0;
      assert children[0..] == children && [] + total == total && start + [] == start;
      while i < |children|
        invariant 0 <= i <= |children|
        invariant todo == Views(viewer, WalkEach(rows, sort, parent, children[i..]))
        invariant out == start + done && total == done + todo
      {
        ChildLevel(rows, parent, children[i]);
        VisitChild(rows, sort, viewer, parent, children, i);
        Visit(children[i], rows);
        ghost var block := [ViewOf(viewer, children[i])] + Views(viewer, CommentTree.Walk(rows, sort, Some(children[i])));
        i := i + 1;
        todo := Views(viewer, WalkEach(rows, sort, parent, children[i..]));
        Associate(start, done, block);
        Associate(done, block, todo);
        done := done + block;
      }
      NothingLeft(rows, sort, viewer, parent, children);
      assert done + [] == done;
    }

    /** Push everything below `parentId`, depth first, siblings sorted. */
    method Walk(parentId: Option<Id>, ghost rows: seq<Comment>, ghost parent: Option<Comment>)
      requires Threaded(rows) && Grouped(rows)
      requires parentId == ParentIdOf(parent) && (parent.Some? ==> parent.value in rows)
      modifies this`out
      ensures out == old(out) + Views(viewer, CommentTree.Walk(rows, sort, parent))
      decreases Height(rows) - Level(parent), 1
    {
      var children := if parentId in byParent then byParent[parentId] else [];
      children := SortByKey(sort, children);
      assert children == Children(rows, sort, parentId);
      VisitEach(children, rows, parent);
    }
  }

  /**
   * In every state the operations can reach, a post's rows can be read back in whatever order the
   * query returns them, and the tree shown has as many rows as the post's cached count says.
   */
  lemma EveryPostCanBeRead(posts: map<Id, Post>, comments: seq<Comment>, p: Id, rows: seq<Comment>, sort: CommentSort)
    requires Consistent(posts, comments) && p in posts
    requires multiset(rows) == multiset(RowsOf(comments, p))
    ensures Threaded(rows)
    ensures multiset(CommentTree.Walk(rows, sort, None)) == multiset(RowsOf(comments, p))
    ensures |CommentTree.Walk(rows, sort, None)| == posts[p].commentCount
    ensures forall i :: 0 <= i < |CommentTree.Walk(rows, sort, None)| ==> HasSubtree(CommentTree.Walk(rows, sort, None), i)
    ensures SiblingsInOrder(rows, sort, CommentTree.Walk(rows, sort, None))
  {
    assert PostConsistent(posts, comments, p);
    PermutedStaysThreaded(RowsOf(comments, p), rows);
    ReadTreeIsPreorder(rows, sort);
    var w := CommentTree.Walk(rows, sort, None);
    assert |w| == |multiset(w)| == |multiset(RowsOf(comments, p))| == |RowsOf(comments, p)|;
  }

  /** Every comment on a post in tree order. `rows` are the post's rows as the query returns them. */
  method ReadTree(rows: seq<Comment>, sort: CommentSort, viewer: Viewer) returns (views: seq<View>)
    requires Threaded(rows)
    ensures views == Views(viewer, CommentTree.Walk(rows, sort, None))
  {
    var reader := new TreeReader(sort, viewer);
    reader.Group(rows);
    reader.Walk(None, rows, None);
    views := reader.out;
  }
}
