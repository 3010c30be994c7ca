/** The relational repository, with its tables seen as sequences of rows.
    Each operation runs in its own unit of work: it either commits all of
    its changes or, when it raises, rolls back and leaves every table as it
    was. */
module DatabaseRepo {
  import opened Common
  import opened Text
  import opened Lists
  import opened Likes
  import opened DomainModel

  /** `getattr(user, "username", None)`: no attribute or `None`, a string,
      or some other value. */
  datatype UsernameAttr = NoUsername | StrUsername(text: string) | OtherUsername

  /** The usernames `add_pet_users` refuses: `None`, or a string that is
      empty once stripped. A value that is not a string is let through. */
  predicate BlankUsername(u: UsernameAttr)
  {
    u.NoUsername? || (u.StrUsername? && Trim(u.text, IsPySpace) == [])
  }

  /** A row of the pet users table, as far as this model needs it. */
  datatype PetUserRow = PetUserRow(id: int, username: UsernameAttr)

  /** A row of the comments table; `likes` is a counter. */
  datatype CommentRow = CommentRow(id: int, postId: int, userId: int, createdAt: Timestamp,
                                   commentString: string, likes: int)

  /** A row of the posts table, as far as the listings need it. */
  datatype PostRow = PostRow(id: int, userId: int, mediaPath: Path, mediaType: string)

  /** A row of the follower association table. */
  datatype FollowEdge = FollowEdge(followerId: int, followeeId: int)

  /** One entry of `get_posts_thumbnails`: the dictionary with the keys
      `id`, `media_path` and `media_type`. */
  datatype Thumbnail = Thumbnail(id: int, mediaPath: string, mediaType: string)

  /** The exceptions the repository lets escape: the `ValueError` of
      `add_pet_users`, and `MultipleResultsFound` of a `.one()` query that
      matches several rows. */
  datatype DbError = InvalidUsernames(indexes: seq<nat>) | MultipleResultsFound

  /** The text of the `ValueError` that `add_pet_users` raises. */
  function RefusalMessage(indexes: seq<nat>): string
  {
    "Refusing to add " + IntToString(|indexes|)
    + " pet_user(s) with missing/empty username at indexes: "
    + Join(IntStrings(indexes), ", ") + ". Fix the data source before populating."
  }

  /** The positions, in increasing order, of the users whose username is
      blank. */
  function BlankIndexes(users: seq<PetUserRow>): seq<nat>
  {
    if users == [] then []
    else
      var last := |users| - 1;
      BlankIndexes(users[..last]) + (if BlankUsername(users[last].username) then [last] else [])
  }

  /** Every position `BlankIndexes` lists is a blank one. */
  lemma {:induction false} BlankIndexesSound(users: seq<PetUserRow>)
    ensures forall k :: 0 <= k < |BlankIndexes(users)| ==>
              BlankIndexes(users)[k] < |users| && BlankUsername(users[BlankIndexes(users)[k]].username)
  {
    if users != [] {
      var last := |users| - 1;
      BlankIndexesSound(users[..last]);
      assert forall i :: 0 <= i < last ==> users[..last][i] == users[i];
    }
  }

  /** Every blank position is listed. */
  lemma {:induction false} BlankIndexesComplete(users: seq<PetUserRow>)
    ensures forall i :: 0 <= i < |users| && BlankUsername(users[i].username) ==> i in BlankIndexes(users)
  {
    if users != [] {
      var last := |users| - 1;
      BlankIndexesComplete(users[..last]);
      assert forall i :: 0 <= i < last ==> users[..last][i] == users[i];
    }
  }

  /** The positions are listed in increasing order, so each once. */
  lemma {:induction false} BlankIndexesIncreasing(users: seq<PetUserRow>)
    ensures forall a, b :: 0 <= a < b < |BlankIndexes(users)| ==> BlankIndexes(users)[a] < BlankIndexes(users)[b]
  {
    if users != [] {
      var last := |users| - 1;
      BlankIndexesSound(users[..last]);
      BlankIndexesIncreasing(users[..last]);
    }
  }

  /** `BlankIndexes` lists every blank position, only blank positions, and
      each once, in increasing order. */
  lemma BlankIndexesExact(users: seq<PetUserRow>)
    ensures forall k :: 0 <= k < |BlankIndexes(users)| ==>
              BlankIndexes(users)[k] < |users| && BlankUsername(users[BlankIndexes(users)[k]].username)
    ensures forall i :: 0 <= i < |users| && BlankUsername(users[i].username) ==> i in BlankIndexes(users)
    ensures forall a, b :: 0 <= a < b < |BlankIndexes(users)| ==> BlankIndexes(users)[a] < BlankIndexes(users)[b]
  {
    BlankIndexesSound(users);
    BlankIndexesComplete(users);
    BlankIndexesIncreasing(users);
  }

  /** The loop of `add_pet_users` that collects the positions of the users
      with a blank username. */
  method InvalidIndexes(users: seq<PetUserRow>) returns (indexes: seq<nat>)
    ensures indexes == BlankIndexes(users)
  {
    indexes := [];
    var i := 0;
    while i < |users|
      invariant 0 <= i <= |users|
      invariant indexes == BlankIndexes(users[..i])
    {
      assert users[..i + 1][..i] == users[..i];
      if BlankUsername(users[i].username) {
        indexes := indexes + [i];
      }
      i := i + 1;
    }
    assert users[..|users|] == users;
  }

  /** The negation of a row condition. */
  function Not<T>(cond: T -> bool): T -> bool
  {
    x => !cond(x)
  }

  /** A table after `query(...).filter(cond).one()` and a delete of the row
      found: no match deletes nothing, one match deletes that row, and
      several matches raise `MultipleResultsFound`. */
  function DeleteOne<T(==)>(rows: seq<T>, cond: T -> bool): Result<seq<T>, DbError>
  {
    var hits := Filter(rows, cond);
    if |hits| == 0 then Ok(rows)
    else if |hits| == 1 then Ok(Filter(rows, Not(cond)))
    else Err(MultipleResultsFound)
  }

  /** Each row satisfies a condition or its negation, so the two filters
      share out the table. */
  lemma {:induction false} FilterShares<T>(rows: seq<T>, cond: T -> bool)
    ensures |Filter(rows, cond)| + |Filter(rows, Not(cond))| == |rows|
  {
    if rows != [] {
      FilterShares(rows[1..], cond);
    }
  }

  /** When no row matches, the filter for the negation keeps the table. */
  lemma NoHitKeepsAll<T>(rows: seq<T>, cond: T -> bool)
    requires |Filter(rows, cond)| == 0
    ensures Filter(rows, Not(cond)) == rows
  {
    FilterShares(rows, cond);
    assert |Filter(rows, Not(cond))| == |rows|;
    FilterFullLength(rows, Not(cond));
  }

  /** A filter that keeps as many rows as there are keeps all of them. */
  lemma {:induction false} FilterFullLength<T>(rows: seq<T>, f: T -> bool)
    requires |Filter(rows, f)| == |rows|
    ensures Filter(rows, f) == rows
    ensures forall i :: 0 <= i < |rows| ==> f(rows[i])
  {
    if rows != [] {
      assert f(rows[0]);
      FilterFullLength(rows[1..], f);
      assert forall i :: 1 <= i < |rows| ==> rows[i] == rows[1..][i - 1];
      assert rows == [rows[0]] + rows[1..];
    }
  }

  /** A delete that succeeds removes exactly the matching rows, of which
      there was at most one, and keeps every other row in order. */
  lemma DeleteOneExact<T>(rows: seq<T>, cond: T -> bool)
    requires DeleteOne(rows, cond).Ok?
    ensures |DeleteOne(rows, cond).value| == |rows| - |Filter(rows, cond)|
    ensures |Filter(rows, cond)| <= 1
    ensures forall i :: 0 <= i < |DeleteOne(rows, cond).value| ==> !cond(DeleteOne(rows, cond).value[i])
    ensures forall i :: 0 <= i < |rows| && !cond(rows[i]) ==> rows[i] in DeleteOne(rows, cond).value
  {
    FilterShares(rows, cond);
    var r := DeleteOne(rows, cond).value;
    if |Filter(rows, cond)| == 0 {
      NoHitKeepsAll(rows, cond);
      forall i | 0 <= i < |r| ensures !cond(r[i]) {
        assert Not(cond)(Filter(rows, Not(cond))[i]);
      }
    } else {
      forall i | 0 <= i < |rows| && !cond(rows[i]) ensures rows[i] in r {
        FilterKeepsSelected(rows, Not(cond), i);
      }
      forall i | 0 <= i < |r| ensures !cond(r[i]) {
        assert Not(cond)(r[i]);
      }
    }
  }

  /** The comment `delete_comment` looks for: that id, by that author. */
  function OwnComment(commentId: int, userId: int): CommentRow -> bool
  {
    (c: CommentRow) => c.id == commentId && c.userId == userId
  }

  /** The like `delete_like` looks for: on that post, by that user. */
  function LikeBy(postId: int, userId: int): Like -> bool
  {
    (l: Like) => l.postId == postId && l.userId == userId
  }

  /** The `WHERE post_id = :id` condition on comments. */
  function OnPost(postId: int): CommentRow -> bool
  {
    (c: CommentRow) => c.postId == postId
  }

  /** The `WHERE media_type = 'photo'` condition on posts. */
  function IsPhoto(p: PostRow): bool
  {
    p.mediaType == "photo"
  }

  /** The `WHERE user_id = :id AND media_type = 'photo'` condition. */
  function PhotoBy(userId: int): PostRow -> bool
  {
    (p: PostRow) => p.userId == userId && p.mediaType == "photo"
  }

  /** The comments on a post, in table order. */
  function CommentsOf(cs: seq<CommentRow>, postId: int): seq<CommentRow>
  {
    Filter(cs, OnPost(postId))
  }

  /** The photo posts, in table order. */
  function PhotoPosts(ps: seq<PostRow>): seq<PostRow>
  {
    Filter(ps, IsPhoto)
  }

  /** The photo posts of one user, in table order. */
  function UserPhotoPosts(ps: seq<PostRow>, userId: int): seq<PostRow>
  {
    Filter(ps, PhotoBy(userId))
  }

  /** The dictionary `get_posts_thumbnails` builds for each post. */
  function Thumbnails(ps: seq<PostRow>): (r: seq<Thumbnail>)
    ensures |r| == |ps|
    ensures forall i :: 0 <= i < |ps| ==>
              r[i] == Thumbnail(ps[i].id, ps[i].mediaPath.text, ps[i].mediaType)
  {
    if ps == [] then []
    else [Thumbnail(ps[0].id, ps[0].mediaPath.text, ps[0].mediaType)] + Thumbnails(ps[1..])
  }

  /** A comment is listed for a post exactly when it is in the table and
      carries the post's id. */
  lemma CommentsOfExact(cs: seq<CommentRow>, postId: int, c: CommentRow)
    ensures c in CommentsOf(cs, postId) <==> c in cs && c.postId == postId
  {
    if c in cs && c.postId == postId {
      var i :| 0 <= i < |cs| && cs[i] == c;
      FilterKeepsSelected(cs, OnPost(postId), i);
    }
  }

  /** A comment added to the table is listed last among its post's
      comments, and the other posts' listings do not change. */
  lemma CommentsOfAfterAdd(cs: seq<CommentRow>, c: CommentRow, postId: int)
    ensures CommentsOf(cs + [c], postId)
         == CommentsOf(cs, postId) + (if c.postId == postId then [c] else [])
  {
    FilterSnoc(cs, c, OnPost(postId));
  }

  /** Every thumbnail is that of a photo post by the user, and every photo
      post by the user has one. */
  lemma ThumbnailsExact(ps: seq<PostRow>, userId: int)
    ensures forall t :: t in Thumbnails(UserPhotoPosts(ps, userId)) ==>
              t.mediaType == "photo" && exists p :: p in ps && p.userId == userId && p.id == t.id
    ensures forall i :: 0 <= i < |ps| && ps[i].userId == userId && ps[i].mediaType == "photo" ==>
              Thumbnail(ps[i].id, ps[i].mediaPath.text, "photo") in Thumbnails(UserPhotoPosts(ps, userId))
  {
    var sel := UserPhotoPosts(ps, userId);
    var ts := Thumbnails(sel);
    forall t | t in ts
      ensures t.mediaType == "photo" && exists p :: p in ps && p.userId == userId && p.id == t.id
    {
      var k :| 0 <= k < |ts| && ts[k] == t;
      assert sel[k] in ps;
    }
    forall i | 0 <= i < |ps| && ps[i].userId == userId && ps[i].mediaType == "photo"
      ensures Thumbnail(ps[i].id, ps[i].mediaPath.text, "photo") in ts
    {
      FilterKeepsSelected(ps, PhotoBy(userId), i);
      var k :| 0 <= k < |sel| && sel[k] == ps[i];
      assert ts[k] == Thumbnail(ps[i].id, ps[i].mediaPath.text, "photo");
    }
  }

  /** The largest comment id of a non-empty table. */
  function MaxCommentId(cs: seq<CommentRow>): (m: int)
    requires cs != []
    ensures forall k :: 0 <= k < |cs| ==> cs[k].id <= m
    ensures exists k :: 0 <= k < |cs| && cs[k].id == m
  {
    if |cs| == 1 then cs[0].id
    else
      var rest := MaxCommentId(cs[1..]);
      assert forall k :: 1 <= k < |cs| ==> cs[k] == cs[1..][k - 1];
      if cs[0].id >= rest then cs[0].id else rest
  }

  /** `next_comment_id`: 1 for an empty table, otherwise one more than the
      largest id, so it differs from every id in the table. */
  function NextCommentId(cs: seq<CommentRow>): (r: int)
    ensures cs == [] ==> r == 1
    ensures forall k :: 0 <= k < |cs| ==> cs[k].id < r
    ensures cs != [] ==> exists k :: 0 <= k < |cs| && cs[k].id == r - 1
  {
    if cs == [] then 1 else MaxCommentId(cs) + 1
  }

  /** No two comments share an id, as the table's primary key demands. */
  predicate UniqueCommentIds(cs: seq<CommentRow>)
  {
    forall i, j :: 0 <= i < j < |cs| ==> cs[i].id != cs[j].id
  }

  /** With unique ids at most one comment matches an id, so
      `delete_comment` never meets `MultipleResultsFound`. */
  lemma {:induction false} OwnCommentAtMostOne(cs: seq<CommentRow>, commentId: int, userId: int)
    requires UniqueCommentIds(cs)
    ensures |Filter(cs, OwnComment(commentId, userId))| <= 1
    ensures DeleteOne(cs, OwnComment(commentId, userId)).Ok?
  {
    if cs != [] {
      var t := cs[1..];
      assert UniqueCommentIds(t) by {
        forall i, j | 0 <= i < j < |t| ensures t[i].id != t[j].id {
          assert t[i] == cs[i + 1] && t[j] == cs[j + 1];
        }
      }
      OwnCommentAtMostOne(t, commentId, userId);
      if OwnComment(commentId, userId)(cs[0]) {
        forall k | 0 <= k < |t| ensures !OwnComment(commentId, userId)(t[k]) {
          assert t[k] == cs[k + 1];
        }
        FilterNoneSelected(t, OwnComment(commentId, userId));
      }
    }
  }

  /** Keeping some of the comments keeps their ids unique. */
  lemma {:induction false} FilterKeepsUniqueIds(cs: seq<CommentRow>, f: CommentRow -> bool)
    requires UniqueCommentIds(cs)
    ensures UniqueCommentIds(Filter(cs, f))
  {
    if cs != [] {
      var t := cs[1..];
      assert UniqueCommentIds(t) by {
        forall i, j | 0 <= i < j < |t| ensures t[i].id != t[j].id {
          assert t[i] == cs[i + 1] && t[j] == cs[j + 1];
        }
      }
      FilterKeepsUniqueIds(t, f);
      var rest := Filter(t, f);
      if f(cs[0]) {
        var r := [cs[0]] + rest;
        forall i, j | 0 <= i < j < |r| ensures r[i].id != r[j].id {
          if i == 0 {
            assert r[j] == rest[j - 1] && rest[j - 1] in t;
            var k :| 0 <= k < |t| && t[k] == rest[j - 1];
            assert t[k] == cs[k + 1];
          } else {
            assert r[i] == rest[i - 1] && r[j] == rest[j - 1];
          }
        }
      }
    }
  }

  /** A comment with a fresh id keeps the ids unique. */
  lemma FreshIdKeepsUnique(cs: seq<CommentRow>, c: CommentRow)
    requires UniqueCommentIds(cs) && c.id == NextCommentId(cs)
    ensures UniqueCommentIds(cs + [c])
  {
    var r := cs + [c];
    forall i, j | 0 <= i < j < |r| ensures r[i].id != r[j].id {
      if j == |cs| {
        assert r[i] == cs[i];
      } else {
        assert r[i] == cs[i] && r[j] == cs[j];
      }
    }
  }

  class SqlRepository {
    var petUsers: seq<PetUserRow>
    var posts: seq<PostRow>
    var comments: seq<CommentRow>
    var likes: seq<Like>
    var following: seq<FollowEdge>

    constructor()
      ensures petUsers == [] && posts == [] && comments == [] && likes == [] && following == []
    {
      petUsers := [];
      posts := [];
      comments := [];
      likes := [];
      following := [];
    }

    /** The comment ids are unique. */
    predicate Valid()
      reads this
    {
      UniqueCommentIds(comments)
    }

    /** `add_pet_users`: refuses the whole batch, naming every offending
        position, when any username is blank; otherwise adds every user. */
    method AddPetUsers(users: seq<PetUserRow>) returns (r: Outcome<DbError>)
      modifies this`petUsers
      ensures r.Fail? <==> exists i :: 0 <= i < |users| && BlankUsername(users[i].username)
      ensures r.Fail? ==> r.error == InvalidUsernames(BlankIndexes(users)) && petUsers == old(petUsers)
      ensures r.Pass? ==> petUsers == old(petUsers) + users
    {
      var invalid := InvalidIndexes(users);
      BlankIndexesExact(users);
      if invalid != [] {
        assert BlankUsername(users[invalid[0]].username);
        return Fail(InvalidUsernames(invalid));
      }
      petUsers := petUsers + users;
      r := Pass;
    }

    /** `next_comment_id` on the current table. */
    method GetNextCommentId() returns (r: int)
      ensures r == NextCommentId(comments)
    {
      r := NextCommentId(comments);
    }

    /** `create_comment`: stores and returns a comment with the next id, the
        given post, author and text, the current time and no likes. */
    method CreateComment(userId: int, postId: int, text: string, now: Timestamp)
        returns (c: CommentRow)
      requires Valid()
      modifies this`comments
      ensures Valid()
      ensures c == CommentRow(NextCommentId(old(comments)), postId, userId, now, text, 0)
      ensures comments == old(comments) + [c]
    {
      var cid := GetNextCommentId();
      c := CommentRow(cid, postId, userId, now, text, 0);
      FreshIdKeepsUnique(comments, c);
      comments := comments + [c];
    }

    /** `is_following`: whether the association table holds the edge. */
    method IsFollowing(followerId: int, followeeId: int) returns (r: bool)
      ensures r <==> exists k :: 0 <= k < |following| && following[k] == FollowEdge(followerId, followeeId)
    {
      r := FollowEdge(followerId, followeeId) in following;
    }

    /** `follow_user`: when the edge exists nothing changes; otherwise the
        edge is inserted and both users' cached lists are updated. */
    method FollowUser(follower: User, followee: PetUser)
      modifies this`following, follower`following, followee`followerIds
      ensures following == Added(old(following), FollowEdge(follower.id, followee.user.id))
      ensures FollowEdge(follower.id, followee.user.id) in old(following) ==>
                follower.following == old(follower.following)
                && followee.followerIds == old(followee.followerIds)
      ensures FollowEdge(follower.id, followee.user.id) !in old(following) ==>
                follower.following == Added(old(follower.following), followee.user)
                && followee.followerIds == Added(old(followee.followerIds), follower.id)
    {
      var already := IsFollowing(follower.id, followee.user.id);
      if already {
        return;
      }
      following := following + [FollowEdge(follower.id, followee.user.id)];
      follower.Follow(followee.user);
      followee.AddFollower(Typed(follower.id));
    }

    /** `delete_comment`: deletes the comment only when both its id and its
        author match; otherwise the table is unchanged. The comment ids stay
        unique, so comments created afterwards get fresh ids. */
    method DeleteComment(userId: int, commentId: int) returns (r: Outcome<DbError>)
      requires Valid()
      modifies this`comments
      ensures Valid()
      ensures DeleteOne(old(comments), OwnComment(commentId, userId)).Ok? ==>
                r == Pass && comments == DeleteOne(old(comments), OwnComment(commentId, userId)).value
      ensures DeleteOne(old(comments), OwnComment(commentId, userId)).Err? ==>
                r == Fail(MultipleResultsFound) && comments == old(comments)
    {
      var res := DeleteOne(comments, OwnComment(commentId, userId));
      if res.Err? {
        return Fail(MultipleResultsFound);
      }
      FilterKeepsUniqueIds(comments, Not(OwnComment(commentId, userId)));
      comments := res.value;
      r := Pass;
    }

    /** `delete_like`: deletes the like of that user on that post, and does
        nothing when there is none. */
    method DeleteLike(postId: int, userId: int) returns (r: Outcome<DbError>)
      modifies this`likes
      ensures DeleteOne(old(likes), LikeBy(postId, userId)).Ok? ==>
                r == Pass && likes == DeleteOne(old(likes), LikeBy(postId, userId)).value
      ensures DeleteOne(old(likes), LikeBy(postId, userId)).Err? ==>
                r == Fail(MultipleResultsFound) && likes == old(likes)
    {
      var res := DeleteOne(likes, LikeBy(postId, userId));
      if res.Err? {
        return Fail(MultipleResultsFound);
      }
      likes := res.value;
      r := Pass;
    }

    /** `get_comments_by_post`: the comments on the given post. */
    method GetCommentsByPost(post: PostRow) returns (r: seq<CommentRow>)
      ensures r == CommentsOf(comments, post.id)
    {
      r := CommentsOf(comments, post.id);
    }

    /** `get_comments_for_post`: the comments on the post with that id. */
    method GetCommentsForPost(postId: int) returns (r: seq<CommentRow>)
      ensures r == CommentsOf(comments, postId)
    {
      r := CommentsOf(comments, postId);
    }

    /** `get_photo_posts`: the posts whose media type is "photo". */
    method GetPhotoPosts() returns (r: seq<PostRow>)
      ensures r == PhotoPosts(posts)
    {
      r := PhotoPosts(posts);
    }

    /** `get_posts_thumbnails`: id, media path and media type of each photo
        post of the user. */
    method GetPostsThumbnails(userId: int) returns (r: seq<Thumbnail>)
      ensures r == Thumbnails(UserPhotoPosts(posts, userId))
    {
      r := Thumbnails(UserPhotoPosts(posts, userId));
    }
  }

  /** Every photo post is listed and nothing else is. */
  lemma PhotoPostsExact(ps: seq<PostRow>, p: PostRow)
    ensures p in PhotoPosts(ps) <==> p in ps && p.mediaType == "photo"
  {
    if p in ps && p.mediaType == "photo" {
      var i :| 0 <= i < |ps| && ps[i] == p;
      FilterKeepsSelected(ps, IsPhoto, i);
    }
  }

  /** Following twice leaves the edges that following once left, and the
      edge is then present. */
  lemma FollowIdempotent(edges: seq<FollowEdge>, e: FollowEdge)
    ensures Added(Added(edges, e), e) == Added(edges, e)
    ensures e in Added(edges, e)
    ensures NoDup(edges) ==> NoDup(Added(edges, e))
  {
    AddedIdempotent(edges, e);
    if NoDup(edges) {
      AddedKeepsNoDup(edges, e);
    }
  }

  /** A created comment is listed for its post, after the comments that
      were there before. */
  lemma CreatedCommentListed(cs: seq<CommentRow>, c: CommentRow)
    ensures CommentsOf(cs + [c], c.postId) == CommentsOf(cs, c.postId) + [c]
    ensures c in CommentsOf(cs + [c], c.postId)
  {
    CommentsOfAfterAdd(cs, c, c.postId);
  }
}
