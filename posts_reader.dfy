/** Reading posts from CSV rows, and attaching likes and comments to the
    posts read. */
module PostsReading {
  import opened Common
  import opened Text
  import opened Lists
  import opened Likes
  import opened DomainModel
  import opened Rows

  /** The columns of the posts file. */
  datatype Column = Id | UserId | Caption | Views | CreatedAt | Size | Tags | MediaPath | MediaType

  /** The header text of each column. */
  function Header(c: Column): string
  {
    match c
    case Id => "id"
    case UserId => "user_id"
    case Caption => "caption"
    case Views => "views"
    case CreatedAt => "created_at"
    case Size => "size"
    case Tags => "tags"
    case MediaPath => "media_path"
    case MediaType => "media_type"
  }

  /** A CSV row: the cell text under each header the file has. */
  type Row = map<Column, string>

  /** The exception a row raises. */
  type ReadError = CellError<Column>

  /** The size cell: the integers between the `", "` separators, or `(0, 0)`
      for an empty cell. */
  function ParseSize(cell: string): Option<seq<int>>
  {
    if cell == "" then Some([0, 0]) else ParseInts(Split(cell, ", "))
  }

  /** Two integer texts read as the pair of their values. */
  lemma ParseIntsPair(a: string, b: string, w: int, h: int)
    requires ParseInt(a) == Some(w) && ParseInt(b) == Some(h)
    ensures ParseInts([a, b]) == Some([w, h])
  {
    ParseIntsCons(b, [], h, []);
    assert [b] + [] == [b] && [h] + [] == [h];
    ParseIntsCons(a, [b], w, [h]);
    assert [a] + [b] == [a, b] && [w] + [h] == [w, h];
  }

  /** `"<w>, <h>"` splits into the two numbers' texts. */
  lemma SplitSize(a: string, b: string)
    requires ',' !in a && ',' !in b
    ensures Split(a + ", " + b, ", ") == [a, b]
  {
    assert Join([a, b], ", ") == a + ", " + b by {
      assert [a, b][1..] == [b];
    }
    SplitJoin([a, b], ", ");
  }

  /** A size written as `"<w>, <h>"` reads back as the pair `(w, h)`, and an
      empty cell reads as `(0, 0)`. */
  lemma SizeRoundTrip(w: int, h: int)
    ensures ParseSize(IntToString(w) + ", " + IntToString(h)) == Some([w, h])
    ensures ParseSize("") == Some([0, 0])
  {
    var a := IntToString(w);
    var b := IntToString(h);
    NoCommaInIntString(w);
    NoCommaInIntString(h);
    SplitSize(a, b);
    ParseIntOfString(w);
    ParseIntOfString(h);
    ParseIntsPair(a, b, w, h);
    assert a + ", " + b != "";
  }

  /** The tags cell is split on every comma with nothing trimmed, so joining
      the tags with commas gives back the cell. */
  lemma TagsRoundTrip(cell: string)
    ensures Join(Split(cell, ","), ",") == cell
  {
    JoinSplit(cell, ",");
  }

  /** The values a row supplies for a new post. */
  datatype PostFields = PostFields(
    id: int, userId: int, caption: string, views: int, createdAt: Timestamp,
    size: seq<int>, tags: seq<string>, mediaPath: Path, mediaType: string)

  /** The conversion of one row, with its cells read in the order the source
      evaluates them: the size first, then the constructor's arguments from
      left to right. The first failure is the one raised. */
  function RowToFields(row: Row): Result<PostFields, ReadError>
  {
    var sizeCell :- Cell(row, Size);
    var size :- if ParseSize(sizeCell).Some? then Ok(ParseSize(sizeCell).value)
                else Err(NotAnInteger(Size, sizeCell));
    var id :- IntCell(row, Id);
    var userId :- IntCell(row, UserId);
    var caption :- Cell(row, Caption);
    var views :- IntCell(row, Views);
    var createdAt :- Cell(row, CreatedAt);
    var tags :- Cell(row, Tags);
    var mediaPath :- Cell(row, MediaPath);
    var mediaType :- Cell(row, MediaType);
    Ok(PostFields(id, userId, caption, views, Timestamp(createdAt), size,
                  Split(tags, ","), MakePath(mediaPath), mediaType))
  }

  /** Fields that a CSV row can carry without loss: a width and height, at
      least one tag, no comma inside a tag, and a non-empty media path. */
  predicate Writable(f: PostFields)
  {
    && |f.size| == 2 && |f.tags| > 0
    && (forall k :: 0 <= k < |f.tags| ==> ',' !in f.tags[k])
    && f.mediaPath.text != ""
  }

  /** The text the given fields put under a column. */
  function CellText(f: PostFields, c: Column): string
    requires |f.size| == 2
  {
    match c
    case Id => IntToString(f.id)
    case UserId => IntToString(f.userId)
    case Caption => f.caption
    case Views => IntToString(f.views)
    case CreatedAt => f.createdAt.text
    case Size => IntToString(f.size[0]) + ", " + IntToString(f.size[1])
    case Tags => Join(f.tags, ",")
    case MediaPath => f.mediaPath.text
    case MediaType => f.mediaType
  }

  /** The row that holds the given fields. */
  function FieldsToRow(f: PostFields): (row: Row)
    requires |f.size| == 2
    ensures forall c :: c in row && row[c] == CellText(f, c)
  {
    map c: Column | true :: CellText(f, c)
  }

  /** A cell holding `str(n)` reads as `n`. */
  lemma IntCellOf(row: Row, name: Column, n: int)
    requires name in row && row[name] == IntToString(n)
    ensures IntCell(row, name) == Ok(n)
  {
    ParseIntOfString(n);
  }

  /** The three integer cells of a written row read as their numbers. */
  lemma IntCellsOf(row: Row, id: int, userId: int, views: int)
    requires Id in row && row[Id] == IntToString(id)
    requires UserId in row && row[UserId] == IntToString(userId)
    requires Views in row && row[Views] == IntToString(views)
    ensures IntCell(row, Id) == Ok(id)
    ensures IntCell(row, UserId) == Ok(userId)
    ensures IntCell(row, Views) == Ok(views)
  {
    IntCellOf(row, Id, id);
    IntCellOf(row, UserId, userId);
    IntCellOf(row, Views, views);
  }

  /** The same, for a size held as a two-element list. */
  lemma SizeCellOfPair(row: Row, size: seq<int>)
    requires |size| == 2
    requires Size in row && row[Size] == IntToString(size[0]) + ", " + IntToString(size[1])
    ensures ParseSize(row[Size]) == Some(size)
  {
    var w, h := size[0], size[1];
    assert [w, h] == size;
    SizeRoundTrip(w, h);
  }

  /** A row whose cells each read as the given field reads as the fields. */
  lemma RowOfCells(row: Row, f: PostFields)
    requires Size in row && ParseSize(row[Size]) == Some(f.size)
    requires IntCell(row, Id) == Ok(f.id) && IntCell(row, UserId) == Ok(f.userId)
    requires IntCell(row, Views) == Ok(f.views)
    requires Caption in row && row[Caption] == f.caption
    requires CreatedAt in row && Timestamp(row[CreatedAt]) == f.createdAt
    requires Tags in row && Split(row[Tags], ",") == f.tags
    requires MediaPath in row && MakePath(row[MediaPath]) == f.mediaPath
    requires MediaType in row && row[MediaType] == f.mediaType
    ensures RowToFields(row) == Ok(f)
  {
  }

  /** Each cell written from the fields reads back as its field. */
  lemma WrittenCellsRead(row: Row, f: PostFields)
    requires Writable(f)
    requires Id in row && row[Id] == IntToString(f.id)
    requires UserId in row && row[UserId] == IntToString(f.userId)
    requires Views in row && row[Views] == IntToString(f.views)
    requires Size in row && row[Size] == IntToString(f.size[0]) + ", " + IntToString(f.size[1])
    requires Caption in row && row[Caption] == f.caption
    requires CreatedAt in row && row[CreatedAt] == f.createdAt.text
    requires Tags in row && row[Tags] == Join(f.tags, ",")
    requires MediaPath in row && row[MediaPath] == f.mediaPath.text
    requires MediaType in row && row[MediaType] == f.mediaType
    ensures Size in row && ParseSize(row[Size]) == Some(f.size)
    ensures IntCell(row, Id) == Ok(f.id) && IntCell(row, UserId) == Ok(f.userId)
    ensures IntCell(row, Views) == Ok(f.views)
    ensures Tags in row && Split(row[Tags], ",") == f.tags
  {
    IntCellsOf(row, f.id, f.userId, f.views);
    SizeCellOfPair(row, f.size);
    SplitJoin(f.tags, ",");
  }

  /** A row holding the texts written from the fields reads as the fields. */
  lemma RowOfWrittenCells(row: Row, f: PostFields)
    requires Writable(f)
    requires Id in row && row[Id] == IntToString(f.id)
    requires UserId in row && row[UserId] == IntToString(f.userId)
    requires Views in row && row[Views] == IntToString(f.views)
    requires Size in row && row[Size] == IntToString(f.size[0]) + ", " + IntToString(f.size[1])
    requires Caption in row && row[Caption] == f.caption
    requires CreatedAt in row && row[CreatedAt] == f.createdAt.text
    requires Tags in row && row[Tags] == Join(f.tags, ",")
    requires MediaPath in row && row[MediaPath] == f.mediaPath.text
    requires MediaType in row && row[MediaType] == f.mediaType
    ensures RowToFields(row) == Ok(f)
  {
    WrittenCellsRead(row, f);
    RowOfCells(row, f);
  }

  /** Writing post fields to a row and reading the row gives them back. */
  lemma RowRoundTrip(f: PostFields)
    requires Writable(f)
    ensures RowToFields(FieldsToRow(f)) == Ok(f)
  {
    RowOfWrittenCells(FieldsToRow(f), f);
  }

  /** `post_dict = {post.id: post for post in posts}`: every id maps to a
      post with that id, later posts overwriting earlier ones. */
  function PostIndex(ps: seq<Post>): (idx: map<int, Post>)
    ensures forall k :: k in idx ==> idx[k] in ps && idx[k].id == k
  {
    if ps == [] then map[]
    else
      var init := ps[..|ps| - 1];
      var last := ps[|ps| - 1];
      assert forall i :: 0 <= i < |init| ==> init[i] == ps[i];
      PostIndex(init)[last.id := last]
  }

  /** Every id of the list is in the index, and an id held by no later
      element maps to its element. */
  lemma {:induction false} PostIndexCovers(ps: seq<Post>)
    ensures forall i :: 0 <= i < |ps| ==> ps[i].id in PostIndex(ps)
    ensures forall i :: 0 <= i < |ps| && (forall j :: i < j < |ps| ==> ps[j].id != ps[i].id)
              ==> PostIndex(ps)[ps[i].id] == ps[i]
  {
    if ps != [] {
      var init := ps[..|ps| - 1];
      PostIndexCovers(init);
      assert forall i :: 0 <= i < |init| ==> init[i] == ps[i];
    }
  }

  /** No two posts share an id. */
  predicate UniquePostIds(ps: seq<Post>)
  {
    forall i, j :: 0 <= i < j < |ps| ==> ps[i].id != ps[j].id
  }

  /** With unique ids, the index sends a post's id to that post, and sends
      no other id to it. */
  lemma IndexOfUniqueIds(ps: seq<Post>, p: Post, k: int)
    requires UniquePostIds(ps) && p in ps
    ensures p.id in PostIndex(ps) && PostIndex(ps)[p.id] == p
    ensures k in PostIndex(ps) && PostIndex(ps)[k] == p ==> k == p.id
  {
    PostIndexCovers(ps);
    var i :| 0 <= i < |ps| && ps[i] == p;
    assert forall j :: i < j < |ps| ==> ps[j].id != ps[i].id;
  }

  /** The likes, in order, that `assign_likes` hands to `p`. */
  function LikesRoutedTo(ls: seq<Like>, idx: map<int, Post>, p: Post): seq<Like>
  {
    Filter(ls, (l: Like) => l.postId in idx && idx[l.postId] == p)
  }

  /** The likes, in order, whose post id is `id`. */
  function LikesOfPost(ls: seq<Like>, id: int): seq<Like>
  {
    Filter(ls, (l: Like) => l.postId == id)
  }

  /** The comments, in order, that `assign_comments` hands to `p`. */
  function CommentsRoutedTo(cs: seq<Comment>, idx: map<int, Post>, p: Post): seq<Comment>
  {
    Filter(cs, (c: Comment) => c.postId in idx && idx[c.postId] == p)
  }

  /** The comments, in order, whose post id is `id`. */
  function CommentsOfPost(cs: seq<Comment>, id: int): seq<Comment>
  {
    Filter(cs, (c: Comment) => c.postId == id)
  }

  /** One more like is handed to `p` exactly when the index routes its
      post id to `p`. */
  lemma LikesRoutedStep(ls: seq<Like>, l: Like, idx: map<int, Post>, p: Post)
    ensures LikesRoutedTo(ls + [l], idx, p)
         == if l.postId in idx && idx[l.postId] == p then LikesRoutedTo(ls, idx, p) + [l]
            else LikesRoutedTo(ls, idx, p)
  {
    FilterSnoc(ls, l, (x: Like) => x.postId in idx && idx[x.postId] == p);
    assert LikesRoutedTo(ls, idx, p) + [] == LikesRoutedTo(ls, idx, p);
  }

  /** The same for one more comment. */
  lemma CommentsRoutedStep(cs: seq<Comment>, c: Comment, idx: map<int, Post>, p: Post)
    ensures CommentsRoutedTo(cs + [c], idx, p)
         == if c.postId in idx && idx[c.postId] == p then CommentsRoutedTo(cs, idx, p) + [c]
            else CommentsRoutedTo(cs, idx, p)
  {
    FilterSnoc(cs, c, (x: Comment) => x.postId in idx && idx[x.postId] == p);
    assert CommentsRoutedTo(cs, idx, p) + [] == CommentsRoutedTo(cs, idx, p);
  }

  /** One step of `assign_likes` as seen by one post: the post's likes
      follow the likes routed to it so far. */
  lemma LikesStep(start: seq<Like>, before: seq<Like>, after: seq<Like>,
                  ls: seq<Like>, l: Like, idx: map<int, Post>, p: Post)
    requires before == WithLikes(start, LikesRoutedTo(ls, idx, p))
    requires l.postId in idx && idx[l.postId] == p ==> after == WithLike(before, l)
    requires !(l.postId in idx && idx[l.postId] == p) ==> after == before
    ensures after == WithLikes(start, LikesRoutedTo(ls + [l], idx, p))
  {
    LikesRoutedStep(ls, l, idx, p);
    WithLikesSnoc(start, LikesRoutedTo(ls, idx, p), l);
  }

  /** One step of `assign_comments` as seen by one post. */
  lemma CommentsStep(start: seq<Comment>, before: seq<Comment>, after: seq<Comment>,
                     cs: seq<Comment>, c: Comment, idx: map<int, Post>, p: Post)
    requires before == AddedAll(start, CommentsRoutedTo(cs, idx, p))
    requires c.postId in idx && idx[c.postId] == p ==> after == Added(before, c)
    requires !(c.postId in idx && idx[c.postId] == p) ==> after == before
    ensures after == AddedAll(start, CommentsRoutedTo(cs + [c], idx, p))
  {
    CommentsRoutedStep(cs, c, idx, p);
    AddedAllSnoc(start, CommentsRoutedTo(cs, idx, p), c);
  }

  /** With unique post ids a post is handed exactly the likes that carry
      its id, and the comments that carry its id. */
  lemma RoutedToOwnPost(ps: seq<Post>, ls: seq<Like>, cs: seq<Comment>, p: Post)
    requires UniquePostIds(ps) && p in ps
    ensures LikesRoutedTo(ls, PostIndex(ps), p) == LikesOfPost(ls, p.id)
    ensures CommentsRoutedTo(cs, PostIndex(ps), p) == CommentsOfPost(cs, p.id)
  {
    var idx := PostIndex(ps);
    forall k: int ensures (k in idx && idx[k] == p) == (k == p.id) {
      IndexOfUniqueIds(ps, p, k);
    }
    FilterAgree(ls, (l: Like) => l.postId in idx && idx[l.postId] == p, (l: Like) => l.postId == p.id);
    FilterAgree(cs, (c: Comment) => c.postId in idx && idx[c.postId] == p, (c: Comment) => c.postId == p.id);
  }

  /** The count the reader's tests check: with unique post ids and
      pairwise-unequal likes, a post that starts without likes ends with
      exactly the likes carrying its id, in row order. */
  lemma AssignedLikesAreRows(ps: seq<Post>, ls: seq<Like>, p: Post)
    requires UniquePostIds(ps) && p in ps && Distinct(ls)
    ensures WithLikes([], LikesRoutedTo(ls, PostIndex(ps), p)) == LikesOfPost(ls, p.id)
    ensures |WithLikes([], LikesRoutedTo(ls, PostIndex(ps), p))|
            == |LikesOfPost(ls, p.id)|
  {
    RoutedToOwnPost(ps, ls, [], p);
    FilterKeepsDistinct(ls, (l: Like) => l.postId == p.id);
    WithLikesFresh([], LikesOfPost(ls, p.id));
  }

  /** The same for comments, which are told apart by identity. */
  lemma AssignedCommentsAreRows(ps: seq<Post>, cs: seq<Comment>, p: Post)
    requires UniquePostIds(ps) && p in ps && NoDup(cs)
    ensures AddedAll([], CommentsRoutedTo(cs, PostIndex(ps), p)) == CommentsOfPost(cs, p.id)
  {
    RoutedToOwnPost(ps, [], cs, p);
    FilterKeepsNoDup(cs, (c: Comment) => c.postId == p.id);
    AddedAllFresh([], CommentsOfPost(cs, p.id));
  }

  /** `PostsReader`: the posts read so far, kept across reads. */
  class PostsReader {
    var posts: seq<Post>

    constructor()
      ensures posts == []
    {
      posts := [];
    }

    /** The post is the one built from the fields: no likes, no comments,
        nobody tagged. */
    predicate BuiltFrom(p: Post, f: PostFields)
      reads p
    {
      && p.id == f.id && p.userId == f.userId && p.caption == f.caption
      && p.views == f.views && p.createdAt == f.createdAt && p.size == f.size
      && p.tags == f.tags && p.usersTagged == [] && p.mediaPath == f.mediaPath
      && p.mediaType == f.mediaType && p.likes == [] && p.comments == []
    }

    /** Each post is the one built from the fields at its position. */
    predicate AllBuiltFrom(ps: seq<Post>, fs: seq<PostFields>)
      reads set p | p in ps
    {
      |ps| == |fs| && forall j :: 0 <= j < |ps| ==> BuiltFrom(ps[j], fs[j])
    }

    /** The body of `read_posts`'s loop once a row has converted: builds
        the post the row describes and appends it. */
    method AppendPost(f: PostFields, ghost added: seq<Post>, ghost fields: seq<PostFields>)
        returns (p: Post)
      requires AllBuiltFrom(added, fields)
      modifies this`posts
      ensures fresh(p)
      ensures posts == old(posts) + [p]
      ensures AllBuiltFrom(added + [p], fields + [f])
    {
      p := new Post(f.id, f.userId, f.caption, f.views, f.createdAt, f.size,
                    f.tags, [], f.mediaPath, f.mediaType, None, None);
      posts := posts + [p];
      assert BuiltFrom(p, f);
      assert forall j :: 0 <= j < |added| ==> (added + [p])[j] == added[j];
    }

    /** The loop of `read_posts`: appends the post of each row until a row
        fails or the rows run out; `n` rows converted, and `err` is the
        error of the row after them, if any. */
    method AppendRows(rows: seq<Row>)
        returns (n: nat, err: Option<ReadError>, ghost added: seq<Post>, ghost fields: seq<PostFields>)
      modifies this`posts
      ensures n <= |rows| && |added| == n
      ensures posts == old(posts) + added
      ensures posts[..|old(posts)|] == old(posts) && posts[|old(posts)|..] == added
      ensures forall j :: |old(posts)| <= j < |posts| ==> fresh(posts[j])
      ensures ReadAll(rows[..n], RowToFields) == Ok(fields)
      ensures AllBuiltFrom(added, fields)
      ensures err.None? <==> n == |rows|
      ensures err.Some? ==> RowToFields(rows[n]) == Err(err.value)
    {
      n := 0;
      fields := [];
      added := [];
      while n < |rows|
        invariant 0 <= n <= |rows| && |added| == n
        invariant posts == old(posts) + added
        invariant forall j :: 0 <= j < |added| ==> fresh(added[j])
        invariant posts[..|old(posts)|] == old(posts) && posts[|old(posts)|..] == added
        invariant ReadAll(rows[..n], RowToFields) == Ok(fields)
        invariant AllBuiltFrom(added, fields)
      {
        ReadAllStep(rows, RowToFields, n);
        var res := RowToFields(rows[n]);
        if res.Err? {
          return n, Some(res.error), added, fields;
        }
        var f := res.value;
        var p := AppendPost(f, added, fields);
        added := added + [p];
        fields := fields + [f];
        n := n + 1;
      }
      err := None;
    }

    /** `read_posts`: appends one new post per row, in row order, to the
        posts already read, and returns the whole list. A row that fails
        stops the read with that row's error; the posts of the rows before it
        stay appended. */
    method ReadPosts(rows: seq<Row>) returns (r: Result<seq<Post>, ReadError>)
      modifies this`posts
      ensures |old(posts)| <= |posts| <= |old(posts)| + |rows|
      ensures posts[..|old(posts)|] == old(posts)
      ensures forall j :: |old(posts)| <= j < |posts| ==> fresh(posts[j])
      ensures ReadAll(rows[..|posts| - |old(posts)|], RowToFields).Ok?
      ensures AllBuiltFrom(posts[|old(posts)|..], ReadAll(rows[..|posts| - |old(posts)|], RowToFields).value)
      ensures r.Ok? <==> ReadAll(rows, RowToFields).Ok?
      ensures r.Ok? ==> r.value == posts && |posts| == |old(posts)| + |rows|
      ensures r.Err? ==> ReadAll(rows, RowToFields) == Err(r.error)
      ensures r.Err? ==> (|posts| < |old(posts)| + |rows|
                         && RowToFields(rows[|posts| - |old(posts)|]) == Err(r.error))
    {
      var n, err, added, fields := AppendRows(rows);
      if err.Some? {
        ReadAllStep(rows, RowToFields, n);
        ReadAllFailsFrom(rows, RowToFields, n + 1);
        return Err(err.value);
      }
      assert rows[..n] == rows;
      r := Ok(posts);
    }

    /** The body of `assign_likes`'s loop: hands one like to the post the
        index holds for its post id, if any. */
    method RouteLike(idx: map<int, Post>, l: Like)
      requires forall k :: k in idx ==> idx[k] in posts
      modifies set p | p in posts :: p`likes
      ensures forall p :: p in posts ==>
                p.likes == if l.postId in idx && idx[l.postId] == p then WithLike(old(p.likes), l)
                           else old(p.likes)
    {
      if l.postId in idx {
        idx[l.postId].AddLike(l);
      }
    }

    /** The body of `assign_comments`'s loop, for one comment. */
    method RouteComment(idx: map<int, Post>, c: Comment)
      requires forall k :: k in idx ==> idx[k] in posts
      modifies set p | p in posts :: p`comments
      ensures forall p :: p in posts ==>
                p.comments == if c.postId in idx && idx[c.postId] == p then Added(old(p.comments), c)
                              else old(p.comments)
    {
      if c.postId in idx {
        idx[c.postId].AddComment(c);
      }
    }

    /** `assign_likes`: each like goes, through `add_like`, to the post whose
        id is the like's post id; likes of unknown posts are dropped and no
        other post changes. */
    method AssignLikes(likes: seq<Like>)
      modifies set p | p in posts :: p`likes
      ensures forall p :: p in posts ==>
                p.likes == WithLikes(old(p.likes), LikesRoutedTo(likes, PostIndex(posts), p))
    {
      var idx := PostIndex(posts);
      var i := 0;
      while i < |likes|
        invariant 0 <= i <= |likes|
        invariant forall p :: p in posts ==>
                    p.likes == WithLikes(old(p.likes), LikesRoutedTo(likes[..i], idx, p))
      {
        var l := likes[i];
        assert likes[..i + 1] == likes[..i] + [l];
        label before:
        RouteLike(idx, l);
        forall p | p in posts
          ensures p.likes == WithLikes(old(p.likes), LikesRoutedTo(likes[..i + 1], idx, p))
        {
          LikesStep(old(p.likes), old@before(p.likes), p.likes, likes[..i], l, idx, p);
        }
        i := i + 1;
      }
      assert likes[..|likes|] == likes;
    }

    /** `assign_comments`: the same routing for comments, through
        `add_comment`. */
    method AssignComments(comments: seq<Comment>)
      modifies set p | p in posts :: p`comments
      ensures forall p :: p in posts ==>
                p.comments == AddedAll(old(p.comments), CommentsRoutedTo(comments, PostIndex(posts), p))
    {
      var idx := PostIndex(posts);
      var i := 0;
      while i < |comments|
        invariant 0 <= i <= |comments|
        invariant forall p :: p in posts ==>
                    p.comments == AddedAll(old(p.comments), CommentsRoutedTo(comments[..i], idx, p))
      {
        var c := comments[i];
        assert comments[..i + 1] == comments[..i] + [c];
        label before:
        RouteComment(idx, c);
        forall p | p in posts
          ensures p.comments == AddedAll(old(p.comments), CommentsRoutedTo(comments[..i + 1], idx, p))
        {
          CommentsStep(old(p.comments), old@before(p.comments), p.comments, comments[..i], c, idx, p);
        }
        i := i + 1;
      }
      assert comments[..|comments|] == comments;
    }
  }
}
