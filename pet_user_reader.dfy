/** Reading pet users from CSV rows, and attaching posts to their owners. */
module PetUsersReading {
  import opened Common
  import opened Text
  import opened Lists
  import opened Rows
  import opened Animals
  import opened DomainModel

  /** The columns of the pet users file. */
  datatype Column = Id | Username | Email | PasswordHash | ProfileImagePath | CreatedAt | Bio | FollowerIds

  /** The header text of each column. */
  function Header(c: Column): string
  {
    match c
    case Id => "id"
    case Username => "username"
    case Email => "email"
    case PasswordHash => "password_hash"
    case ProfileImagePath => "profile_image_path"
    case CreatedAt => "created_at"
    case Bio => "bio"
    case FollowerIds => "follower_ids"
  }

  /** A CSV row: the cell text under each header the file has. */
  type Row = map<Column, string>

  /** The exception a row raises. */
  type ReadError = CellError<Column>

  /** `row.get(name, default)`. */
  function CellOr(row: Row, name: Column, default: string): string
  {
    if name in row then row[name] else default
  }

  /** A piece of the follower-id cell that holds more than whitespace. */
  predicate NonBlank(x: string)
  {
    Trim(x, IsPySpace) != []
  }

  /** The comma-separated pieces of the stripped cell that are not blank. */
  function FollowerPieces(s: string): seq<string>
  {
    Filter(Split(s, ","), NonBlank)
  }

  /** The follower ids of a cell: the integers of its non-blank
      comma-separated pieces, in order, and none for a blank cell. `None`
      stands for the `ValueError` of a piece that is not an integer. */
  function ParseFollowerIds(cell: string): (r: Option<seq<int>>)
    ensures (forall i :: 0 <= i < |cell| ==> IsPySpace(cell[i])) ==> r == Some([])
  {
    TrimEmptyIffBlank(cell, IsPySpace);
    var s := Trim(cell, IsPySpace);
    if s == [] then Some([]) else ParseInts(FollowerPieces(s))
  }

  /** A cell of integer texts holds no whitespace at all. */
  lemma FollowerTextNoSpace(ids: seq<int>)
    ensures forall i :: 0 <= i < |Join(IntStrings(ids), ",")| ==> !IsPySpace(Join(IntStrings(ids), ",")[i])
  {
    var strs := IntStrings(ids);
    forall k, i | 0 <= k < |strs| && 0 <= i < |strs[k]| ensures !IsPySpace(strs[k][i]) {
      if i > 0 {
        assert IsDigit(strs[k][i]);
      }
    }
    JoinChars(strs, ",", (c: char) => !IsPySpace(c));
  }

  /** The pieces of a cell of integer texts are those texts, none blank. */
  lemma FollowerPiecesOfStrings(ids: seq<int>)
    requires ids != []
    ensures FollowerPieces(Join(IntStrings(ids), ",")) == IntStrings(ids)
  {
    var strs := IntStrings(ids);
    forall k | 0 <= k < |strs| ensures ',' !in strs[k] {
      NoCommaInIntString(ids[k]);
    }
    SplitJoin(strs, ",");
    forall k | 0 <= k < |strs| ensures NonBlank(strs[k]) {
      IntStringTrimmed(ids[k]);
    }
    FilterAll(strs, NonBlank);
  }

  /** Follower ids written as `str(id)` joined with commas read back as the
      same ids in the same order; no ids are written as the empty cell. */
  lemma FollowerIdsRoundTrip(ids: seq<int>)
    ensures ParseFollowerIds(Join(IntStrings(ids), ",")) == Some(ids)
  {
    var s := Join(IntStrings(ids), ",");
    if ids != [] {
      FollowerTextNoSpace(ids);
      JoinStartsWithFirst(IntStrings(ids), ",");
      assert s != [];
      TrimUnchanged(s, IsPySpace);
      FollowerPiecesOfStrings(ids);
      ParseIntsOfStrings(ids);
    }
  }

  /** The values a row supplies for a new pet user. */
  datatype PetUserFields = PetUserFields(
    id: int, username: string, email: string, passwordHash: string,
    profileImagePath: Option<string>, createdAt: Timestamp, bio: string,
    followerIds: seq<int>)

  /** The conversion of one row, with its cells read in the order the source
      evaluates them: the creation time, the follower ids, then the
      constructor's arguments from left to right. The first failure is the
      one raised. A missing picture path is `None`, a missing bio is empty
      and missing follower ids are none. */
  function RowToFields(row: Row): Result<PetUserFields, ReadError>
  {
    var createdAt :- Cell(row, CreatedAt);
    var followerCell := CellOr(row, FollowerIds, "");
    var followerIds :- if ParseFollowerIds(followerCell).Some? then Ok(ParseFollowerIds(followerCell).value)
                       else Err(NotAnInteger(FollowerIds, followerCell));
    var id :- IntCell(row, Id);
    var username :- Cell(row, Username);
    var email :- Cell(row, Email);
    var passwordHash :- Cell(row, PasswordHash);
    var picture := if ProfileImagePath in row then Some(row[ProfileImagePath]) else None;
    Ok(PetUserFields(id, username, email, passwordHash, picture,
                     Timestamp(Trim(createdAt, IsPySpace)), CellOr(row, Bio, ""), followerIds))
  }

  /** Fields that a CSV row can carry without loss: the creation time has
      no surrounding whitespace, which the reader would strip. */
  predicate Writable(f: PetUserFields)
  {
    Trim(f.createdAt.text, IsPySpace) == f.createdAt.text
  }

  /** The text the given fields put under a column. */
  function CellText(f: PetUserFields, c: Column): string
  {
    match c
    case Id => IntToString(f.id)
    case Username => f.username
    case Email => f.email
    case PasswordHash => f.passwordHash
    case ProfileImagePath => if f.profileImagePath.Some? then f.profileImagePath.value else ""
    case CreatedAt => f.createdAt.text
    case Bio => f.bio
    case FollowerIds => Join(IntStrings(f.followerIds), ",")
  }

  /** The row that holds the given fields; a missing picture path is a
      missing column. */
  function FieldsToRow(f: PetUserFields): (row: Row)
    ensures forall c :: c in row <==> (c != ProfileImagePath || f.profileImagePath.Some?)
    ensures forall c :: c in row ==> row[c] == CellText(f, c)
  {
    map c: Column | c != ProfileImagePath || f.profileImagePath.Some? :: CellText(f, c)
  }

  /** A row whose cells each read as the given field reads as the fields. */
  lemma RowOfCells(row: Row, f: PetUserFields)
    requires CreatedAt in row && Timestamp(Trim(row[CreatedAt], IsPySpace)) == f.createdAt
    requires ParseFollowerIds(CellOr(row, FollowerIds, "")) == Some(f.followerIds)
    requires IntCell(row, Id) == Ok(f.id)
    requires Username in row && row[Username] == f.username
    requires Email in row && row[Email] == f.email
    requires PasswordHash in row && row[PasswordHash] == f.passwordHash
    requires (if ProfileImagePath in row then Some(row[ProfileImagePath]) else None) == f.profileImagePath
    requires CellOr(row, Bio, "") == f.bio
    ensures RowToFields(row) == Ok(f)
  {
  }

  /** Each cell written from the fields reads back as its field. */
  lemma WrittenCellsRead(row: Row, f: PetUserFields)
    requires Writable(f)
    requires CreatedAt in row && row[CreatedAt] == f.createdAt.text
    requires FollowerIds in row && row[FollowerIds] == Join(IntStrings(f.followerIds), ",")
    requires Id in row && row[Id] == IntToString(f.id)
    ensures Timestamp(Trim(row[CreatedAt], IsPySpace)) == f.createdAt
    ensures ParseFollowerIds(CellOr(row, FollowerIds, "")) == Some(f.followerIds)
    ensures IntCell(row, Id) == Ok(f.id)
  {
    FollowerIdsRoundTrip(f.followerIds);
    ParseIntOfString(f.id);
  }

  /** A row holding the text of each field reads as the fields. */
  lemma RowOfWrittenCells(row: Row, f: PetUserFields)
    requires Writable(f)
    requires CreatedAt in row && row[CreatedAt] == f.createdAt.text
    requires FollowerIds in row && row[FollowerIds] == Join(IntStrings(f.followerIds), ",")
    requires Id in row && row[Id] == IntToString(f.id)
    requires Username in row && row[Username] == f.username
    requires Email in row && row[Email] == f.email
    requires PasswordHash in row && row[PasswordHash] == f.passwordHash
    requires (if ProfileImagePath in row then Some(row[ProfileImagePath]) else None) == f.profileImagePath
    requires Bio in row && row[Bio] == f.bio
    ensures RowToFields(row) == Ok(f)
  {
    WrittenCellsRead(row, f);
    RowOfCells(row, f);
  }

  /** Writing pet user fields to a row and reading the row gives them back. */
  lemma RowRoundTrip(f: PetUserFields)
    requires Writable(f)
    ensures RowToFields(FieldsToRow(f)) == Ok(f)
  {
    RowOfWrittenCells(FieldsToRow(f), f);
  }

  /** `user_dict = {user.id: user for user in users}`: every id maps to a
      user with that id, later users overwriting earlier ones. */
  function UserIndex(us: seq<PetUser>): (idx: map<int, PetUser>)
    ensures forall k :: k in idx ==> idx[k] in us && idx[k].user.id == k
  {
    if us == [] then map[]
    else
      var init := us[..|us| - 1];
      var last := us[|us| - 1];
      assert forall i :: 0 <= i < |init| ==> init[i] == us[i];
      UserIndex(init)[last.user.id := last]
  }

  /** Every id of the list is in the index, and an id held by no later
      element maps to its element. */
  lemma {:induction false} UserIndexCovers(us: seq<PetUser>)
    ensures forall i :: 0 <= i < |us| ==> us[i].user.id in UserIndex(us)
    ensures forall i :: 0 <= i < |us| && (forall j :: i < j < |us| ==> us[j].user.id != us[i].user.id)
              ==> UserIndex(us)[us[i].user.id] == us[i]
  {
    if us != [] {
      var init := us[..|us| - 1];
      UserIndexCovers(init);
      assert forall i :: 0 <= i < |init| ==> init[i] == us[i];
    }
  }

  /** No two users share an id. */
  predicate UniqueUserIds(us: seq<PetUser>)
  {
    forall i, j :: 0 <= i < j < |us| ==> us[i].user.id != us[j].user.id
  }

  /** With unique ids, the index sends a user's id to that user, and sends
      no other id to it. */
  lemma IndexOfUniqueIds(us: seq<PetUser>, u: PetUser, k: int)
    requires UniqueUserIds(us) && u in us
    ensures u.user.id in UserIndex(us) && UserIndex(us)[u.user.id] == u
    ensures k in UserIndex(us) && UserIndex(us)[k] == u ==> k == u.user.id
  {
    UserIndexCovers(us);
    var i :| 0 <= i < |us| && us[i] == u;
    assert forall j :: i < j < |us| ==> us[j].user.id != us[i].user.id;
  }

  /** The posts, in order, that `assign_posts` hands to `u`. */
  function PostsRoutedTo(ps: seq<Post>, idx: map<int, PetUser>, u: PetUser): seq<Post>
  {
    Filter(ps, (p: Post) => p.userId in idx && idx[p.userId] == u)
  }

  /** The posts, in order, whose author id is `id`. */
  function PostsOfUser(ps: seq<Post>, id: int): seq<Post>
  {
    Filter(ps, (p: Post) => p.userId == id)
  }

  /** One more post is handed to `u` exactly when the index routes its
      author id to `u`. */
  lemma PostsRoutedStep(ps: seq<Post>, p: Post, idx: map<int, PetUser>, u: PetUser)
    ensures PostsRoutedTo(ps + [p], idx, u)
         == if p.userId in idx && idx[p.userId] == u then PostsRoutedTo(ps, idx, u) + [p]
            else PostsRoutedTo(ps, idx, u)
  {
    FilterSnoc(ps, p, (x: Post) => x.userId in idx && idx[x.userId] == u);
    assert PostsRoutedTo(ps, idx, u) + [] == PostsRoutedTo(ps, idx, u);
  }

  /** One step of `assign_posts` as seen by one user: the user's posts
      follow the posts routed to them so far. */
  lemma PostsStep(start: seq<Post>, before: seq<Post>, after: seq<Post>,
                  ps: seq<Post>, p: Post, idx: map<int, PetUser>, u: PetUser)
    requires before == AddedAll(start, PostsRoutedTo(ps, idx, u))
    requires p.userId in idx && idx[p.userId] == u ==> after == Added(before, p)
    requires !(p.userId in idx && idx[p.userId] == u) ==> after == before
    ensures after == AddedAll(start, PostsRoutedTo(ps + [p], idx, u))
  {
    PostsRoutedStep(ps, p, idx, u);
    AddedAllSnoc(start, PostsRoutedTo(ps, idx, u), p);
  }

  /** With unique user ids a user is handed exactly the posts that carry
      their id. */
  lemma RoutedToOwner(us: seq<PetUser>, ps: seq<Post>, u: PetUser)
    requires UniqueUserIds(us) && u in us
    ensures PostsRoutedTo(ps, UserIndex(us), u) == PostsOfUser(ps, u.user.id)
  {
    var idx := UserIndex(us);
    forall k: int ensures (k in idx && idx[k] == u) == (k == u.user.id) {
      IndexOfUniqueIds(us, u, k);
    }
    FilterAgree(ps, (p: Post) => p.userId in idx && idx[p.userId] == u, (p: Post) => p.userId == u.user.id);
  }

  /** With unique user ids and no post listed twice, a user who starts
      without posts ends with exactly the posts carrying their id, in order. */
  lemma AssignedPostsAreOwn(us: seq<PetUser>, ps: seq<Post>, u: PetUser)
    requires UniqueUserIds(us) && u in us && NoDup(ps)
    ensures AddedAll([], PostsRoutedTo(ps, UserIndex(us), u)) == PostsOfUser(ps, u.user.id)
  {
    RoutedToOwner(us, ps, u);
    FilterKeepsNoDup(ps, (p: Post) => p.userId == u.user.id);
    AddedAllFresh([], PostsOfUser(ps, u.user.id));
  }

  /** A second `assign_posts` with the same posts changes nothing, since
      each user already holds every post routed to them. */
  lemma AssignPostsTwice(start: seq<Post>, ps: seq<Post>, idx: map<int, PetUser>, u: PetUser)
    ensures AddedAll(AddedAll(start, PostsRoutedTo(ps, idx, u)), PostsRoutedTo(ps, idx, u))
         == AddedAll(start, PostsRoutedTo(ps, idx, u))
  {
    AddedAllIdempotent(start, PostsRoutedTo(ps, idx, u));
  }

  /** `assign_posts` as written: its index is keyed by `user.user_id`, an
      attribute no user has (a user's id is `id`), so building the index
      raises `AttributeError` as soon as one user has been read, and no post
      is attached. The error carries the missing attribute's name. */
  function AssignPostsAsWritten(us: seq<PetUser>): (r: Outcome<string>)
    ensures r.Fail? <==> us != []
    ensures r.Fail? ==> r.error == "user_id"
  {
    if us == [] then Pass else Fail("user_id")
  }

  /** One user and one post of theirs: as written the call raises, while
      the intended index hands that post to the user. */
  lemma AssignPostsDiscrepancy(u: PetUser, p: Post)
    requires p.userId == u.user.id
    ensures AssignPostsAsWritten([u]) == Fail("user_id")
    ensures AddedAll([], PostsRoutedTo([p], UserIndex([u]), u)) == [p]
  {
    AssignedPostsAreOwn([u], [p], u);
    FilterAll([p], (x: Post) => x.userId == u.user.id);
  }

  /** How `read_pet_users` as written ends when it raises: with a row that
      does not convert, or with the `AttributeError` of its debug print. */
  datatype AsWrittenError = RowFailed(error: ReadError) | AttributeMissing(name: string)

  /** `read_pet_users` as written: once every row has been read, it prints
      `str(user)` for every user the reader holds, and `PetUser.__str__`
      reads `self.user_id`, an attribute no user has. So a row that does
      not convert raises that row's error as intended, a reader that ends
      up holding no user returns, and every other read raises
      `AttributeError`. `stored` is the number of users read before; the
      users appended are those of the intended loop. */
  function ReadPetUsersAsWritten(stored: nat, rows: seq<Row>): (r: Outcome<AsWrittenError>)
    ensures r.Pass? <==> stored == 0 && rows == []
    ensures ReadAll(rows, RowToFields).Err? ==> r == Fail(RowFailed(ReadAll(rows, RowToFields).error))
    ensures ReadAll(rows, RowToFields).Ok? && !r.Pass? ==> r == Fail(AttributeMissing("user_id"))
  {
    match ReadAll(rows, RowToFields)
    case Err(e) => Fail(RowFailed(e))
    case Ok(fs) => if stored + |fs| == 0 then Pass else Fail(AttributeMissing("user_id"))
  }

  /** A file of one row that converts, such as the row written from any
      user's fields (`RowRoundTrip`), read by a new reader: the intended
      read gives the row's fields, while the read as written raises. */
  lemma ReadPetUsersDiscrepancy(row: Row, f: PetUserFields)
    requires RowToFields(row) == Ok(f)
    ensures ReadAll([row], RowToFields) == Ok([f])
    ensures ReadPetUsersAsWritten(0, [row]) == Fail(AttributeMissing("user_id"))
  {
    var rows := [row];
    assert rows[..|rows| - 1] == [] && rows[|rows| - 1] == row;
    assert ReadAll(rows[..|rows| - 1], RowToFields) == Ok([]);
    assert ReadAll(rows, RowToFields) == Ok([] + [f]);
    assert [] + [f] == [f];
  }

  /** `PetUserReader`: the pet users read so far, kept across reads. */
  class PetUserReader {
    var users: seq<PetUser>

    constructor()
      ensures users == []
    {
      users := [];
    }

    /** The pet user is the one built from the fields: a dog, with no
        posts, likes, follows or comments. */
    predicate BuiltFrom(u: PetUser, f: PetUserFields)
      reads u, u.user
    {
      && u.user.id == f.id && u.user.username == f.username && u.user.email == f.email
      && u.user.passwordHash == f.passwordHash
      && u.user.profilePicturePath
         == (if f.profileImagePath.Some? then Path(f.profileImagePath.value) else MakePath(""))
      && u.user.createdAt == f.createdAt && u.user.bio == f.bio
      && u.user.likedPosts == [] && u.user.following == [] && u.user.comments == []
      && u.posts == [] && u.animalType == Some(Dog) && u.followerIds == f.followerIds
    }

    /** Each pet user is the one built from the fields at its position. */
    predicate AllBuiltFrom(us: seq<PetUser>, fs: seq<PetUserFields>)
      reads set u | u in us, set u | u in us :: u.user
    {
      |us| == |fs| && forall j :: 0 <= j < |us| ==> BuiltFrom(us[j], fs[j])
    }

    /** The body of `read_pet_users`'s loop once a row has converted:
        builds the dog the row describes and appends it. */
    method AppendUser(f: PetUserFields, ghost added: seq<PetUser>, ghost fields: seq<PetUserFields>)
        returns (u: PetUser)
      requires AllBuiltFrom(added, fields)
      modifies this`users
      ensures fresh(u)
      ensures users == old(users) + [u]
      ensures AllBuiltFrom(added + [u], fields + [f])
    {
      var picture := if f.profileImagePath.Some? then Some(Path(f.profileImagePath.value)) else None;
      u := new PetUser(f.id, f.username, f.email, f.passwordHash, picture,
                       Some(f.createdAt), f.createdAt, None, None, None, f.bio,
                       None, Some(Dog), Some(f.followerIds));
      users := users + [u];
      assert BuiltFrom(u, f);
      assert forall j :: 0 <= j < |added| ==> (added + [u])[j] == added[j];
    }

    /** The loop of `read_pet_users`: appends the users of the rows in
        order and stops at the first row that fails, giving the number of
        rows read and that row's error. */
    method AppendRows(rows: seq<Row>)
        returns (n: nat, err: Option<ReadError>, ghost added: seq<PetUser>, ghost fields: seq<PetUserFields>)
      modifies this`users
      ensures n <= |rows| && |added| == n
      ensures users == old(users) + added
      ensures users[..|old(users)|] == old(users) && users[|old(users)|..] == added
      ensures forall j :: |old(users)| <= j < |users| ==> fresh(users[j])
      ensures ReadAll(rows[..n], RowToFields) == Ok(fields)
      ensures AllBuiltFrom(added, fields)
      ensures err.None? <==> n == |rows|
      ensures err.Some? ==> RowToFields(rows[n]) == Err(err.value)
    {
      n := 0;
      fields := [];
      added := [];
      while n < |rows|
        invariant 0 <= n <= |rows| && |added| == n
        invariant users == old(users) + added
        invariant forall j :: 0 <= j < |added| ==> fresh(added[j])
        invariant users[..|old(users)|] == old(users) && users[|old(users)|..] == added
        invariant ReadAll(rows[..n], RowToFields) == Ok(fields)
        invariant AllBuiltFrom(added, fields)
      {
        ReadAllStep(rows, RowToFields, n);
        var res := RowToFields(rows[n]);
        if res.Err? {
          return n, Some(res.error), added, fields;
        }
        var f := res.value;
        var u := AppendUser(f, added, fields);
        added := added + [u];
        fields := fields + [f];
        n := n + 1;
      }
      err := None;
    }

    /** `read_pet_users`: appends one new pet user per row, in row order, to
        the users already read, and returns the whole list. A row that fails
        stops the read with that row's error; the users of the rows before
        it stay appended. */
    method ReadPetUsers(rows: seq<Row>) returns (r: Result<seq<PetUser>, ReadError>)
      modifies this`users
      ensures |old(users)| <= |users| <= |old(users)| + |rows|
      ensures users[..|old(users)|] == old(users)
      ensures forall j :: |old(users)| <= j < |users| ==> fresh(users[j])
      ensures ReadAll(rows[..|users| - |old(users)|], RowToFields).Ok?
      ensures AllBuiltFrom(users[|old(users)|..], ReadAll(rows[..|users| - |old(users)|], RowToFields).value)
      ensures r.Ok? <==> ReadAll(rows, RowToFields).Ok?
      ensures r.Ok? ==> r.value == users && |users| == |old(users)| + |rows|
      ensures r.Err? ==> ReadAll(rows, RowToFields) == Err(r.error)
      ensures r.Err? ==> (|users| < |old(users)| + |rows|
                         && RowToFields(rows[|users| - |old(users)|]) == Err(r.error))
    {
      var n, err, added, fields := AppendRows(rows);
      if err.Some? {
        ReadAllStep(rows, RowToFields, n);
        ReadAllFailsFrom(rows, RowToFields, n + 1);
        return Err(err.value);
      }
      assert rows[..n] == rows;
      r := Ok(users);
    }

    /** The body of `assign_posts`'s loop: hands one post to the user the
        index holds for its author id, if any. */
    method RoutePost(idx: map<int, PetUser>, p: Post)
      requires forall k :: k in idx ==> idx[k] in users
      modifies set u | u in users :: u`posts
      ensures forall u :: u in users ==>
                u.posts == if p.userId in idx && idx[p.userId] == u then Added(old(u.posts), p)
                           else old(u.posts)
    {
      if p.userId in idx {
        idx[p.userId].AddPost(Typed(p));
      }
    }

    /** `assign_posts`: each post goes, through `add_post`, to the user whose
        id is the post's author id; posts of unknown authors are dropped. */
    method AssignPosts(posts: seq<Post>)
      modifies set u | u in users :: u`posts
      ensures forall u :: u in users ==>
                u.posts == AddedAll(old(u.posts), PostsRoutedTo(posts, UserIndex(users), u))
    {
      var idx := UserIndex(users);
      var i := 0;
      while i < |posts|
        invariant 0 <= i <= |posts|
        invariant forall u :: u in users ==>
                    u.posts == AddedAll(old(u.posts), PostsRoutedTo(posts[..i], idx, u))
      {
        var p := posts[i];
        assert posts[..i + 1] == posts[..i] + [p];
        label before:
        RoutePost(idx, p);
        forall u | u in users
          ensures u.posts == AddedAll(old(u.posts), PostsRoutedTo(posts[..i + 1], idx, u))
        {
          PostsStep(old(u.posts), old@before(u.posts), u.posts, posts[..i], p, idx, u);
        }
        i := i + 1;
      }
      assert posts[..|posts|] == posts;
    }
  }
}
