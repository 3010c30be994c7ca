/** The in-memory repository: lists of users, posts and comments that are
    appended to, and searched front to back for the first match. */
module MemoryRepo {
  import opened Common
  import opened Lists
  import opened DomainModel

  /** The index of the first element whose id, as `idOf` reads it, is
      `id`: the front-to-back search every lookup by id makes. */
  function FirstWithId<T>(s: seq<T>, idOf: T -> int, id: int): (r: Option<nat>)
    ensures r.None? <==> forall i :: 0 <= i < |s| ==> idOf(s[i]) != id
    ensures r.Some? ==> r.value < |s| && idOf(s[r.value]) == id
    ensures r.Some? ==> forall j :: 0 <= j < r.value ==> idOf(s[j]) != id
  {
    if s == [] then None
    else if idOf(s[0]) == id then Some(0)
    else
      var r := FirstWithId(s[1..], idOf, id);
      assert forall i :: 1 <= i < |s| ==> s[i] == s[1..][i - 1];
      if r.Some? then Some(r.value + 1) else None
  }

  /** A post's id. */
  function PostId(p: Post): int
  {
    p.id
  }

  /** A user's id. */
  function UserId(u: User): int
  {
    u.id
  }

  /** Appending a post keeps the first post with any id that already had
      one, and makes the new post the first with its id otherwise. */
  lemma {:induction false} FirstPostAfterAppend(ps: seq<Post>, p: Post, id: int)
    ensures FirstWithId(ps + [p], PostId, id)
         == if FirstWithId(ps, PostId, id).Some? then FirstWithId(ps, PostId, id)
            else if p.id == id then Some(|ps|) else None
  {
    var qs := ps + [p];
    assert forall i :: 0 <= i < |ps| ==> qs[i] == ps[i];
    assert qs[|ps|] == p;
  }

  /** The lookup the source's tests make: after `add_post(p)`, looking up
      `p.id` finds a post with that id. */
  lemma FoundAfterAddPost(ps: seq<Post>, p: Post)
    ensures FirstWithId(ps + [p], PostId, p.id).Some?
  {
    FirstPostAfterAppend(ps, p, p.id);
  }

  /** The error the broken lookup raises. */
  datatype RepoError = AttributeError(name: string) | ValueError

  /** A Python list of users that the repository keeps and hands out as
      it is: whoever holds it sees every later append, and an append made
      through it changes what the repository stores. */
  class UserList {
    var items: seq<User>

    constructor()
      ensures items == []
    {
      items := [];
    }

    /** `list.append`. */
    method Append(user: User)
      modifies this
      ensures items == old(items) + [user]
    {
      items := items + [user];
    }
  }

  class MemoryRepository {
    const humanUsers: UserList
    const animalUsers: UserList
    var posts: seq<Post>
    var comments: seq<Comment>

    /** The two user lists are distinct objects. */
    predicate Valid()
    {
      humanUsers != animalUsers
    }

    constructor()
      ensures Valid() && fresh(humanUsers) && fresh(animalUsers)
      ensures humanUsers.items == [] && animalUsers.items == [] && posts == [] && comments == []
    {
      humanUsers := new UserList();
      animalUsers := new UserList();
      posts := [];
      comments := [];
    }

    /** `add_animal_user`: appends to the animal users; the human users are
        untouched. */
    method AddAnimalUser(user: User)
      requires Valid()
      modifies animalUsers
      ensures animalUsers.items == old(animalUsers.items) + [user]
      ensures humanUsers.items == old(humanUsers.items)
    {
      animalUsers.Append(user);
    }

    /** `add_human_user`: appends to the human users; the animal users are
        untouched. */
    method AddHumanUser(user: User)
      requires Valid()
      modifies humanUsers
      ensures humanUsers.items == old(humanUsers.items) + [user]
      ensures animalUsers.items == old(animalUsers.items)
    {
      humanUsers.Append(user);
    }

    /** `get_human_user_by_name`: the first human user with exactly that
        username, or `None`. */
    method GetHumanUserByName(username: string) returns (r: Option<User>)
      ensures r.None? <==> forall i :: 0 <= i < |humanUsers.items| ==> humanUsers.items[i].username != username
      ensures r.Some? ==> exists i :: 0 <= i < |humanUsers.items| && humanUsers.items[i] == r.value
                            && humanUsers.items[i].username == username
                            && forall j :: 0 <= j < i ==> humanUsers.items[j].username != username
    {
      r := FindByName(humanUsers.items, username);
    }

    /** `get_animal_user_by_name`: the same search over the animal users. */
    method GetAnimalUserByName(username: string) returns (r: Option<User>)
      ensures r.None? <==> forall i :: 0 <= i < |animalUsers.items| ==> animalUsers.items[i].username != username
      ensures r.Some? ==> exists i :: 0 <= i < |animalUsers.items| && animalUsers.items[i] == r.value
                            && animalUsers.items[i].username == username
                            && forall j :: 0 <= j < i ==> animalUsers.items[j].username != username
    {
      r := FindByName(animalUsers.items, username);
    }

    /** The loop both name lookups run: the first user of `us` with the
        username, scanning from the front. */
    static method FindByName(us: seq<User>, username: string) returns (r: Option<User>)
      ensures r.None? <==> forall i :: 0 <= i < |us| ==> us[i].username != username
      ensures r.Some? ==> exists i :: 0 <= i < |us| && us[i] == r.value && us[i].username == username
                            && forall j :: 0 <= j < i ==> us[j].username != username
    {
      var i := 0;
      while i < |us|
        invariant 0 <= i <= |us|
        invariant forall j :: 0 <= j < i ==> us[j].username != username
      {
        if us[i].username == username {
          return Some(us[i]);
        }
        i := i + 1;
      }
      return None;
    }

    /** `get_human_user_by_id`: the first human user with that id, or
        `None`. */
    method GetHumanUserById(id: int) returns (r: Option<User>)
      ensures r == if FirstWithId(humanUsers.items, UserId, id).Some?
                   then Some(humanUsers.items[FirstWithId(humanUsers.items, UserId, id).value]) else None
    {
      var i := 0;
      while i < |humanUsers.items|
        invariant 0 <= i <= |humanUsers.items|
        invariant forall j :: 0 <= j < i ==> humanUsers.items[j].id != id
      {
        if humanUsers.items[i].id == id {
          return Some(humanUsers.items[i]);
        }
        i := i + 1;
      }
      return None;
    }

    /** `get_animal_user_by_id` as written: it reads the misspelt attribute
        `__animals_users`, which the class never sets, so every call raises
        `AttributeError`, whatever users are stored. */
    method GetAnimalUserByIdAsWritten(id: int) returns (r: Result<Option<User>, RepoError>)
      ensures r == Err(AttributeError("_MemoryRepository__animals_users"))
    {
      r := Err(AttributeError("_MemoryRepository__animals_users"));
    }

    /** `get_animal_user_by_id` as intended: the first animal user with that
        id, or `None`. */
    method GetAnimalUserById(id: int) returns (r: Option<User>)
      ensures r == if FirstWithId(animalUsers.items, UserId, id).Some?
                   then Some(animalUsers.items[FirstWithId(animalUsers.items, UserId, id).value]) else None
    {
      var i := 0;
      while i < |animalUsers.items|
        invariant 0 <= i <= |animalUsers.items|
        invariant forall j :: 0 <= j < i ==> animalUsers.items[j].id != id
      {
        if animalUsers.items[i].id == id {
          return Some(animalUsers.items[i]);
        }
        i := i + 1;
      }
      return None;
    }

    /** `get_animal_users`: the repository's own list object, not a copy. */
    method GetAnimalUsers() returns (r: UserList)
      ensures r == animalUsers
    {
      r := animalUsers;
    }

    /** `get_human_users`: the repository's own list object, not a copy. */
    method GetHumanUsers() returns (r: UserList)
      ensures r == humanUsers
    {
      r := humanUsers;
    }

    /** `add_post`: appends; the other lists are untouched. */
    method AddPost(post: Post)
      modifies this`posts
      ensures posts == old(posts) + [post]
    {
      posts := posts + [post];
    }

    /** `delete_post`: `list.remove` drops the first occurrence of the post,
        and raises `ValueError`, changing nothing, when it is absent. */
    method DeletePost(post: Post) returns (r: Outcome<RepoError>)
      modifies this`posts
      ensures r.Pass? <==> post in old(posts)
      ensures r.Fail? ==> r.error == ValueError
      ensures posts == Removed(old(posts), post)
    {
      if post in posts {
        posts := Removed(posts, post);
        r := Pass;
      } else {
        r := Fail(ValueError);
      }
    }

    /** `get_post_by_id`: the first post with that id, or `None`. */
    method GetPostById(id: int) returns (r: Option<Post>)
      ensures r == if FirstWithId(posts, PostId, id).Some?
                   then Some(posts[FirstWithId(posts, PostId, id).value]) else None
    {
      var i := 0;
      while i < |posts|
        invariant 0 <= i <= |posts|
        invariant forall j :: 0 <= j < i ==> posts[j].id != id
      {
        if posts[i].id == id {
          return Some(posts[i]);
        }
        i := i + 1;
      }
      return None;
    }
  }

  /** The intended lookup finds every stored animal user by its id. The
      lookup as written raises for any id instead; that half is stated by
      `GetAnimalUserByIdAsWritten`. */
  lemma AnimalLookupDiscrepancy(us: seq<User>, u: User)
    requires u in us
    ensures FirstWithId(us, UserId, u.id).Some?
  {
    var i :| 0 <= i < |us| && us[i] == u;
  }

  /** An append made through the list `get_human_users` returned is an
      append to the repository's human users. */
  method AppendThroughReturnedList(repo: MemoryRepository, user: User)
    requires repo.Valid()
    modifies repo.humanUsers
    ensures repo.humanUsers.items == old(repo.humanUsers.items) + [user]
    ensures repo.animalUsers.items == old(repo.animalUsers.items)
  {
    var listed := repo.GetHumanUsers();
    listed.Append(user);
  }

  /** A list `get_animal_users` returned earlier shows the users added
      after it was returned. */
  method ReturnedListSeesLaterAdds(repo: MemoryRepository, user: User) returns (listed: UserList)
    requires repo.Valid()
    modifies repo.animalUsers
    ensures listed == repo.animalUsers
    ensures listed.items == old(repo.animalUsers.items) + [user]
  {
    listed := repo.GetAnimalUsers();
    repo.AddAnimalUser(user);
  }

  /** Deleting a post just added, when it was not stored before, gives back
      the stored posts. */
  lemma DeleteUndoesAdd(ps: seq<Post>, p: Post)
    requires p !in ps
    ensures p in ps + [p] && Removed(ps + [p], p) == ps
  {
    RemovedFromEnd(ps, p);
  }
}
