/** The authentication services: registering a pet user, looking one up
    by name or by id, and checking a password. The store they work on is
    reduced to what they read: the pet users' accounts and the number of
    human users. Password hashing and checking are parameters, since the
    salt is random and the hash scheme is a library's. */
module AuthServices {
  import opened Common
  import opened Text

  /** The part of a pet user the services read and write. */
  datatype Account = Account(id: int, username: string, email: string, passwordHash: string)

  /** `NameNotUniqueException`, `UnknownUserException`,
      `AuthenticationException`, the `TypeError` of a constructor call that
      leaves out required arguments, and the `AttributeError` of reading an
      attribute an object does not have. */
  datatype AuthError = NameNotUnique | UnknownUser | AuthenticationFailed | MissingArguments
                     | AttributeMissing(name: string)

  /** The first account with this name, as a lookup by name returns it. */
  function FindByName(us: seq<Account>, name: string): (r: Option<Account>)
    ensures r.None? <==> forall k :: 0 <= k < |us| ==> us[k].username != name
    ensures r.Some? ==> r.value in us && r.value.username == name
  {
    if us == [] then None
    else if us[0].username == name then Some(us[0])
    else FindByName(us[1..], name)
  }

  /** The first account with this id. */
  function FindById(us: seq<Account>, id: int): (r: Option<Account>)
    ensures r.None? <==> forall k :: 0 <= k < |us| ==> us[k].id != id
    ensures r.Some? ==> r.value in us && r.value.id == id
  {
    if us == [] then None
    else if us[0].id == id then Some(us[0])
    else FindById(us[1..], id)
  }

  /** The keys of the dictionary `user_to_dict` builds. */
  datatype UserKey = UserIdKey | EmailKey | UserNameKey | PasswordKey

  /** The text of each key. */
  function KeyText(k: UserKey): string
  {
    match k
    case UserIdKey => "user_id"
    case EmailKey => "email"
    case UserNameKey => "user_name"
    case PasswordKey => "password"
  }

  /** `user_to_dict`: the four entries a session and a template read. */
  function UserToDict(a: Account): (d: map<UserKey, string>)
    ensures d.Keys == {UserIdKey, EmailKey, UserNameKey, PasswordKey}
    ensures d[EmailKey] == a.email && d[UserNameKey] == a.username && d[PasswordKey] == a.passwordHash
  {
    map[UserIdKey := IntToString(a.id), EmailKey := a.email,
        UserNameKey := a.username, PasswordKey := a.passwordHash]
  }

  /** The id stored under `user_id` reads back, through `int()`, as the
      account's id. */
  lemma UserIdReadsBack(a: Account)
    ensures ParseInt(UserToDict(a)[UserIdKey]) == Some(a.id)
  {
    ParseIntOfString(a.id);
  }

  /** What a password check decides: a user with this name exists and the
      stored hash accepts the password. */
  predicate Authenticates(us: seq<Account>, name: string, password: string,
                          check: (string, string) -> bool)
  {
    FindByName(us, name).Some? && check(FindByName(us, name).value.passwordHash, password)
  }

  /** `add_user` as written. For a taken name it first prints the user it
      found, and `PetUser.__str__` reads `self.user_id`, an attribute no
      user has, so `AttributeError` is raised where `NameNotUniqueException`
      was meant. For a free name the `User` constructor is called with four
      of its six required arguments and raises. No call registers anyone. */
  function AddUserAsWritten(us: seq<Account>, name: string): (r: Outcome<AuthError>)
    ensures r.Fail?
    ensures r.error == AttributeMissing("user_id") <==> exists k :: 0 <= k < |us| && us[k].username == name
    ensures r.error != AttributeMissing("user_id") ==> r.error == MissingArguments
  {
    if FindByName(us, name).Some? then Fail(AttributeMissing("user_id")) else Fail(MissingArguments)
  }

  /** A fresh name on an empty store: the written registration fails for
      the missing arguments. The intended registration, which succeeds, is
      stated by `AddUser`'s ensures. */
  lemma AddUserAsWrittenRejectsFreshName()
    ensures AddUserAsWritten([], "rex") == Fail(MissingArguments)
  {
  }

  /** A taken name: the written registration raises `AttributeError` from
      its print. The intended `NameNotUniqueException` is stated by
      `AddUser`'s ensures. */
  lemma AddUserAsWrittenTakenName(a: Account)
    ensures AddUserAsWritten([a], a.username) == Fail(AttributeMissing("user_id"))
  {
  }

  /** The repository the services are handed: the pet users, and the number
      of rows of the `users` table. A pet user is stored as a `users` row
      joined to a `pet_users` row, so every pet user is also a `users` row. */
  class UserStore {
    var petUsers: seq<Account>
    var userRows: nat

    /** Every pet user has its row in `users`. */
    predicate Valid()
      reads this
    {
      |petUsers| <= userRows
    }

    constructor()
      ensures Valid()
      ensures petUsers == [] && userRows == 0
    {
      petUsers := [];
      userRows := 0;
    }

    /** `get_total_user_size`: the count of pet users plus the count of all
        `users` rows, in which the pet users appear again. */
    function TotalUserSize(): (n: nat)
      reads this
      ensures n >= |petUsers|
      ensures Valid() ==> n >= 2 * |petUsers|
    {
      |petUsers| + userRows
    }
  }

  /** `add_user`, with the `PetUser` built from the arguments it is meant to
      have: a taken name is refused and nothing is stored; otherwise the new
      account gets the user total as its id and the hash of the password,
      and is stored as a pet user and a `users` row, so the total grows by
      two. */
  method AddUser(repo: UserStore, name: string, email: string, password: string,
                 salt: string, hash: (string, string) -> string)
    returns (r: Outcome<AuthError>)
    modifies repo`petUsers, repo`userRows
    ensures FindByName(old(repo.petUsers), name).Some? ==>
              r == Fail(NameNotUnique) && repo.petUsers == old(repo.petUsers)
              && repo.userRows == old(repo.userRows)
    ensures FindByName(old(repo.petUsers), name).None? ==>
              r == Pass &&
              repo.petUsers == old(repo.petUsers)
                               + [Account(old(repo.TotalUserSize()), name, email, hash(password, salt))] &&
              repo.userRows == old(repo.userRows) + 1
    ensures r.Pass? ==> repo.TotalUserSize() == old(repo.TotalUserSize()) + 2
    ensures old(repo.Valid()) ==> repo.Valid()
  {
    var existing := FindByName(repo.petUsers, name);
    var id := repo.TotalUserSize();
    if existing.Some? {
      return Fail(NameNotUnique);
    }
    repo.petUsers := repo.petUsers + [Account(id, name, email, hash(password, salt))];
    repo.userRows := repo.userRows + 1;
    return Pass;
  }

  /** Two registrations on an empty store: the first user gets id 0 and the
      second id 2, since the first is counted both as a pet user and as a
      `users` row. */
  method RegisterTwo(repo: UserStore, first: string, second: string, email: string,
                     password: string, salt: string, hash: (string, string) -> string)
    requires repo.petUsers == [] && repo.userRows == 0
    requires first != second
    modifies repo`petUsers, repo`userRows
    ensures repo.petUsers == [Account(0, first, email, hash(password, salt)),
                              Account(2, second, email, hash(password, salt))]
    ensures repo.TotalUserSize() == 4
  {
    var r1 := AddUser(repo, first, email, password, salt, hash);
    var r2 := AddUser(repo, second, email, password, salt, hash);
  }

  /** `get_user`: the user's entries, or `UnknownUser` when no user has the
      name. */
  method GetUser(name: string, repo: UserStore) returns (r: Result<map<UserKey, string>, AuthError>)
    ensures r.Err? <==> forall k :: 0 <= k < |repo.petUsers| ==> repo.petUsers[k].username != name
    ensures r.Err? ==> r.error == UnknownUser
    ensures r.Ok? ==> UserNameKey in r.value && r.value[UserNameKey] == name
    ensures r.Ok? ==> r.value == UserToDict(FindByName(repo.petUsers, name).value)
  {
    var user := FindByName(repo.petUsers, name);
    if user.None? {
      return Err(UnknownUser);
    }
    return Ok(UserToDict(user.value));
  }

  /** `authenticate_user`: passes exactly when the user exists and the
      stored hash accepts the password. */
  method AuthenticateUser(name: string, password: string, repo: UserStore,
                          check: (string, string) -> bool)
    returns (r: Outcome<AuthError>)
    ensures r.Pass? <==> Authenticates(repo.petUsers, name, password, check)
    ensures r.Fail? ==> r.error == AuthenticationFailed
  {
    var authenticated := false;
    var user := FindByName(repo.petUsers, name);
    if user.Some? {
      authenticated := check(user.value.passwordHash, password);
    }
    if !authenticated {
      return Fail(AuthenticationFailed);
    }
    return Pass;
  }

  /** `get_user_by_id`: the entries of the user with this id, or
      `UnknownUser`. */
  method GetUserById(id: int, repo: UserStore) returns (r: Result<map<UserKey, string>, AuthError>)
    ensures r.Err? <==> forall k :: 0 <= k < |repo.petUsers| ==> repo.petUsers[k].id != id
    ensures r.Err? ==> r.error == UnknownUser
    ensures r.Ok? ==> UserIdKey in r.value && ParseInt(r.value[UserIdKey]) == Some(id)
    ensures r.Ok? ==> r.value == UserToDict(FindById(repo.petUsers, id).value)
  {
    var user := FindById(repo.petUsers, id);
    if user.None? {
      return Err(UnknownUser);
    }
    UserIdReadsBack(user.value);
    return Ok(UserToDict(user.value));
  }

  /** Appending an account leaves every earlier lookup by name as it was,
      and finds the new account under its name when the name was free. */
  lemma {:induction false} FindAfterAppend(us: seq<Account>, a: Account, name: string)
    ensures FindByName(us, name).Some? ==> FindByName(us + [a], name) == FindByName(us, name)
    ensures FindByName(us, name).None? && name == a.username ==> FindByName(us + [a], name) == Some(a)
    ensures FindByName(us, name).None? && name != a.username ==> FindByName(us + [a], name).None?
  {
    if us != [] {
      assert (us + [a])[0] == us[0];
      assert (us + [a])[1..] == us[1..] + [a];
      FindAfterAppend(us[1..], a, name);
    }
  }

  /** After a registration with a free name, the new user can log in with
      that password (given that a hash accepts the password it was made
      from), registering the same name again is refused, and a user that
      existed before looks the same. */
  lemma RegisterThenAuthenticate(us: seq<Account>, id: int, name: string, email: string,
                                 password: string, salt: string,
                                 hash: (string, string) -> string,
                                 check: (string, string) -> bool, other: string)
    requires FindByName(us, name).None?
    requires check(hash(password, salt), password)
    ensures Authenticates(us + [Account(id, name, email, hash(password, salt))], name, password, check)
    ensures FindByName(us + [Account(id, name, email, hash(password, salt))], name).Some?
    ensures FindByName(us, other).Some? ==>
              FindByName(us + [Account(id, name, email, hash(password, salt))], other) == FindByName(us, other)
  {
    var a := Account(id, name, email, hash(password, salt));
    FindAfterAppend(us, a, name);
    FindAfterAppend(us, a, other);
  }
}
