/** The user stores: registration with a username that is unique ignoring
    case, password validation by hash comparison, and lookups by username
    ignoring case. The password hash is a deterministic function handed to
    each store when it is built. */
module Identity {
  import opened Common
  import opened Sequences
  import opened Tables

  datatype User = User(id: string, username: string, email: string, passwordHash: string,
                       createdAt: Time, isAdmin: bool)

  /** A user's primary key. */
  function UserIdOf(u: User): string {
    u.id
  }

  /** The user's name equals `name` ignoring case. */
  function NamedIgnoringCase(name: string): User -> bool {
    (u: User) => EqualsIgnoreCase(u.username, name)
  }

  /** Users listed newest first (`OrderByDescending(u => u.CreatedAt)`). */
  function UserCreatedKey(u: User): SortKey {
    SortKey(u.createdAt, 0)
  }

  /** Every user. */
  function AnyUser(): User -> bool {
    (u: User) => true
  }

  /** No two users have names equal ignoring case. */
  ghost predicate NamesUnique(users: seq<User>) {
    forall i, j :: 0 <= i < j < |users| ==> !EqualsIgnoreCase(users[i].username, users[j].username)
  }

  /** The first user named `name` ignoring case (`FirstOrDefault`). */
  function FindUser(users: seq<User>, name: string): (r: Option<User>)
    ensures r.Some? ==> r.value in users && EqualsIgnoreCase(r.value.username, name)
    ensures r.None? <==> forall u :: u in users ==> !EqualsIgnoreCase(u.username, name)
  {
    match IndexWhere(users, NamedIgnoringCase(name))
    case None => None
    case Some(i) => Some(users[i])
  }

  /** Some user is named `name` ignoring case (`Any`). */
  predicate AnyNamed(users: seq<User>, name: string) {
    exists i :: 0 <= i < |users| && EqualsIgnoreCase(users[i].username, name)
  }

  /** `UserExistsAsync` and `GetUserByUsernameAsync` agree. */
  lemma AnyNamedIffFound(users: seq<User>, name: string)
    ensures AnyNamed(users, name) <==> FindUser(users, name).Some?
  {
    if AnyNamed(users, name) {
      var i :| 0 <= i < |users| && EqualsIgnoreCase(users[i].username, name);
      assert users[i] in users;
    }
  }

  /** `ValidateUserAsync`: the user named `name`, provided the password's
      hash is the stored one. */
  function ValidateIn(users: seq<User>, hash: string -> string, name: string, password: string)
    : (r: Option<User>)
    ensures r.Some? <==> FindUser(users, name).Some? && FindUser(users, name).value.passwordHash == hash(password)
    ensures r.Some? ==> r == FindUser(users, name)
  {
    var found := FindUser(users, name);
    if found.Some? && hash(password) == found.value.passwordHash then found else None
  }

  /** In a list with unique names, looking up a listed user's name, in any
      casing, finds that user. */
  lemma FindListedUser(users: seq<User>, i: nat, name: string)
    requires NamesUnique(users) && i < |users| && EqualsIgnoreCase(users[i].username, name)
    ensures FindUser(users, name) == Some(users[i])
  {
    var k := IndexWhere(users, NamedIgnoringCase(name));
    assert k.Some?;
  }

  /** A user just registered under a fresh name validates with the password
      registered, and with no password whose hash differs. */
  lemma ValidateAfterRegister(users: seq<User>, hash: string -> string, u: User,
                              password: string, attempt: string)
    requires NamesUnique(users)
    requires forall v :: v in users ==> !EqualsIgnoreCase(v.username, u.username)
    requires u.passwordHash == hash(password)
    ensures ValidateIn(users + [u], hash, u.username, password) == Some(u)
    ensures hash(attempt) != hash(password) ==> ValidateIn(users + [u], hash, u.username, attempt).None?
  {
    var us := users + [u];
    assert NamesUnique(us) by {
      forall i, j | 0 <= i < j < |us|
        ensures !EqualsIgnoreCase(us[i].username, us[j].username)
      {
        if j == |users| {
          assert us[i] in users;
        }
      }
    }
    FindListedUser(us, |users|, u.username);
  }

  class InMemoryUserService {
    const hash: string -> string
    var users: seq<User>

    ghost predicate Valid()
      reads this
    {
      NamesUnique(users)
    }

    constructor (hash: string -> string)
      ensures Valid() && this.hash == hash && users == []
    {
      this.hash := hash;
      users := [];
    }

    /** `GetUserByUsernameAsync`. */
    function GetUserByUsername(name: string): (r: Option<User>)
      reads this
      ensures r.Some? ==> r.value in users && EqualsIgnoreCase(r.value.username, name)
      ensures r.None? <==> forall u :: u in users ==> !EqualsIgnoreCase(u.username, name)
    {
      FindUser(users, name)
    }

    /** `UserExistsAsync`: true exactly when a lookup would find a user. */
    predicate UserExists(name: string)
      reads this
      ensures UserExists(name) <==> GetUserByUsername(name).Some?
    {
      AnyNamedIffFound(users, name);
      AnyNamed(users, name)
    }

    /** `ValidateUserAsync`: the user named `name` if the hash of `password`
        is the stored hash, otherwise nothing. */
    function ValidateUser(name: string, password: string): (r: Option<User>)
      reads this
      ensures r.Some? <==> GetUserByUsername(name).Some? && GetUserByUsername(name).value.passwordHash == hash(password)
      ensures r.Some? ==> r == GetUserByUsername(name)
    {
      ValidateIn(users, hash, name, password)
    }

    /** `GetAllUsersAsync`: every user, newest first. */
    function GetAllUsers(): (r: seq<User>)
      reads this
      ensures multiset(r) == multiset(users)
      ensures Ordered(r, UserCreatedKey)
    {
      SortBy(users, UserCreatedKey)
    }

    /** `RegisterUserAsync`: refuses a name taken ignoring case; otherwise
        appends the user with the password's hash, no id, an empty email for
        a missing one, and `now` as creation time. */
    method RegisterUser(username: string, email: Option<string>, password: string, now: Time)
      returns (ok: bool)
      requires Valid()
      modifies this
      ensures Valid()
      ensures ok <==> !old(UserExists(username))
      ensures ok ==> users == old(users) + [User("", username, email.GetOr(""), hash(password), now, false)]
      ensures !ok ==> users == old(users)
      ensures ok ==> ValidateUser(username, password) == Some(users[|users| - 1])
    {
      AnyNamedIffFound(users, username);
      if AnyNamed(users, username) {
        return false;
      }
      var user := User("", username, email.GetOr(""), hash(password), now, false);
      forall v | v in users ensures !EqualsIgnoreCase(v.username, user.username) {
      }
      ValidateAfterRegister(users, hash, user, password, password);
      users := users + [user];
      ok := true;
    }
  }

  class DbUserService {
    const hash: string -> string
    var users: map<string, User>

    ghost predicate Valid()
      reads this
    {
      Keyed(users, UserIdOf)
      && forall k1, k2 :: k1 in users && k2 in users && k1 != k2 ==>
           !EqualsIgnoreCase(users[k1].username, users[k2].username)
    }

    constructor (hash: string -> string)
      ensures Valid() && this.hash == hash && users == map[]
    {
      this.hash := hash;
      users := map[];
    }

    /** `GetUserByUsernameAsync`: a user whose lower-cased name is the
        lower-cased `name`. */
    method GetUserByUsername(name: string) returns (r: Option<User>)
      ensures r.Some? ==> r.value in users.Values && EqualsIgnoreCase(r.value.username, name)
      ensures r.None? <==> forall k :: k in users ==> !EqualsIgnoreCase(users[k].username, name)
    {
      r := FindWhere(users, NamedIgnoringCase(name));
    }

    /** `UserExistsAsync`: true exactly when a lookup would find a user. */
    method UserExists(name: string) returns (b: bool)
      ensures b <==> exists k :: k in users && EqualsIgnoreCase(users[k].username, name)
    {
      var found := FindWhere(users, NamedIgnoringCase(name));
      b := found.Some?;
    }

    /** `ValidateUserAsync`: the user named `name`, if the hash of `password`
        is the stored hash. */
    method ValidateUser(name: string, password: string) returns (r: Option<User>)
      requires Valid()
      ensures r.Some? ==> r.value in users.Values && EqualsIgnoreCase(r.value.username, name)
                          && r.value.passwordHash == hash(password)
      ensures r.None? <==> forall k :: k in users && EqualsIgnoreCase(users[k].username, name) ==>
                                         users[k].passwordHash != hash(password)
    {
      var found := FindWhere(users, NamedIgnoringCase(name));
      if found.None? || found.value.passwordHash != hash(password) {
        r := None;
        if found.Some? {
          var k1 :| k1 in users && users[k1] == found.value;
          forall k | k in users && EqualsIgnoreCase(users[k].username, name)
            ensures users[k].passwordHash != hash(password)
          {
            assert k == k1;
          }
        }
      } else {
        r := found;
      }
    }

    /** `GetAllUsersAsync`: every user, newest first. */
    method GetAllUsers() returns (r: seq<User>)
      requires Valid()
      ensures Distinct(r)
      ensures forall u :: u in r <==> u in users.Values
      ensures Ordered(r, UserCreatedKey)
    {
      r := ListWhere(users, UserIdOf, AnyUser(), UserCreatedKey);
    }

    /** `RegisterUserAsync`: refuses a name taken ignoring case; otherwise
        stores the user under the fresh id `id` with the password's hash,
        `now` as creation time and no admin rights. */
    method RegisterUser(username: string, email: string, password: string, id: string, now: Time)
      returns (ok: bool)
      requires Valid() && id !in users
      modifies this
      ensures Valid()
      ensures ok <==> forall k :: k in old(users) ==> !EqualsIgnoreCase(old(users)[k].username, username)
      ensures ok ==> users == old(users)[id := User(id, username, email, hash(password), now, false)]
      ensures !ok ==> users == old(users)
    {
      var taken := UserExists(username);
      if taken {
        return false;
      }
      users := users[id := User(id, username, email, hash(password), now, false)];
      ok := true;
    }
  }
}
