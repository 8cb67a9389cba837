/** The credential store (`users.json`): records of username, password
    hash and role; the seeded admin account; `login_user`, `add_user` and the
    sign-up form's checks. The hash function (SHA-256 in the program) is a
    parameter: nothing here depends on how it is computed. */
module Credentials {
  import opened Options

  datatype Role = Admin | Student

  /** One record of the store; `password` holds the hash, never the password. */
  datatype User = User(username: string, password: string, role: Role)

  predicate HasUser(users: seq<User>, name: string)
  {
    exists i :: 0 <= i < |users| && users[i].username == name
  }

  /** No two records share a username. */
  predicate UniqueNames(users: seq<User>)
  {
    forall i, j :: 0 <= i < j < |users| ==> users[i].username != users[j].username
  }

  /** `df[df['Username'] == name].iloc[0]`: the first record with that
      username, if any. */
  function Lookup(users: seq<User>, name: string): (r: Option<User>)
    ensures r.None? <==> !HasUser(users, name)
    ensures r.Some? ==> exists i :: 0 <= i < |users| && users[i] == r.value && r.value.username == name &&
                                    forall j :: 0 <= j < i ==> users[j].username != name
  {
    if users == [] then None
    else if users[0].username == name then Some(users[0])
    else
      assert forall i :: 1 <= i < |users| ==> users[i] == users[1..][i - 1];
      Lookup(users[1..], name)
  }

  /** `login_user`: the role of the first record with the username, when
      its stored hash is the hash of the password; None otherwise. */
  function Login(users: seq<User>, hash: string -> string, name: string, password: string): (r: Option<Role>)
    ensures r.Some? ==> exists i :: 0 <= i < |users| && users[i].username == name &&
                                    users[i].password == hash(password) && users[i].role == r.value
    ensures !HasUser(users, name) ==> r.None?
    ensures Lookup(users, name).Some? ==> (r.Some? <==> Lookup(users, name).value.password == hash(password))
    ensures r.Some? ==> r.value == Lookup(users, name).value.role
  {
    match Lookup(users, name)
    case None => None
    case Some(u) => if u.password == hash(password) then Some(u.role) else None
  }

  /** Appending a record changes a lookup only for a name that had no
      record before. */
  lemma {:induction false} LookupAppend(users: seq<User>, u: User, name: string)
    ensures Lookup(users + [u], name) ==
      if HasUser(users, name) then Lookup(users, name)
      else if u.username == name then Some(u) else None
  {
    if users != [] {
      assert (users + [u])[0] == users[0];
      assert (users + [u])[1..] == users[1..] + [u];
      if users[0].username != name {
        LookupAppend(users[1..], u, name);
        assert HasUser(users, name) <==> HasUser(users[1..], name) by {
          if HasUser(users, name) {
            var i :| 0 <= i < |users| && users[i].username == name;
            assert users[1..][i - 1] == users[i];
          }
          if HasUser(users[1..], name) {
            var i :| 0 <= i < |users[1..]| && users[1..][i].username == name;
            assert users[i + 1] == users[1..][i];
          }
        }
      }
    } else {
      assert users + [u] == [u];
    }
  }

  /** After a successful `add_user`, logging in with the same password
      gives the role that was stored. */
  lemma LoginAfterAdd(users: seq<User>, hash: string -> string, name: string, password: string, role: Role)
    requires !HasUser(users, name)
    ensures Login(users + [User(name, hash(password), role)], hash, name, password) == Some(role)
  {
    LookupAppend(users, User(name, hash(password), role), name);
  }

  /** After a successful `add_user`, a password with a different hash does
      not log in. */
  lemma WrongPasswordFails(users: seq<User>, hash: string -> string, name: string, password: string,
                           other: string, role: Role)
    requires !HasUser(users, name) && hash(other) != hash(password)
    ensures Login(users + [User(name, hash(password), role)], hash, name, other).None?
  {
  }

  /** Adding a record leaves every other username's login as it was. */
  lemma AddKeepsOtherLogins(users: seq<User>, hash: string -> string, u: User, name: string, password: string)
    requires name != u.username
    ensures Login(users + [u], hash, name, password) == Login(users, hash, name, password)
  {
    LookupAppend(users, u, name);
  }

  /** The demo password of the seeded admin account. */
  const SeedPassword := "admin123"

  /** The store `create_user_db` writes when there is none: one Admin. */
  function SeedUsers(hash: string -> string): (users: seq<User>)
    ensures UniqueNames(users)
    ensures Login(users, hash, "admin", SeedPassword) == Some(Admin)
  {
    [User("admin", hash(SeedPassword), Admin)]
  }

  /** The store after `create_user_db`: the file as it was, or the seed. */
  function Seeded(file: Option<seq<User>>, hash: string -> string): seq<User>
  {
    if file.None? then SeedUsers(hash) else file.value
  }

  /** The shared secret that makes a sign-up an Admin account. */
  const AdminSecret := "1234"

  /** What the sign-up form decides before touching the store. */
  datatype Gate = MissingFields | InvalidAdminKey | Register(role: Role)

  /** The sign-up form's checks: both fields are required, and asking for
      an Admin account needs the secret; only then is a role chosen, and
      it is Admin exactly when Admin was asked for with the right secret. */
  function SignUpGate(newUser: string, newPass: string, adminMode: bool, adminKey: string): (g: Gate)
    ensures g == MissingFields <==> newUser == "" || newPass == ""
    ensures g == InvalidAdminKey <==> newUser != "" && newPass != "" && adminMode && adminKey != AdminSecret
    ensures g == Register(Admin) <==> newUser != "" && newPass != "" && adminMode && adminKey == AdminSecret
    ensures g == Register(Student) <==> newUser != "" && newPass != "" && !adminMode
  {
    if newUser != "" && newPass != "" then
      if adminMode then
        if adminKey == AdminSecret then Register(Admin) else InvalidAdminKey
      else Register(Student)
    else MissingFields
  }

  /** The outcome the sign-up form reports. */
  datatype SignUpResult = FillAllFields | BadAdminKey | UsernameTaken | Created(role: Role)

  /** The credential store file together with the hash function. */
  class UserStore {
    /** `make_hashes`. */
    const hash: string -> string
    /** The contents of the store file; None while it does not exist. */
    var file: Option<seq<User>>

    constructor (hash: string -> string, file: Option<seq<User>>)
      ensures this.hash == hash && this.file == file
    {
      this.hash := hash;
      this.file := file;
    }

    /** `create_user_db`: write the seed when there is no store. */
    method CreateUserDb()
      modifies this
      ensures file == Some(Seeded(old(file), hash))
    {
      if file.None? {
        file := Some(SeedUsers(hash));
      }
    }

    /** `login_user`: seed the store if needed, then check the password. */
    method LoginUser(username: string, password: string) returns (role: Option<Role>)
      modifies this
      ensures file == Some(Seeded(old(file), hash))
      ensures role == Login(file.value, hash, username, password)
    {
      CreateUserDb();
      role := Login(file.value, hash, username, password);
    }

    /** `add_user`: seed the store if needed; refuse a username that has a
        record, otherwise append one record. A new account can log in with
        its password at once, and usernames stay unique. */
    method AddUser(username: string, password: string, role: Role) returns (ok: bool)
      modifies this
      ensures var before := Seeded(old(file), hash);
        ok == !HasUser(before, username) &&
        file == Some(if ok then before + [User(username, hash(password), role)] else before)
      ensures ok ==> Login(file.value, hash, username, password) == Some(role)
      ensures UniqueNames(Seeded(old(file), hash)) ==> UniqueNames(file.value)
    {
      CreateUserDb();
      var users := file.value;
      if HasUser(users, username) {
        ok := false;
      } else {
        LoginAfterAdd(users, hash, username, password, role);
        file := Some(users + [User(username, hash(password), role)]);
        ok := true;
      }
    }

    /** The sign-up form: the store is only touched when the gate lets the
        request through, and the account is created unless the username is
        taken. */
    method SignUp(newUser: string, newPass: string, adminMode: bool, adminKey: string)
      returns (r: SignUpResult)
      modifies this
      ensures var g := SignUpGate(newUser, newPass, adminMode, adminKey);
        (g == MissingFields ==> r == FillAllFields && file == old(file)) &&
        (g == InvalidAdminKey ==> r == BadAdminKey && file == old(file)) &&
        (g.Register? ==>
          var before := Seeded(old(file), hash);
          (r.Created? || r == UsernameTaken) &&
          (r == UsernameTaken <==> HasUser(before, newUser)) &&
          (r.Created? ==> r.role == g.role && file == Some(before + [User(newUser, hash(newPass), g.role)])) &&
          (r == UsernameTaken ==> file == Some(before)))
      ensures r == Created(Admin) ==> adminKey == AdminSecret
    {
      var g := SignUpGate(newUser, newPass, adminMode, adminKey);
      match g
      case MissingFields => r := FillAllFields;
      case InvalidAdminKey => r := BadAdminKey;
      case Register(role) =>
        var ok := AddUser(newUser, newPass, role);
        r := if ok then Created(role) else UsernameTaken;
    }
  }
}
