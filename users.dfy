/**
 * The user table: registration after schema validation (POST /users) and
 * the login lookup (POST /auth).
 */
module Users {
  import opened Wrappers

  datatype User = User(email: string, nickname: string, password: string)

  /** The outcome of a registration: 201, or one of the two 400 answers. */
  datatype Registration = Created | PasswordMismatch | AlreadyExists

  /** The users sharing the email or the nickname (app.js:47-49), in store order. */
  function Conflicts(users: seq<User>, email: string, nickname: string): (r: seq<User>)
    ensures |r| <= |users|
    ensures forall x :: x in r <==> x in users && (x.email == email || x.nickname == nickname)
  {
    if users == [] then []
    else
      assert users == [users[0]] + users[1..];
      var x := users[0];
      (if x.email == email || x.nickname == nickname then [x] else []) + Conflicts(users[1..], email, nickname)
  }

  /**
   * The decision a registration takes: the password check comes first, then
   * the lookup for a user with the same email or the same nickname.
   */
  function Admission(users: seq<User>, nickname: string, email: string, password: string,
                     confirmPassword: string): (r: Registration)
    ensures r == PasswordMismatch <==> password != confirmPassword
    ensures r == AlreadyExists <==> password == confirmPassword
                                     && exists x :: x in users && (x.email == email || x.nickname == nickname)
    ensures r == Created <==> password == confirmPassword
                               && forall x :: x in users ==> x.email != email && x.nickname != nickname
  {
    var existing := Conflicts(users, email, nickname);
    if password != confirmPassword then PasswordMismatch
    else if |existing| > 0 then
      assert existing[0] in existing;
      AlreadyExists
    else Created
  }

  /** The credential lookup (app.js:80-87): the first user with that email and that password. */
  function Login(users: seq<User>, email: string, password: string): (r: Option<User>)
    ensures r.Some? ==> r.value in users && r.value.email == email && r.value.password == password
    ensures r.None? <==> forall x :: x in users ==> x.email != email || x.password != password
  {
    if users == [] then None
    else if users[0].email == email && users[0].password == password then Some(users[0])
    else
      assert users == [users[0]] + users[1..];
      Login(users[1..], email, password)
  }

  /** No two users share an email, and no two share a nickname. */
  ghost predicate DistinctAccounts(users: seq<User>)
  {
    forall i, j :: 0 <= i < j < |users| ==> users[i].email != users[j].email && users[i].nickname != users[j].nickname
  }

  /** An admitted user keeps the accounts distinct. */
  lemma AdmissionKeepsDistinct(users: seq<User>, nickname: string, email: string, password: string)
    requires DistinctAccounts(users)
    requires Admission(users, nickname, email, password, password) == Created
    ensures DistinctAccounts(users + [User(email, nickname, password)])
  {
    var r := users + [User(email, nickname, password)];
    forall i, j | 0 <= i < j < |r| ensures r[i].email != r[j].email && r[i].nickname != r[j].nickname {
      assert r[i] == users[i] && users[i] in users;
      if j < |users| { assert r[j] == users[j]; }
    }
  }

  /** With distinct emails, login with a stored user's credentials finds that user. */
  lemma {:induction false} LoginFindsStored(users: seq<User>, x: User)
    requires DistinctAccounts(users)
    requires x in users
    ensures Login(users, x.email, x.password) == Some(x)
  {
    if users[0] != x {
      assert users[0].email != x.email by {
        var k :| 0 <= k < |users| && users[k] == x;
      }
      assert x in users[1..];
      assert DistinctAccounts(users[1..]) by {
        forall i, j | 0 <= i < j < |users[1..]|
          ensures users[1..][i].email != users[1..][j].email && users[1..][i].nickname != users[1..][j].nickname
        {
          assert users[1..][i] == users[i + 1] && users[1..][j] == users[j + 1];
        }
      }
      LoginFindsStored(users[1..], x);
    }
  }

  /** After a successful registration the new user can log in. */
  lemma RegisterThenLogin(users: seq<User>, nickname: string, email: string, password: string)
    requires DistinctAccounts(users)
    requires Admission(users, nickname, email, password, password) == Created
    ensures Login(users + [User(email, nickname, password)], email, password) == Some(User(email, nickname, password))
  {
    AdmissionKeepsDistinct(users, nickname, email, password);
    LoginFindsStored(users + [User(email, nickname, password)], User(email, nickname, password));
  }

  /** Registering the same email or nickname again is refused. */
  lemma ReRegisterRefused(users: seq<User>, nickname: string, email: string, password: string,
                          nickname2: string, email2: string, password2: string)
    requires email2 == email || nickname2 == nickname
    ensures Admission(users + [User(email, nickname, password)], nickname2, email2, password2, password2) == AlreadyExists
  {
    var r := users + [User(email, nickname, password)];
    assert r[|users|] in r;
  }

  /** The user collection. */
  class UserStore {
    var users: seq<User>

    ghost predicate Valid()
      reads this
    {
      DistinctAccounts(users)
    }

    constructor ()
      ensures Valid() && users == []
    {
      users := [];
    }

    /** POST /users after validation: refuse, or insert exactly one user. */
    method Register(nickname: string, email: string, password: string, confirmPassword: string)
      returns (r: Registration)
      requires Valid()
      modifies this
      ensures Valid()
      ensures r == Admission(old(users), nickname, email, password, confirmPassword)
      ensures users == if r == Created then old(users) + [User(email, nickname, password)] else old(users)
    {
      if password != confirmPassword {
        return PasswordMismatch;
      }
      var existUsers := Conflicts(users, email, nickname);
      if |existUsers| > 0 {
        return AlreadyExists;
      }
      AdmissionKeepsDistinct(users, nickname, email, password);
      users := users + [User(email, nickname, password)];
      r := Created;
    }
  }
}
