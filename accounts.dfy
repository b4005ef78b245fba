/**
 * The user table and the decisions of the `register` and `login` handlers of
 * app.py, as functions of the table. Password hashing is salted, so the hash
 * is an input of registration; the password check is an uninterpreted
 * predicate `checkPassword(hash, password)` supplied by the caller.
 */
module Accounts {
  import opened Wrappers
  import opened RowIds

  /** A row of the user table. Only the hash of the password is stored. */
  datatype User = User(id: nat, username: string, email: string, passwordHash: string)

  /** The three ways a registration ends. */
  datatype RegisterOutcome = Registered | UsernameExists | EmailExists

  function UserIds(users: seq<User>): seq<nat>
  {
    seq(|users|, i requires 0 <= i < |users| => users[i].id)
  }

  /** The table invariant: ids in storage order, usernames and emails unique. */
  predicate ValidUsers(users: seq<User>)
  {
    && StrictlyIncreasing(UserIds(users))
    && (forall i, j :: 0 <= i < j < |users| ==> users[i].username != users[j].username)
    && (forall i, j :: 0 <= i < j < |users| ==> users[i].email != users[j].email)
  }

  predicate UsernameTaken(users: seq<User>, username: string)
  {
    exists i :: 0 <= i < |users| && users[i].username == username
  }

  /** `User.query.filter_by(email=email).first()` finds a row. */
  predicate EmailTaken(users: seq<User>, email: string)
  {
    exists i :: 0 <= i < |users| && users[i].email == email
  }

  /** `User.query.filter_by(username=username).first()`: the first row, in storage order, with that username. */
  function FindUser(users: seq<User>, username: string): (r: Option<nat>)
    ensures r.None? <==> !UsernameTaken(users, username)
    ensures r.Some? ==> r.value < |users| && users[r.value].username == username
    ensures r.Some? ==> forall j :: 0 <= j < r.value ==> users[j].username != username
  {
    if users == [] then None
    else if users[0].username == username then Some(0)
    else
      match FindUser(users[1..], username)
      case None => None
      case Some(k) =>
        assert users[k + 1] == users[1..][k];
        Some(k + 1)
  }

  /** The row `register` inserts. */
  function NewUser(users: seq<User>, username: string, email: string, passwordHash: string): User
  {
    User(NextRowId(UserIds(users)), username, email, passwordHash)
  }

  /**
   * `register`: the username is checked first, then the email; only when
   * both are free is exactly one row appended.
   */
  function Registration(users: seq<User>, username: string, email: string, passwordHash: string)
    : (r: (RegisterOutcome, seq<User>))
    ensures r.0 == UsernameExists <==> UsernameTaken(users, username)
    ensures r.0 == EmailExists <==> !UsernameTaken(users, username) && EmailTaken(users, email)
    ensures r.0 != Registered ==> r.1 == users
    ensures r.0 == Registered ==> r.1 == users + [NewUser(users, username, email, passwordHash)]
  {
    if FindUser(users, username).Some? then (UsernameExists, users)
    else if EmailTaken(users, email) then (EmailExists, users)
    else (Registered, users + [NewUser(users, username, email, passwordHash)])
  }

  /**
   * `login`: the user a session is bound to, if any. The user is looked up
   * by username and accepted only when the password check succeeds;
   * an unknown name and a wrong password give the same answer.
   */
  function Authenticate(users: seq<User>, username: string, password: string,
                        checkPassword: (string, string) -> bool): (r: Option<User>)
    ensures r.Some? ==> r.value in users && r.value.username == username
    ensures r.Some? ==> checkPassword(r.value.passwordHash, password)
    ensures ValidUsers(users) ==>
      (r.Some? <==> exists i :: 0 <= i < |users| && users[i].username == username
                                 && checkPassword(users[i].passwordHash, password))
  {
    match FindUser(users, username)
    case None => None
    case Some(i) =>
      if checkPassword(users[i].passwordHash, password) then Some(users[i]) else None
  }

  /** A registration keeps the table invariant. */
  lemma RegistrationPreservesValid(users: seq<User>, username: string, email: string, passwordHash: string)
    requires ValidUsers(users)
    ensures ValidUsers(Registration(users, username, email, passwordHash).1)
  {
    var r := Registration(users, username, email, passwordHash);
    if r.0 == Registered {
      var u := NewUser(users, username, email, passwordHash);
      assert UserIds(r.1) == UserIds(users) + [NextRowId(UserIds(users))];
      AppendNextRowId(UserIds(users));
    }
  }

  /** Registering a second time with a username already stored is refused. */
  lemma SameUsernameRejected(users: seq<User>, username: string, email: string, passwordHash: string,
                             email2: string, passwordHash2: string)
    requires Registration(users, username, email, passwordHash).0 == Registered
    ensures
      var after := Registration(users, username, email, passwordHash).1;
      Registration(after, username, email2, passwordHash2) == (UsernameExists, after)
  {
    var after := Registration(users, username, email, passwordHash).1;
    assert after[|users|].username == username;
  }

  /** Registering a fresh username with an email already stored is refused. */
  lemma SameEmailRejected(users: seq<User>, username: string, email: string, passwordHash: string,
                          username2: string, passwordHash2: string)
    requires Registration(users, username, email, passwordHash).0 == Registered
    requires username2 != username && !UsernameTaken(users, username2)
    ensures
      var after := Registration(users, username, email, passwordHash).1;
      Registration(after, username2, email, passwordHash2) == (EmailExists, after)
  {
    var after := Registration(users, username, email, passwordHash).1;
    assert after[|users|].email == email;
    assert forall i :: 0 <= i < |users| ==> after[i] == users[i];
  }

  /**
   * A freshly registered user logs in with a password exactly when the
   * password check accepts it against the stored hash.
   */
  lemma RegisteredUserLogsIn(users: seq<User>, username: string, email: string, passwordHash: string,
                             password: string, checkPassword: (string, string) -> bool)
    requires Registration(users, username, email, passwordHash).0 == Registered
    ensures
      var after := Registration(users, username, email, passwordHash).1;
      Authenticate(after, username, password, checkPassword)
        == if checkPassword(passwordHash, password)
           then Some(NewUser(users, username, email, passwordHash))
           else None
  {
    var after := Registration(users, username, email, passwordHash).1;
    assert after[|users|].username == username;
    assert forall i :: 0 <= i < |users| ==> after[i] == users[i];
    assert FindUser(after, username) == Some(|users|);
  }
}
