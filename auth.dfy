/** The local account form: inputs are trimmed and must both be non-empty;
    logging in needs a stored account with exactly that name and password;
    registering appends a new account unless the name is taken, then returns
    the form to login mode with the password cleared. */
module Auth {
  import opened Types
  import opened Text

  /** A stored account. */
  datatype Credential = Credential(username: string, password: string)

  /** The message the form shows. */
  datatype Notice = NoNotice | MissingFields | WrongCredentials | UsernameTaken

  /** `users.find(u => u.username === name && u.password === pass)`. */
  function FindCredential(users: seq<Credential>, name: string, pass: string): (r: Option<Credential>)
    ensures r.Some? <==> Credential(name, pass) in users
    ensures r.Some? ==> r.value == Credential(name, pass)
  {
    if users == [] then None
    else if users[0].username == name && users[0].password == pass then Some(users[0])
    else
      assert users == [users[0]] + users[1..];
      FindCredential(users[1..], name, pass)
  }

  /** `users.find(u => u.username === name)`. */
  function FindUser(users: seq<Credential>, name: string): (r: Option<Credential>)
    ensures r.Some? <==> exists i :: 0 <= i < |users| && users[i].username == name
    ensures r.Some? ==> r.value in users && r.value.username == name
  {
    if users == [] then None
    else if users[0].username == name then Some(users[0])
    else
      var r := FindUser(users[1..], name);
      assert forall i :: 1 <= i < |users| ==> users[i] == users[1..][i - 1];
      r
  }

  /** No two stored accounts share a name. */
  predicate DistinctUsernames(users: seq<Credential>) {
    forall i, j :: 0 <= i < j < |users| ==> users[i].username != users[j].username
  }

  /** What one submission of the form decides. */
  datatype Outcome =
    | Rejected(notice: Notice)
    | LoggedIn(user: User)
    | Registered(users: seq<Credential>)

  /** The decision `handleAuth` takes on the stored accounts and the form's
      mode and inputs. */
  function Authenticate(users: seq<Credential>, isLogin: bool, username: string, password: string): (r: Outcome)
    ensures r == Rejected(MissingFields) <==> IsBlank(username) || IsBlank(password)
    ensures r.LoggedIn? <==>
      isLogin && !IsBlank(username) && !IsBlank(password) && Credential(Trim(username), Trim(password)) in users
    ensures r.LoggedIn? ==> r.user == User(Trim(username))
    ensures r.Registered? <==>
      !isLogin && !IsBlank(username) && !IsBlank(password)
      && forall i :: 0 <= i < |users| ==> users[i].username != Trim(username)
    ensures r.Registered? ==> r.users == users + [Credential(Trim(username), Trim(password))]
    ensures r.Rejected? && r.notice != MissingFields ==>
      r.notice == (if isLogin then WrongCredentials else UsernameTaken)
  {
    var name := Trim(username);
    var pass := Trim(password);
    if name == [] || pass == [] then Rejected(MissingFields)
    else if isLogin then
      if FindCredential(users, name, pass).Some? then LoggedIn(User(name)) else Rejected(WrongCredentials)
    else if FindUser(users, name).Some? then Rejected(UsernameTaken)
    else Registered(users + [Credential(name, pass)])
  }

  /** Registration keeps account names distinct. */
  lemma RegisterKeepsDistinct(users: seq<Credential>, username: string, password: string)
    requires DistinctUsernames(users)
    ensures var r := Authenticate(users, false, username, password);
      r.Registered? ==> DistinctUsernames(r.users)
  {
  }

  /** Right after registering, logging in with the same inputs succeeds and
      reports the trimmed name. */
  lemma LoginAfterRegister(users: seq<Credential>, username: string, password: string)
    requires Authenticate(users, false, username, password).Registered?
    ensures var users' := Authenticate(users, false, username, password).users;
      Authenticate(users', true, username, password) == LoggedIn(User(Trim(username)))
  {
    var users' := users + [Credential(Trim(username), Trim(password))];
    assert users'[|users|] == Credential(Trim(username), Trim(password));
  }

  /** With distinct names, a name logs in with at most one password. */
  lemma OnePasswordPerName(users: seq<Credential>, name: string, pass: string, pass': string)
    requires DistinctUsernames(users)
    requires Credential(name, pass) in users && Credential(name, pass') in users
    ensures pass == pass'
  {
    var i :| 0 <= i < |users| && users[i] == Credential(name, pass);
    var j :| 0 <= j < |users| && users[j] == Credential(name, pass');
    assert i == j;
  }

  /** The form and the stored account list it reads and extends. */
  class AuthForm {
    var isLogin: bool
    var username: string
    var password: string
    var error: Notice
    var isSubmitting: bool
    var users: seq<Credential>

    ghost predicate Valid()
      reads this
    {
      DistinctUsernames(users)
    }

    constructor(users: seq<Credential>)
      requires DistinctUsernames(users)
      ensures isLogin && username == "" && password == "" && error == NoNotice && !isSubmitting
      ensures this.users == users
      ensures Valid()
    {
      isLogin := true;
      username := "";
      password := "";
      error := NoNotice;
      isSubmitting := false;
      this.users := users;
    }

    /** `handleAuth`, with `finalizeLogin`'s report of the logged-in user as
        the result. */
    method HandleAuth() returns (loggedIn: Option<User>)
      requires Valid()
      modifies this
      ensures Valid()
      ensures username == old(username)
      ensures var r := Authenticate(old(users), old(isLogin), old(username), old(password));
        match r
        case Rejected(notice) =>
          && error == notice && loggedIn == None && users == old(users)
          && isLogin == old(isLogin) && password == old(password)
          && isSubmitting == (old(isSubmitting) && notice == MissingFields)
        case LoggedIn(user) =>
          && error == NoNotice && loggedIn == Some(user) && users == old(users)
          && isLogin == old(isLogin) && password == old(password) && !isSubmitting
        case Registered(users') =>
          && error == NoNotice && loggedIn == None && users == users'
          && isLogin && password == "" && !isSubmitting
    {
      error := NoNotice;
      loggedIn := None;
      var cleanUsername := Trim(username);
      var cleanPassword := Trim(password);
      if cleanUsername == [] || cleanPassword == [] {
        error := MissingFields;
        return;
      }
      isSubmitting := true;
      if isLogin {
        var found := FindCredential(users, cleanUsername, cleanPassword);
        if found.Some? {
          loggedIn := Some(User(cleanUsername));
        } else {
          error := WrongCredentials;
        }
      } else {
        if FindUser(users, cleanUsername).Some? {
          error := UsernameTaken;
        } else {
          RegisterKeepsDistinct(users, username, password);
          users := users + [Credential(cleanUsername, cleanPassword)];
          isLogin := true;
          password := "";
        }
      }
      isSubmitting := false;
    }
  }
}
