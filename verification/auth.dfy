/** The local user registry (services/authService.ts): a map from the
    lower-cased user name to the user id, and a session slot holding the
    logged-in user. Passwords are accepted and ignored. */
module Auth {
  import opened Wrappers
  import opened Types

  /** The decoded user map and the session slot. */
  datatype AuthState = AuthState(users: map<string, string>, session: Option<User>)

  datatype AuthError =
    | UsernameTaken       // register: the lower-cased name is already a key
    | InvalidCredentials  // login: the lower-cased name is not registered

  /** Lower-casing of one character, for ASCII and Latin-1 letters. */
  function LowerChar(c: char): char {
    if 'A' <= c <= 'Z' then (c as int + 32) as char
    else if 'À' <= c <= 'Þ' && c != '×' then (c as int + 32) as char
    else c
  }

  /** `toLowerCase()`, character by character. */
  function Lower(s: string): (r: string)
    ensures |r| == |s|
    ensures forall k :: 0 <= k < |s| ==> r[k] == LowerChar(s[k])
  {
    seq(|s|, k requires 0 <= k < |s| => LowerChar(s[k]))
  }

  /** Lower-casing twice is lower-casing once, so any casing of a name finds
      the same key. */
  lemma LowerIsIdempotent(s: string)
    ensures Lower(Lower(s)) == Lower(s)
  {
  }

  /** `users[key]` is truthy: the key is present with a non-empty id. */
  predicate Registered(users: map<string, string>, key: string) {
    key in users && users[key] != ""
  }

  /** The members every plain object inherits from `Object.prototype` whose
      names have no upper-case letter, so a lower-cased user name can reach
      them. */
  const InheritedKeys: set<string> := {"constructor", "__proto__"}

  /** `users[key]` is truthy in `register`: an own entry with a non-empty id,
      or, without an own entry, an inherited member (a function or object). */
  predicate Taken(users: map<string, string>, key: string) {
    if key in users then users[key] != "" else key in InheritedKeys
  }

  /** `register`: fails when the lower-cased name is taken, otherwise maps it
      to the fresh id and returns the user as typed. The session is not
      touched. */
  function Register(st: AuthState, username: string, password: string, freshId: string)
    : (r: Result<(AuthState, User), AuthError>)
    ensures r.Err? <==> Taken(st.users, Lower(username))
    ensures r.Err? ==> r.error == UsernameTaken
    ensures r.Ok? ==>
      && r.value.1 == User(freshId, username)
      && r.value.0.session == st.session
      && r.value.0.users.Keys == st.users.Keys + {Lower(username)}
      && r.value.0.users[Lower(username)] == freshId
      && forall k :: k in st.users && k != Lower(username) ==> r.value.0.users[k] == st.users[k]
  {
    var key := Lower(username);
    if Taken(st.users, key) then Err(UsernameTaken)
    else
      var user := User(freshId, username);
      Ok((st.(users := st.users[key := user.id]), user))
  }

  /** `login`: with a registered lower-cased name, returns the stored id with
      the name as typed and puts that user in the session; otherwise fails
      and leaves the session alone. */
  function Login(st: AuthState, username: string, password: string)
    : (r: Result<(AuthState, User), AuthError>)
    ensures r.Ok? <==> Registered(st.users, Lower(username))
    ensures r.Err? ==> r.error == InvalidCredentials
    ensures r.Ok? ==>
      && r.value.1 == User(st.users[Lower(username)], username)
      && r.value.0 == st.(session := Some(r.value.1))
  {
    var key := Lower(username);
    if Registered(st.users, key) then
      var user := User(st.users[key], username);
      Ok((st.(session := Some(user)), user))
    else Err(InvalidCredentials)
  }

  /** `logout`: empties the session slot. */
  function Logout(st: AuthState): (r: AuthState)
    ensures r.users == st.users
    ensures CurrentUser(r) == None
  {
    st.(session := None)
  }

  /** `getCurrentUser`: whoever the session slot holds. */
  function CurrentUser(st: AuthState): Option<User> {
    st.session
  }

  /** After registering, logging in with any casing of the name yields the
      new id with the name as typed at login. */
  lemma {:induction false} RegisterThenLogin(st: AuthState, username: string, typed: string,
                                             p1: string, p2: string, freshId: string)
    requires freshId != ""
    requires Register(st, username, p1, freshId).Ok?
    requires Lower(typed) == Lower(username)
    ensures var st' := Register(st, username, p1, freshId).value.0;
      Login(st', typed, p2) == Ok((st'.(session := Some(User(freshId, typed))), User(freshId, typed)))
  {
  }

  /** Two casings of the same name log in as the same id. */
  lemma LoginIgnoresCase(st: AuthState, a: string, b: string, pa: string, pb: string)
    requires Lower(a) == Lower(b)
    ensures Login(st, a, pa).Ok? == Login(st, b, pb).Ok?
    ensures Login(st, a, pa).Ok? ==> Login(st, a, pa).value.1.id == Login(st, b, pb).value.1.id
  {
  }

  /** Logging out keeps the registry, so the same name logs in again as the
      same user. */
  lemma LogoutThenLogin(st: AuthState, username: string, p1: string, p2: string)
    requires Login(st, username, p1).Ok?
    ensures var out := Logout(Login(st, username, p1).value.0);
      && CurrentUser(out).None?
      && Login(out, username, p2).Ok?
      && Login(out, username, p2).value.1 == Login(st, username, p1).value.1
  {
  }

  /** "Constructor" or "__PROTO__", in any casing, can never be registered on
      a registry without such an own entry: the lookup finds the inherited
      member. */
  lemma InheritedNamesAreTaken(st: AuthState, username: string, password: string, freshId: string)
    requires Lower(username) in InheritedKeys && Lower(username) !in st.users
    ensures Register(st, username, password, freshId) == Err(UsernameTaken)
  {
  }

  /** The password plays no part in either operation. */
  lemma PasswordIsIgnored(st: AuthState, username: string, p1: string, p2: string, freshId: string)
    ensures Register(st, username, p1, freshId) == Register(st, username, p2, freshId)
    ensures Login(st, username, p1) == Login(st, username, p2)
  {
  }
}
