/** The login flag and its persisted session keys. Browser local storage is
    a map from string keys to string values. */
module Auth {

  type Storage = map<string, string>

  const TokenKey := "token"
  const UserIdKey := "userId"
  const UserNameKey := "username"

  /** The keys `logout` removes. */
  const SessionKeys: set<string> := {TokenKey, UserNameKey, UserIdKey}

  datatype AuthState = AuthState(isLoggedIn: bool, storage: Storage)

  /** `useState(!!localStorage.getItem('token'))`: logged in exactly when a
      token is stored and is not the empty string. */
  function Init(storage: Storage): (r: AuthState)
    ensures r.storage == storage
    ensures r.isLoggedIn <==> TokenKey in storage && |storage[TokenKey]| > 0
  {
    AuthState(TokenKey in storage && storage[TokenKey] != "", storage)
  }

  /** `login(token, userId)`. */
  function Login(s: AuthState, token: string, userId: string): (r: AuthState)
    ensures r.isLoggedIn
    ensures TokenKey in r.storage && r.storage[TokenKey] == token
    ensures UserIdKey in r.storage && r.storage[UserIdKey] == userId
    ensures r.storage.Keys == s.storage.Keys + {TokenKey, UserIdKey}
    ensures forall k :: k in s.storage && k != TokenKey && k != UserIdKey ==> r.storage[k] == s.storage[k]
  {
    AuthState(true, s.storage[TokenKey := token][UserIdKey := userId])
  }

  /** `logout()`: removes the token, user name and user id. */
  function Logout(s: AuthState): (r: AuthState)
    ensures !r.isLoggedIn
    ensures TokenKey !in r.storage && UserIdKey !in r.storage && UserNameKey !in r.storage
    ensures r.storage.Keys == s.storage.Keys - SessionKeys
    ensures forall k :: k in r.storage ==> r.storage[k] == s.storage[k]
  {
    AuthState(false, s.storage - SessionKeys)
  }

  /** Logging in and then out leaves no session behind, and every other
      stored key exactly as it was before the login. */
  lemma LoginThenLogout(s: AuthState, token: string, userId: string)
    ensures var r := Logout(Login(s, token, userId));
      && !r.isLoggedIn
      && TokenKey !in r.storage && UserIdKey !in r.storage
      && r.storage == s.storage - SessionKeys
  {
  }

  /** The flag agrees with what a page reload would compute from storage:
      after logout always, after login exactly when the token is non-empty. */
  lemma FlagMatchesReload(s: AuthState, token: string, userId: string)
    ensures Init(Logout(s).storage).isLoggedIn == Logout(s).isLoggedIn
    ensures Init(Login(s, token, userId).storage).isLoggedIn
         == (Login(s, token, userId).isLoggedIn && token != "")
  {
  }

  /** Logging out twice is logging out once. */
  lemma LogoutIdempotent(s: AuthState)
    ensures Logout(Logout(s)) == Logout(s)
  {
  }
}
