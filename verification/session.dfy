/** The browser session: the key/value store that holds the token and the
    signed-in user, the predicates read from it, logging out, and the headers
    every API request carries. */
module Session {
  import opened Wrappers

  /** The browser's key/value storage. */
  type Store = map<string, string>

  /** HTTP headers as a name/value map (names compared exactly, as object keys are). */
  type Headers = map<string, string>

  /** The part of the stored user record the pages consult. */
  datatype User = User(role: string)

  /** Decoding the stored user record; `None` stands for a record that
      decodes to `null`. */
  type Decoder = string -> Option<User>

  const TokenKey: string := "token"
  const UserKey: string := "user"

  /** `getToken`: the stored token, if any. */
  function GetToken(store: Store): (r: Option<string>)
    ensures r.Some? <==> TokenKey in store
    ensures r.Some? ==> r.value == store[TokenKey]
  {
    if TokenKey in store then Some(store[TokenKey]) else None
  }

  /** `getUser`: an absent or empty record reads as no user, anything else is decoded. */
  function GetUser(store: Store, decode: Decoder): (r: Option<User>)
    ensures (UserKey !in store || store[UserKey] == "") ==> r.None?
    ensures UserKey in store && store[UserKey] != "" ==> r == decode(store[UserKey])
  {
    if UserKey in store && store[UserKey] != "" then decode(store[UserKey]) else None
  }

  /** `isLoggedIn`: `!!getToken()`. */
  predicate IsLoggedIn(store: Store) {
    match GetToken(store)
    case None => false
    case Some(t) => t != ""
  }

  /** `isAdmin`: a user is stored and its role is `admin`. */
  predicate IsAdmin(store: Store, decode: Decoder) {
    match GetUser(store, decode)
    case None => false
    case Some(u) => u.role == "admin"
  }

  /** The store is logged in exactly when it holds a non-empty token. */
  lemma LoggedInIffToken(store: Store)
    ensures IsLoggedIn(store) <==> (TokenKey in store && store[TokenKey] != "")
  {
  }

  /** Admin exactly when a non-empty user record decodes to a user with role `admin`. */
  lemma AdminIffStoredAdmin(store: Store, decode: Decoder)
    ensures IsAdmin(store, decode) <==>
            (UserKey in store && store[UserKey] != "" && decode(store[UserKey]).Some?
             && decode(store[UserKey]).value.role == "admin")
  {
  }

  /** `logout`: drop the token and the user record and go to the landing page. */
  function Logout(store: Store): (r: (Store, string))
    ensures TokenKey !in r.0 && UserKey !in r.0
    ensures forall k :: k in r.0 <==> k in store && k != TokenKey && k != UserKey
    ensures forall k | k in r.0 :: r.0[k] == store[k]
    ensures r.1 == "index.html"
  {
    (store - {TokenKey, UserKey}, "index.html")
  }

  /** After logging out nobody is signed in, whatever the store held. */
  lemma LogoutEndsSession(store: Store, decode: Decoder)
    ensures !IsLoggedIn(Logout(store).0) && !IsAdmin(Logout(store).0, decode)
  {
    var (after, _) := Logout(store);
    assert TokenKey !in after && UserKey !in after;
  }

  /** Logging out twice leaves the same store as logging out once. */
  lemma LogoutIdempotent(store: Store)
    ensures Logout(Logout(store).0).0 == Logout(store).0
  {
    var once := Logout(store).0;
    var twice := Logout(once).0;
    assert forall k :: k in twice <==> k in once;
  }

  /** Saving the token and the encoded user after a successful login or registration. */
  function SaveSession(store: Store, token: string, userRecord: string): (r: Store)
    ensures r.Keys == store.Keys + {TokenKey, UserKey}
    ensures r[TokenKey] == token && r[UserKey] == userRecord
    ensures forall k | k in store && k != TokenKey && k != UserKey :: r[k] == store[k]
  {
    store[TokenKey := token][UserKey := userRecord]
  }

  /** A saved session is logged in exactly when the token is non-empty, and
      reports the saved user's role. */
  lemma SavedSessionReadsBack(store: Store, token: string, userRecord: string, decode: Decoder)
    requires userRecord != ""
    ensures IsLoggedIn(SaveSession(store, token, userRecord)) <==> token != ""
    ensures GetUser(SaveSession(store, token, userRecord), decode) == decode(userRecord)
  {
  }

  // ---------------------------------------------------------------------------
  // Request headers
  // ---------------------------------------------------------------------------

  const ContentType: string := "Content-Type"
  const Authorization: string := "Authorization"

  /** The headers `apiRequest` sends: `Content-Type: application/json`, then
      the caller's headers (which win), then the bearer token if one is stored. */
  function BuildHeaders(store: Store, caller: Headers): (r: Headers)
    ensures r.Keys == caller.Keys + {ContentType} + (if IsLoggedIn(store) then {Authorization} else {})
    ensures r[ContentType] == if ContentType in caller then caller[ContentType] else "application/json"
    ensures IsLoggedIn(store) ==> r[Authorization] == "Bearer " + store[TokenKey]
    ensures forall k | k in caller && (k != Authorization || !IsLoggedIn(store)) :: r[k] == caller[k]
  {
    var merged := map[ContentType := "application/json"] + caller;
    match GetToken(store)
    case Some(token) =>
      if token != "" then merged[Authorization := "Bearer " + token] else merged
    case None => merged
  }

  /** Without a token the caller's headers pass through untouched, with a
      JSON content type added only when they carry none. */
  lemma HeadersWithoutToken(store: Store, caller: Headers)
    requires !IsLoggedIn(store)
    ensures ContentType in caller ==> BuildHeaders(store, caller) == caller
    ensures ContentType !in caller ==> BuildHeaders(store, caller) == caller[ContentType := "application/json"]
  {
    var r := BuildHeaders(store, caller);
    if ContentType in caller {
      assert r.Keys == caller.Keys;
    } else {
      assert r.Keys == caller[ContentType := "application/json"].Keys;
    }
  }

  /** Sending the built headers through the builder again changes nothing. */
  lemma BuildHeadersIdempotent(store: Store, caller: Headers)
    ensures BuildHeaders(store, BuildHeaders(store, caller)) == BuildHeaders(store, caller)
  {
    var once := BuildHeaders(store, caller);
    var twice := BuildHeaders(store, once);
    assert twice.Keys == once.Keys;
  }

  // ---------------------------------------------------------------------------
  // Responses
  // ---------------------------------------------------------------------------

  /** What `apiRequest` does after the response arrives: a 401 ends the session
      and raises an error, any other status is handed to the caller. */
  datatype Reply = Delivered(status: int, store: Store)
                 | SessionExpired(store: Store, location: string)

  function AfterResponse(store: Store, status: int): (r: Reply)
    ensures r.SessionExpired? <==> status == 401
    ensures r.Delivered? ==> r.store == store && r.status == status
    ensures r.SessionExpired? ==> r.store == Logout(store).0 && r.location == "index.html"
  {
    if status == 401 then
      var (after, location) := Logout(store);
      SessionExpired(after, location)
    else Delivered(status, store)
  }

  /** An unauthorised response always leaves the browser signed out. */
  lemma UnauthorisedSignsOut(store: Store, decode: Decoder)
    ensures !IsLoggedIn(AfterResponse(store, 401).store) && !IsAdmin(AfterResponse(store, 401).store, decode)
  {
    LogoutEndsSession(store, decode);
  }
}
