/**
 * `SessionManager` (session/SessionManager.kt): the logged-in user kept in a
 * SharedPreferences file, a key-value store whose entries are typed. The
 * store's content is a map; `apply()` is taken to write at once.
 */
module Session {
  import opened Wrappers

  /** A stored preference: an Int or a String entry. */
  datatype PrefValue = IntPref(i: int) | StringPref(s: string)

  type Prefs = map<string, PrefValue>

  const KeyUserId: string := "user_id"
  const KeyUserEmail: string := "user_email"

  /** `getInt(KEY_USER_ID, -1)`'s default, read back as "no user". */
  const NoUserId: int := -1

  /** The session's two keys hold entries of the types the manager writes. */
  ghost predicate WellTyped(prefs: Prefs) {
    && (KeyUserId in prefs ==> prefs[KeyUserId].IntPref?)
    && (KeyUserEmail in prefs ==> prefs[KeyUserEmail].StringPref?)
  }

  /** `getUserId` on a store: the stored id, with both an absent key and the stored value −1 read as null. */
  function UserIdOf(prefs: Prefs): (r: Option<int>)
    requires WellTyped(prefs)
    ensures r.Some? <==> KeyUserId in prefs && prefs[KeyUserId].i != NoUserId
    ensures r.Some? ==> prefs[KeyUserId] == IntPref(r.value)
  {
    var id := if KeyUserId in prefs then prefs[KeyUserId].i else NoUserId;
    if id != NoUserId then Some(id) else None
  }

  /** `getUserEmail` on a store. */
  function EmailOf(prefs: Prefs): (r: Option<string>)
    requires WellTyped(prefs)
    ensures r.Some? <==> KeyUserEmail in prefs
    ensures r.Some? ==> prefs[KeyUserEmail] == StringPref(r.value)
  {
    if KeyUserEmail in prefs then Some(prefs[KeyUserEmail].s) else None
  }

  /** The store after `saveUserSession(userId, email)`: both keys written, every other entry kept. */
  function SessionSaved(prefs: Prefs, userId: int, email: string): (r: Prefs)
    ensures WellTyped(prefs) ==> WellTyped(r)
    ensures r.Keys == prefs.Keys + {KeyUserId, KeyUserEmail}
    ensures forall k :: k in prefs && k != KeyUserId && k != KeyUserEmail ==> r[k] == prefs[k]
  {
    prefs[KeyUserId := IntPref(userId)][KeyUserEmail := StringPref(email)]
  }

  /** Reading back a saved session yields what was saved, except that the id −1 reads as null. */
  lemma SavedSessionReadsBack(prefs: Prefs, userId: int, email: string)
    requires WellTyped(prefs)
    ensures UserIdOf(SessionSaved(prefs, userId, email)) == if userId != NoUserId then Some(userId) else None
    ensures EmailOf(SessionSaved(prefs, userId, email)) == Some(email)
  {
  }

  /** The last save wins. */
  lemma LastSaveWins(prefs: Prefs, a: int, e: string, b: int, f: string)
    ensures SessionSaved(SessionSaved(prefs, a, e), b, f) == SessionSaved(prefs, b, f)
  {
  }

  /** An empty store, fresh or cleared, has no user. */
  lemma EmptyStoreIsLoggedOut()
    ensures WellTyped(map[])
    ensures UserIdOf(map[]) == None && EmailOf(map[]) == None
  {
  }

  class SessionManager {
    var prefs: Prefs

    ghost predicate Valid()
      reads this
    {
      WellTyped(prefs)
    }

    /** Opens the session file with whatever it already holds. */
    constructor (stored: Prefs)
      requires WellTyped(stored)
      ensures Valid() && prefs == stored
    {
      prefs := stored;
    }

    method SaveUserSession(userId: int, email: string)
      requires Valid()
      modifies this
      ensures Valid()
      ensures prefs == SessionSaved(old(prefs), userId, email)
    {
      prefs := prefs[KeyUserId := IntPref(userId)];
      prefs := prefs[KeyUserEmail := StringPref(email)];
    }

    /** `getUserId`: the stored id, never −1. */
    function GetUserId(): (r: Option<int>)
      reads this
      requires Valid()
      ensures r != Some(NoUserId)
      ensures r.Some? <==> KeyUserId in prefs && prefs[KeyUserId] != IntPref(NoUserId)
      ensures r.Some? ==> prefs[KeyUserId] == IntPref(r.value)
    {
      UserIdOf(prefs)
    }

    /** `getUserEmail`: the stored email, or null. */
    function GetUserEmail(): (r: Option<string>)
      reads this
      requires Valid()
      ensures r.Some? <==> KeyUserEmail in prefs
      ensures r.Some? ==> prefs[KeyUserEmail] == StringPref(r.value)
    {
      EmailOf(prefs)
    }

    /** Logged in exactly when a user id other than −1 is stored. */
    function IsLoggedIn(): (b: bool)
      reads this
      requires Valid()
      ensures b <==> KeyUserId in prefs && prefs[KeyUserId] != IntPref(NoUserId)
    {
      GetUserId() != None
    }

    /** `clearSession`: the whole file is emptied, so no user is logged in. */
    method ClearSession()
      modifies this
      ensures Valid()
      ensures prefs == map[]
      ensures !IsLoggedIn()
    {
      prefs := map[];
    }
  }
}
