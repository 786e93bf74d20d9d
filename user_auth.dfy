/**
 * The per-user credential and session table of user_auth.py: a map from
 * user id to that user's session (a map from key to JSON value), changed in
 * place by saving and removing Jira credentials and by merging session
 * updates, with queries for authentication, credentials and the number of
 * flagged users.
 */
module UserAuth {
  import opened Optional

  /** A JSON value as a session stores it. */
  datatype Value = Null | Bool(b: bool) | Int(i: int) | Str(s: string) | List(items: seq<Value>)

  /** Python truthiness: `None`, `False`, `0`, `""` and `[]` are false. */
  predicate Truthy(v: Value) {
    match v
    case Null => false
    case Bool(b) => b
    case Int(i) => i != 0
    case Str(s) => s != []
    case List(items) => items != []
  }

  type UserId = string
  type Session = map<string, Value>
  type Table = map<UserId, Session>

  const EMAIL_KEY: string := "jira_email"
  const TOKEN_KEY: string := "jira_token"
  const FLAG_KEY: string := "authenticated"

  /** `session.get(key)`: `None` for a missing key. */
  function Get(s: Session, key: string): (v: Value)
    ensures key !in s ==> v == Null
  {
    if key in s then s[key] else Null
  }

  /**
   * The Fernet cipher the manager derives its key into. Its two operations
   * are given, not modelled: `decrypt` answers `None` where Fernet raises.
   */
  datatype Cipher = Cipher(encrypt: string -> string, decrypt: string -> Option<string>)

  /** Fernet tokens are never empty, and decrypting a token gives back what was encrypted. */
  ghost predicate Sound(c: Cipher) {
    forall x :: c.encrypt(x) != [] && c.decrypt(c.encrypt(x)) == Some(x)
  }

  // ---------------------------------------------------------------------
  // The table operations, as functions of the table before the call
  // ---------------------------------------------------------------------

  /** `_sessions.get(user_id, {})`. */
  function SessionOf(t: Table, u: UserId): Session {
    if u in t then t[u] else map[]
  }

  /** Both credential keys hold truthy values. */
  predicate HasCredentials(s: Session) {
    Truthy(Get(s, EMAIL_KEY)) && Truthy(Get(s, TOKEN_KEY))
  }

  /** `is_user_authenticated`. */
  predicate Authenticated(t: Table, u: UserId) {
    HasCredentials(SessionOf(t, u))
  }

  /** `session.get('authenticated', False)` is truthy. */
  predicate Flagged(s: Session) {
    Truthy(Get(s, FLAG_KEY))
  }

  /** The users `get_authenticated_users_count` counts. */
  function FlaggedUsers(t: Table): set<UserId> {
    set u | u in t && Flagged(t[u])
  }

  /** The table after `save_user_credentials` stored the two ciphertexts. */
  function Saved(t: Table, u: UserId, encEmail: string, encToken: string): Table {
    t[u := SessionOf(t, u)[EMAIL_KEY := Str(encEmail)][TOKEN_KEY := Str(encToken)][FLAG_KEY := Bool(true)]]
  }

  /** The table after `remove_user_credentials`. */
  function Removed(t: Table, u: UserId): Table {
    if u in t then t[u := (t[u] - {EMAIL_KEY, TOKEN_KEY})[FLAG_KEY := Bool(false)]] else t
  }

  /** The table after `update_user_session(u, **kwargs)`. */
  function Updated(t: Table, u: UserId, kwargs: Session): Table {
    t[u := SessionOf(t, u) + kwargs]
  }

  /** What `get_user_credentials` returns; `None` stands for `(None, None)`. */
  function Credentials(t: Table, u: UserId, c: Cipher): Option<(string, string)> {
    if !Authenticated(t, u) then None
    else
      match (Get(t[u], EMAIL_KEY), Get(t[u], TOKEN_KEY))
      case (Str(e), Str(k)) =>
        (match (c.decrypt(e), c.decrypt(k))
         case (Some(email), Some(token)) => Some((email, token))
         case _ => None)
      case _ => None
  }

  // ---------------------------------------------------------------------
  // Properties
  // ---------------------------------------------------------------------

  /** An unknown user is not authenticated and has the empty session. */
  lemma UnknownUser(t: Table, u: UserId)
    requires u !in t
    ensures !Authenticated(t, u)
    ensures SessionOf(t, u) == map[]
  {
  }

  /**
   * Saving creates the user's entry if needed, sets both credential keys
   * and the flag, so the user is authenticated and counted, keeps the
   * user's other keys and leaves every other user alone.
   */
  lemma SaveAuthenticates(t: Table, u: UserId, c: Cipher, email: string, token: string)
    requires Sound(c)
    ensures var t' := Saved(t, u, c.encrypt(email), c.encrypt(token));
      u in t' && Authenticated(t', u) && Flagged(t'[u])
      && (forall k | k in SessionOf(t, u) && k != EMAIL_KEY && k != TOKEN_KEY && k != FLAG_KEY ::
            k in t'[u] && t'[u][k] == SessionOf(t, u)[k])
      && (forall v | v != u :: (v in t' <==> v in t) && (v in t ==> t'[v] == t[v]))
  {
    assert c.encrypt(email) != [] && c.encrypt(token) != [];
  }

  /** What was saved is what `get_user_credentials` gives back. */
  lemma SaveThenCredentials(t: Table, u: UserId, c: Cipher, email: string, token: string)
    requires Sound(c)
    ensures Credentials(Saved(t, u, c.encrypt(email), c.encrypt(token)), u, c) == Some((email, token))
  {
    assert c.encrypt(email) != [] && c.encrypt(token) != [];
    assert c.decrypt(c.encrypt(email)) == Some(email);
    assert c.decrypt(c.encrypt(token)) == Some(token);
  }

  /** Credentials are only ever returned for an authenticated user. */
  lemma CredentialsNeedAuthentication(t: Table, u: UserId, c: Cipher)
    ensures Credentials(t, u, c).Some? ==> Authenticated(t, u) && u in t
  {
  }

  /**
   * Removing credentials of a known user deletes both keys and clears the
   * flag, so the user is no longer authenticated; other keys and users are
   * kept. For an unknown user the table stays as it was.
   */
  lemma RemoveDeauthenticates(t: Table, u: UserId)
    ensures u !in t ==> Removed(t, u) == t
    ensures u in t ==> var t' := Removed(t, u);
      u in t' && EMAIL_KEY !in t'[u] && TOKEN_KEY !in t'[u] && !Flagged(t'[u]) && !Authenticated(t', u)
      && (forall k | k in t[u] && k != EMAIL_KEY && k != TOKEN_KEY && k != FLAG_KEY :: k in t'[u] && t'[u][k] == t[u][k])
    ensures forall v | v != u :: (v in Removed(t, u) <==> v in t) && (v in t ==> Removed(t, u)[v] == t[v])
  {
  }

  /** Updating merges the given keys over the user's session: they win, the rest of the session and the other users stay. */
  lemma UpdateMerges(t: Table, u: UserId, kwargs: Session)
    ensures var t' := Updated(t, u, kwargs);
      u in t'
      && (forall k | k in kwargs :: k in t'[u] && t'[u][k] == kwargs[k])
      && (forall k | k in SessionOf(t, u) && k !in kwargs :: k in t'[u] && t'[u][k] == SessionOf(t, u)[k])
      && (forall k | k in t'[u] :: k in kwargs || k in SessionOf(t, u))
      && (forall v | v != u :: (v in t' <==> v in t) && (v in t ==> t'[v] == t[v]))
  {
  }

  /** Saving adds the user to the flagged users: the count goes up by one exactly when the user was not flagged. */
  lemma CountAfterSave(t: Table, u: UserId, encEmail: string, encToken: string)
    ensures FlaggedUsers(Saved(t, u, encEmail, encToken)) == FlaggedUsers(t) + {u}
    ensures |FlaggedUsers(Saved(t, u, encEmail, encToken))| == |FlaggedUsers(t)| + (if u in FlaggedUsers(t) then 0 else 1)
  {
    var t' := Saved(t, u, encEmail, encToken);
    var before := FlaggedUsers(t);
    assert t'[u][FLAG_KEY] == Bool(true);
    forall v
      ensures v in FlaggedUsers(t') <==> v in before + {u}
    {
      if v != u && v in t {
        assert t'[v] == t[v];
      }
    }
    assert FlaggedUsers(t') == before + {u};
    if u in before {
      assert before + {u} == before;
    }
  }

  /** Removing takes the user out of the flagged users: the count goes down by one exactly when the user was flagged. */
  lemma CountAfterRemove(t: Table, u: UserId)
    ensures FlaggedUsers(Removed(t, u)) == FlaggedUsers(t) - {u}
    ensures |FlaggedUsers(Removed(t, u))| == |FlaggedUsers(t)| - (if u in FlaggedUsers(t) then 1 else 0)
  {
    var t' := Removed(t, u);
    assert FlaggedUsers(t') == FlaggedUsers(t) - {u} by {
      forall v ensures v in FlaggedUsers(t') <==> v in FlaggedUsers(t) - {u} {
        if v != u {
          assert v in t' <==> v in t;
        }
      }
    }
  }

  /** Every user's flag agrees with whether the user has credentials. */
  predicate Consistent(t: Table) {
    forall u | u in t :: Flagged(t[u]) <==> HasCredentials(t[u])
  }

  /**
   * Saving and removing keep flags and credentials in agreement, so on a
   * table built by them alone the count is the number of authenticated users.
   */
  lemma SaveRemoveKeepConsistent(t: Table, u: UserId, c: Cipher, email: string, token: string)
    requires Sound(c) && Consistent(t)
    ensures Consistent(Saved(t, u, c.encrypt(email), c.encrypt(token)))
    ensures Consistent(Removed(t, u))
    ensures FlaggedUsers(t) == set v | v in t && Authenticated(t, v)
  {
    assert c.encrypt(email) != [] && c.encrypt(token) != [];
  }

  /**
   * The count follows the flag, not the credentials: a session update can
   * blank the token of a saved user, who then stays counted without being
   * authenticated.
   */
  lemma UpdateCanSplitFlagFromCredentials(t: Table, u: UserId)
    ensures var t' := Updated(Saved(t, u, "e", "k"), u, map[TOKEN_KEY := Str("")]);
      u in FlaggedUsers(t') && !Authenticated(t', u)
  {
    var t' := Updated(Saved(t, u, "e", "k"), u, map[TOKEN_KEY := Str("")]);
    assert Get(t'[u], TOKEN_KEY) == Str("");
    assert Get(t'[u], FLAG_KEY) == Bool(true);
  }

  // ---------------------------------------------------------------------
  // The manager
  // ---------------------------------------------------------------------

  /** `UserAuthManager`: the session table it keeps in memory and the cipher it encrypts credentials with. */
  class UserAuthManager {
    var sessions: Table
    const cipher: Cipher

    /** `__init__`: the table `_load_sessions` found (empty when there was no file) and the derived cipher. */
    constructor (loaded: Table, cipher: Cipher)
      requires Sound(cipher)
      ensures sessions == loaded && this.cipher == cipher
    {
      sessions := loaded;
      this.cipher := cipher;
    }

    /** `is_user_authenticated`. */
    method IsUserAuthenticated(user: UserId) returns (r: bool)
      ensures r == Authenticated(sessions, user)
    {
      var session := if user in sessions then sessions[user] else map[];
      var email := if EMAIL_KEY in session then session[EMAIL_KEY] else Null;
      var token := if TOKEN_KEY in session then session[TOKEN_KEY] else Null;
      r := Truthy(email) && Truthy(token);
    }

    /** `save_user_credentials`; saving the file is not modelled. */
    method SaveUserCredentials(user: UserId, email: string, token: string)
      modifies this
      ensures sessions == Saved(old(sessions), user, cipher.encrypt(email), cipher.encrypt(token))
    {
      if user !in sessions {
        sessions := sessions[user := map[]];
      }
      var session := sessions[user];
      session := session[EMAIL_KEY := Str(cipher.encrypt(email))];
      session := session[TOKEN_KEY := Str(cipher.encrypt(token))];
      session := session[FLAG_KEY := Bool(true)];
      sessions := sessions[user := session];
    }

    /** `get_user_credentials`: `None` stands for `(None, None)`. */
    method GetUserCredentials(user: UserId) returns (r: Option<(string, string)>)
      ensures r == Credentials(sessions, user, cipher)
    {
      var authenticated := IsUserAuthenticated(user);
      if !authenticated {
        return None;
      }
      var session := sessions[user];
      var email := Get(session, EMAIL_KEY);
      var token := Get(session, TOKEN_KEY);
      if !email.Str? || !token.Str? {
        return None;
      }
      var e := cipher.decrypt(email.s);
      var k := cipher.decrypt(token.s);
      if e.None? || k.None? {
        return None;
      }
      r := Some((e.value, k.value));
    }

    /** `remove_user_credentials`. */
    method RemoveUserCredentials(user: UserId)
      modifies this
      ensures sessions == Removed(old(sessions), user)
    {
      if user in sessions {
        var session := sessions[user];
        session := session - {EMAIL_KEY};
        session := session - {TOKEN_KEY};
        session := session[FLAG_KEY := Bool(false)];
        assert session == (sessions[user] - {EMAIL_KEY, TOKEN_KEY})[FLAG_KEY := Bool(false)];
        sessions := sessions[user := session];
      }
    }

    /** `get_user_session`: it never inserts an entry. */
    method GetUserSession(user: UserId) returns (s: Session)
      ensures s == SessionOf(sessions, user)
      ensures user !in sessions ==> s == map[]
    {
      s := if user in sessions then sessions[user] else map[];
    }

    /** `update_user_session(user, **kwargs)`. */
    method UpdateUserSession(user: UserId, kwargs: Session)
      modifies this
      ensures sessions == Updated(old(sessions), user, kwargs)
    {
      if user !in sessions {
        sessions := sessions[user := map[]];
      }
      sessions := sessions[user := sessions[user] + kwargs];
    }

    /** `get_authenticated_users_count`: one pass over the sessions counting the flagged ones. */
    method GetAuthenticatedUsersCount() returns (n: nat)
      ensures n == |FlaggedUsers(sessions)|
    {
      n := 0;
      var remaining := sessions.Keys;
      ghost var counted: set<UserId> := {};
      while remaining != {}
        invariant remaining <= sessions.Keys
        invariant counted == set u | u in sessions && u !in remaining && Flagged(sessions[u])
        invariant n == |counted|
        decreases |remaining|
      {
        var u :| u in remaining;
        if Flagged(sessions[u]) {
          counted := counted + {u};
          n := n + 1;
        }
        remaining := remaining - {u};
      }
      assert counted == FlaggedUsers(sessions);
    }
  }
}
