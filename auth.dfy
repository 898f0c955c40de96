/** The login and session manager: user accounts keyed by username with a hashed password and
    a role, and session tokens keyed by token with an expiry time. Time is an integer number of
    seconds passed in by the caller; the password hash and the token generator are supplied from
    outside. */
module Auth {
  import opened Wrappers
  import opened Seqs

  /** A stored account. `info` is the free-form profile; `lastLogin` is None until the first
      successful login. */
  datatype UserRecord = UserRecord(passwordHash: string, role: string, info: map<string, string>,
                                   createdAt: int, lastLogin: Option<int>)

  /** A stored session, also the record reported for an active session. */
  datatype Session = Session(username: string, createdAt: int, expiresAt: int)

  /** What a successful login reports. */
  datatype UserView = UserView(username: string, role: string, info: map<string, string>)

  datatype AuthError = UserNotFound | InvalidPassword

  /** The account under username exists and its stored hash is the hash of password. */
  predicate Accepts(users: map<string, UserRecord>, hash: string -> string, username: string, password: string)
  {
    username in users && users[username].passwordHash == hash(password)
  }

  /** The tokens of order whose session has expired at time now, in the order of order. */
  function ExpiredTokens(order: seq<string>, sessions: map<string, Session>, now: int): (r: seq<string>)
    requires forall t :: t in order ==> t in sessions
    ensures |r| <= |order|
    ensures forall t :: t in r <==> t in order && now > sessions[t].expiresAt
    ensures NoDup(order) ==> NoDup(r)
  {
    if order == [] then []
    else
      var t := order[|order| - 1];
      assert order == order[..|order| - 1] + [t];
      ExpiredTokens(order[..|order| - 1], sessions, now) + (if now > sessions[t].expiresAt then [t] else [])
  }

  /** The sessions of order still valid at time now, in the order of order. */
  function ActiveOf(order: seq<string>, sessions: map<string, Session>, now: int): (r: seq<Session>)
    requires forall t :: t in order ==> t in sessions
  {
    if order == [] then []
    else
      var t := order[|order| - 1];
      ActiveOf(order[..|order| - 1], sessions, now) + (if now <= sessions[t].expiresAt then [sessions[t]] else [])
  }

  /** The active list holds exactly the sessions that have not expired. */
  lemma {:induction false} ActiveMeaning(order: seq<string>, sessions: map<string, Session>, now: int)
    requires forall t :: t in order ==> t in sessions
    ensures forall s :: s in ActiveOf(order, sessions, now) ==> now <= s.expiresAt
    ensures forall s :: s in ActiveOf(order, sessions, now) ==> exists t :: t in order && sessions[t] == s
    ensures forall t :: t in order && now <= sessions[t].expiresAt ==> sessions[t] in ActiveOf(order, sessions, now)
  {
    if order != [] {
      var init := order[..|order| - 1];
      ActiveMeaning(init, sessions, now);
      assert order == init + [order[|order| - 1]];
    }
  }

  /** Every session is either active or expired: the two lists together are as long as the
      key order. */
  lemma {:induction false} ActiveOrExpired(order: seq<string>, sessions: map<string, Session>, now: int)
    requires forall t :: t in order ==> t in sessions
    ensures |ActiveOf(order, sessions, now)| + |ExpiredTokens(order, sessions, now)| == |order|
  {
    if order != [] {
      ActiveOrExpired(order[..|order| - 1], sessions, now);
    }
  }

  /** One more round of the loop behind ActiveOf. */
  lemma ActiveStep(order: seq<string>, i: int, sessions: map<string, Session>, now: int)
    requires 0 <= i < |order|
    requires forall t :: t in order ==> t in sessions
    ensures ActiveOf(order[..i + 1], sessions, now) ==
      ActiveOf(order[..i], sessions, now) + (if now <= sessions[order[i]].expiresAt then [sessions[order[i]]] else [])
  {
    assert order[..i + 1][..i] == order[..i];
  }

  /** The elements of order that are not in gone, in the order of order. */
  function Without(order: seq<string>, gone: seq<string>): (r: seq<string>)
    ensures forall t :: t in r <==> t in order && t !in gone
  {
    if order == [] then []
    else (if order[0] in gone then [] else [order[0]]) + Without(order[1..], gone)
  }

  /** Leaving out an element that does not occur changes nothing. */
  lemma {:induction false} WithoutAbsent(order: seq<string>, gone: seq<string>, x: string)
    requires x !in order
    ensures Without(order, gone + [x]) == Without(order, gone)
  {
    if order != [] {
      assert order[0] in gone + [x] <==> order[0] in gone;
      WithoutAbsent(order[1..], gone, x);
    }
  }

  /** On a list without duplicates, deleting one more key is leaving out one more element. */
  lemma {:induction false} WithoutStep(order: seq<string>, gone: seq<string>, x: string)
    requires NoDup(order)
    ensures RemoveFirst(Without(order, gone), x) == Without(order, gone + [x])
  {
    if order != [] {
      var rest := order[1..];
      assert NoDup(rest) by {
        forall i, j | 0 <= i < j < |rest| ensures rest[i] != rest[j] {
          assert rest[i] == order[i + 1] && rest[j] == order[j + 1];
        }
      }
      assert order[0] in gone + [x] <==> order[0] in gone || order[0] == x;
      if order[0] in gone {
        assert Without(order, gone) == Without(rest, gone);
        WithoutStep(rest, gone, x);
        assert Without(order, gone + [x]) == Without(rest, gone + [x]);
      } else if order[0] == x {
        var w := Without(rest, gone);
        assert Without(order, gone) == [x] + w;
        assert RemoveFirst([x] + w, x) == w;
        assert x !in rest;
        WithoutAbsent(rest, gone, x);
        assert Without(order, gone + [x]) == Without(rest, gone + [x]);
      } else {
        var w := Without(rest, gone);
        assert Without(order, gone) == [order[0]] + w;
        assert ([order[0]] + w)[1..] == w;
        assert RemoveFirst([order[0]] + w, x) == [order[0]] + RemoveFirst(w, x);
        WithoutStep(rest, gone, x);
        assert Without(order, gone + [x]) == [order[0]] + Without(rest, gone + [x]);
      }
    }
  }

  /** The passwords the module-level login falls back on when no user table is given. */
  function DefaultPasswords(): map<string, string>
  {
    map["librarian" := "admin123", "member" := "member123"]
  }

  /** The module-level login kept for compatibility: checks the plain password against the
      given table, or against the two default accounts when the table is empty (an absent
      table is the empty one). */
  function SimpleAuthenticate(username: string, password: string, userDb: map<string, string>): (r: bool)
    ensures userDb != map[] ==> (r <==> username in userDb && userDb[username] == password)
    ensures userDb == map[] ==>
      (r <==> (username == "librarian" && password == "admin123") || (username == "member" && password == "member123"))
  {
    var db := if userDb != map[] then userDb else DefaultPasswords();
    username in db && db[username] == password
  }

  /** The accounts a new login manager is created with, stamped with creation time now. */
  function DefaultUsers(hash: string -> string, now: int): map<string, UserRecord>
  {
    map["librarian" := UserRecord(hash("admin123"), "librarian",
                                  map["name" := "System Librarian", "email" := "librarian@library.com"], now, None),
        "member" := UserRecord(hash("member123"), "member",
                               map["name" := "Sample Member", "email" := "member@example.com"], now, None)]
  }

  /** With an injective hash, a fresh manager accepts exactly the logins the module-level
      function accepts without a table. */
  lemma DefaultAccountsAgree(hash: string -> string, now: int, username: string, password: string)
    requires forall a, b :: hash(a) == hash(b) ==> a == b
    ensures Accepts(DefaultUsers(hash, now), hash, username, password) <==> SimpleAuthenticate(username, password, map[])
  {
    var users := DefaultUsers(hash, now);
    if username == "librarian" {
      assert users[username].passwordHash == hash("admin123");
    } else if username == "member" {
      assert users[username].passwordHash == hash("member123");
    }
  }

  class AuthSystem {
    var users: map<string, UserRecord>
    var sessions: map<string, Session>
    /** The insertion order of the session tokens, the order in which the sessions are walked. */
    var sessionOrder: seq<string>
    /** How long a session lasts, in minutes. */
    const sessionTimeout: int
    /** The password hash. */
    const hash: string -> string

    ghost predicate Valid()
      reads this
    {
      OrderedKeys(sessionOrder, sessions.Keys)
    }

    /** A manager holding the two default accounts and no session. */
    constructor (sessionTimeout: int, hash: string -> string, now: int)
      ensures Valid()
      ensures this.sessionTimeout == sessionTimeout && this.hash == hash
      ensures users == DefaultUsers(hash, now)
      ensures sessions == map[] && sessionOrder == []
    {
      this.sessionTimeout := sessionTimeout;
      this.hash := hash;
      users := DefaultUsers(hash, now);
      sessions, sessionOrder := map[], [];
    }

    /** Registers a new account with the hash of password and no login yet; an existing
        username is refused and nothing changes. */
    method AddUser(username: string, password: string, role: string, info: map<string, string>, now: int)
      returns (added: bool)
      modifies this
      ensures added <==> username !in old(users)
      ensures users == if added then old(users)[username := UserRecord(hash(password), role, info, now, None)] else old(users)
      ensures sessions == old(sessions) && sessionOrder == old(sessionOrder)
    {
      if username in users {
        return false;
      }
      users := users[username := UserRecord(hash(password), role, info, now, None)];
      added := true;
    }

    /** Checks a password. An unknown user and a wrong password are refused with nothing
        changed; a correct one records the login time and reports the account. */
    method Authenticate(username: string, password: string, now: int) returns (r: Result<UserView, AuthError>)
      modifies this
      ensures r.Success? <==> old(Accepts(users, hash, username, password))
      ensures username !in old(users) ==> r == Failure(UserNotFound)
      ensures username in old(users) && !old(Accepts(users, hash, username, password)) ==> r == Failure(InvalidPassword)
      ensures r.Failure? ==> users == old(users)
      ensures r.Success? ==>
        && r.value == UserView(username, old(users)[username].role, old(users)[username].info)
        && users == old(users)[username := old(users)[username].(lastLogin := Some(now))]
      ensures sessions == old(sessions) && sessionOrder == old(sessionOrder)
    {
      if username !in users {
        return Failure(UserNotFound);
      }
      var user := users[username];
      if user.passwordHash != hash(password) {
        return Failure(InvalidPassword);
      }
      users := users[username := user.(lastLogin := Some(now))];
      r := Success(UserView(username, user.role, user.info));
    }

    /** Opens a session for username under token, expiring sessionTimeout minutes after now.
        The username is not checked; a token already in use is overwritten in place. */
    method CreateSession(username: string, token: string, now: int) returns (t: string)
      requires Valid()
      modifies this
      ensures Valid()
      ensures t == token
      ensures sessions == old(sessions)[token := Session(username, now, now + 60 * sessionTimeout)]
      ensures sessionOrder == if token in old(sessions) then old(sessionOrder) else old(sessionOrder) + [token]
      ensures users == old(users)
    {
      if token !in sessions {
        sessionOrder := sessionOrder + [token];
      }
      sessions := sessions[token := Session(username, now, now + 60 * sessionTimeout)];
      t := token;
    }

    /** A token is valid while now has not passed its expiry; an expired token is deleted on
        the way. */
    method ValidateSession(token: string, now: int) returns (valid: bool, username: Option<string>)
      requires Valid()
      modifies this
      ensures Valid()
      ensures valid <==> token in old(sessions) && now <= old(sessions)[token].expiresAt
      ensures valid ==> username == Some(old(sessions)[token].username) && sessions == old(sessions) && sessionOrder == old(sessionOrder)
      ensures !valid ==> username == None
      ensures !valid ==> sessions == old(sessions) - {token} && sessionOrder == RemoveFirst(old(sessionOrder), token)
      ensures users == old(users)
    {
      if token !in sessions {
        return false, None;
      }
      var session := sessions[token];
      if now > session.expiresAt {
        Delete(token);
        return false, None;
      }
      valid, username := true, Some(session.username);
    }

    /** Python's `del self.sessions[token]` on a present token. */
    method Delete(token: string)
      requires Valid() && token in sessions
      modifies this
      ensures Valid()
      ensures sessions == old(sessions) - {token} && sessionOrder == RemoveFirst(old(sessionOrder), token)
      ensures users == old(users)
    {
      RemoveFirstNoDup(sessionOrder, token);
      var order := RemoveFirst(sessionOrder, token);
      var store := sessions - {token};
      assert OrderedKeys(order, store.Keys);
      sessions, sessionOrder := store, order;
    }

    /** Ends a session: reports whether the token was open and removes it. */
    method Logout(token: string) returns (found: bool)
      requires Valid()
      modifies this
      ensures Valid()
      ensures found <==> token in old(sessions)
      ensures sessions == old(sessions) - {token} && sessionOrder == RemoveFirst(old(sessionOrder), token)
      ensures users == old(users)
    {
      if token in sessions {
        Delete(token);
        return true;
      }
      found := false;
    }

    /** Replaces the password after checking the current one by a login (which records the
        login time). A wrong current password or an unknown user changes nothing. */
    method ChangePassword(username: string, oldPassword: string, newPassword: string, now: int) returns (ok: bool)
      modifies this
      ensures ok <==> old(Accepts(users, hash, username, oldPassword))
      ensures !ok ==> users == old(users)
      ensures ok ==> users == old(users)[username := old(users)[username].(passwordHash := hash(newPassword), lastLogin := Some(now))]
      ensures ok ==> Accepts(users, hash, username, newPassword)
      ensures ok && hash(oldPassword) != hash(newPassword) ==> !Accepts(users, hash, username, oldPassword)
      ensures sessions == old(sessions) && sessionOrder == old(sessionOrder)
    {
      var r := Authenticate(username, oldPassword, now);
      if r.Failure? {
        return false;
      }
      users := users[username := users[username].(passwordHash := hash(newPassword))];
      ok := true;
    }

    /** The role of username, or None for an unknown user. */
    function GetUserRole(username: string): (r: Option<string>)
      reads this
      ensures r.Some? <==> username in users
      ensures r.Some? ==> r.value == users[username].role
    {
      if username in users then Some(users[username].role) else None
    }

    /** Whether username is a known user whose role is "librarian". */
    function IsLibrarian(username: string): (r: bool)
      reads this
      ensures r <==> username in users && users[username].role == "librarian"
    {
      GetUserRole(username) == Some("librarian")
    }

    /** Whether username is a known user whose role is "member". */
    function IsMember(username: string): (r: bool)
      reads this
      ensures r <==> username in users && users[username].role == "member"
    {
      GetUserRole(username) == Some("member")
    }

    /** Deletes every session expired at time now and returns how many there were; every
        remaining session is unexpired and the rest keep their order. */
    method CleanupExpiredSessions(now: int) returns (count: nat)
      requires Valid()
      modifies this
      ensures Valid()
      ensures forall t :: t in sessions <==> t in old(sessions) && now <= old(sessions)[t].expiresAt
      ensures forall t :: t in sessions ==> sessions[t] == old(sessions)[t]
      ensures sessionOrder == Without(old(sessionOrder), ExpiredTokens(old(sessionOrder), old(sessions), now))
      ensures count == |set t | t in old(sessions) && now > old(sessions)[t].expiresAt|
      ensures users == old(users)
    {
      var expired := ExpiredTokens(sessionOrder, sessions, now);
      NoDupCard(expired);
      assert (set t | t in expired) == (set t | t in sessions && now > sessions[t].expiresAt);
      sessionOrder, sessions := DeleteTokens(sessionOrder, sessions, expired);
      count := |expired|;
    }

    /** The sessions still valid at time now, in insertion order; nothing changes. */
    method GetActiveSessions(now: int) returns (r: seq<Session>)
      requires Valid()
      ensures r == ActiveOf(sessionOrder, sessions, now)
    {
      r := [];
      var i := 0;
      while i < |sessionOrder|
        invariant 0 <= i <= |sessionOrder|
        invariant r == ActiveOf(sessionOrder[..i], sessions, now)
      {
        var session := sessions[sessionOrder[i]];
        ActiveStep(sessionOrder, i, sessions, now);
        if now <= session.expiresAt {
          r := r + [session];
        }
        i := i + 1;
      }
      assert sessionOrder[..i] == sessionOrder;
    }
  }

  /** The loop `for token in gone: del sessions[token]` on a dict with key order order0: every
      token of gone is present when it is deleted, and the others keep their entries and
      their order. */
  method DeleteTokens(order0: seq<string>, sessions0: map<string, Session>, gone: seq<string>)
    returns (order: seq<string>, sessions: map<string, Session>)
    requires OrderedKeys(order0, sessions0.Keys) && NoDup(gone)
    requires forall t :: t in gone ==> t in sessions0
    ensures OrderedKeys(order, sessions.Keys)
    ensures forall t :: t in sessions <==> t in sessions0 && t !in gone
    ensures forall t :: t in sessions ==> sessions[t] == sessions0[t]
    ensures order == Without(order0, gone)
  {
    order, sessions := order0, sessions0;
    WithoutNothing(order0);
    assert gone[..0] == [];
    var i := 0;
    while i < |gone|
      invariant 0 <= i <= |gone|
      invariant OrderedKeys(order, sessions.Keys)
      invariant forall t :: t in sessions <==> t in sessions0 && t !in gone[..i]
      invariant forall t :: t in sessions ==> sessions[t] == sessions0[t]
      invariant order == Without(order0, gone[..i])
    {
      var token := gone[i];
      NoDupPrefix(gone, i);
      assert token in sessions;
      WithoutStep(order0, gone[..i], token);
      RemoveFirstNoDup(order, token);
      assert gone[..i + 1] == gone[..i] + [token];
      order, sessions := RemoveFirst(order, token), sessions - {token};
      i := i + 1;
    }
    assert gone[..i] == gone;
  }

  /** Leaving out nothing keeps the whole list. */
  lemma {:induction false} WithoutNothing(order: seq<string>)
    ensures Without(order, []) == order
  {
    if order != [] {
      WithoutNothing(order[1..]);
    }
  }

  /** An element of a list without duplicates does not occur before its own position. */
  lemma NoDupPrefix(s: seq<string>, i: int)
    requires NoDup(s) && 0 <= i < |s|
    ensures s[i] !in s[..i]
  {
  }
}
