/** The user data-access object: the `users` and `sessions` collections, the duplicate-email
    check on registration, the one-session-per-user replacement rule, the cascade from a
    user's deletion to their sessions, and the wholesale replacement of preferences. */
module Users {
  import opened Driver
  import opened Models

  /** At most one user per email. The DAO does not rely on an index for it; the check in
      addUser keeps it. */
  predicate OneUserPerEmail(users: seq<User>) {
    UniqueKeys(users, UserEmail)
  }

  /** At most one session per `user_id`. No index enforces it; createUserSession keeps it. */
  predicate OneSessionPerUser(sessions: seq<Session>) {
    UniqueKeys(sessions, SessionUserId)
  }

  /** `set("preferences", p)`: the whole map is replaced, nothing is merged. */
  function WithPreferences(u: User, p: Preferences): (r: User)
    ensures r.preferences == p
    ensures r.name == u.name && r.email == u.email && r.hashedpw == u.hashedpw
  {
    u.(preferences := p)
  }

  /** The state createUserSession leaves when every call succeeds: the user's old sessions
      deleted, the new one appended. */
  function ReplaceSession(sessions: seq<Session>, userId: string, jwt: string): (r: seq<Session>)
    ensures |r| > 0 && r[|r| - 1] == Session(userId, jwt)
    ensures forall x :: x in r <==> x == Session(userId, jwt) || (x in sessions && x.userId != userId)
  {
    DeleteMany(sessions, SessionUserId, userId) + [Session(userId, jwt)]
  }

  /** After the replacement the user has exactly one session, the new one; the sessions of
      every other user are those they had, in the same order; and the one-session-per-user
      invariant is kept. */
  lemma SessionReplacement(sessions: seq<Session>, userId: string, jwt: string)
    ensures Select(ReplaceSession(sessions, userId, jwt), SessionUserId, userId) == [Session(userId, jwt)]
    ensures forall w :: w != userId ==>
      Select(ReplaceSession(sessions, userId, jwt), SessionUserId, w) == Select(sessions, SessionUserId, w)
    ensures OneSessionPerUser(sessions) ==> OneSessionPerUser(ReplaceSession(sessions, userId, jwt))
  {
    var kept := DeleteMany(sessions, SessionUserId, userId);
    var s := Session(userId, jwt);
    SelectAppend(kept, s, SessionUserId, userId);
    SelectAfterDeleteMany(sessions, SessionUserId, userId, userId);
    forall w | w != userId
      ensures Select(kept + [s], SessionUserId, w) == Select(sessions, SessionUserId, w)
    {
      SelectAppend(kept, s, SessionUserId, w);
      SelectAfterDeleteMany(sessions, SessionUserId, userId, w);
    }
    if OneSessionPerUser(sessions) {
      UniqueKeysDeleteMany(sessions, SessionUserId, SessionUserId, userId);
      UniqueKeysAppend(kept, s, SessionUserId);
    }
  }

  /** The user's deletion cascade: no session keyed by `email` and no user with that email
      remains, every other document does, and both uniqueness invariants are kept. */
  lemma DeleteUserCascade(users: seq<User>, sessions: seq<Session>, email: string)
    ensures var users' := DeleteMany(users, UserEmail, email);
      var sessions' := DeleteMany(sessions, SessionUserId, email);
      && !HasMatch(users', UserEmail, email)
      && !HasMatch(sessions', SessionUserId, email)
      && (forall u :: u in users && u.email != email ==> u in users')
      && (forall s :: s in sessions && s.userId != email ==> s in sessions')
      && (OneUserPerEmail(users) ==> OneUserPerEmail(users'))
      && (OneSessionPerUser(sessions) ==> OneSessionPerUser(sessions'))
  {
    var users' := DeleteMany(users, UserEmail, email);
    var sessions' := DeleteMany(sessions, SessionUserId, email);
    if OneUserPerEmail(users) {
      UniqueKeysDeleteMany(users, UserEmail, UserEmail, email);
    }
    if OneSessionPerUser(sessions) {
      UniqueKeysDeleteMany(sessions, SessionUserId, SessionUserId, email);
    }
  }

  class UserDao {
    var users: seq<User>
    var sessions: seq<Session>

    constructor (users: seq<User>, sessions: seq<Session>)
      ensures this.users == users && this.sessions == sessions
    {
      this.users := users;
      this.sessions := sessions;
    }

    /** addUser: driver calls are 0 the duplicate lookup, 1 the insert, 2 the re-read. No
        exception is caught, so a driver failure leaves the method as a MongoException. */
    method AddUser(user: User, fault: Fault) returns (r: Outcome<bool>)
      modifies this
      ensures sessions == old(sessions)
      ensures fault.Fails(0) ==> r == Thrown(MongoException) && users == old(users)
      ensures !fault.Fails(0) && HasMatch(old(users), UserEmail, user.email) ==>
        r == Thrown(IncorrectDaoOperation) && users == old(users)
      ensures !fault.Fails(0) && !HasMatch(old(users), UserEmail, user.email) ==>
        if fault.Fails(1) then r == Thrown(MongoException) && users == old(users)
        else
          && users == old(users) + [user]
          && FindFirst(users, UserEmail, user.email) == Some(user)
          && r == (if fault.Fails(2) then Thrown(MongoException) else Ok(true))
      ensures OneUserPerEmail(old(users)) ==> OneUserPerEmail(users)
    {
      if fault.Fails(0) {
        return Thrown(MongoException);
      }
      if FindFirst(users, UserEmail, user.email).Some? {
        return Thrown(IncorrectDaoOperation);
      }
      if fault.Fails(1) {
        return Thrown(MongoException);
      }
      FindFirstAppendFresh(users, user, UserEmail);
      if OneUserPerEmail(users) {
        UniqueKeysAppend(users, user, UserEmail);
      }
      users := users + [user];
      if fault.Fails(2) {
        return Thrown(MongoException);
      }
      var found := FindFirst(users, UserEmail, user.email);
      return Ok(found.Some?);
    }

    /** createUserSession: driver calls are 0 the lookup, then 1 the deleteMany if a session
        was found, then the insert. It always reports true once the insert returns. */
    method CreateUserSession(userId: string, jwt: string, fault: Fault) returns (r: Outcome<bool>)
      modifies this
      ensures users == old(users)
      ensures
        var found := HasMatch(old(sessions), SessionUserId, userId);
        var insertCall := if found then 2 else 1;
        if fault.Fails(0) || (found && fault.Fails(1)) then
          r == Thrown(MongoException) && sessions == old(sessions)
        else if fault.Fails(insertCall) then
          r == Thrown(MongoException) && sessions == DeleteMany(old(sessions), SessionUserId, userId)
        else
          r == Ok(true) && sessions == ReplaceSession(old(sessions), userId, jwt)
      ensures r == Ok(true) ==> Select(sessions, SessionUserId, userId) == [Session(userId, jwt)]
      ensures forall w :: w != userId ==>
        Select(sessions, SessionUserId, w) == Select(old(sessions), SessionUserId, w)
      ensures OneSessionPerUser(old(sessions)) ==> OneSessionPerUser(sessions)
    {
      var session := Session(userId, jwt);
      SessionReplacement(sessions, userId, jwt);
      forall w | w != userId ensures
        Select(DeleteMany(sessions, SessionUserId, userId), SessionUserId, w) == Select(sessions, SessionUserId, w)
      {
        SelectAfterDeleteMany(sessions, SessionUserId, userId, w);
      }
      if OneSessionPerUser(sessions) {
        UniqueKeysDeleteMany(sessions, SessionUserId, SessionUserId, userId);
      }
      if fault.Fails(0) {
        return Thrown(MongoException);
      }
      var call := 1;
      var oldSession := FindFirst(sessions, SessionUserId, userId);
      if oldSession.Some? {
        if fault.Fails(1) {
          return Thrown(MongoException);
        }
        sessions := DeleteMany(sessions, SessionUserId, userId);
        call := 2;
      }
      if fault.Fails(call) {
        return Thrown(MongoException);
      }
      sessions := sessions + [session];
      return Ok(true);
    }

    /** getUser: the first user with that email, or none; nothing changes. */
    method GetUser(email: string) returns (r: Option<User>)
      ensures r == FindFirst(users, UserEmail, email)
      ensures r.None? <==> !HasMatch(users, UserEmail, email)
      ensures r.Some? ==> r.value in users && r.value.email == email
      ensures OneUserPerEmail(users) ==> forall u :: u in users && u.email == email ==> r == Some(u)
    {
      r := FindFirst(users, UserEmail, email);
      if OneUserPerEmail(users) {
        forall u | u in users && u.email == email ensures r == Some(u) {
          FindFirstUnique(users, UserEmail, u);
        }
      }
    }

    /** getUserSession: the first session with that `user_id`, or none; nothing changes. */
    method GetUserSession(userId: string) returns (r: Option<Session>)
      ensures r == FindFirst(sessions, SessionUserId, userId)
      ensures r.None? <==> !HasMatch(sessions, SessionUserId, userId)
      ensures r.Some? ==> r.value in sessions && r.value.userId == userId
      ensures OneSessionPerUser(sessions) ==> forall s :: s in sessions && s.userId == userId ==> r == Some(s)
    {
      r := FindFirst(sessions, SessionUserId, userId);
      if OneSessionPerUser(sessions) {
        forall s | s in sessions && s.userId == userId ensures r == Some(s) {
          FindFirstUnique(sessions, SessionUserId, s);
        }
      }
    }

    /** deleteUserSessions: one deleteMany (call 0); true means acknowledged, also when
        nothing matched. */
    method DeleteUserSessions(userId: string, fault: Fault) returns (r: Outcome<bool>)
      modifies this
      ensures users == old(users)
      ensures fault.Fails(0) ==> r == Thrown(MongoException) && sessions == old(sessions)
      ensures !fault.Fails(0) ==>
        && r == Ok(true)
        && sessions == DeleteMany(old(sessions), SessionUserId, userId)
        && !HasMatch(sessions, SessionUserId, userId)
      ensures forall w :: w != userId ==>
        Select(sessions, SessionUserId, w) == Select(old(sessions), SessionUserId, w)
      ensures OneSessionPerUser(old(sessions)) ==> OneSessionPerUser(sessions)
    {
      if OneSessionPerUser(sessions) {
        UniqueKeysDeleteMany(sessions, SessionUserId, SessionUserId, userId);
      }
      forall w | w != userId ensures
        Select(DeleteMany(sessions, SessionUserId, userId), SessionUserId, w) == Select(sessions, SessionUserId, w)
      {
        SelectAfterDeleteMany(sessions, SessionUserId, userId, w);
      }
      if fault.Fails(0) {
        return Thrown(MongoException);
      }
      sessions := DeleteMany(sessions, SessionUserId, userId);
      return Ok(true);
    }

    /** deleteUser: the sessions keyed by the email go first (call 0), then the users with
        that email (call 1). A MongoException from either becomes false. */
    method DeleteUser(email: string, fault: Fault) returns (r: bool)
      modifies this
      ensures r <==> !fault.Fails(0) && !fault.Fails(1)
      ensures sessions == if fault.Fails(0) then old(sessions) else DeleteMany(old(sessions), SessionUserId, email)
      ensures users == if r then DeleteMany(old(users), UserEmail, email) else old(users)
      ensures r ==> !HasMatch(users, UserEmail, email) && !HasMatch(sessions, SessionUserId, email)
      ensures forall u :: u in old(users) && u.email != email ==> u in users
      ensures forall s :: s in old(sessions) && s.userId != email ==> s in sessions
      ensures OneUserPerEmail(old(users)) ==> OneUserPerEmail(users)
      ensures OneSessionPerUser(old(sessions)) ==> OneSessionPerUser(sessions)
    {
      DeleteUserCascade(users, sessions, email);
      var acknowledged := DeleteUserSessions(email, fault);
      if acknowledged.Thrown? {
        return false;
      }
      if fault.Fails(1) {
        return false;
      }
      users := DeleteMany(users, UserEmail, email);
      return true;
    }

    /** updateUserPreferences: null preferences report false without a driver call;
        otherwise one updateOne (call 0) replaces the preferences of the first user with that
        email. It reports true whenever the write is acknowledged, also when no user matched.
        A MongoException becomes IncorrectDaoOperation. */
    method UpdateUserPreferences(email: string, preferences: Option<Preferences>, fault: Fault)
      returns (r: Outcome<bool>)
      modifies this
      ensures sessions == old(sessions)
      ensures preferences.None? ==> r == Ok(false) && users == old(users)
      ensures preferences.Some? && fault.Fails(0) ==> r == Thrown(IncorrectDaoOperation) && users == old(users)
      ensures preferences.Some? && !fault.Fails(0) ==>
        && r == Ok(true)
        && users == match FirstIndex(old(users), UserEmail, email)
                    case None => old(users)
                    case Some(i) => old(users)[i := WithPreferences(old(users)[i], preferences.value)]
      ensures preferences.Some? && !fault.Fails(0) && HasMatch(old(users), UserEmail, email) ==>
        FindFirst(users, UserEmail, email) ==
          Some(WithPreferences(FindFirst(old(users), UserEmail, email).value, preferences.value))
      ensures OneUserPerEmail(old(users)) ==> OneUserPerEmail(users)
    {
      if preferences.None? {
        return Ok(false);
      }
      if fault.Fails(0) {
        return Thrown(IncorrectDaoOperation);
      }
      match FirstIndex(users, UserEmail, email) {
        case None =>
        case Some(i) =>
          var updated := WithPreferences(users[i], preferences.value);
          UpdateFirstMatch(users, UserEmail, email, i, updated);
          users := users[i := updated];
      }
      return Ok(true);
    }
  }

  /** Registration, login, re-login and account removal in a row, as a caller sees them. */
  method AccountLifecycle(user: User, jwt1: string, jwt2: string)
  {
    var dao := new UserDao([], []);
    var added := dao.AddUser(user, Healthy);
    assert added == Ok(true);
    var again := dao.AddUser(user, Healthy);
    assert again == Thrown(IncorrectDaoOperation);
    assert Select(dao.users, UserEmail, user.email) == [user];
    var first := dao.CreateUserSession(user.email, jwt1, Healthy);
    var second := dao.CreateUserSession(user.email, jwt2, Healthy);
    var session := dao.GetUserSession(user.email);
    assert session == Some(Session(user.email, jwt2));
    var deleted := dao.DeleteUser(user.email, Healthy);
    assert deleted;
    var gone := dao.GetUser(user.email);
    var noSession := dao.GetUserSession(user.email);
    assert gone == None && noSession == None;
  }
}
