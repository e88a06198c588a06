/**
 * The authentication adapter: the identity operations the session framework
 * calls, each turned into one or two statements against the four tables.
 * Lookups are pure functions of the tables; operations that insert, update
 * or delete rows are methods of `Adapter`, whose fields are the tables.
 */
module DrizzleAdapter {
  import opened Wrappers
  import opened Ids
  import opened Tables
  import opened Schema

  // ===================== what the caller passes and receives =====================

  /** A user as the framework sees it: the serial id rendered as a string. */
  datatype AdapterUser = AdapterUser(
    id: string,
    name: string,
    email: string,
    emailVerified: Option<int>,
    image: Option<string>)

  /** A session row as returned: `{ ...row, userId: String(row.userId) }`; the numeric `id` is kept. */
  datatype AdapterSession = AdapterSession(
    id: nat,
    sessionToken: string,
    userId: string,
    expires: int)

  datatype SessionAndUser = SessionAndUser(session: AdapterSession, user: AdapterUser)

  /**
   * What updateUser resolves to: the updated row with the caller's id string,
   * or, when no row had that id, an object holding nothing but that id
   * (`{ ...undefined, id }`).
   */
  datatype UpdatedUser = FullUser(user: AdapterUser) | IdOnly(id: string)
  {
    function Id(): string
    {
      match this
      case FullUser(u) => u.id
      case IdOnly(id) => id
    }
  }

  /** createUser's argument. The framework may omit `name` (an email sign-up does). */
  datatype NewUser = NewUser(
    name: Field<string>,
    email: string,
    emailVerified: Field<int>,
    image: Field<string>)

  /** updateUser's argument: an id and any subset of the other fields. */
  datatype UserPatch = UserPatch(
    id: string,
    name: Field<string>,
    email: Field<string>,
    emailVerified: Field<int>,
    image: Field<string>)

  /** linkAccount's argument; `expiresAt` is in seconds. */
  datatype NewAccount = NewAccount(
    userId: string,
    accountType: string,
    provider: string,
    providerAccountId: string,
    refreshToken: Field<string>,
    accessToken: Field<string>,
    expiresAt: Field<int>,
    tokenType: Field<string>,
    scope: Field<string>,
    idToken: Field<string>)

  datatype NewSession = NewSession(sessionToken: string, userId: string, expires: int)

  /** updateSession's argument: a session token and optionally a new expiry and owner. */
  datatype SessionPatch = SessionPatch(sessionToken: string, expires: Field<int>, userId: Field<string>)

  // ===================== WHERE clauses =====================

  function HasId(n: nat): UserRow -> bool
  {
    (u: UserRow) => u.id == n
  }

  function HasEmail(email: string): UserRow -> bool
  {
    (u: UserRow) => u.email == email
  }

  function HasSessionToken(sessionToken: string): SessionRow -> bool
  {
    (s: SessionRow) => s.sessionToken == sessionToken
  }

  /**
   * The account filter as the code builds it: `eq(provider) && eq(providerAccountId)`
   * is a JavaScript `&&` of two truthy query objects, so only the second reaches the query.
   */
  function AccountFilterAsWritten(provider: string, providerAccountId: string): AccountRow -> bool
  {
    (a: AccountRow) => a.providerAccountId == providerAccountId
  }

  /** The compound filter the account lookups evidently mean. */
  function AccountFilter(provider: string, providerAccountId: string): AccountRow -> bool
  {
    (a: AccountRow) => a.provider == provider && a.providerAccountId == providerAccountId
  }

  /** The verification-token filter as the code builds it: the identifier drops out. */
  function TokenFilterAsWritten(identifier: string, token: string): VerificationToken -> bool
  {
    (t: VerificationToken) => t.token == token
  }

  /** The compound filter useVerificationToken evidently means. */
  function TokenFilter(identifier: string, token: string): VerificationToken -> bool
  {
    (t: VerificationToken) => t.identifier == identifier && t.token == token
  }

  // ===================== reshaping at the id boundary =====================

  /** `{ ...row, id: String(row.id) }`: the id becomes a canonical numeral that reads back as the row's id. */
  function ToAdapterUser(u: UserRow): (r: AdapterUser)
    ensures IsCanonical(r.id) && ParseId(r.id) == Some(u.id)
    ensures r.name == u.name && r.email == u.email && r.emailVerified == u.emailVerified && r.image == u.image
  {
    IdRoundTrip(u.id);
    AdapterUser(IdToString(u.id), u.name, u.email, u.emailVerified, u.image)
  }

  /** The string boundary loses nothing: distinct rows give distinct adapter users. */
  lemma ToAdapterUserInjective(a: UserRow, b: UserRow)
    ensures ToAdapterUser(a) == ToAdapterUser(b) ==> a == b
  {
    IdToStringInjective(a.id, b.id);
  }

  /** `{ ...row, userId: String(row.userId) }`. */
  function ToAdapterSession(s: SessionRow): (r: AdapterSession)
    ensures IsCanonical(r.userId) && ParseId(r.userId) == Some(s.userId)
    ensures r.id == s.id && r.sessionToken == s.sessionToken && r.expires == s.expires
  {
    IdRoundTrip(s.userId);
    AdapterSession(s.id, s.sessionToken, IdToString(s.userId), s.expires)
  }

  // ===================== lookups =====================

  /** The user row with serial id `n`, reshaped, or null. */
  function UserById(users: seq<UserRow>, n: nat): (r: Option<AdapterUser>)
    ensures r.None? <==> forall u :: u in users ==> u.id != n
    ensures r.Some? ==> exists u :: u in users && u.id == n && r.value == ToAdapterUser(u)
  {
    match SelectFirst(users, HasId(n))
    case None => None
    case Some(u) => Some(ToAdapterUser(u))
  }

  /** getUser: `Number(id)` keys the select; a string that is no integer makes the query fail. */
  function GetUser(users: seq<UserRow>, id: string): (r: Result<Option<AdapterUser>, Failure>)
    ensures r.Err? <==> ParseId(id).None?
    ensures r.Err? ==> r.error == InvalidInteger(id)
    ensures r.Ok? && r.value.None? ==> forall u :: u in users ==> u.id != ParseId(id).value
    ensures r.Ok? && r.value.Some? ==>
      exists u :: u in users && u.id == ParseId(id).value && r.value.value == ToAdapterUser(u)
  {
    match ParseId(id)
    case None => Err(InvalidInteger(id))
    case Some(n) => Ok(UserById(users, n))
  }

  /** getUserByEmail: exact match on the email column. */
  function GetUserByEmail(users: seq<UserRow>, email: string): (r: Option<AdapterUser>)
    ensures r.None? <==> forall u :: u in users ==> u.email != email
    ensures r.Some? ==> exists u :: u in users && u.email == email && r.value == ToAdapterUser(u)
  {
    match SelectFirst(users, HasEmail(email))
    case None => None
    case Some(u) => Some(ToAdapterUser(u))
  }

  /**
   * getUserByAccount as written: the first account whose providerAccountId
   * matches, whatever its provider, then the user that account names.
   */
  function GetUserByAccount(users: seq<UserRow>, accounts: seq<AccountRow>, provider: string, providerAccountId: string)
    : (r: Option<AdapterUser>)
    ensures (forall a :: a in accounts ==> a.providerAccountId != providerAccountId) ==> r.None?
    ensures (forall a :: a in accounts && a.providerAccountId == providerAccountId ==>
               forall u :: u in users ==> u.id != a.userId) ==> r.None?
    ensures r.Some? ==>
      exists a, u :: a in accounts && a.providerAccountId == providerAccountId &&
        u in users && u.id == a.userId && r.value == ToAdapterUser(u)
    ensures forall k ::
      (0 <= k < |accounts| && accounts[k].providerAccountId == providerAccountId &&
       (forall j :: 0 <= j < k ==> accounts[j].providerAccountId != providerAccountId))
      ==> r == UserById(users, accounts[k].userId)
  {
    match SelectFirst(accounts, AccountFilterAsWritten(provider, providerAccountId))
    case None => None
    case Some(a) => UserById(users, a.userId)
  }

  /** getUserByAccount with the compound filter it evidently means. */
  function GetUserByAccountCorrected(users: seq<UserRow>, accounts: seq<AccountRow>, provider: string, providerAccountId: string)
    : (r: Option<AdapterUser>)
    ensures (forall a :: a in accounts ==> a.provider != provider || a.providerAccountId != providerAccountId) ==> r.None?
    ensures r.Some? ==>
      exists a, u :: a in accounts && a.provider == provider && a.providerAccountId == providerAccountId &&
        u in users && u.id == a.userId && r.value == ToAdapterUser(u)
    ensures forall k ::
      (0 <= k < |accounts| && accounts[k].provider == provider && accounts[k].providerAccountId == providerAccountId &&
       (forall j :: 0 <= j < k ==> accounts[j].provider != provider || accounts[j].providerAccountId != providerAccountId))
      ==> r == UserById(users, accounts[k].userId)
  {
    match SelectFirst(accounts, AccountFilter(provider, providerAccountId))
    case None => None
    case Some(a) => UserById(users, a.userId)
  }

  /**
   * getSessionAndUser: null when no session has the token; when the session's
   * user row is missing, reading `user.id` on null throws.
   */
  function GetSessionAndUser(sessions: seq<SessionRow>, users: seq<UserRow>, sessionToken: string)
    : (r: Result<Option<SessionAndUser>, Failure>)
    ensures r == Ok(None) <==> forall s :: s in sessions ==> s.sessionToken != sessionToken
    ensures r.Err? ==>
      && r.error == NullDereference
      && exists s :: s in sessions && s.sessionToken == sessionToken && forall u :: u in users ==> u.id != s.userId
    ensures r.Ok? && r.value.Some? ==>
      exists s :: s in sessions && s.sessionToken == sessionToken &&
        r.value.value.session == ToAdapterSession(s) && UserById(users, s.userId) == Some(r.value.value.user)
  {
    match SelectFirst(sessions, HasSessionToken(sessionToken))
    case None => Ok(None)
    case Some(s) =>
      match UserById(users, s.userId)
      case None => Err(NullDereference)
      case Some(u) => Ok(Some(SessionAndUser(ToAdapterSession(s), u)))
  }

  /**
   * The converse of getSessionAndUser's error case: in a valid sessions
   * table, a stored session whose user row is missing makes the call throw.
   */
  lemma OrphanedSessionThrows(sessions: seq<SessionRow>, users: seq<UserRow>, nextId: nat, s: SessionRow)
    requires SessionsValid(sessions, nextId)
    requires s in sessions
    requires forall u :: u in users ==> u.id != s.userId
    ensures GetSessionAndUser(sessions, users, s.sessionToken) == Err(NullDereference)
  {
    var k :| 0 <= k < |sessions| && sessions[k] == s;
    forall j | 0 <= j < |sessions| && j != k ensures !HasSessionToken(s.sessionToken)(sessions[j]) {
      if sessions[j].sessionToken == s.sessionToken {
        SessionKeysNameOneRow(sessions, nextId, j, k);
      }
    }
    SelectOnly(sessions, HasSessionToken(s.sessionToken), k);
  }

  /** The select in useVerificationToken as written: the record is found by token alone. */
  function FindVerificationToken(tokens: seq<VerificationToken>, identifier: string, token: string)
    : (r: Option<VerificationToken>)
    ensures r.None? <==> forall t :: t in tokens ==> t.token != token
    ensures r.Some? ==> r.value in tokens && r.value.token == token
  {
    SelectFirst(tokens, TokenFilterAsWritten(identifier, token))
  }

  /** The select useVerificationToken evidently means: identifier and token both match. */
  function FindVerificationTokenCorrected(tokens: seq<VerificationToken>, identifier: string, token: string)
    : (r: Option<VerificationToken>)
    ensures r.None? <==> forall t :: t in tokens ==> t.identifier != identifier || t.token != token
    ensures r.Some? ==> r.value in tokens && r.value.identifier == identifier && r.value.token == token
  {
    SelectFirst(tokens, TokenFilter(identifier, token))
  }

  // ===================== row construction and update sets =====================

  /**
   * `expires_at ? new Date(expires_at * 1000) : null`: seconds become a
   * millisecond timestamp; a missing value and 0 (falsy) become null.
   */
  function ExpiresAtMillis(expiresAt: Field<int>): (r: Option<int>)
    ensures r.Some? <==> expiresAt.Defined? && expiresAt.value != 0
    ensures r.Some? ==> r.value % 1000 == 0 && r.value / 1000 == expiresAt.value
  {
    if expiresAt.Defined? && expiresAt.value != 0 then Some(expiresAt.value * 1000) else None
  }

  /** The row linkAccount inserts for account `account`, owner `userId`, serial `id`. */
  function LinkedAccountRow(id: nat, userId: nat, account: NewAccount): AccountRow
  {
    AccountRow(id, userId, account.accountType, account.provider, account.providerAccountId,
      OrNull(account.refreshToken), OrNull(account.accessToken), ExpiresAtMillis(account.expiresAt),
      OrNull(account.tokenType), OrNull(account.scope), OrNull(account.idToken))
  }

  /** The row updateUser promises: each field the caller supplied over the stored one. */
  function PatchedUser(u: UserRow, patch: UserPatch): UserRow
  {
    UserRow(
      u.id,
      if patch.name.Defined? then patch.name.value else u.name,
      if patch.email.Defined? then patch.email.value else u.email,
      if patch.emailVerified.Undefined? then u.emailVerified else OrNull(patch.emailVerified),
      if patch.image.Defined? then Some(patch.image.value) else u.image)
  }

  /** Nothing for updateUser to set: name, email and image null or missing, emailVerified missing. */
  predicate UserPatchIsEmpty(patch: UserPatch)
  {
    !patch.name.Defined? && !patch.email.Defined? && !patch.image.Defined? && patch.emailVerified.Undefined?
  }

  /** The set clause updateUser builds: a column is listed with its new value or left out. */
  datatype UserChanges = UserChanges(
    name: Option<string>,
    email: Option<string>,
    image: Option<string>,
    emailVerified: Option<Option<int>>)

  const NoUserChanges := UserChanges(None, None, None, None)

  /**
   * updateUser's `dataToUpdate`: name, email and image listed when neither
   * undefined nor null, emailVerified whenever not undefined. Setting it is
   * the merge `PatchedUser` describes, and it is empty exactly when the patch is.
   */
  function UserChangesOf(patch: UserPatch): (c: UserChanges)
    ensures c == NoUserChanges <==> UserPatchIsEmpty(patch)
    ensures forall u :: ApplyUserChanges(u, c) == PatchedUser(u, patch)
  {
    UserChanges(
      if patch.name.Defined? then Some(patch.name.value) else None,
      if patch.email.Defined? then Some(patch.email.value) else None,
      if patch.image.Defined? then Some(patch.image.value) else None,
      if patch.emailVerified.Undefined? then None else Some(OrNull(patch.emailVerified)))
  }

  function ApplyUserChanges(u: UserRow, c: UserChanges): UserRow
  {
    u.(name := if c.name.Some? then c.name.value else u.name,
       email := if c.email.Some? then c.email.value else u.email,
       image := if c.image.Some? then Some(c.image.value) else u.image,
       emailVerified := if c.emailVerified.Some? then c.emailVerified.value else u.emailVerified)
  }

  /** The updated row still fits its columns. */
  predicate UserUpdateFits(users: seq<UserRow>, n: nat, patch: UserPatch)
  {
    forall u :: u in users && u.id == n ==> UserFits(PatchedUser(u, patch))
  }

  /** The updated row's email is no other row's email. */
  predicate UserUpdateKeepsEmailUnique(users: seq<UserRow>, n: nat, patch: UserPatch)
  {
    forall u, v :: u in users && v in users && u.id == n && v.id != n ==> v.email != PatchedUser(u, patch).email
  }

  /** The database accepts updateUser's statement exactly when its email index still holds. */
  lemma {:induction false} UpdatedUsersApart(users: seq<UserRow>, nextId: nat, n: nat, patch: UserPatch, updated: seq<UserRow>)
    requires UsersValid(users, nextId)
    requires |updated| == |users|
    requires forall i :: 0 <= i < |users| ==>
      updated[i] == if users[i].id == n then PatchedUser(users[i], patch) else users[i]
    ensures Pairwise(updated, UsersApart) <==> UserUpdateKeepsEmailUnique(users, n, patch)
  {
    if UserUpdateKeepsEmailUnique(users, n, patch) {
      forall i, j | 0 <= i < j < |updated| ensures UsersApart(updated[i], updated[j]) {
        assert UsersApart(users[i], users[j]);
        assert users[i] in users && users[j] in users;
      }
    }
    if Pairwise(updated, UsersApart) {
      forall u, v | u in users && v in users && u.id == n && v.id != n
        ensures v.email != PatchedUser(u, patch).email
      {
        var i :| 0 <= i < |users| && users[i] == u;
        var j :| 0 <= j < |users| && users[j] == v;
        if i < j {
          assert UsersApart(updated[i], updated[j]);
        } else {
          assert UsersApart(updated[j], updated[i]);
        }
      }
    }
  }

  /** Some updated row is too long for its columns exactly when the patched row is. */
  lemma UpdatedUsersFit(users: seq<UserRow>, nextId: nat, n: nat, patch: UserPatch, updated: seq<UserRow>)
    requires UsersValid(users, nextId)
    requires |updated| == |users|
    requires forall i :: 0 <= i < |users| ==>
      updated[i] == if users[i].id == n then PatchedUser(users[i], patch) else users[i]
    ensures (forall i :: 0 <= i < |updated| ==> UserFits(updated[i])) <==> UserUpdateFits(users, n, patch)
  {
    if UserUpdateFits(users, n, patch) {
      forall i | 0 <= i < |updated| ensures UserFits(updated[i]) {
        assert users[i] in users;
      }
    }
  }

  /** An update the database accepts leaves the users table valid: ids are unchanged. */
  lemma UpdatedUsersValid(users: seq<UserRow>, nextId: nat, n: nat, patch: UserPatch, updated: seq<UserRow>)
    requires UsersValid(users, nextId)
    requires |updated| == |users|
    requires forall i :: 0 <= i < |users| ==>
      updated[i] == if users[i].id == n then PatchedUser(users[i], patch) else users[i]
    requires forall i :: 0 <= i < |updated| ==> UserFits(updated[i])
    requires Pairwise(updated, UsersApart)
    ensures UsersValid(updated, nextId)
  {
    forall i | 0 <= i < |updated| ensures 0 < updated[i].id < nextId {
      assert updated[i].id == users[i].id;
    }
  }

  /** After updateUser's statement the first row with the id is the patched row; there is one exactly when there was one before. */
  lemma UpdatedUserLookup(users: seq<UserRow>, n: nat, patch: UserPatch, updated: seq<UserRow>)
    requires |updated| == |users|
    requires forall i :: 0 <= i < |users| ==>
      updated[i] == if users[i].id == n then PatchedUser(users[i], patch) else users[i]
    ensures var k := FirstIndex(updated, HasId(n));
      && (k == |updated| <==> forall u :: u in users ==> u.id != n)
      && (k < |updated| ==> users[k].id == n && updated[k] == PatchedUser(users[k], patch))
  {
    var k := FirstIndex(updated, HasId(n));
    if k == |updated| {
      forall u | u in users ensures u.id != n {
        var i :| 0 <= i < |users| && users[i] == u;
        assert !HasId(n)(updated[i]);
      }
    } else {
      assert HasId(n)(updated[k]);
    }
  }

  /** updateSession can resolve `Number(userId)` when it sets the owner at all. */
  predicate SessionPatchParses(patch: SessionPatch)
  {
    patch.userId.Defined? ==> ParseId(patch.userId.value).Some?
  }

  /** Nothing for updateSession to set: expires and userId both null or missing. */
  predicate SessionPatchIsEmpty(patch: SessionPatch)
  {
    !patch.expires.Defined? && !patch.userId.Defined?
  }

  /** The row updateSession promises: a supplied expiry and owner over the stored ones. */
  function PatchedSession(s: SessionRow, patch: SessionPatch): SessionRow
    requires SessionPatchParses(patch)
  {
    s.(expires := if patch.expires.Defined? then patch.expires.value else s.expires,
       userId := if patch.userId.Defined? then ParseId(patch.userId.value).value else s.userId)
  }

  /** updateSession's statement keeps the sessions table valid: ids and tokens are unchanged. */
  lemma UpdatedSessionsValid(sessions: seq<SessionRow>, nextId: nat, patch: SessionPatch, updated: seq<SessionRow>)
    requires SessionsValid(sessions, nextId)
    requires SessionPatchParses(patch)
    requires |updated| == |sessions|
    requires forall i :: 0 <= i < |sessions| ==>
      updated[i] == if sessions[i].sessionToken == patch.sessionToken then PatchedSession(sessions[i], patch) else sessions[i]
    ensures SessionsValid(updated, nextId)
  {
    forall i, j | 0 <= i < j < |updated| ensures SessionsApart(updated[i], updated[j]) {
      assert SessionsApart(sessions[i], sessions[j]);
    }
  }

  /**
   * After updateSession's statement the first row with the token is the
   * patched row; there is one exactly when there was one before, and when
   * there is none the table is unchanged.
   */
  lemma UpdatedSessionLookup(sessions: seq<SessionRow>, patch: SessionPatch, updated: seq<SessionRow>)
    requires SessionPatchParses(patch)
    requires |updated| == |sessions|
    requires forall i :: 0 <= i < |sessions| ==>
      updated[i] == if sessions[i].sessionToken == patch.sessionToken then PatchedSession(sessions[i], patch) else sessions[i]
    ensures var k := FirstIndex(updated, HasSessionToken(patch.sessionToken));
      && (k == |updated| <==> forall s :: s in sessions ==> s.sessionToken != patch.sessionToken)
      && (k == |updated| ==> updated == sessions)
      && (k < |updated| ==> sessions[k].sessionToken == patch.sessionToken && updated[k] == PatchedSession(sessions[k], patch))
  {
    var k := FirstIndex(updated, HasSessionToken(patch.sessionToken));
    if k == |updated| {
      forall s | s in sessions ensures s.sessionToken != patch.sessionToken {
        var i :| 0 <= i < |sessions| && sessions[i] == s;
        assert !HasSessionToken(patch.sessionToken)(updated[i]);
      }
      assert updated == sessions;
    } else {
      assert HasSessionToken(patch.sessionToken)(updated[k]);
    }
  }

  /** The set clause updateSession builds. */
  datatype SessionChanges = SessionChanges(expires: Option<int>, userId: Option<string>)

  /**
   * updateSession's set clause: expires and userId listed when neither
   * undefined nor null; userId still as the caller's text, which the
   * statement converts with `Number`. Setting it is the merge
   * `PatchedSession` describes.
   */
  function SessionChangesOf(patch: SessionPatch): (c: SessionChanges)
    ensures c == SessionChanges(None, None) <==> SessionPatchIsEmpty(patch)
    ensures (c.userId.Some? ==> ParseId(c.userId.value).Some?) <==> SessionPatchParses(patch)
    ensures !SessionPatchParses(patch) ==> c.userId == Some(patch.userId.value)
    ensures SessionPatchParses(patch) ==> forall s :: ApplySessionChanges(s, c) == PatchedSession(s, patch)
  {
    SessionChanges(
      if patch.expires.Defined? then Some(patch.expires.value) else None,
      if patch.userId.Defined? then Some(patch.userId.value) else None)
  }

  function ApplySessionChanges(s: SessionRow, c: SessionChanges): SessionRow
    requires c.userId.Some? ==> ParseId(c.userId.value).Some?
  {
    s.(expires := if c.expires.Some? then c.expires.value else s.expires,
       userId := if c.userId.Some? then ParseId(c.userId.value).value else s.userId)
  }

  // ===================== the adapter over its database =====================

  /**
   * The adapter bound to its database. The four fields are the tables in
   * storage order; the three counters are the next values of the serial
   * sequences behind users.id, accounts.id and sessions.id.
   */
  class Adapter {
    var users: seq<UserRow>
    var accounts: seq<AccountRow>
    var sessions: seq<SessionRow>
    var verificationTokens: seq<VerificationToken>
    var nextUserId: nat
    var nextAccountId: nat
    var nextSessionId: nat

    /** Every table keeps its column lengths, its keys and its unique indexes. */
    ghost predicate Valid()
      reads this
    {
      && 0 < nextUserId && 0 < nextAccountId && 0 < nextSessionId
      && UsersValid(users, nextUserId)
      && AccountsValid(accounts, nextAccountId)
      && SessionsValid(sessions, nextSessionId)
      && TokensValid(verificationTokens)
    }

    /** An adapter over an empty database; every serial sequence starts at 1. */
    constructor ()
      ensures Valid()
      ensures users == [] && accounts == [] && sessions == [] && verificationTokens == []
      ensures nextUserId == 1 && nextAccountId == 1 && nextSessionId == 1
    {
      users, accounts, sessions, verificationTokens := [], [], [], [];
      nextUserId, nextAccountId, nextSessionId := 1, 1, 1;
    }

    /**
     * createUser: inserts one row, absent emailVerified and image stored as
     * null, and returns it with its serial id as a string.
     */
    method CreateUser(user: NewUser) returns (r: Result<AdapterUser, Failure>)
      requires Valid()
      modifies this`users, this`nextUserId
      ensures Valid()
      ensures r.Err? <==>
        |user.email| > MaxLong || !user.name.Defined? || |user.name.value| > MaxLong || EmailTaken(old(users), user.email)
      ensures r.Err? ==> users == old(users) && nextUserId == old(nextUserId)
      ensures r.Err? ==>
        r.error == (if |user.email| > MaxLong || (user.name.Defined? && |user.name.value| > MaxLong) then ValueTooLong
                    else if !user.name.Defined? then NotNullViolation("name")
                    else UniqueViolation(UsersEmailIndex))
      ensures r.Ok? ==>
        var row := UserRow(old(nextUserId), user.name.value, user.email, OrNull(user.emailVerified), OrNull(user.image));
        users == old(users) + [row] && nextUserId == old(nextUserId) + 1 && r.value == ToAdapterUser(row)
      ensures r.Ok? ==> GetUser(users, r.value.id) == Ok(Some(r.value))
      ensures r.Ok? ==> GetUserByEmail(users, user.email) == Some(r.value)
    {
      if |user.email| > MaxLong || (user.name.Defined? && |user.name.value| > MaxLong) {
        return Err(ValueTooLong);
      }
      if !user.name.Defined? {
        return Err(NotNullViolation("name"));
      }
      if EmailTaken(users, user.email) {
        return Err(UniqueViolation(UsersEmailIndex));
      }
      var row := UserRow(nextUserId, user.name.value, user.email, OrNull(user.emailVerified), OrNull(user.image));
      PairwiseAppend(users, row, UsersApart);
      SelectOnly(users + [row], HasId(row.id), |users|);
      SelectOnly(users + [row], HasEmail(row.email), |users|);
      users := users + [row];
      nextUserId := nextUserId + 1;
      r := Ok(ToAdapterUser(row));
    }

    /**
     * updateUser: copies name, email and image when they are neither
     * undefined nor null, emailVerified whenever it is not undefined (so an
     * explicit null clears it), updates the row with that id and answers
     * with the caller's id string.
     */
    method UpdateUser(patch: UserPatch) returns (r: Result<UpdatedUser, Failure>)
      requires Valid()
      modifies this`users
      ensures Valid()
      ensures UserPatchIsEmpty(patch) ==> r == Err(NoValuesToSet)
      ensures !UserPatchIsEmpty(patch) && ParseId(patch.id).None? ==> r == Err(InvalidInteger(patch.id))
      ensures !UserPatchIsEmpty(patch) && ParseId(patch.id).Some? ==>
        var n := ParseId(patch.id).value;
        && (r == Err(ValueTooLong) <==> !UserUpdateFits(old(users), n, patch))
        && (r == Err(UniqueViolation(UsersEmailIndex)) <==>
              UserUpdateFits(old(users), n, patch) && !UserUpdateKeepsEmailUnique(old(users), n, patch))
      ensures r.Ok? <==>
        && !UserPatchIsEmpty(patch) && ParseId(patch.id).Some?
        && UserUpdateFits(old(users), ParseId(patch.id).value, patch)
        && UserUpdateKeepsEmailUnique(old(users), ParseId(patch.id).value, patch)
      ensures r.Err? ==> users == old(users)
      ensures r.Ok? ==>
        var n := ParseId(patch.id).value;
        && |users| == |old(users)|
        && (forall i :: 0 <= i < |users| ==>
              users[i] == if old(users)[i].id == n then PatchedUser(old(users)[i], patch) else old(users)[i])
        && r.value.Id() == patch.id
        && (r.value.IdOnly? <==> forall u :: u in old(users) ==> u.id != n)
        && (r.value.FullUser? ==>
              exists u :: u in old(users) && u.id == n && r.value.user == ToAdapterUser(PatchedUser(u, patch)).(id := patch.id))
    {
      var dataToUpdate := UserChangesOf(patch);
      if dataToUpdate == NoUserChanges {
        return Err(NoValuesToSet);
      }
      var id := ParseId(patch.id);
      if id.None? {
        return Err(InvalidInteger(patch.id));
      }
      var n := id.value;
      var updated := UpdateWhere(users, HasId(n), (u: UserRow) => ApplyUserChanges(u, dataToUpdate));
      forall i | 0 <= i < |users|
        ensures updated[i] == if users[i].id == n then PatchedUser(users[i], patch) else users[i]
      {
      }
      UpdatedUsersFit(users, nextUserId, n, patch, updated);
      UpdatedUsersApart(users, nextUserId, n, patch, updated);
      if exists i :: 0 <= i < |updated| && !UserFits(updated[i]) {
        return Err(ValueTooLong);
      }
      if !Pairwise(updated, UsersApart) {
        return Err(UniqueViolation(UsersEmailIndex));
      }
      UpdatedUserLookup(users, n, patch, updated);
      UpdatedUsersValid(users, nextUserId, n, patch, updated);
      ghost var before := users;
      users := updated;
      var k := FirstIndex(updated, HasId(n));
      if k == |updated| {
        r := Ok(IdOnly(patch.id));
      } else {
        assert before[k] in before;
        r := Ok(FullUser(ToAdapterUser(updated[k]).(id := patch.id)));
      }
    }

    /** deleteUser: removes the row with that id; accounts and sessions stay (no cascade). */
    method DeleteUser(id: string) returns (r: Result<(), Failure>)
      requires Valid()
      modifies this`users
      ensures Valid()
      ensures ParseId(id).None? ==> r == Err(InvalidInteger(id)) && users == old(users)
      ensures ParseId(id).Some? ==> r == Ok(()) && users == DeleteWhere(old(users), HasId(ParseId(id).value))
      ensures ParseId(id).Some? ==> forall u :: u in users <==> u in old(users) && u.id != ParseId(id).value
      ensures ParseId(id).Some? ==> GetUser(users, id) == Ok(None)
      ensures accounts == old(accounts) && sessions == old(sessions)
    {
      var n := ParseId(id);
      if n.None? {
        return Err(InvalidInteger(id));
      }
      DeleteWhereKeepsPairwise(users, HasId(n.value), UsersApart);
      users := DeleteWhere(users, HasId(n.value));
      forall i | 0 <= i < |users| ensures 0 < users[i].id < nextUserId && UserFits(users[i]) {
        assert users[i] in old(users);
      }
      r := Ok(());
    }

    /**
     * linkAccount: inserts one account row; token fields and scope default
     * to null and expires_at is converted from seconds to milliseconds.
     */
    method LinkAccount(account: NewAccount) returns (r: Result<(), Failure>)
      requires Valid()
      modifies this`accounts, this`nextAccountId
      ensures Valid()
      ensures ParseId(account.userId).None? ==> r == Err(InvalidInteger(account.userId))
      ensures ParseId(account.userId).Some? ==>
        (r == Err(ValueTooLong) <==>
          |account.accountType| > MaxShort || |account.provider| > MaxShort || |account.providerAccountId| > MaxLong)
      ensures ParseId(account.userId).Some? && r.Err? && r.error != ValueTooLong ==>
        r.error == UniqueViolation(AccountsProviderIndex) &&
        ProviderAccountTaken(old(accounts), account.provider, account.providerAccountId)
      ensures r.Err? ==> accounts == old(accounts) && nextAccountId == old(nextAccountId)
      ensures r.Ok? ==>
        && ParseId(account.userId).Some?
        && !ProviderAccountTaken(old(accounts), account.provider, account.providerAccountId)
        && accounts == old(accounts) + [LinkedAccountRow(old(nextAccountId), ParseId(account.userId).value, account)]
        && nextAccountId == old(nextAccountId) + 1
      ensures r.Ok? ==>
        GetUserByAccountCorrected(users, accounts, account.provider, account.providerAccountId)
          == UserById(users, ParseId(account.userId).value)
      ensures r.Ok? && (forall a :: a in old(accounts) ==> a.providerAccountId != account.providerAccountId) ==>
        GetUserByAccount(users, accounts, account.provider, account.providerAccountId)
          == UserById(users, ParseId(account.userId).value)
    {
      var userId := ParseId(account.userId);
      if userId.None? {
        return Err(InvalidInteger(account.userId));
      }
      if |account.accountType| > MaxShort || |account.provider| > MaxShort || |account.providerAccountId| > MaxLong {
        return Err(ValueTooLong);
      }
      if ProviderAccountTaken(accounts, account.provider, account.providerAccountId) {
        return Err(UniqueViolation(AccountsProviderIndex));
      }
      var row := LinkedAccountRow(nextAccountId, userId.value, account);
      PairwiseAppend(accounts, row, AccountsApart);
      SelectOnly(accounts + [row], AccountFilter(account.provider, account.providerAccountId), |accounts|);
      if forall a :: a in accounts ==> a.providerAccountId != account.providerAccountId {
        SelectOnly(accounts + [row], AccountFilterAsWritten(account.provider, account.providerAccountId), |accounts|);
      }
      accounts := accounts + [row];
      nextAccountId := nextAccountId + 1;
      r := Ok(());
    }

    /**
     * unlinkAccount as written: deletes every account whose providerAccountId
     * matches, whatever its provider.
     */
    method UnlinkAccount(provider: string, providerAccountId: string)
      requires Valid()
      modifies this`accounts
      ensures Valid()
      ensures accounts == DeleteWhere(old(accounts), AccountFilterAsWritten(provider, providerAccountId))
      ensures forall a :: a in accounts <==> a in old(accounts) && a.providerAccountId != providerAccountId
      ensures forall p :: GetUserByAccount(users, accounts, p, providerAccountId).None?
    {
      DeleteWhereKeepsPairwise(accounts, AccountFilterAsWritten(provider, providerAccountId), AccountsApart);
      accounts := DeleteWhere(accounts, AccountFilterAsWritten(provider, providerAccountId));
      forall i | 0 <= i < |accounts| ensures 0 < accounts[i].id < nextAccountId && AccountFits(accounts[i]) {
        assert accounts[i] in old(accounts);
      }
    }

    /** createSession: inserts one session row and returns it with userId as a string. */
    method CreateSession(session: NewSession) returns (r: Result<AdapterSession, Failure>)
      requires Valid()
      modifies this`sessions, this`nextSessionId
      ensures Valid()
      ensures ParseId(session.userId).None? ==> r == Err(InvalidInteger(session.userId))
      ensures ParseId(session.userId).Some? ==>
        && (r == Err(ValueTooLong) <==> |session.sessionToken| > MaxLong)
        && (r == Err(UniqueViolation(SessionsTokenIndex)) <==>
              |session.sessionToken| <= MaxLong && SessionTokenTaken(old(sessions), session.sessionToken))
      ensures r.Err? <==>
        ParseId(session.userId).None? || |session.sessionToken| > MaxLong || SessionTokenTaken(old(sessions), session.sessionToken)
      ensures r.Err? ==> sessions == old(sessions) && nextSessionId == old(nextSessionId)
      ensures r.Ok? ==>
        var row := SessionRow(old(nextSessionId), session.sessionToken, ParseId(session.userId).value, session.expires);
        sessions == old(sessions) + [row] && nextSessionId == old(nextSessionId) + 1 && r.value == ToAdapterSession(row)
      ensures r.Ok? ==>
        GetSessionAndUser(sessions, users, session.sessionToken) ==
          match UserById(users, ParseId(session.userId).value)
          case None => Err(NullDereference)
          case Some(u) => Ok(Some(SessionAndUser(r.value, u)))
    {
      var userId := ParseId(session.userId);
      if userId.None? {
        return Err(InvalidInteger(session.userId));
      }
      if |session.sessionToken| > MaxLong {
        return Err(ValueTooLong);
      }
      if SessionTokenTaken(sessions, session.sessionToken) {
        return Err(UniqueViolation(SessionsTokenIndex));
      }
      var row := SessionRow(nextSessionId, session.sessionToken, userId.value, session.expires);
      PairwiseAppend(sessions, row, SessionsApart);
      SelectOnly(sessions + [row], HasSessionToken(row.sessionToken), |sessions|);
      sessions := sessions + [row];
      nextSessionId := nextSessionId + 1;
      r := Ok(ToAdapterSession(row));
    }

    /**
     * updateSession: sets expires and userId when they are neither undefined
     * nor null, on the row with that token; with no such row the result is
     * null and reading its userId throws.
     */
    method UpdateSession(patch: SessionPatch) returns (r: Result<AdapterSession, Failure>)
      requires Valid()
      modifies this`sessions
      ensures Valid()
      ensures SessionPatchIsEmpty(patch) ==> r == Err(NoValuesToSet)
      ensures !SessionPatchIsEmpty(patch) && !SessionPatchParses(patch) ==> r == Err(InvalidInteger(patch.userId.value))
      ensures !SessionPatchIsEmpty(patch) && SessionPatchParses(patch) ==>
        (r.Err? <==> forall s :: s in old(sessions) ==> s.sessionToken != patch.sessionToken)
      ensures !SessionPatchIsEmpty(patch) && SessionPatchParses(patch) && r.Err? ==> r.error == NullDereference
      ensures r.Err? ==> sessions == old(sessions)
      ensures r.Ok? ==>
        && !SessionPatchIsEmpty(patch) && SessionPatchParses(patch)
        && |sessions| == |old(sessions)|
        && (forall i :: 0 <= i < |sessions| ==>
              sessions[i] == if old(sessions)[i].sessionToken == patch.sessionToken
                             then PatchedSession(old(sessions)[i], patch) else old(sessions)[i])
        && exists s :: s in old(sessions) && s.sessionToken == patch.sessionToken &&
             r.value == ToAdapterSession(PatchedSession(s, patch))
    {
      var dataToUpdate := SessionChangesOf(patch);
      if dataToUpdate == SessionChanges(None, None) {
        return Err(NoValuesToSet);
      }
      if dataToUpdate.userId.Some? && ParseId(dataToUpdate.userId.value).None? {
        return Err(InvalidInteger(dataToUpdate.userId.value));
      }
      var updated := UpdateWhere(sessions, HasSessionToken(patch.sessionToken),
        (s: SessionRow) => ApplySessionChanges(s, dataToUpdate));
      forall i | 0 <= i < |sessions|
        ensures updated[i] == if sessions[i].sessionToken == patch.sessionToken
                              then PatchedSession(sessions[i], patch) else sessions[i]
      {
      }
      UpdatedSessionsValid(sessions, nextSessionId, patch, updated);
      UpdatedSessionLookup(sessions, patch, updated);
      ghost var before := sessions;
      sessions := updated;
      var k := FirstIndex(updated, HasSessionToken(patch.sessionToken));
      if k == |updated| {
        return Err(NullDereference);
      }
      assert before[k] in before;
      r := Ok(ToAdapterSession(updated[k]));
    }

    /** deleteSession: removes the session with that token and nothing else. */
    method DeleteSession(sessionToken: string)
      requires Valid()
      modifies this`sessions
      ensures Valid()
      ensures sessions == DeleteWhere(old(sessions), HasSessionToken(sessionToken))
      ensures forall s :: s in sessions <==> s in old(sessions) && s.sessionToken != sessionToken
      ensures GetSessionAndUser(sessions, users, sessionToken) == Ok(None)
    {
      DeleteWhereKeepsPairwise(sessions, HasSessionToken(sessionToken), SessionsApart);
      sessions := DeleteWhere(sessions, HasSessionToken(sessionToken));
      forall i | 0 <= i < |sessions| ensures 0 < sessions[i].id < nextSessionId && SessionFits(sessions[i]) {
        assert sessions[i] in old(sessions);
      }
    }

    /** createVerificationToken: inserts the record and returns it unchanged. */
    method CreateVerificationToken(token: VerificationToken) returns (r: Result<VerificationToken, Failure>)
      requires Valid()
      modifies this`verificationTokens
      ensures Valid()
      ensures r == Err(ValueTooLong) <==> !TokenFits(token)
      ensures r == Err(UniqueViolation(VerificationTokensTokenIndex)) <==>
        TokenFits(token) && TokenTaken(old(verificationTokens), token.token)
      ensures r.Ok? <==> TokenFits(token) && !TokenTaken(old(verificationTokens), token.token)
      ensures r.Err? ==> verificationTokens == old(verificationTokens)
      ensures r.Ok? ==> r.value == token && verificationTokens == old(verificationTokens) + [token]
      ensures r.Ok? ==> FindVerificationToken(verificationTokens, token.identifier, token.token) == Some(token)
    {
      if !TokenFits(token) {
        return Err(ValueTooLong);
      }
      if TokenTaken(verificationTokens, token.token) {
        return Err(UniqueViolation(VerificationTokensTokenIndex));
      }
      PairwiseAppend(verificationTokens, token, TokensApart);
      SelectOnly(verificationTokens + [token], TokenFilterAsWritten(token.identifier, token.token), |verificationTokens|);
      verificationTokens := verificationTokens + [token];
      r := Ok(token);
    }

    /**
     * useVerificationToken as written: finds the record by token alone; when
     * there is one, deletes it and returns the record as it was before.
     */
    method UseVerificationToken(identifier: string, token: string) returns (r: Option<VerificationToken>)
      requires Valid()
      modifies this`verificationTokens
      ensures Valid()
      ensures r.None? <==> forall t :: t in old(verificationTokens) ==> t.token != token
      ensures r.None? ==> verificationTokens == old(verificationTokens)
      ensures r.Some? ==>
        && r.value.token == token
        && exists k :: 0 <= k < |old(verificationTokens)| && old(verificationTokens)[k] == r.value &&
             verificationTokens == old(verificationTokens)[..k] + old(verificationTokens)[k + 1..]
      ensures forall t :: t in verificationTokens ==> t.token != token
      ensures forall i :: FindVerificationToken(verificationTokens, i, token).None?
    {
      var record := FindVerificationToken(verificationTokens, identifier, token);
      if record.None? {
        return None;
      }
      var k := FirstIndex(verificationTokens, TokenFilterAsWritten(identifier, token));
      forall j | 0 <= j < |verificationTokens| && j != k
        ensures !TokenFilterAsWritten(identifier, token)(verificationTokens[j])
      {
        if verificationTokens[j].token == token {
          TokenNamesOneRow(verificationTokens, j, k);
        }
      }
      DeleteWhereOnly(verificationTokens, TokenFilterAsWritten(identifier, token), k);
      DeleteWhereKeepsPairwise(verificationTokens, TokenFilterAsWritten(identifier, token), TokensApart);
      verificationTokens := DeleteWhere(verificationTokens, TokenFilterAsWritten(identifier, token));
      forall i | 0 <= i < |verificationTokens| ensures TokenFits(verificationTokens[i]) {
        assert verificationTokens[i] in old(verificationTokens);
      }
      r := record;
    }

    /**
     * unlinkAccount with the compound filter it evidently means: removes the
     * one account with that provider and providerAccountId, if there is one,
     * and keeps every other.
     */
    method UnlinkAccountCorrected(provider: string, providerAccountId: string)
      requires Valid()
      modifies this`accounts
      ensures Valid()
      ensures accounts == DeleteWhere(old(accounts), AccountFilter(provider, providerAccountId))
      ensures forall a :: a in old(accounts) && (a.provider != provider || a.providerAccountId != providerAccountId) ==> a in accounts
      ensures ProviderAccountTaken(old(accounts), provider, providerAccountId) ==> |accounts| == |old(accounts)| - 1
      ensures !ProviderAccountTaken(old(accounts), provider, providerAccountId) ==> accounts == old(accounts)
      ensures GetUserByAccountCorrected(users, accounts, provider, providerAccountId).None?
    {
      UnlinkCorrectedKeepsOthers(accounts, nextAccountId, provider, providerAccountId);
      DeleteWhereKeepsPairwise(accounts, AccountFilter(provider, providerAccountId), AccountsApart);
      accounts := DeleteWhere(accounts, AccountFilter(provider, providerAccountId));
      forall i | 0 <= i < |accounts| ensures 0 < accounts[i].id < nextAccountId && AccountFits(accounts[i]) {
        assert accounts[i] in old(accounts);
      }
    }

    /**
     * useVerificationToken with the compound filter it evidently means: a
     * record is consumed only by the identifier it was issued to.
     */
    method UseVerificationTokenCorrected(identifier: string, token: string) returns (r: Option<VerificationToken>)
      requires Valid()
      modifies this`verificationTokens
      ensures Valid()
      ensures r.None? <==> forall t :: t in old(verificationTokens) ==> t.identifier != identifier || t.token != token
      ensures r.None? ==> verificationTokens == old(verificationTokens)
      ensures r.Some? ==>
        && r.value.identifier == identifier && r.value.token == token
        && exists k :: 0 <= k < |old(verificationTokens)| && old(verificationTokens)[k] == r.value &&
             verificationTokens == old(verificationTokens)[..k] + old(verificationTokens)[k + 1..]
      ensures forall t :: t in old(verificationTokens) && t.identifier != identifier ==> t in verificationTokens
      ensures forall t :: t in verificationTokens ==> t.identifier != identifier || t.token != token
    {
      var record := FindVerificationTokenCorrected(verificationTokens, identifier, token);
      if record.None? {
        return None;
      }
      var p := TokenFilter(identifier, token);
      var k := FirstIndex(verificationTokens, p);
      forall j | 0 <= j < |verificationTokens| && j != k ensures !p(verificationTokens[j]) {
        if verificationTokens[j].token == token {
          TokenNamesOneRow(verificationTokens, j, k);
        }
      }
      DeleteWhereOnly(verificationTokens, p, k);
      DeleteWhereKeepsPairwise(verificationTokens, p, TokensApart);
      verificationTokens := DeleteWhere(verificationTokens, p);
      forall i | 0 <= i < |verificationTokens| ensures TokenFits(verificationTokens[i]) {
        assert verificationTokens[i] in old(verificationTokens);
      }
      r := record;
    }
  }

  // ===================== the filters as written, against the filters intended =====================

  /** Where no other provider reuses the providerAccountId, the lookup as written finds what the intended one does. */
  lemma AccountLookupAgreesWithoutCollision(users: seq<UserRow>, accounts: seq<AccountRow>, provider: string, providerAccountId: string)
    requires forall a :: a in accounts && a.providerAccountId == providerAccountId ==> a.provider == provider
    ensures GetUserByAccount(users, accounts, provider, providerAccountId)
         == GetUserByAccountCorrected(users, accounts, provider, providerAccountId)
  {
    forall i | 0 <= i < |accounts|
      ensures AccountFilterAsWritten(provider, providerAccountId)(accounts[i]) == AccountFilter(provider, providerAccountId)(accounts[i])
    {
      assert accounts[i] in accounts;
    }
    FirstIndexAgree(accounts, AccountFilterAsWritten(provider, providerAccountId), AccountFilter(provider, providerAccountId));
  }

  /**
   * Because the token index is on token alone, the token lookup as written
   * finds what the intended one does exactly when the record holding the
   * token, if any, was issued to the identifier asked about.
   */
  lemma TokenLookupAgreesWhenOwned(tokens: seq<VerificationToken>, identifier: string, token: string)
    requires TokensValid(tokens)
    ensures FindVerificationToken(tokens, identifier, token) == FindVerificationTokenCorrected(tokens, identifier, token)
        <==> forall t :: t in tokens && t.token == token ==> t.identifier == identifier
  {
    if forall t :: t in tokens && t.token == token ==> t.identifier == identifier {
      forall i | 0 <= i < |tokens|
        ensures TokenFilterAsWritten(identifier, token)(tokens[i]) == TokenFilter(identifier, token)(tokens[i])
      {
        assert tokens[i] in tokens;
      }
      FirstIndexAgree(tokens, TokenFilterAsWritten(identifier, token), TokenFilter(identifier, token));
    }
  }

  /**
   * Account, then user: when exactly one account has the providerAccountId,
   * the lookup as written answers with that account's user, and null when
   * that user row is missing.
   */
  lemma GetUserByAccountFindsOnly(users: seq<UserRow>, accounts: seq<AccountRow>, provider: string, providerAccountId: string, k: nat)
    requires k < |accounts| && accounts[k].providerAccountId == providerAccountId
    requires forall j :: 0 <= j < |accounts| && j != k ==> accounts[j].providerAccountId != providerAccountId
    ensures GetUserByAccount(users, accounts, provider, providerAccountId) == UserById(users, accounts[k].userId)
    ensures (forall u :: u in users ==> u.id != accounts[k].userId) ==>
      GetUserByAccount(users, accounts, provider, providerAccountId).None?
  {
    SelectOnly(accounts, AccountFilterAsWritten(provider, providerAccountId), k);
  }

  /**
   * Account, then user, as intended: in a valid accounts table a linked
   * (provider, providerAccountId) pair resolves to its account's user, and
   * to null when that user row is missing.
   */
  lemma GetUserByAccountCorrectedFinds(users: seq<UserRow>, accounts: seq<AccountRow>, nextId: nat, a: AccountRow)
    requires AccountsValid(accounts, nextId)
    requires a in accounts
    ensures GetUserByAccountCorrected(users, accounts, a.provider, a.providerAccountId) == UserById(users, a.userId)
    ensures (forall u :: u in users ==> u.id != a.userId) ==>
      GetUserByAccountCorrected(users, accounts, a.provider, a.providerAccountId).None?
  {
    var k :| 0 <= k < |accounts| && accounts[k] == a;
    forall j | 0 <= j < |accounts| && j != k
      ensures !AccountFilter(a.provider, a.providerAccountId)(accounts[j])
    {
      if accounts[j].provider == a.provider && accounts[j].providerAccountId == a.providerAccountId {
        AccountKeysNameOneRow(accounts, nextId, j, k);
      }
    }
    SelectOnly(accounts, AccountFilter(a.provider, a.providerAccountId), k);
  }

  /** Under the filter as written, the provider passed to getUserByAccount makes no difference. */
  lemma GetUserByAccountIgnoresProvider(users: seq<UserRow>, accounts: seq<AccountRow>, p1: string, p2: string, providerAccountId: string)
    ensures GetUserByAccount(users, accounts, p1, providerAccountId) == GetUserByAccount(users, accounts, p2, providerAccountId)
  {
    assert AccountFilterAsWritten(p1, providerAccountId) == AccountFilterAsWritten(p2, providerAccountId);
  }

  /** A GitHub account "42" answers a lookup of Google account "42" (lines 60-63). */
  lemma AccountLookupCrossesProviders()
    ensures var users := [UserRow(1, "Ann", "ann@example.com", None, None)];
            var accounts := [AccountRow(1, 1, "oauth", "github", "42", None, None, None, None, None, None)];
            && GetUserByAccount(users, accounts, "google", "42") == Some(ToAdapterUser(users[0]))
            && GetUserByAccountCorrected(users, accounts, "google", "42") == None
  {
  }

  /** Unlinking Google account "42" also deletes GitHub account "42" (lines 123-125). */
  lemma UnlinkCrossesProviders()
    ensures var github := AccountRow(1, 1, "oauth", "github", "42", None, None, None, None, None, None);
            var google := AccountRow(2, 2, "oauth", "google", "42", None, None, None, None, None, None);
            && DeleteWhere([github, google], AccountFilterAsWritten("google", "42")) == []
            && DeleteWhere([github, google], AccountFilter("google", "42")) == [github]
  {
    var github := AccountRow(1, 1, "oauth", "github", "42", None, None, None, None, None, None);
    var google := AccountRow(2, 2, "oauth", "google", "42", None, None, None, None, None, None);
    assert [github, google][1..] == [google] && [google][1..] == [];
    assert DeleteWhere([google], AccountFilterAsWritten("google", "42")) == [];
    assert DeleteWhere([google], AccountFilter("google", "42")) == [];
  }

  /** The intended unlink removes at most the one (provider, providerAccountId) row and keeps every other. */
  lemma UnlinkCorrectedKeepsOthers(accounts: seq<AccountRow>, nextId: nat, provider: string, providerAccountId: string)
    requires AccountsValid(accounts, nextId)
    ensures var rest := DeleteWhere(accounts, AccountFilter(provider, providerAccountId));
            && (forall a :: a in accounts && (a.provider != provider || a.providerAccountId != providerAccountId) ==> a in rest)
            && !ProviderAccountTaken(rest, provider, providerAccountId)
            && (ProviderAccountTaken(accounts, provider, providerAccountId) ==> |rest| == |accounts| - 1)
            && (!ProviderAccountTaken(accounts, provider, providerAccountId) ==> rest == accounts)
  {
    var p := AccountFilter(provider, providerAccountId);
    if ProviderAccountTaken(accounts, provider, providerAccountId) {
      var k :| 0 <= k < |accounts| && p(accounts[k]);
      forall j | 0 <= j < |accounts| && j != k ensures !p(accounts[j]) {
        if j < k {
          assert AccountsApart(accounts[j], accounts[k]);
        } else {
          assert AccountsApart(accounts[k], accounts[j]);
        }
      }
      DeleteWhereOnly(accounts, p, k);
    } else {
      DeleteWhereNoMatch(accounts, p);
    }
  }

  /** A token mailed to alice@example.com is consumed by a request naming mallory@example.com (lines 195-207). */
  lemma TokenLookupIgnoresIdentifier()
    ensures var tokens := [VerificationToken("alice@example.com", "t0k3n", 1000)];
            && FindVerificationToken(tokens, "mallory@example.com", "t0k3n") == Some(tokens[0])
            && FindVerificationTokenCorrected(tokens, "mallory@example.com", "t0k3n") == None
  {
  }
}
