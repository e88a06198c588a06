/**
 * The four tables: their row shapes, the lengths of their varchar columns,
 * their serial keys and their unique indexes. Columns declared NOT NULL have
 * plain types; nullable columns are `Option`s. Timestamps are milliseconds.
 */
module Schema {
  import opened Wrappers
  import opened Tables

  /** `varchar(255)`: name, email, providerAccountId, sessionToken, identifier, token. */
  const MaxLong: nat := 255
  /** `varchar(50)`: the account's type and provider. */
  const MaxShort: nat := 50

  const UsersEmailIndex := "users_email_idx"
  const AccountsProviderIndex := "accounts_provider_idx"
  const SessionsTokenIndex := "sessions_session_token_idx"
  const VerificationTokensTokenIndex := "verification_tokens_token_idx"

  datatype UserRow = UserRow(
    id: nat,
    name: string,
    email: string,
    emailVerified: Option<int>,
    image: Option<string>)

  datatype AccountRow = AccountRow(
    id: nat,
    userId: nat,
    accountType: string,
    provider: string,
    providerAccountId: string,
    refreshToken: Option<string>,
    accessToken: Option<string>,
    expiresAt: Option<int>,
    tokenType: Option<string>,
    scope: Option<string>,
    idToken: Option<string>)

  datatype SessionRow = SessionRow(
    id: nat,
    sessionToken: string,
    userId: nat,
    expires: int)

  /** A verification token row; the adapter also takes and returns exactly this shape. */
  datatype VerificationToken = VerificationToken(
    identifier: string,
    token: string,
    expires: int)

  // ----- column lengths -----

  predicate UserFits(u: UserRow)
  {
    |u.name| <= MaxLong && |u.email| <= MaxLong
  }

  predicate AccountFits(a: AccountRow)
  {
    |a.accountType| <= MaxShort && |a.provider| <= MaxShort && |a.providerAccountId| <= MaxLong
  }

  predicate SessionFits(s: SessionRow)
  {
    |s.sessionToken| <= MaxLong
  }

  predicate TokenFits(t: VerificationToken)
  {
    |t.identifier| <= MaxLong && |t.token| <= MaxLong
  }

  // ----- keys: two rows of a table may share neither its primary key nor a unique index -----

  /** Primary key `id` and `users_email_idx` on email. */
  predicate UsersApart(a: UserRow, b: UserRow)
  {
    a.id != b.id && a.email != b.email
  }

  /** Primary key `id` and `accounts_provider_idx` on (provider, providerAccountId). */
  predicate AccountsApart(a: AccountRow, b: AccountRow)
  {
    a.id != b.id && (a.provider, a.providerAccountId) != (b.provider, b.providerAccountId)
  }

  /** Primary key `id` and `sessions_session_token_idx` on sessionToken. */
  predicate SessionsApart(a: SessionRow, b: SessionRow)
  {
    a.id != b.id && a.sessionToken != b.sessionToken
  }

  /** `verification_tokens_token_idx` on token alone; the table has no primary key. */
  predicate TokensApart(a: VerificationToken, b: VerificationToken)
  {
    a.token != b.token
  }

  predicate EmailTaken(rows: seq<UserRow>, email: string)
  {
    exists u :: u in rows && u.email == email
  }

  predicate ProviderAccountTaken(rows: seq<AccountRow>, provider: string, providerAccountId: string)
  {
    exists a :: a in rows && a.provider == provider && a.providerAccountId == providerAccountId
  }

  predicate SessionTokenTaken(rows: seq<SessionRow>, sessionToken: string)
  {
    exists s :: s in rows && s.sessionToken == sessionToken
  }

  predicate TokenTaken(rows: seq<VerificationToken>, token: string)
  {
    exists t :: t in rows && t.token == token
  }

  // ----- what each table keeps between statements -----

  /** Serial ids were issued below the sequence's next value; lengths and keys hold. */
  ghost predicate UsersValid(rows: seq<UserRow>, nextId: nat)
  {
    && (forall i :: 0 <= i < |rows| ==> 0 < rows[i].id < nextId && UserFits(rows[i]))
    && Pairwise(rows, UsersApart)
  }

  ghost predicate AccountsValid(rows: seq<AccountRow>, nextId: nat)
  {
    && (forall i :: 0 <= i < |rows| ==> 0 < rows[i].id < nextId && AccountFits(rows[i]))
    && Pairwise(rows, AccountsApart)
  }

  ghost predicate SessionsValid(rows: seq<SessionRow>, nextId: nat)
  {
    && (forall i :: 0 <= i < |rows| ==> 0 < rows[i].id < nextId && SessionFits(rows[i]))
    && Pairwise(rows, SessionsApart)
  }

  ghost predicate TokensValid(rows: seq<VerificationToken>)
  {
    && (forall i :: 0 <= i < |rows| ==> TokenFits(rows[i]))
    && Pairwise(rows, TokensApart)
  }

  /** Because the token index is on token alone, a token names at most one row. */
  lemma TokenNamesOneRow(rows: seq<VerificationToken>, i: nat, j: nat)
    requires TokensValid(rows)
    requires i < |rows| && j < |rows| && rows[i].token == rows[j].token
    ensures i == j
  {
  }

  /** An email names at most one user, and an id names at most one user. */
  lemma UserKeysNameOneRow(rows: seq<UserRow>, nextId: nat, i: nat, j: nat)
    requires UsersValid(rows, nextId)
    requires i < |rows| && j < |rows|
    requires rows[i].email == rows[j].email || rows[i].id == rows[j].id
    ensures i == j
  {
  }

  /** An id names at most one account, and so does a (provider, providerAccountId) pair. */
  lemma AccountKeysNameOneRow(rows: seq<AccountRow>, nextId: nat, i: nat, j: nat)
    requires AccountsValid(rows, nextId)
    requires i < |rows| && j < |rows|
    requires (rows[i].provider == rows[j].provider && rows[i].providerAccountId == rows[j].providerAccountId)
          || rows[i].id == rows[j].id
    ensures i == j
  {
  }

  /** A session token names at most one session, and an id names at most one session. */
  lemma SessionKeysNameOneRow(rows: seq<SessionRow>, nextId: nat, i: nat, j: nat)
    requires SessionsValid(rows, nextId)
    requires i < |rows| && j < |rows|
    requires rows[i].sessionToken == rows[j].sessionToken || rows[i].id == rows[j].id
    ensures i == j
  {
  }
}
