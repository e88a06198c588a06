# Drizzle authentication adapter, modelled in Dafny

The repository holds an authentication storage adapter. A session framework calls fourteen identity operations on the `DrizzleAdapter` object in `lib/drizzleAdapter.ts`:

- createUser, getUser, getUserByEmail, getUserByAccount, updateUser, deleteUser;
- linkAccount, unlinkAccount;
- createSession, getSessionAndUser, updateSession, deleteSession;
- createVerificationToken, useVerificationToken.

Each operation becomes one or two statements against four Postgres tables, declared in `db/schema.ts`: users, accounts, sessions and verification tokens. The results are reshaped for the framework: a user's id and a session's userId reach it as strings, while a session's own serial id stays a number.

The model replaces the database with the tables themselves. Each table is a sequence of rows in storage order.

- `Tables` says what a statement does to such a sequence:
  - a SELECT returns the rows that match, and the adapter keeps the first one (`SelectFirst`);
  - a DELETE keeps the rows that do not match (`DeleteWhere`);
  - an UPDATE rewrites the rows that match (`UpdateWhere`);
  - a statement that would break a constraint fails and leaves the table unchanged.
- `Schema` holds four things:
  - the row types, where nullable columns are `Option`s and NOT NULL columns are not;
  - the varchar limits, 255 and 50;
  - the serial keys and the four unique indexes;
  - the invariant each table keeps.
- `Ids` is the string boundary. `IdToString` is `String(n)` and `ParseId` is `Number(s)`.
- `DrizzleAdapter` holds two kinds of member:
  - pure functions of the tables, for the read-only operations and the `{ ...row, id: String(row.id) }` reshaping;
  - the class `Adapter`, whose fields are the four tables and the three serial counters. Its methods insert, update and delete rows in place. Each method keeps `Valid()`, which is every column length, primary key and unique index. Each method states its new state, its result and its error in terms of the old state.

Every adapter call either resolves to a value or throws. A call that can throw in the model is modelled as a `Result` whose `Failure` names the cause; the calls that cannot (getUserByEmail, getUserByAccount, unlinkAccount, deleteSession, useVerificationToken) return their value directly. The causes are:
- a value too long for its column;
- a NOT NULL violation;
- a duplicate key, with the name of the index;
- an id string that `Number` cannot turn into an integer;
- an update with nothing to set;
- a property read on a null row.

A JavaScript property that may be `undefined`, `null` or set is a `Field`. This lets the model keep apart two rules:
- the loose `!= undefined` (line 83-85) and `!= null` (line 166-167) tests, which skip both undefined and null;
- the strict `!== undefined` test on `emailVerified` (line 86), which lets an explicit null through and so clears the column.

Three behaviours of the code are easy to mistake, and the model follows the code in each:
- `getUser`, `updateUser`, `deleteUser`, `linkAccount`, `createSession` and `updateSession` pass `Number(...)` of an id string to an integer column (lines 39, 80, 102, 107, 134, 167). A string for which `Number` gives NaN or a fraction, such as `"abc"` or `"1.5"`, makes the database refuse the statement, so these calls fail rather than answer "not found". The model turns every string that is not a decimal numeral into that failure; strings that `Number` accepts leniently, such as `""` (0) or `" 7 "` (7), are the first line under "## Left out".
- `db/schema.ts` declares no foreign keys. The model therefore accepts an account or session whose `userId` names no user. `getSessionAndUser` then throws when it reads `user.id` on null (line 159), and `deleteUser` removes no accounts or sessions.
- The account and verification-token filters at lines 63, 125, 198 and 205 are written `eq(a) && eq(b)`. JavaScript evaluates this to `eq(b)`, so only `providerAccountId`, or only `token`, reaches the query. The `Adapter` methods and the lookups use these filters as written. The filters the code evidently means sit beside them and are compared under "## Findings".

## Model

| member | source | states |
|---|---|---|
| Ids.ParseId | lib/drizzleAdapter.ts:39 | definition: `Number(s)` for an id column (also line 80), the value of a decimal numeral and no integer for any other string; its properties are stated by IdRoundTrip, CanonicalRoundTrip and LeadingZerosParse |
| Ids.IdToString | lib/drizzleAdapter.ts:32 | `String(n)` of a serial id is a canonical decimal numeral: digits only, no leading zero except for 0 itself |
| Ids.IdRoundTrip | lib/drizzleAdapter.ts:32-39 | reading back the string an id was rendered as gives that id again |
| Ids.IdToStringInjective | lib/drizzleAdapter.ts:32 | distinct ids are rendered as distinct strings |
| Ids.CanonicalRoundTrip | lib/drizzleAdapter.ts:39 | a canonical numeral is the rendering of the id it parses to |
| Ids.LeadingZerosParse | lib/drizzleAdapter.ts:80-96 | `Number` is not injective: "007" and "7" name the same row, and `String(7)` is "7", so an id echoed back from the caller's string can differ from the row's own |
| Tables.FirstIndex | lib/drizzleAdapter.ts:40 | the position found is the first row that matches, or the end when none does |
| Tables.SelectFirst | lib/drizzleAdapter.ts:36-40 | `rows[0] ?? null`: null exactly when no row matches; otherwise a stored row that matches |
| Tables.SelectOnly | lib/drizzleAdapter.ts:36-40 | when exactly one row matches, the select returns that row |
| Tables.FirstIndexAgree | lib/drizzleAdapter.ts:60-64 | two filters that agree on every row select the same row |
| Tables.DeleteWhere | lib/drizzleAdapter.ts:100-102 | a row survives a delete exactly when it was stored and does not match |
| Tables.DeleteWhereKeepsPairwise | db/schema.ts:9-11 | a delete cannot break a unique index |
| Tables.DeleteWhereNoMatch | lib/drizzleAdapter.ts:179-183 | a delete that matches nothing leaves the table as it was |
| Tables.DeleteWhereOnly | lib/drizzleAdapter.ts:203-205 | a delete that matches exactly one row removes that row and keeps the others in order |
| Tables.PairwiseAppend | db/schema.ts:9-11 | an insert keeps a unique index when the new row collides with no stored row |
| Schema.UserKeysNameOneRow | db/schema.ts:3-11 | an email, and likewise an id, names at most one user |
| Schema.AccountKeysNameOneRow | db/schema.ts:13-27 | an id, and likewise a (provider, providerAccountId) pair, names at most one account |
| Schema.SessionKeysNameOneRow | db/schema.ts:29-36 | a session token, and likewise an id, names at most one session |
| Schema.TokenNamesOneRow | db/schema.ts:38-44 | the token index is on token alone, so a token names at most one verification record |
| DrizzleAdapter.ToAdapterUser | lib/drizzleAdapter.ts:44 | the returned id is a canonical numeral that parses back to the row's id; every other column is copied |
| DrizzleAdapter.ToAdapterUserInjective | lib/drizzleAdapter.ts:44 | reshaping loses nothing: distinct rows give distinct adapter users |
| DrizzleAdapter.ToAdapterSession | lib/drizzleAdapter.ts:139 | the returned userId parses back to the row's userId; id, token and expiry are copied |
| DrizzleAdapter.UserById | lib/drizzleAdapter.ts:68-76 | null exactly when no user has the id; otherwise the reshaped row with that id |
| DrizzleAdapter.GetUser | lib/drizzleAdapter.ts:35-45 | an id string that is not an integer fails the query; otherwise null exactly when no row has that id, else that row reshaped |
| DrizzleAdapter.GetUserByEmail | lib/drizzleAdapter.ts:47-57 | null exactly when no user has the email; otherwise the reshaped row with that email |
| DrizzleAdapter.AccountFilterAsWritten | lib/drizzleAdapter.ts:63 | definition: the account filter the `&&` leaves here and at line 125, providerAccountId alone; its effect is stated by GetUserByAccountIgnoresProvider, AccountLookupCrossesProviders and UnlinkCrossesProviders |
| DrizzleAdapter.TokenFilterAsWritten | lib/drizzleAdapter.ts:198 | definition: the verification-token filter the `&&` leaves here and at line 205, token alone; its effect is stated by TokenLookupAgreesWhenOwned and TokenLookupIgnoresIdentifier |
| DrizzleAdapter.GetUserByAccount | lib/drizzleAdapter.ts:59-77 | null when no account has the providerAccountId or none of those names a stored user; a result is the user of an account with that providerAccountId; the first account in storage order with that providerAccountId decides, and the answer is that account's user, or null when its user row is missing |
| DrizzleAdapter.GetUserByAccountFindsOnly | lib/drizzleAdapter.ts:59-77 | when exactly one account has the providerAccountId, the lookup as written answers with that account's user, and null when that user row is missing (line 74) |
| DrizzleAdapter.GetUserByAccountCorrected | lib/drizzleAdapter.ts:59-77 | null when no account has that provider and providerAccountId; a result is the user of such an account; the first such account decides, and the answer is its user, or null when its user row is missing |
| DrizzleAdapter.GetUserByAccountCorrectedFinds | lib/drizzleAdapter.ts:59-77 | in a valid accounts table, every linked (provider, providerAccountId) pair resolves to its account's user, and to null when that user row is missing (line 74) |
| DrizzleAdapter.OrphanedSessionThrows | lib/drizzleAdapter.ts:142-161 | in a valid sessions table, a stored session whose user row is missing makes getSessionAndUser throw at line 159 |
| DrizzleAdapter.GetSessionAndUser | lib/drizzleAdapter.ts:142-161 | null exactly when no session has the token; an error exactly when the session's user row is missing; otherwise the session and the user its userId names |
| DrizzleAdapter.FindVerificationToken | lib/drizzleAdapter.ts:195-199 | null exactly when no record has the token; otherwise a stored record with the token, whatever its identifier |
| DrizzleAdapter.FindVerificationTokenCorrected | lib/drizzleAdapter.ts:195-199 | null exactly when no record has both the identifier and the token; otherwise such a record |
| DrizzleAdapter.LinkedAccountRow | lib/drizzleAdapter.ts:106-119 | definition: the row linkAccount inserts, with `Number(userId)`, the type, provider and providerAccountId, each optional token field and scope `?? null`, and expires_at through ExpiresAtMillis; LinkAccount's contract appends exactly this row |
| DrizzleAdapter.PatchedUser | lib/drizzleAdapter.ts:83-86 | definition: the merge updateUser promises, name, email and image replaced only when set, emailVerified replaced (possibly by null) unless undefined; UserChangesOf is proved to build exactly this merge |
| DrizzleAdapter.PatchedSession | lib/drizzleAdapter.ts:166-167 | definition: the merge updateSession promises, expires and userId replaced only when set; SessionChangesOf is proved to build exactly this merge |
| DrizzleAdapter.ExpiresAtMillis | lib/drizzleAdapter.ts:113-115 | null exactly when expires_at is absent or 0; otherwise a millisecond count whose value in seconds is expires_at |
| DrizzleAdapter.UserChangesOf | lib/drizzleAdapter.ts:81-86 | the set clause is empty exactly when name, email and image are null or missing and emailVerified is missing; applying it to any row gives the merge `PatchedUser` |
| DrizzleAdapter.SessionChangesOf | lib/drizzleAdapter.ts:164-167 | the set clause is empty exactly when expires and userId are null or missing; it carries an unparsable userId exactly when the patch has one; applying it gives the merge `PatchedSession` |
| DrizzleAdapter.UpdatedUsersApart | db/schema.ts:10 | an updated users table keeps the email index exactly when the patched row's email is no other row's |
| DrizzleAdapter.UpdatedUsersFit | db/schema.ts:5-6 | an updated users table fits its varchar columns exactly when the patched row does |
| DrizzleAdapter.UpdatedUsersValid | db/schema.ts:3-11 | an update the database accepts leaves the users table valid |
| DrizzleAdapter.UpdatedUserLookup | lib/drizzleAdapter.ts:88-94 | after the update, the first row with the id is the patched row, and there is one exactly when there was one before |
| DrizzleAdapter.UpdatedSessionsValid | db/schema.ts:29-36 | updateSession's statement keeps the sessions table valid |
| DrizzleAdapter.UpdatedSessionLookup | lib/drizzleAdapter.ts:169-174 | after the update, the first row with the token is the patched row; there is one exactly when there was one before, and otherwise the table is unchanged |
| DrizzleAdapter.Adapter.constructor | db/schema.ts:3-44 | an empty, valid database whose serial sequences start at 1 |
| DrizzleAdapter.Adapter.CreateUser | lib/drizzleAdapter.ts:21-33 | fails exactly when the email or name is too long, the name is missing or null, or the email is taken, with errors in that order and no change; otherwise appends one row with the next serial id, stores absent emailVerified and image as null, and returns that row with its id as a string, which getUser and getUserByEmail then find |
| DrizzleAdapter.Adapter.UpdateUser | lib/drizzleAdapter.ts:79-97 | succeeds exactly when there is something to set, the id is an integer, the patched row fits and its email is no other user's; nothing to set or a non-integer id fails first; a patched row that is too long or takes another user's email fails with no change; on success exactly the rows with that id become `PatchedUser` and every other row is unchanged; the answer carries the caller's id string, and is that id alone exactly when no row had it |
| DrizzleAdapter.Adapter.DeleteUser | lib/drizzleAdapter.ts:99-103 | a non-integer id fails; otherwise exactly the user with that id is removed, getUser then finds nothing, and accounts and sessions are untouched |
| DrizzleAdapter.Adapter.LinkAccount | lib/drizzleAdapter.ts:105-120 | a non-integer userId, an over-long column or a taken (provider, providerAccountId) pair fails with no change; otherwise appends one row with null defaults and expires_at in milliseconds, which the intended lookup then resolves to the linked user |
| DrizzleAdapter.Adapter.UnlinkAccount | lib/drizzleAdapter.ts:122-127 | removes exactly the accounts whose providerAccountId matches, under any provider, after which getUserByAccount finds nothing for that providerAccountId |
| DrizzleAdapter.Adapter.UnlinkAccountCorrected | lib/drizzleAdapter.ts:122-127 | removes exactly the one account with that provider and providerAccountId, if any, and keeps every other |
| DrizzleAdapter.Adapter.CreateSession | lib/drizzleAdapter.ts:129-140 | fails exactly when the userId is not an integer, the token is too long or the token is taken, with no change; otherwise appends one row and returns it with userId as a string, which getSessionAndUser then returns with its user, or throws when the user is missing |
| DrizzleAdapter.Adapter.UpdateSession | lib/drizzleAdapter.ts:163-177 | nothing to set or a non-integer userId fails first; otherwise exactly the rows with the token become `PatchedSession`; the call throws exactly when no row had the token, and otherwise returns the patched row |
| DrizzleAdapter.Adapter.DeleteSession | lib/drizzleAdapter.ts:179-183 | removes exactly the session with the token, after which getSessionAndUser returns null |
| DrizzleAdapter.Adapter.CreateVerificationToken | lib/drizzleAdapter.ts:185-192 | succeeds exactly when both fields fit and the token is not taken; an over-long field or a taken token fails with no change; otherwise appends the record and returns it unchanged, and the token lookup then finds it |
| DrizzleAdapter.Adapter.UseVerificationToken | lib/drizzleAdapter.ts:194-208 | null with no change exactly when no record has the token; otherwise returns the record as it was and removes exactly that record, so a second call returns null |
| DrizzleAdapter.Adapter.UseVerificationTokenCorrected | lib/drizzleAdapter.ts:194-208 | consumes a record only for the identifier it was issued to: records of other identifiers are kept, and a matching record is returned and removed |
| DrizzleAdapter.AccountLookupAgreesWithoutCollision | lib/drizzleAdapter.ts:59-64 | when no other provider reuses the providerAccountId, the lookup as written finds the same user as the intended one |
| DrizzleAdapter.TokenLookupAgreesWhenOwned | lib/drizzleAdapter.ts:195-199 | the token lookup as written agrees with the intended one exactly when the record holding the token was issued to the identifier asked about |
| DrizzleAdapter.GetUserByAccountIgnoresProvider | lib/drizzleAdapter.ts:63 | as written, the provider passed to getUserByAccount makes no difference to its answer |
| DrizzleAdapter.AccountLookupCrossesProviders | lib/drizzleAdapter.ts:63 | a GitHub account "42" answers a lookup of Google account "42", where the intended lookup finds nothing |
| DrizzleAdapter.UnlinkCrossesProviders | lib/drizzleAdapter.ts:125 | unlinking Google account "42" also deletes GitHub account "42", where the intended delete keeps it |
| DrizzleAdapter.UnlinkCorrectedKeepsOthers | lib/drizzleAdapter.ts:122-127 | the intended delete keeps every other account, leaves no row for the pair, and removes one row exactly when the pair was linked |
| DrizzleAdapter.TokenLookupIgnoresIdentifier | lib/drizzleAdapter.ts:198 | a token issued to alice@example.com is found for a request naming mallory@example.com, where the intended lookup finds nothing |

## Left out

- `Number(s)` is modelled only on decimal numerals. JavaScript also accepts `""`, whitespace, signs, `0x…`, exponents and fractions. Those strings and the integer values the database would make of them are not modelled: every non-numeral gives `InvalidInteger`.
- Serial and integer columns are unbounded naturals. The 32-bit range of Postgres `integer` and `serial` is not modelled.
- A serial counter advances only on a successful insert. The gaps a failed insert leaves in a Postgres sequence are not modelled.
- Timestamps (`emailVerified`, `expires`, `expires_at`) are integer milliseconds. `Date` objects, time zones and fractional seconds are not modelled.
- The database connection (`db/drizzle`) is not part of this model. Neither are drizzle-orm's query building, `returning()` and the async plumbing. Each operation is one sequential method.
- The race between useVerificationToken's select and delete under concurrent callers is not modelled: the model is sequential.
- Row order is storage order, and "the first row a select returns" is the first in that order. Postgres promises no order without `ORDER BY`. Where a filter is on a unique index, at most one row matches, so this choice is invisible. The as-written account filter (lines 63 and 125) is on providerAccountId alone, which has no unique index of its own: it can match several rows, and Postgres may return them in any order, so which account getUserByAccount follows is not fixed by the database. The model follows the first in storage order.
- Postgres `varchar(n)` silently truncates an over-long value whose excess characters are all spaces. The model instead refuses every value longer than its column with `ValueTooLong`, so, for example, an email of 255 characters followed by a space fails in the model but is stored truncated by Postgres.
- NOT NULL on the other columns is carried by the row types rather than checked. The adapter's inputs give those columns values of their declared type. Only users.name, which createUser may receive as missing or null, can violate NOT NULL.

## Findings

| source | as written | input that shows it | evidently intended | confidence | as-written member | corrected member |
|---|---|---|---|---|---|---|
| lib/drizzleAdapter.ts:63 | `eq(provider) && eq(providerAccountId)` filters by providerAccountId alone | accounts hold github "42" for user 1; getUserByAccount({provider: "google", providerAccountId: "42"}) returns user 1 | match both provider and providerAccountId | not executed; high (JavaScript `&&` on two objects yields the second) | DrizzleAdapter.AccountLookupCrossesProviders | DrizzleAdapter.GetUserByAccountCorrected |
| lib/drizzleAdapter.ts:125 | unlinkAccount deletes every account with that providerAccountId, under any provider | accounts hold github "42" and google "42"; unlinkAccount({provider: "google", providerAccountId: "42"}) leaves no accounts | delete only the (provider, providerAccountId) row | not executed; high | DrizzleAdapter.UnlinkCrossesProviders | DrizzleAdapter.Adapter.UnlinkAccountCorrected |
| lib/drizzleAdapter.ts:198, 205 | useVerificationToken finds and deletes the record by token alone | a token "t0k3n" issued to alice@example.com; useVerificationToken({identifier: "mallory@example.com", token: "t0k3n"}) returns alice's record | consume the record only when identifier and token both match | not executed; high | DrizzleAdapter.TokenLookupIgnoresIdentifier | DrizzleAdapter.Adapter.UseVerificationTokenCorrected |
