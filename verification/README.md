# Accounts, reset tokens, organizations and the guest sweep — a Dafny model

This project models the account core of an Open WebUI fork:

- the credential table (`AuthsTable`) together with the user directory it
  writes through: sign-up writes a credential row and a directory row under
  one id in one transaction, sign-in checks the first directory row with the
  e-mail against its credential, deletion removes the directory row first and
  the credential only if that succeeded;
- the password-reset ledger (`PasswordResetTokensTable`): issuing a token
  revokes the user's unused ones, a token is valid while unused and not past
  its expiry, consuming sets the used flag, a sweep deletes expired rows;
- the organization registry (`OrganizationTable`): unique organization codes,
  partial updates, newest-first listing, and the user and plan id lists
  stored as JSON arrays but handled as sets;
- the guest-account sweep (`cleanup_expired_guest_users`): list the first
  10000 directory rows, delete every guest account more than a day old
  through the credential table, and count the deletions that succeeded.

Each table is a pure value: the credential table a map keyed by id, the user
directory a sequence in listing order, the ledger a map keyed by token, the
registry a map keyed by organization id. Every operation takes the table and
returns the new table with the result. The clock reading (`now`), the random
ids and tokens (`freshId`, `newToken`, `newId`), the password hash check
(`verify`), the date parser (`parseDate`) and the outcome of deleting a
directory row (`userDeleted`) are parameters. A fresh id that collides with
an existing key is not excluded by a precondition; it takes the path the
database takes, a primary-key violation.

Modules: `Common` (optional values, the one-day constant, ASCII
lower-casing), `IdLists` (de-duplication, append-if-absent, remove-if-present
on id lists), `Auths`, `ResetTokens`, `Organizations`, `GuestCleanup`.

Behaviour of the code worth knowing, which the model follows:

- consuming a reset token does not check the used flag, so consuming it twice
  reports success twice; single use rests on validation refusing used tokens;
- removing ids an organization does not hold still refreshes `updated_at`;
- renaming an organization's code to the empty string skips the duplicate
  check (the check runs only for a truthy code), so only the table's unique
  constraint refuses a clash, as a store error;
- `insert_new_auth` has no exception handler: a colliding id makes the commit
  fail, modelled as no user and nothing written.

## Model

| member | source | states |
|---|---|---|
| Common.Lower | backend/open_webui/models/auths.py:310 | lower-casing keeps the length, turns each upper-case ASCII letter into its lower-case letter and keeps every other character |
| Common.LowerChar | backend/open_webui/models/auths.py:310 | an upper-case ASCII letter becomes the same letter in lower case; other characters are kept |
| Common.LowerIdempotent | backend/open_webui/models/auths.py:310 | a lower-cased e-mail is already in lower case |
| Common.LowerFixedPoint | backend/open_webui/models/auths.py:310 | a string is its own lower-case form exactly when it has no upper-case letter |
| Auths.InsertNewAuth | backend/open_webui/models/auths.py:134-204 | sign-up succeeds exactly when the id is new to both tables; then an active credential row and a directory row share the id, every timestamp is `now`, phone and organization are stored as given when non-empty and as absent otherwise, the date of birth is the parsed value of a non-empty one; a collision writes nothing; well-formedness and the one-to-one pairing of the tables are kept |
| Auths.AuthenticateUser | backend/open_webui/models/auths.py:206-224 | the answer is the first directory row with the e-mail when its credential is active and verifies the password, and nothing otherwise; an unknown e-mail gives nothing |
| Auths.SignupThenSignIn | backend/open_webui/models/auths.py:134-224 | an account just created with an e-mail no earlier row holds signs in with a password its hash accepts |
| Auths.PasswordChangeTakesEffect | backend/open_webui/models/auths.py:206-258 | after a password change, a successful sign-in as that user implies the password verifies against the new hash |
| Auths.AuthenticateUserByApiKey | backend/open_webui/models/auths.py:226-234 | an empty key never authenticates; a non-empty key held by some directory row yields a row holding it |
| Auths.UpdateUserPasswordById | backend/open_webui/models/auths.py:249-258 | true exactly when the id has a credential row; only that row's hash changes |
| Auths.UpdateEmailById | backend/open_webui/models/auths.py:260-267 | true exactly when the id has a credential row; only that row's e-mail changes, hashes and active flags stay, the directory is untouched |
| Auths.EmailChangeKeepsSignIn | backend/open_webui/models/auths.py:206-224 | changing a credential e-mail changes no sign-in outcome, because sign-in looks the e-mail up in the directory |
| Auths.DeleteAuthById | backend/open_webui/models/auths.py:269-283 | the result is the directory deletion's outcome; on failure nothing changes; on success both the credential row and every directory row with the id are gone and the tables stay paired |
| Auths.WithoutIds | backend/open_webui/models/auths.py:273 | removing directory rows by id keeps exactly the rows whose id is not removed, with unique ids kept unique |
| Auths.WithoutIdsKeepsOrder | backend/open_webui/models/auths.py:273 | the rows that survive a removal are a subsequence of the directory, in their old order |
| Auths.WithoutIdsTwice | backend/open_webui/utils/guest_cleanup.py:28-36 | removing two id sets one after the other equals removing their union |
| ResetTokens.CreateToken | backend/open_webui/models/auths.py:295-324 | issuing leaves the new token as the user's only pending token, expiring a day after `now`, with the e-mail lower-cased; other users' tokens and used tokens stay; a token clash rolls back everything; at most one pending token per user is kept |
| ResetTokens.SecondIssueRevokesFirst | backend/open_webui/models/auths.py:299-300 | a token is never valid again once a second one is issued to the same user |
| ResetTokens.ValidThroughLastSecond | backend/open_webui/models/auths.py:303-340 | a new token is valid from issue through its expiry second and invalid one second later |
| ResetTokens.GetValidToken | backend/open_webui/models/auths.py:326-346 | a token is returned exactly when it exists, is unused and `now` is not past its expiry |
| ResetTokens.MarkTokenAsUsed | backend/open_webui/models/auths.py:348-357 | true exactly when the token exists; afterwards it is never valid; no other row changes |
| ResetTokens.MarkTwiceSucceedsTwice | backend/open_webui/models/auths.py:352-354 | consuming a token twice succeeds twice, the second time changing nothing |
| ResetTokens.DeleteExpiredTokens | backend/open_webui/models/auths.py:359-371 | exactly the rows with expiry before `now` are deleted, used or not, and the count equals their number |
| ResetTokens.SweepKeepsValidity | backend/open_webui/models/auths.py:326-368 | a sweep at `now` changes no validation answer at `now` or later |
| IdLists.AddAll | backend/open_webui/models/organizations.py:209-212 | appending ids not yet present gives the union of the elements, keeps the old list as prefix and creates no duplicate |
| IdLists.AddAllFresh | backend/open_webui/models/organizations.py:209-212 | appending distinct new ids is plain concatenation |
| IdLists.AddAllPresent | backend/open_webui/models/organizations.py:209-212 | appending ids all present changes nothing |
| IdLists.Dedupe | backend/open_webui/models/organizations.py:208 | de-duplication keeps the element set and leaves no duplicate |
| IdLists.DedupeNoDup | backend/open_webui/models/organizations.py:208 | de-duplicating a duplicate-free list gives a reordering of it: the same elements and the same length |
| IdLists.RemoveFirst | backend/open_webui/models/organizations.py:241 | removing one occurrence from a duplicate-free list removes that element and nothing else |
| IdLists.RemoveAll | backend/open_webui/models/organizations.py:238-241 | removing present ids from a duplicate-free list leaves exactly the set difference, still duplicate-free |
| Organizations.InsertNewOrganization | backend/open_webui/models/organizations.py:104-134 | a code already held is a conflict; otherwise a new id gets a row built from the form with its defaults and both timestamps `now`; unique codes are kept |
| Organizations.UpdateOrganizationById | backend/open_webui/models/organizations.py:161-183 | a truthy code held by another row is a conflict; the empty code clashing with another row is a store error; an unknown id gives nothing; otherwise supplied fields overwrite, others stay, `updated_at` is `now`, unique codes are kept |
| Organizations.ApplyUpdate | backend/open_webui/models/organizations.py:175-177 | the written row takes every supplied field from the form and keeps the rest |
| Organizations.UpdateKeepsWellFormed | backend/open_webui/models/organizations.py:166-179 | rewriting a row whose new code no other row holds keeps codes unique |
| Organizations.GetOrganizationById | backend/open_webui/models/organizations.py:143-150 | a row is returned exactly when the id is a key, and it is the stored row |
| Organizations.UpdateThenGet | backend/open_webui/models/organizations.py:179-180 | a successful update reads back by id as the row it reported |
| Organizations.GetOrganizationByCode | backend/open_webui/models/organizations.py:152-159 | a row is returned exactly when some row holds the code; with unique codes it is that row |
| Organizations.DeleteOrganizationById | backend/open_webui/models/organizations.py:185-193 | reports success and removes the row with the id, if any, and nothing else |
| Organizations.InsertNewestFirst | backend/open_webui/models/organizations.py:140 | inserting a row into a newest-first list keeps it newest first and loses nothing |
| Organizations.SpliceKeepsDistinct | backend/open_webui/models/organizations.py:138-141 | placing a row with a new id into a list of distinct ids keeps them distinct |
| Organizations.GetOrganizations | backend/open_webui/models/organizations.py:136-141 | every row exactly once, ordered by non-increasing `updated_at` |
| Organizations.AddToList | backend/open_webui/models/organizations.py:195-221 | the stored list becomes the de-duplicated union of old and new ids; nothing else but `updated_at` changes; an unknown id gives nothing |
| Organizations.RemoveFromList | backend/open_webui/models/organizations.py:223-251 | an empty or missing list returns the row untouched; otherwise the list becomes the old ids minus the removed ones and `updated_at` is `now` |
| Organizations.AddUsersToOrganization | backend/open_webui/models/organizations.py:195-221 | the user list becomes the union of old and new ids, without duplicates |
| Organizations.RemoveUsersFromOrganization | backend/open_webui/models/organizations.py:223-251 | the user list loses exactly the given ids; an empty list leaves the row untouched |
| Organizations.AddPlansToOrganization | backend/open_webui/models/organizations.py:253-279 | the plan list becomes the union of old and new ids, without duplicates |
| Organizations.RemovePlansFromOrganization | backend/open_webui/models/organizations.py:281-309 | the plan list loses exactly the given ids; an empty list leaves the row untouched |
| Organizations.AddToListIdempotent | backend/open_webui/models/organizations.py:208-215 | adding the same ids again leaves a list with the same ids, each once, and the same length, and changes no other field but `updated_at` |
| Organizations.AddUsersTwiceScenario | backend/open_webui/models/organizations.py:204-218 | adding A, B and then B, C leaves exactly A, B, C |
| Organizations.RemoveAbsentStillRefreshes | backend/open_webui/models/organizations.py:237-244 | removing ids the organization does not hold keeps its members but refreshes `updated_at` |
| Organizations.RemoveUndoesAdd | backend/open_webui/models/organizations.py:200-248 | removing ids just added leaves the old members minus those ids |
| GuestCleanup.Listing | backend/open_webui/utils/guest_cleanup.py:21 | the sweep sees a prefix of the directory of at most 10000 rows, all of it when it is shorter |
| GuestCleanup.RemovedExactly | backend/open_webui/utils/guest_cleanup.py:28-38 | the removed ids are exactly those of listed eligible rows whose deletion succeeded |
| GuestCleanup.AttemptsAreEligible | backend/open_webui/utils/guest_cleanup.py:28-36 | deletion is attempted for exactly the listed eligible rows |
| GuestCleanup.Unfold | backend/open_webui/utils/guest_cleanup.py:28-41 | one more listed row adds its attempt, its success and its removal, and nothing else |
| GuestCleanup.SweepStep | backend/open_webui/utils/guest_cleanup.py:28-41 | one iteration moves the attempts, the count and both tables from the first `i` rows to the first `i+1` |
| GuestCleanup.SweepListing | backend/open_webui/utils/guest_cleanup.py:26-44 | the loop attempts the eligible rows, counts the successes and removes exactly them, keeping the tables well formed and paired |
| GuestCleanup.RemovalKeepsInvariants | backend/open_webui/models/auths.py:269-281 | deleting a set of accounts from both tables keeps them well formed and paired |
| GuestCleanup.CleanupExpiredGuestUsers | backend/open_webui/utils/guest_cleanup.py:14-48 | a failed listing reports 0 and changes nothing; otherwise deletion is attempted for the listed old guests in order, the count is the successful deletions, and exactly their ids leave both tables, which stay well formed and paired |
| GuestCleanup.SweepSpares | backend/open_webui/utils/guest_cleanup.py:21-34 | every row that is not a guest older than a day, and every row past the first 10000, survives the sweep |
| GuestCleanup.SurvivorNotRemoved | backend/open_webui/utils/guest_cleanup.py:30-34 | with unique ids, a row that is not an old guest is never removed |
| GuestCleanup.BeyondListingNotRemoved | backend/open_webui/utils/guest_cleanup.py:21 | rows past the first 10000 are never removed |
| GuestCleanup.EligibilityBoundary | backend/open_webui/utils/guest_cleanup.py:24-34 | a guest exactly a day old is kept, one a second older is eligible, a non-guest never is |

## Left out

- `authenticate_user_by_email`: which credential row a bare `first()` returns is unspecified; not modelled.
- The user directory (`Users`) is not part of this model: its listing is a sequence in listing order, its look-ups are first-match, and its deletion outcome is a parameter.
- Password hashing, `uuid4`, `secrets.token_urlsafe`, the clock and `strptime` are parameters, not modelled.
- Exceptions that the code catches after a database failure (connection loss, lock timeout) are not modelled, except the guest sweep's, modelled as a failing listing.
- `authenticate_user_by_api_key` returns `False` instead of `None` when the look-up raises; that path is not modelled.
- Common.Lower: lower-cases ASCII letters only, because Python's full Unicode case mapping is out of scope.
- Organizations.GetOrganizations: rows with equal `updated_at` may come in any order; the model promises only the order the query asks for.
- IdLists.Dedupe: `list(set(...))` has no defined order; the model keeps first occurrences in order, one admissible order, and its contracts promise only elements and no duplicates.
- Logging, concurrency between requests, schema migrations, database set-up and the front-end guard are outside the core and not modelled.
- Organizations.GetOrganizationByCode: a ghost function, since the row is chosen rather than computed; with unique codes the choice is forced.
- A users or plans column holding JSON that is not a list is not represented: the model's column holds a list of ids or nothing. In the code the add operations treat such a value as empty, and validating such a row as an organization fails on reads.
- Auths.InsertNewAuth: the code reads the clock three times for the new row's timestamps, and they can differ across a second boundary; the model reads it once, so all three equal `now`.
- Organizations.InsertNewOrganization: the code reads the clock twice for `created_at` and `updated_at`; the model reads it once, so both equal `now`.
- GuestCleanup.Listing: the directory's listing order (`get_users`) is not part of this model; the model takes it to be insertion order, new accounts last, the same order the first-match look-ups use. Which rows fall past the first 10000, and so which rows `GuestCleanup.BeyondListingNotRemoved` and `GuestCleanup.SweepSpares` protect, rests on that assumption.
