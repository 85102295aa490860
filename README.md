# Student project portal: authorization core

This project models the core of a Flask portal backed by SQL Server. Students submit projects, track milestones and read notifications. Reviewers and administrators moderate the submissions, and administrators read the audit trail and switch submissions on or off. The model has two layers.

- **Pure checks** (`Validators`): the password-complexity rule used at registration, the 03:00–05:00 maintenance window that blocks logins, the salted password hash with its digest left abstract, and the consent and complexity gates of registration.
- **A role-gated state machine** (`Portal.Portal`): the browser session, the `Users`, `Assignments`, `Milestones`, `Notifications` and `AuditLog` tables, and the `SystemConfig` row `AllowUploads`. Each route handler is one method with a `modifies` frame naming the fields it may change. The SQL statements the handlers issue are pure functions on tables (`Store`), built from generic selection, projection, `ORDER BY … DESC` and `TOP n` (`Tables`).

Inputs the handlers read from their environment become parameters: the clock hour, the client address, the form fields, the store's clock for the audit timestamp, the digest algorithm (`digest: string -> string`, SHA-256 in hex in the source) and the random salt (`os.urandom(16).hex()`). Identity columns are modelled by two counters on the class. `Portal.Valid()` says that primary keys are unique and below the next identity value, and every mutating handler preserves it.

The model follows the code as written, including:
- The non-student dashboard query is an inner join with `Users`, so a submission whose submitter is not in `Users` is not listed. `Store.JoinKeepsAllRows` proves that staff see every row when user ids are unique and every submitter exists.
- `delete_project` appends no audit record, although its flash message says it does.
- `add_milestone` and `toggle_milestone` check neither the session nor ownership.
- `submit` closes only on the exact value `'FALSE'`, while `toggle_security` writes `'FALSE'` only from the exact value `'TRUE'`. `Store.ToggleFlipsGate` shows that any other stored value reads as open and stays open after a toggle.
- `hash_password` treats an empty salt as missing. So a user stored with an empty salt is checked against a freshly drawn salt (`Portal.CredentialsMatchEmptySalt`).

## Model

| member | source | states |
|---|---|---|
| Validators.Search | app.py:43-45 | `re.search` with one character class is true exactly when some character of the string is in the class |
| Validators.IsPasswordComplex | app.py:41-46 | true exactly when the password has at least 8 characters, an upper-case A–Z, a digit 0–9 and a symbol from `!@#$%^&*` |
| Validators.ShortPasswordRejected | app.py:42 | the seven-character `"short1!"` is rejected |
| Validators.StrongPasswordAccepted | app.py:41-46 | `"LongPass1!"` is accepted |
| Validators.IsLoginAllowed | app.py:48-52 | false exactly at hours 3 and 4, true at every other hour 0–23 |
| Validators.HashPassword | app.py:35-39 | a missing or empty salt is replaced by the fresh one, any other salt is kept, and the hash is the digest of password followed by salt |
| Validators.HashRoundTrip | app.py:35-39 | a hash and salt made without a salt are reproduced when the stored salt is passed back in, whatever fresh salt that second call draws |
| Validators.RegisterGate | app.py:130-136 | registration goes ahead exactly when the consent field is present and non-empty and the password is complex; a missing consent is reported first |
| Tables.Filter | app.py:175 | a `WHERE` keeps exactly the rows meeting the condition, each with its multiplicity |
| Tables.FilterKeepsKeysDistinct | app.py:215 | deleting rows keeps a primary key unique |
| Tables.SortDesc | app.py:182 | `ORDER BY … DESC` gives a permutation of the rows whose keys never increase |
| Tables.NewestFirst | app.py:182 | `TOP n … ORDER BY … DESC` returns min(n, rows) rows of the table, newest first, and no row left out is newer than a row returned |
| Store.LookupUser | app.py:92-93 | the lookup finds no user exactly when no user has that username, and otherwise the first user with that username |
| Store.OwnRows | app.py:174-175 | the student query returns exactly the submissions with `SubmittedBy` equal to the user, each as often as in the table |
| Store.SubmitterRows | app.py:177 | the join gives one row for an assignment per user whose id is its submitter, and none when there is no such user |
| Store.JoinSubmitters | app.py:177 | every joined row is an assignment of the table labelled with a submitter's username; its full meaning is given by `Store.JoinMembership` |
| Store.JoinMembership | app.py:176-177 | a row is in the staff listing exactly when its assignment is in the table and some user with the submitter's id supplies the username |
| Store.OneSubmitterRow | app.py:177 | with unique user ids, an assignment whose submitter exists gets exactly one joined row |
| Store.JoinKeepsAllRows | app.py:176-179 | with unique user ids and every submitter present, the staff listing holds every submission once, in table order |
| Store.RemoveAssignment | app.py:215 | the delete removes every row with that id and keeps every other row with its multiplicity; unique ids stay unique |
| Store.MilestonesOf | app.py:187 | the milestone query returns the id, task and completion of the milestones of that assignment, one view per milestone; with unique milestone ids no id is listed twice |
| Store.ToggleCompleted | app.py:244 | only rows with that milestone id change, only in `IsCompleted`, which becomes `1 - IsCompleted` |
| Store.ToggleCompletedTwice | app.py:244 | toggling the same milestone twice restores the table |
| Store.ToggleCompletedAtMostOneRow | app.py:244 | with unique milestone ids a toggle changes at most one row |
| Store.NotificationsOf | app.py:253 | `WHERE UserID = uid` keeps exactly that user's notifications |
| Store.Inbox | app.py:253-254 | the notifications page lists one entry per notification of the user, with its message and date, each as often as the notification occurs, newest first |
| Store.MarkRead | app.py:255 | the user's notifications get `IsRead = 1`, other users' notifications are untouched |
| Store.MarkReadClearsUnread | app.py:255 | afterwards every notification of the user is read, the user keeps as many notifications, and marking again changes nothing |
| Store.MarkReadSameOwners | app.py:255 | marking read does not change how many notifications the user owns |
| Store.AuditPage | app.py:181-183 | the admin audit view has min(15, log size) records of the log, ordered by timestamp descending, and no record left out is newer than one shown |
| Store.ToggledValue | app.py:225 | the toggle always writes `'TRUE'` or `'FALSE'`, and writes `'FALSE'` exactly from `'TRUE'` |
| Store.UploadsOpen | app.py:200 | `submit` is open unless the value is exactly `'FALSE'`: `'TRUE'` reads as open, `'FALSE'` as closed; `Store.ToggleFlipsGate` relates it to the toggle |
| Store.ToggleTwiceRestores | app.py:225 | two toggles restore the value exactly when it was `'TRUE'` or `'FALSE'` |
| Store.ToggleFlipsGate | app.py:200 | a toggle opens or closes submissions exactly when the value was `'TRUE'` or `'FALSE'`; afterwards submissions are open exactly when the value was not `'TRUE'` |
| Portal.CredentialsMatch | app.py:99-107 | an unknown username never matches; `Portal.CredentialsMatchStoredSalt` and `Portal.CredentialsMatchEmptySalt` give the hash comparison |
| Portal.CredentialsMatchStoredSalt | app.py:102-107 | with a non-empty stored salt, the credentials match exactly when the digest of password and salt is the stored hash |
| Portal.CredentialsMatchEmptySalt | app.py:105 | with an empty stored salt, the password is hashed with the fresh salt instead |
| Portal.RegisteredPasswordMatches | app.py:105-107 | a user whose hash and salt came from `hash_password` with that password and a non-empty fresh salt passes the check |
| Portal.Portal.Login | app.py:78-125 | in the maintenance window nothing is looked up or changed; otherwise the session becomes (id, role, username) and exactly one `LOGIN_SUCCESS` record with the caller's address is appended iff the credentials match; an unknown user or a wrong password changes neither session nor log |
| Portal.Portal.Dashboard | app.py:160-192 | with no session it redirects; a student gets exactly their own rows, any other role the joined rows; only role 1 gets the audit page; the gate value is passed through; the milestone map covers the listed submissions |
| Portal.Portal.MilestonesByProject | app.py:185-188 | the loop maps exactly the listed submission ids, each to the milestones of that assignment |
| Portal.Portal.Submit | app.py:194-209 | when the gate reads `'FALSE'` nothing is inserted; otherwise exactly one row owned by the session's user is appended; no other table changes |
| Portal.Portal.DeleteProject | app.py:211-219 | roles 1 and 2 remove exactly the rows with that id; any other role or no session changes nothing; the audit log never grows |
| Portal.Portal.ToggleSecurity | app.py:221-228 | role 1 replaces the `AllowUploads` value by its toggle; anyone else leaves the configuration unchanged |
| Portal.Portal.AddMilestone | app.py:232-239 | appends one uncompleted milestone for the given assignment id, without a session or ownership check |
| Portal.Portal.ToggleMilestone | app.py:241-247 | the milestone table becomes its toggle at that id, whoever asks |
| Portal.Portal.Notifications | app.py:249-258 | returns the user's notifications as they were, newest first, then marks all of them read; other users' notifications are untouched |
| Portal.Portal.Logout | app.py:272-275 | the whole session is cleared |

## Left out

- Flask routing, `render_template`, `flash`, `redirect`, cookies, and the GET branches of `login` and `register`. These are transport and presentation.
- `get_db` connection setup and the `sp_set_session_context` calls (app.py:12-32). The database-side row-level-security policy they feed is not part of this model. Queries return what their SQL text selects, with no further filtering.
- SHA-256 and `os.urandom` are foreign library calls. They are parameters: an arbitrary deterministic `digest` and an arbitrary fresh salt.
- `Sec.sp_GetDecryptedUser` is modelled only as a lookup of the first user with that username. The internals of `Sec.sp_RegisterUser` are not visible, so registration is modelled only by its consent and complexity gates. The set of users is fixed.
- Exception handling is not modelled: database errors at login or registration, the `except` paths, and debug prints. Neither is `inject_globals` (app.py:55-67). Its unread count is what `Store.MarkReadClearsUnread` brings to zero.
- `feedback` and `home`: a write-only insert and a redirect, with no logic.
- Concurrency between requests. Consistency there rests on the database.
- Foreign keys and cascades: deleting an assignment leaves its milestones alone, and adding a milestone does not check that the assignment exists.
- Schema defaults are assumptions: identity columns are counters starting at 1, a new milestone has `IsCompleted = 0`, and an audit record's `Timestamp` is the `now` argument.
- SQL Server collation is not modelled. `ConfigValue = 'TRUE'` is an exact string comparison here, and NULL values are not modelled.
- Server errors are not modelled as such. `Status.NoConfigRow` stands for the failure of `fetchone()[0]` when the `AllowUploads` row is missing (app.py:168, app.py:200). `Status.Unauthenticated` in `submit` and `notifications` stands for the failure of `session['user_id']` without a session (app.py:204, app.py:253). In both cases the request ends in an error, not a redirect, and the model changes nothing.
- Form fields are typed parameters. A missing field (a `KeyError`) and a non-numeric `assign_id` are not modelled.
- A `SELECT` without `ORDER BY` returns rows in table order. Rows with equal keys under `ORDER BY … DESC` come out latest-stored first, an order that SQL leaves unspecified.
- Audit records for failed logins and for deletions are not added. The code writes neither, though the delete flash text says deletions are logged.
