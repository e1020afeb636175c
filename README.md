# Log book management backend — verified model

This project models the core of an internship log book backend. It is an
Express service over three Postgres tables:

- `members`: students and supervisors;
- `daily_logs`: a student's day-by-day entries;
- `logbooks`: weekly logbooks that a supervisor comments on, signs and approves.

It also models the JWT gate in front of the routes and the content of the
weekly PDF report.

The model has one module per source file:

- `Auth`: `utils/auth.js`.
  - Claim projection for the token.
  - Bearer-token extraction from the Authorization header, and the 401 paths.
  - The supervisor role gate (403).
  - An `Exchange` class models the request/response pair that `authenticateUser` updates: `req.user`, the reply sent, and whether `next` runs.
- `Users`: `routes/userRoutes/userRoutes.js`.
  - A `MemberStore` class whose `Register` method inserts into `members`.
  - `Login` as a pure function: the department lookup, the lookup by email, password comparison, token and the record without its password.
- `DailyLogs`: `routes/dailyLogRoutes/dailyLogRoutes.js`.
  - A `DailyLogStore` class for add, update and delete.
  - The two GET handlers as functions of the rows.
- `Logbooks`: `routes/logBookRoutes/logbookRoutes.js`.
  - A `LogbookStore` class for create, the four supervisor updates and delete.
  - The list, get-by-id and six count handlers as functions of the rows.
- `Report`: `utils/utils.js`.
  - `capitalizeFirstLetter`.
  - The report of one logbook as an ordered list of content items: title, fields, headings, paragraphs and the daily-logs table.

Support modules:

- `Js`: JavaScript values and the `!x` truthiness rule that every validation uses. `""`, `0`, `false`, `null` and `undefined` are missing; integers stand in for numbers.
- `Sql`: what the SQL text means over an in-memory table, as sequences of rows.
  - `=` is never true against NULL.
  - `WHERE`, `COUNT(*)`, `UPDATE … WHERE` and `DELETE … WHERE`, each with its counting and membership laws.
- `Http`: status codes and replies. `Wrappers`: `Option`.

Foreign code becomes parameters:

- bcrypt's `hash` and `compare`;
- jwt's `sign` and `verify`;
- `isValidUUID`.

Values the database generates are also parameters: row ids, `logbooks.date`, the default `members.role` and the default `logbooks.is_approved`.

A request with no Authorization header does not get a 401: `req.headers.authorization.split` throws, and Express answers 500. `Auth.Authenticate` gives `Throws` for it, and the `Exchange` records an uncaught error.

## Model

| member | source | states |
|---|---|---|
| Sql.Count | routes/logBookRoutes/logbookRoutes.js:205-207 | `COUNT(*)` is at most the table size; it is 0 exactly when no row matches and the table size exactly when every row matches |
| Sql.Where | routes/logBookRoutes/logbookRoutes.js:51-54 | `SELECT * … WHERE` returns exactly the matching rows, as many as `Count` |
| Sql.Without | routes/logBookRoutes/logbookRoutes.js:193 | `DELETE … WHERE` keeps exactly the non-matching rows; the table shrinks by the number of matches |
| Sql.Update | routes/logBookRoutes/logbookRoutes.js:113-116 | `UPDATE … SET … WHERE` rewrites exactly the matching rows and keeps the table's length; each row keeps its position in the sequence |
| Sql.WhereMultiset | routes/logBookRoutes/logbookRoutes.js:90-93 | `SELECT * … WHERE` holds each matching row exactly as often as the table does, and no other row |
| Sql.WithoutMultiset | routes/logBookRoutes/logbookRoutes.js:193 | `DELETE … WHERE` leaves each non-matching row exactly as often as the table held it, and no other row |
| Sql.WhereHead | routes/userRoutes/userRoutes.js:57-65 | `rows[0]` of a `SELECT … WHERE` is the first matching row in sequence order |
| Sql.CountAppend | routes/dailyLogRoutes/dailyLogRoutes.js:35-38 | an INSERT raises a count by one exactly when the new row matches |
| Sql.CountSplit | routes/logBookRoutes/logbookRoutes.js:274-310 | counts of two disjoint filters that together cover a third add up to the third's count |
| Sql.CountOfWhere | routes/logBookRoutes/logbookRoutes.js:241-243 | counting `q` among the rows of `WHERE p` equals counting `p AND q` over the table |
| Sql.WhereAll | routes/logBookRoutes/logbookRoutes.js:71 | a WHERE that every row meets returns the whole table, so an unfiltered `SELECT *` is the table |
| Sql.CountMonotone | routes/logBookRoutes/logbookRoutes.js:235-252 | a stricter WHERE never counts more rows |
| Sql.CountWithout | routes/dailyLogRoutes/dailyLogRoutes.js:110 | a DELETE never raises any count |
| Sql.CountUpdate | routes/logBookRoutes/logbookRoutes.js:178-181 | an UPDATE that never changes whether a filter holds keeps that filter's count |
| Sql.CountUpdateGrows | routes/logBookRoutes/logbookRoutes.js:178-181 | an UPDATE that keeps a filter true where it held never lowers its count |
| Sql.CountUpdateShrinks | routes/logBookRoutes/logbookRoutes.js:178-181 | an UPDATE that never makes a filter true never raises its count |
| Auth.TokenClaims | utils/auth.js:6 | the payload's id, email and role are the record's columns of those names, undefined where the record lacks one |
| Auth.CreateToken | utils/auth.js:5-7 | for a record with id, email and role, the token is the signature of exactly those three values |
| Auth.OtherColumnsIgnored | utils/auth.js:5-7 | adding or changing any other column of the record leaves the token unchanged |
| Auth.SameClaimsSameToken | utils/auth.js:5-7 | the token depends only on the user's id, email and role |
| Auth.Split | utils/auth.js:16 | `split(' ')` gives at least one part, no part contains a space, and there is more than one part exactly when the header contains a space |
| Auth.SplitJoin | utils/auth.js:16 | joining the parts with single spaces gives back the header |
| Auth.SplitPrefix | utils/auth.js:16 | a space-free prefix becomes part of the first segment and the remaining segments are unchanged |
| Auth.BearerToken | utils/auth.js:16 | `[1]` exists exactly when the header contains a space, and contains no space |
| Auth.BearerTokenOf | utils/auth.js:16 | for `"<scheme> <token>…"` with space-free scheme and token, the extracted token is `<token>` |
| Auth.Authenticate | utils/auth.js:15-25 | no header throws; an empty or absent second segment is 401 "Access Denied"; a token that fails verification is 401 "Authentication failed"; otherwise the decoded claims pass, and a verifying nonempty token always passes |
| Auth.IsSupervisor | utils/auth.js:29-32 | 403 "Access Denied" if and only if the role is not the string "supervisor"; otherwise the same user passes |
| Auth.Exchange.AuthenticateUser | utils/auth.js:15-25 | `next` runs exactly when the claims verify, and then `req.user` is the decoded claims and nothing is sent; otherwise the matching 401 is sent or an uncaught error is recorded, and `req.user` is unchanged |
| Auth.Exchange.IsSupervisorGate | utils/auth.js:29-32 | `next` runs exactly for a supervisor; otherwise 403 "Access Denied" is sent |
| Users.WithoutPassword | routes/userRoutes/userRoutes.js:73 | the returned record has every column of the member except `password`, with the same values |
| Users.RegisterKeepsEmailsUnique | routes/userRoutes/userRoutes.js:18-30 | inserting a member whose email no member has keeps emails unique, and exactly one member then has it |
| Users.MemberStore.Register | routes/userRoutes/userRoutes.js:11-34 | any missing field gives 400 "Please fill in all fields"; an email already present gives 400 "User already exists"; both leave the table unchanged; otherwise the member is appended with the hashed password and the default role, the reply is "User created successfully", and emails stay unique |
| Users.DepartmentMatchHasEmailMatch | routes/userRoutes/userRoutes.js:45-59 | once the email-and-department lookup finds a row, the email lookup finds one too, so `rows[0]` exists |
| Users.Login | routes/userRoutes/userRoutes.js:37-80 | every error the model gives is a 400, and missing fields give "Please fill in all fields"; a failing bcrypt call is not modelled (see below) |
| Users.LoginRejectsOutsider | routes/userRoutes/userRoutes.js:45-54 | with the fields present but no member with that email in that department, the reply is 400 "Invalid credentials. User does not belong to this department" |
| Users.LoginComparesFirstWithEmail | routes/userRoutes/userRoutes.js:57-75 | when a member matches email and department, the password is checked against the first member with that email in sequence order; a failed check gives 400 "Invalid credentials"; success gives that member's token and record without password |
| Users.LoginReturnsMatchedMember | routes/userRoutes/userRoutes.js:57-75 | with unique emails, the member compared and returned is the one that matched the department |
| Users.RegisterThenLogin | routes/userRoutes/userRoutes.js:11-75 | a member registered into a valid table can log in with the same email, department and a password that compares true against the stored hash |
| Users.LoginNeedsUniqueEmails | routes/userRoutes/userRoutes.js:45-75 | if two members share an email, a login to the second member's department can return the first member's token and record |
| DailyLogs.AddKeepsKeysUnique | routes/dailyLogRoutes/dailyLogRoutes.js:25-38 | inserting a log whose (week, day, date, student) is not taken keeps each key on at most one row, and the new key on exactly one |
| DailyLogs.Updated | routes/dailyLogRoutes/dailyLogRoutes.js:96-98 | the row with the id gets the five new columns and keeps its id and student; other rows are unchanged |
| DailyLogs.UpdateCanBreakUniqueness | routes/dailyLogRoutes/dailyLogRoutes.js:87-104 | update does not check the key, so it can leave two rows with the same (week, day, date, student) |
| DailyLogs.ListForStudent | routes/dailyLogRoutes/dailyLogRoutes.js:46-64 | an id `isValidUUID` rejects gives 400 "Invalid ID"; otherwise exactly that student's logs, each as often as the table holds it, as many as match |
| DailyLogs.GetById | routes/dailyLogRoutes/dailyLogRoutes.js:67-84 | an id `isValidUUID` rejects gives 400 "Invalid ID"; otherwise exactly the logs with that id, each as often as the table holds it, as many as match |
| DailyLogs.Deleted | routes/dailyLogRoutes/dailyLogRoutes.js:110 | exactly the logs with other ids remain, each as often as before; the table shrinks by the number of logs with the id |
| DailyLogs.DeleteKeepsKeysUnique | routes/dailyLogRoutes/dailyLogRoutes.js:107-115 | deleting keeps each key on at most one row |
| DailyLogs.DailyLogStore.Add | routes/dailyLogRoutes/dailyLogRoutes.js:10-43 | a missing field gives 400 "Please fill in all fields" and a taken key gives 400 "Log already exists", both with the table unchanged; otherwise the log is appended and the reply is "Logbook created successfully"; key uniqueness is kept |
| DailyLogs.DailyLogStore.Update | routes/dailyLogRoutes/dailyLogRoutes.js:87-104 | a missing field gives 400 "Please fill in all fields" with the table unchanged; otherwise the table becomes `Updated` and the reply is "Daily log updated successfully" |
| DailyLogs.DailyLogStore.Delete | routes/dailyLogRoutes/dailyLogRoutes.js:107-115 | the table becomes `Deleted`, the reply is "Daily log deleted successfully", and key uniqueness is kept |
| Logbooks.WithComments | routes/logBookRoutes/logbookRoutes.js:113-116 | the rows with the id get the new supervisor comments, which may be empty or null; every other row and column is unchanged |
| Logbooks.WithPhone | routes/logBookRoutes/logbookRoutes.js:135-138 | the rows with the id get the new supervisor phone; nothing else changes |
| Logbooks.WithSignedBy | routes/logBookRoutes/logbookRoutes.js:156-159 | the rows with the id get the new signed_by; nothing else changes |
| Logbooks.WithApproval | routes/logBookRoutes/logbookRoutes.js:174-181 | the rows with the id get is_approved = true, whatever their comments or signature; nothing else changes |
| Logbooks.WithoutId | routes/logBookRoutes/logbookRoutes.js:193 | exactly the rows with other ids remain, each as often as before, and the table shrinks by the number of rows with the id |
| Logbooks.ApproveIdempotent | routes/logBookRoutes/logbookRoutes.js:168-187 | approving twice leaves the same table as approving once |
| Logbooks.CommentsAndSignatureCommute | routes/logBookRoutes/logbookRoutes.js:103-165 | the comments and signed-by updates can be applied in either order |
| Logbooks.ApprovalAndPhoneCommute | routes/logBookRoutes/logbookRoutes.js:125-187 | approval and the phone update can be applied in either order |
| Logbooks.ListByStudent | routes/logBookRoutes/logbookRoutes.js:47-62 | exactly the logbooks whose student_id is the given id, each as often as the table holds it |
| Logbooks.ListAll | routes/logBookRoutes/logbookRoutes.js:65-79 | a non-supervisor gets 403 "Access Denied"; a supervisor gets every row |
| Logbooks.GetById | routes/logBookRoutes/logbookRoutes.js:82-100 | an id `isValidUUID` rejects gives 400 "Invalid ID" whatever the table holds; otherwise exactly the rows with that id, each as often as the table holds it, as many as match |
| Logbooks.Total | routes/logBookRoutes/logbookRoutes.js:201-215 | the count equals the number of logbooks the student list returns |
| Logbooks.Approved | routes/logBookRoutes/logbookRoutes.js:235-252 | the count is the number of the student's logbooks with is_approved = true, and never exceeds the student's total |
| Logbooks.Unapproved | routes/logBookRoutes/logbookRoutes.js:274-291 | the count is the number of the student's logbooks with is_approved = false, and never exceeds the student's total |
| Logbooks.ScopedCount | routes/logBookRoutes/logbookRoutes.js:241-243 | `WHERE student_id = $1 AND is_approved = b` counts that student's logbooks in approval state b |
| Logbooks.UnscopedCount | routes/logBookRoutes/logbookRoutes.js:261-262 | `WHERE is_approved = b` counts the logbooks in approval state b |
| Logbooks.AdminTotal | routes/logBookRoutes/logbookRoutes.js:218-232 | a non-supervisor gets 403 "Access Denied"; a supervisor gets the number of rows |
| Logbooks.AdminApproved | routes/logBookRoutes/logbookRoutes.js:255-271 | a non-supervisor gets 403 "Access Denied"; a supervisor gets the number of logbooks with is_approved = true |
| Logbooks.AdminUnapproved | routes/logBookRoutes/logbookRoutes.js:294-310 | a non-supervisor gets 403 "Access Denied"; a supervisor gets the number of logbooks with is_approved = false |
| Logbooks.CountsPartition | routes/logBookRoutes/logbookRoutes.js:235-310 | while is_approved is never NULL, in any scope the approved count plus the unapproved count is the total |
| Logbooks.StudentCountsPartition | routes/logBookRoutes/logbookRoutes.js:201-310 | for one student, approved + unapproved == total |
| Logbooks.AdminCountsPartition | routes/logBookRoutes/logbookRoutes.js:218-310 | for a supervisor, approved + unapproved == total over all logbooks |
| Logbooks.ApproveMovesToApproved | routes/logBookRoutes/logbookRoutes.js:168-310 | approving keeps every student's total, never lowers their approved count and never raises their unapproved count; an approved row is never counted as unapproved |
| Logbooks.DeleteThenGetById | routes/logBookRoutes/logbookRoutes.js:82-100 | after deleting an id, reading that id gives an empty list |
| Logbooks.LogbookStore.Create | routes/logBookRoutes/logbookRoutes.js:10-45 | any of the seven fields missing (weekNumber 0 included) gives the 400 with the table unchanged; otherwise one row is appended with those fields, NULL supervisor columns and the default approval, and the reply is "Logbook created successfully" |
| Logbooks.LogbookStore.SetComments | routes/logBookRoutes/logbookRoutes.js:103-122 | a non-supervisor gets 403 "Access Denied" with the table unchanged; otherwise the table becomes `WithComments` and the reply is "Logbook updated successfully" |
| Logbooks.LogbookStore.SetSupervisorPhone | routes/logBookRoutes/logbookRoutes.js:125-144 | the same gate, then `WithPhone` |
| Logbooks.LogbookStore.SetSignedBy | routes/logBookRoutes/logbookRoutes.js:146-165 | the same gate, then `WithSignedBy` |
| Logbooks.LogbookStore.Approve | routes/logBookRoutes/logbookRoutes.js:168-187 | the same gate, then `WithApproval`, with no requirement on signed_by or comments |
| Logbooks.LogbookStore.Delete | routes/logBookRoutes/logbookRoutes.js:190-198 | no role check; the table becomes `WithoutId` and the reply is "Logbook deleted successfully" even when nothing matched |
| Report.CapitalizeFirstLetter | utils/utils.js:7-9 | the length and the tail are kept, only the first character is upper-cased, and "" stays "" |
| Report.CapitalizeIdempotent | utils/utils.js:7-9 | capitalizing twice is capitalizing once |
| Report.Rows | utils/utils.js:82-87 | one row per daily log in the logs' order, each with four cells: day, date, skills_learnt, description_of_work, all undefined for a log that is not an object; it fails exactly when a log is null or undefined |
| Report.CommentsShown | utils/utils.js:111 | the supervisor comments when truthy, "No comments yet." otherwise; never blank |
| Report.SignatureShown | utils/utils.js:126 | signed_by when truthy, "Not signed yet." otherwise; never blank |
| Report.Items | utils/utils.js:14-129 | the report exists exactly when the department is a string, daily_logs is an array and no log is null |
| Report.TableFollowsLogs | utils/utils.js:67-91 | right after the "Daily Logs:" heading comes the table with the four headers Day, Date, Skills Learnt and Description of Work, and one row per daily log |
| Report.HeaderShowsLogbook | utils/utils.js:21-55 | the report opens with the title "Weekly Report" and carries the Student ID, Name, Week Number and Submission Date fields from the row |
| Report.SummaryFollowsHeading | utils/utils.js:58-64 | right after "Weekly Summary:" comes the row's weekly summary |
| Report.DepartmentCapitalized | utils/utils.js:45-49 | the report has a department line showing the department with its first letter capitalized |
| Report.FooterShowsFallbacks | utils/utils.js:102-126 | right after "Supervisor Comments:" and "Signed By:" come the comments and the signature, each with its fallback |
| Report.NewLogbookShowsPlaceholders | utils/utils.js:102-126 | a freshly created logbook's report shows "No comments yet." under the comments heading and "Not signed yet." under the signature heading |
| Report.ReportShowsSupervisorInput | utils/utils.js:102-126 | after a supervisor stores a nonempty comment and signature on a row, its report shows them under those headings |

## Left out

- `app.js` (Express wiring and `listen`) is not part of this model.
- The Postgres driver is replaced by in-memory rows.
  - Type coercion of parameters is not modelled: a body value is compared exactly as sent.
  - The id, the logbook date and `members.role` on insert are parameters or store constants, since the schema is not in the code.
- Logbooks.NewLogbook: assumes `supervisor_comments`, `supervisor_phone` and `signed_by` start NULL. The INSERT does not write them, and the schema is not in the code. `Report.NewLogbookShowsPlaceholders` rests on this.
- Logbooks.LogbookStore.Create: assumes `is_approved` starts as a boolean, the store constant `approvedDefault`, never NULL. The INSERT does not write it. The invariant `Valid()` and the count partition lemmas rest on this.
- Logbooks.WithComments, Logbooks.WithPhone, Logbooks.WithSignedBy: an absent body field is stored as `Undefined`. node-postgres would write it as NULL. Both are falsy and nullish, so no count or report result depends on the difference.
- Logbooks.Total, Logbooks.Approved, Logbooks.Unapproved, Logbooks.AdminTotal, Logbooks.AdminApproved, Logbooks.AdminUnapproved: each gives the count as a number. The route replies with node-postgres's `rows`, a one-row array holding the count as a decimal string.
- Users.Login: the success message "Login successful" is not part of `Users.Session`; only the token and the user record are.
- Queries that are not awaited, and the 500s and unanswered requests when a query fails, are not modelled. Every handler completes its query before it replies.
- The check-then-insert races in register and daily-log add are not modelled: the model is sequential.
- bcrypt, jwt and `isValidUUID` are parameters. Token expiry and the secret are not modelled.
- Users.Login, Users.MemberStore.Register: `hash` and `compare` are total, but bcrypt rejects a password that is not a string, such as the JSON number 123.
  - In login, `bcrypt.compare` then throws inside the `try` and the handler answers 500. The model answers 400 or 200.
  - In register, `bcrypt.hash` rejects outside any `try`, so nothing is inserted and no reply is sent. The model appends the row and answers "User created successfully".
- Sql.Where, Users.Login: SQL returns rows in no fixed order without ORDER BY. The model uses sequence order, so with duplicate emails the `rows[0]` it compares is one permitted choice. An UPDATE need not keep scan order either. Whenever emails are unique, the login results hold in any order.
- Auth.Authenticate: the 500 for a missing header is shown as `Throws`. Express's error page is not modelled.
- The check at `routes/userRoutes/userRoutes.js:61` is not modelled. It reads `.length` of a row object, which is always undefined, so it never fires.
- The PDF download route calls `generatePDF` once per matching row, all into one response. That loop is not modelled; only the content of one report is.
- PDF drawing is not modelled: fonts, sizes, widths, underlines, spacing, piping and `doc.end`.
- Report.Items: dates are kept as `Date` cells. `toDateString` and `toLocaleDateString` depend on locale and time zone.
- Report.Items: template-literal string conversion of the field values is not modelled.
- Report.CapitalizeFirstLetter: only ASCII letters are upper-cased. Unicode case mapping, including characters that grow when upper-cased, is not modelled.
- Report.Items: a department that is not a string makes the report fail. The model does not separate a thrown error from other causes of failure.
- The send-email route is not part of this model: it only calls an external mail service.
- Js.Falsy: numbers are integers, so `NaN` and `-0` do not arise.
