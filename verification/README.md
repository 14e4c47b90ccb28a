# Waka Eastern Bay booking backend: a Dafny model

This project models the core of a community-transport booking backend, written in
Express and Mongoose. Passengers sign up, log in and request rides. Staff sign up with
an organisation address and manage calendars, driver rosters and registration
applications. A daily job emails a reminder for every booking dated today.

The model keeps the program's shape:

- **Handlers are pure functions.** Each takes the store, the session and the request
  fields, and returns a `Reply`: the new store, the new session, the send attempts it
  made, and the response (`Ok(status, body)` or `Err(status, message)`).
- **Collections keep insertion order.** Each collection is a sequence of `Doc(id,
  data)`. A `findOne` returns the first match, and the reminder scan and the paging
  both depend on order, so a map would lose information.
- **The error handler is modelled.** An HTTP error keeps its status and message.
  Any other thrown value becomes 500 "An unknown error occurred". That covers a
  rejected send, a failed session destroy, and `assertIsDefined` on a missing session
  user.
- **The environment is passed in as parameters.** The model does not compute these:
  - `validId`: the ObjectId syntax test.
  - `hash`: bcrypt's hash. A password comparison is `hash(offered) == stored`.
  - `fails(k)`: whether the k-th send of one request or one scheduler run is rejected.
  - `nameCompiles`: whether `new RegExp` accepts a name as a pattern.
  - `nameMatches`: the case-insensitive name regex.
  - `Clock`: the year, month (from 0) and day `new Date()` reports.
  - `fetchFails` and `destroyFails`: whether the database read or the session destroy
    fails.
- **New ids come from `FreshId`.** It returns an id no document has yet.

Modules:

| module | models |
|---|---|
| `Wrappers` | `Option` |
| `Http` | results, the error handler, field truthiness, ordered check chains, mails |
| `Collection` | documents, `findById`, `findOne`, `create`, `deleteOne` and `save` |
| `Model` | the records, the store, the session, `Reply`, id lookup, session destroy |
| `Dates` | `getFormattedDate` and a parser for its output |
| `Scheduler` | `sendEmails` and `start` |
| `Auth` | the staff guard and the user guard |
| `Staffs` | staff sign-up, login and logout |
| `Users` | user sign-up, login, logout, forgot password and change password |
| `Bookings` | the booking handlers, the staff search and its paging |
| `Calendars` | the per-date booking counts and calendar CRUD |
| `Rosters` | roster CRUD behind the staff guard |
| `Registers` | registration forms and the two deletes |

## Model

| member | source | states |
|---|---|---|
| Http.Respond | src/app.ts:68-81 | An HTTP error keeps its status and message; anything else becomes 500 with the fixed unknown-error message |
| Http.FirstFailure | src/controllers/bookings.ts:141-165 | An `if / else if` chain of throws reports the first failing check's message, with every earlier check passing; none is reported exactly when all checks pass |
| Http.FirstFailureAt | src/controllers/bookings.ts:141-165 | When every check before position k passes and check k fails, the chain reports check k's message whatever follows |
| Collection.Find | src/controllers/calendars.ts:66 | `findById` finds a value exactly when some document has that id, and the value found is that document's data |
| Collection.FindAt | src/controllers/calendars.ts:66 | With unique ids, `findById` on a document's id yields that document's data |
| Collection.FindBy | src/controllers/staffs.ts:68 | `findOne` by a field returns the first document whose field equals the value, and nothing exactly when no document matches |
| Collection.Insert | src/controllers/calendars.ts:99-106 | `create` appends one document; every other id keeps what it found, and fresh ids keep ids unique |
| Collection.FindByInsert | src/controllers/staffs.ts:36-44 | After a create, `findOne` still returns an earlier match if one exists; otherwise it returns the new document if it matches |
| Collection.Remove | src/controllers/calendars.ts:187 | `deleteOne` leaves no document with that id and keeps every other id's lookup unchanged |
| Collection.Replace | src/controllers/calendars.ts:153-161 | `save` on a changed document gives the new data to that id only; ids, positions and every other document stay |
| Collection.FreshId | src/controllers/calendars.ts:99 | A created document's id is one no existing document has |
| Model.Lookup | src/controllers/calendars.ts:62-70 | The id checks run in a fixed order: a malformed id gives 400 before any lookup, then a missing document gives 404; otherwise the document with that id is returned |
| Model.Destroy | src/controllers/users.ts:199-207 | A session destroy removes both identities and answers 200; a failed destroy leaves the session and answers 500 |
| Dates.PaddedRoundTrip | src/Schedule/emailScheduler.ts:75-76 | A month or day of 1 to 99 padded to two characters reads back as itself |
| Dates.PadStart2 | src/Schedule/emailScheduler.ts:75-76 | `padStart(2, '0')` leaves a string of two or more characters alone and left-fills a shorter one with zeros to exactly two characters, the original kept at the end |
| Dates.FormatDate | src/Schedule/emailScheduler.ts:72-79 | For a real month and day the date string is the year's digits, then `-`, two month characters, `-` and two day characters |
| Dates.FormatDateRoundTrip | src/Schedule/emailScheduler.ts:72-79 | For years 1000 to 9999, months 0 to 11 and days 1 to 31, the date string is 10 characters long, and splitting it on `-` gives back year, month + 1 and day |
| Dates.FormatDateInjective | src/Schedule/emailScheduler.ts:72-79 | Two clock readings in that range with the same date string are the same reading |
| Scheduler.DatedOn | src/Schedule/emailScheduler.ts:29-32 | The scan selects exactly the bookings whose date string equals the given date; there is no time window |
| Scheduler.DatedOnAppend | src/Schedule/emailScheduler.ts:32 | The scan keeps the store's order |
| Scheduler.Reminder | src/Schedule/emailScheduler.ts:36-39 | A reminder goes from the SMTP login to the booking's email with the subject "Upcoming Booking Time" |
| Scheduler.SendEach | src/Schedule/emailScheduler.ts:35-64 | Each booking in the list gets exactly one attempt, in list order, from the SMTP login to the booking's email with the reminder subject; a rejected send does not stop the loop |
| Scheduler.SendEmails | src/Schedule/emailScheduler.ts:22-69 | A failed fetch ends the run with no attempt; otherwise the i-th attempt is the reminder for the i-th booking dated today |
| Scheduler.AttemptsAreForToday | src/Schedule/emailScheduler.ts:26-39 | Every attempt is a reminder for a stored booking dated today |
| Scheduler.TodayIsReminded | src/Schedule/emailScheduler.ts:29-39 | Every stored booking dated today gets a reminder attempt, whatever the transport does |
| Scheduler.FailuresIsolated | src/Schedule/emailScheduler.ts:58-63 | Which sends fail changes only the delivery flags, never which mails are attempted or their order |
| Scheduler.NoIdempotency | src/Schedule/emailScheduler.ts:22-69 | Two runs on the same day over the same store attempt every reminder twice |
| Scheduler.Start | src/Schedule/emailScheduler.ts:82-87 | The attempts of all firings number the sum of each run's attempts, and the first firing's run comes first |
| Scheduler.StartAppend | src/Schedule/emailScheduler.ts:82-87 | Firings are independent: two spans of firings make the first span's attempts followed by the second's |
| Scheduler.EveryFiringRuns | src/Schedule/emailScheduler.ts:84-86 | The k-th firing's attempts are exactly one run of `sendEmails` on that firing's store and clock, placed after all earlier firings' attempts |
| Auth.StaffGuard | src/middleware/auth.ts:6-20 | The guard passes exactly when the session's staff id resolves to a record whose role is exactly "staff"; any other case is 401 "Staff not authenticated" |
| Auth.StaffRejectionsAlike | src/middleware/auth.ts:13-18 | A missing or unknown staff id and a record with another role get the same rejection |
| Auth.UserGuard | src/middleware/auth.ts:23-30 | The user guard passes exactly when the session has a user id, with no store lookup; otherwise it is 401 "User not authenticated" |
| Staffs.StaffSignUp | src/controllers/staffs.ts:23-52 | Checks run in order: missing email (400), email not containing the organisation domain (409), email already taken (409). A failure changes nothing. Success adds exactly one staff record with role "staff" and logs the session in as it |
| Staffs.Contains | src/controllers/staffs.ts:32 | `includes`: the address contains the domain marker somewhere, not necessarily at the end |
| Staffs.ContainsIffOccurs | src/controllers/staffs.ts:32 | The recursive substring test holds exactly when the marker occurs at some index of the address |
| Staffs.SignUpKeepsIdsUnique | src/controllers/staffs.ts:41-44 | A sign-up keeps staff ids unique |
| Staffs.DomainTestIsNotSuffixTest | src/controllers/staffs.ts:32-34 | The domain test is a substring test: any address with the domain in its middle passes |
| Staffs.StaffLogin | src/controllers/staffs.ts:60-78 | Login never writes the store: missing email (400), unknown email (401), otherwise the session takes the first record with that email and no secret is checked |
| Staffs.StaffLogout | src/controllers/staffs.ts:81-89 | Logout destroys the session, or answers 500 if that fails |
| Staffs.LogoutLocksOut | src/controllers/staffs.ts:81-89 | After a completed logout both guards reject the session with 401, whatever the store holds later; a failed logout leaves both guards' verdicts as they were |
| Staffs.SignUpPassesGuard | src/controllers/staffs.ts:41-46 | After a successful sign-up the staff guard lets the same session through |
| Staffs.SignUpThenLogin | src/controllers/staffs.ts:41-73 | Logging in with a just-registered email resolves to the new record |
| Staffs.LoginThenGuard | src/controllers/staffs.ts:68-73 | With unique ids, a logged-in staff session passes the guard exactly when the record found has the staff role |
| Users.UserSignUp | src/controllers/users.ts:60-152 | A missing username or password gives 400 before any lookup, then a taken username gives 409; otherwise exactly one user is added with role "user" and the hashed password, and the approval mail is attempted; a rejected send answers 500 but the user stays; the session is never touched |
| Users.SignUpKeepsUsersOk | src/controllers/users.ts:84-119 | Sign-up keeps ids and usernames unique and usernames non-empty |
| Users.UserLogin | src/controllers/users.ts:161-196 | Login never writes the store: missing fields (400), unknown username (401), a hash mismatch (401); only a match sets the session's user id |
| Users.SignUpThenLogin | src/controllers/users.ts:95-188 | Whoever signs up can log in at once with the same username and password and becomes the new user |
| Users.LoginPassesUserGuard | src/controllers/users.ts:188 | A successful login passes the user guard |
| Users.UserLogout | src/controllers/users.ts:199-207 | Logout destroys the session, or answers 500 if that fails |
| Users.LogoutLocksOut | src/controllers/users.ts:199-207 | After a completed logout both guards reject the session with 401, whatever the store holds later; a failed logout leaves both guards' verdicts as they were |
| Users.ForgotPassword | src/controllers/users.ts:215-261 | A missing email gives 400 and an unknown email 404; otherwise the reset mail is attempted and nothing is stored |
| Users.ChangePassword | src/controllers/users.ts:275-320 | Checks run in order: malformed id (400), unknown user (404), missing password (400). On success only that user's password changes, to the hash of the new one |
| Users.ChangeKeepsUsersOk | src/controllers/users.ts:309-313 | A password change keeps ids and usernames unique and usernames non-empty |
| Users.ReplaceKeepsUsersOk | src/controllers/users.ts:312-313 | Saving a user with the same username keeps ids and usernames unique and usernames non-empty |
| Users.ChangeThenLogin | src/controllers/users.ts:309-313 | After a change the user logs in with the new password and becomes that same user |
| Users.ReplacedIsFound | src/controllers/users.ts:172-313 | After a user is saved with the same username, `findOne` by that username still finds that user, now with the new data |
| Bookings.OwnedBy | src/controllers/bookings.ts:33 | The owner filter keeps exactly the bookings whose user id is the owner, and no more of them than the store holds |
| Bookings.OwnedByAppend | src/controllers/bookings.ts:33 | The owner filter keeps the store's order: filtering two parts of the store is filtering the whole |
| Bookings.GetBookings | src/controllers/bookings.ts:26-38 | Without a session user the answer is 500; otherwise it is exactly the caller's bookings, in store order |
| Bookings.Matching | src/controllers/bookings.ts:47-55 | The search keeps exactly the bookings that satisfy every given criterion: the name pattern on the first name, and exact date equality |
| Bookings.MatchingAppend | src/controllers/bookings.ts:63 | The search keeps the store's order, which the pages rely on: filtering two parts of the store is filtering the whole |
| Bookings.DateSearchIsScan | src/controllers/bookings.ts:52-55 | A date-only search selects what the reminder scan selects for that date |
| Bookings.EmptySearchMatchesAll | src/controllers/bookings.ts:47-55 | With no name and no date the search keeps every booking |
| Bookings.Paginate | src/controllers/bookings.ts:60-66 | A page holds at most `limit` matches, taken from position `skip` onward in order; a limit of 0 takes them all |
| Bookings.PagesCover | src/controllers/bookings.ts:58-66 | The first n pages together are exactly the first n × limit matches: nothing is skipped or repeated |
| Bookings.PagesStep | src/controllers/bookings.ts:58-66 | Page n continues exactly where the first n - 1 pages stop |
| Bookings.PageIsSlice | src/controllers/bookings.ts:63-66 | A page is exactly the matches from the skip up to the skip plus the limit, cut at the end of the list |
| Bookings.NoLimitFirstPageIsAll | src/controllers/bookings.ts:58-77 | With limit 0, page 1 holds every match and the total is their number |
| Bookings.GetAllBookings | src/controllers/bookings.ts:41-81 | `total` counts every match whatever the page, and the page is the matches from `(page - 1) × limit` on. The answer is 500 exactly when the name is not a valid pattern or the skip is negative. Nothing is written |
| Bookings.GetBooking | src/controllers/bookings.ts:84-112 | Checks run in order: no session user (500), malformed id (400), missing booking (404), a booking of someone else (401); otherwise the booking |
| Bookings.BookingChecks | src/controllers/bookings.ts:141-165 | The create checks in source order, each with its message: name, phone, email, pick-up, destination, wheelchair, passengers, purpose, trips, date, pick-up time, drop-off time |
| Bookings.ChecksPassIffComplete | src/controllers/bookings.ts:141-165 | The check chain passes exactly when every required field is present and the passenger count is non-zero |
| Bookings.ZeroPassengersMissing | src/controllers/bookings.ts:153-154 | A passenger count of 0 is reported as missing |
| Bookings.CreateBooking | src/controllers/bookings.ts:133-227 | No session user gives 500; then the first missing field gives 400, in source order. Otherwise exactly one booking owned by the caller, holding the request's fields, is added. The two notices are attempted in turn; the second is not attempted after the first fails; either failing answers 500 with the booking kept |
| Bookings.CreateThenGet | src/controllers/bookings.ts:168-184 | The owner can read a new booking back by its id |
| Bookings.DeleteUserBooking | src/controllers/bookings.ts:230-261 | It makes the same checks as the single read, in the same order, and removes the booking only when the caller owns it; every other booking stays |
| Bookings.DeleteStaffBooking | src/controllers/bookings.ts:264-287 | A malformed id gives 400 "Invalid booking Id" and a missing booking 404; any existing booking is removed with no owner check |
| Bookings.DeleteThenGet | src/controllers/bookings.ts:230-261 | A deleted booking is no longer found by its owner (404) |
| Calendars.Aggregate | src/controllers/calendars.ts:13-25 | For any bookings and requested dates there is a grouping: one row per requested date that has bookings, with its count |
| Calendars.GroupingGrows | src/controllers/calendars.ts:13-25 | Adding a requested date extends a grouping by that date's row, or by nothing when the date repeats or has no bookings |
| Calendars.FirstIndex | src/controllers/calendars.ts:35 | `findIndex` gives the first position holding the date, or -1 exactly when it is absent |
| Calendars.GroupingCounts | src/controllers/calendars.ts:13-39 | Whatever order the grouping rows come in, each requested date's merged count is its true booking count |
| Calendars.IndexOfDate | src/controllers/calendars.ts:35 | The search over the result rows finds the first row with the date, or -1 exactly when there is none |
| Calendars.MergeCounts | src/controllers/calendars.ts:27-39 | One row per requested date, in order; the first row for a date gets the last grouping row's count for it, or 0; repeated dates keep 0 |
| Calendars.MergeStep | src/controllers/calendars.ts:34-38 | Writing one grouping row's count at the first position of its date keeps the merged invariant, with that row now counted |
| Calendars.MergeRow | src/controllers/calendars.ts:34-38 | One pass of the `forEach` turns the rows merged from some grouping rows into the rows merged from those plus one more |
| Calendars.GetMonthCalendars | src/controllers/calendars.ts:8-45 | Without `dateArr` the answer is 500. Otherwise each requested date gets one row in request order. Its first occurrence counts the bookings on that date, so a date without bookings gets 0; later duplicates get 0. Nothing is written |
| Calendars.CountOnMeansBooked | src/controllers/calendars.ts:15-22 | A date's count is positive exactly when some booking has that date |
| Calendars.GetCalendar | src/controllers/calendars.ts:58-76 | A malformed id gives 400 and a missing entry 404; otherwise the entry |
| Calendars.CreateCalendar | src/controllers/calendars.ts:89-112 | Any missing field gives 400 with nothing changed; otherwise exactly one entry with the given fields is added |
| Calendars.CreateThenGet | src/controllers/calendars.ts:66-108 | A created entry is read back unchanged by its id |
| Calendars.UpdateCalendar | src/controllers/calendars.ts:130-167 | Checks run in order: id (400), fields (400), existence (404). On success only that entry's six fields change and its id stays |
| Calendars.UpdateThenGet | src/controllers/calendars.ts:153-163 | An update is read back, and repeating it changes nothing more |
| Calendars.DeleteCalendar | src/controllers/calendars.ts:170-193 | After the 400 and 404 checks only the target entry is removed |
| Calendars.DeleteThenGet | src/controllers/calendars.ts:170-193 | A deleted entry is no longer found (404) |
| Rosters.GetRoster | src/controllers/rosters.ts:17-35 | A malformed id gives 400 and a missing roster 404; otherwise the roster |
| Rosters.CreateRoster | src/controllers/rosters.ts:49-69 | Driver, vehicle, start and finish are required (400); date and lists are optional and stored as given |
| Rosters.UpdateRoster | src/controllers/rosters.ts:88-125 | Checks run in order: id (400), all seven fields (400; empty lists pass), existence (404). On success only that roster's fields change |
| Rosters.UpdateThenGet | src/controllers/rosters.ts:110-121 | An update is read back, and repeating it changes nothing more |
| Rosters.CreateLaxerThanUpdate | src/controllers/rosters.ts:56-100 | A form without a date is accepted by create and refused by update |
| Rosters.DeleteRoster | src/controllers/rosters.ts:128-149 | After the 400 and 404 checks only the target roster is removed |
| Rosters.DeleteThenGet | src/controllers/rosters.ts:128-149 | A deleted roster is no longer found (404) |
| Rosters.RosterRoute | src/app.ts:58 | Every roster request passes the staff guard first; without a staff session the answer is 401 and nothing changes |
| Rosters.NoStaffNoChange | src/app.ts:58 | A caller with no staff session changes nothing through any roster route |
| Rosters.SignUpThenCreate | src/app.ts:58 | A freshly signed-up staff member can create a roster at once |
| Registers.GetRegister | src/controllers/registers.ts:33-51 | A malformed id gives 400 and a missing form 404; otherwise the form |
| Registers.CreateRegister | src/controllers/registers.ts:77-106 | The 17 required fields (all but the alternative phone and the disability details) give 400 when any is missing; otherwise one form is added with the hashed password |
| Registers.DeleteRegisterWithEmail | src/controllers/registers.ts:109-149 | After the 400 and 404 checks the denial mail to the applicant is attempted; only a delivered mail removes the form, and a rejected one answers 500 with the form kept |
| Registers.DeleteRegisterWithoutEmail | src/controllers/registers.ts:152-173 | After the 400 and 404 checks only that form is removed, with no mail |
| Registers.DeletesAgreeOnStore | src/controllers/registers.ts:109-173 | When the denial mail is delivered, the two deletes leave the same store and give the same response |
| Registers.DeleteThenGet | src/controllers/registers.ts:109-173 | After either delete the form is no longer found (404) |
| Registers.CreateThenDeny | src/controllers/registers.ts:96-128 | A created form is read back, and its denial mail goes to the applicant's own address |

## Left out

- JWT signing and verification, and the access-token cookie in `ChangePassword`, are
  not modelled. A created booking answers with the booking document rather than a
  token that encodes it. A user sign-up answers with the new user rather than a token.
- Mail bodies (HTML and text) are left out. A mail is its sender, recipient and subject.
- Two handlers write a second response after the first. In `ForgotPassword` the client
  receives one 200 body; the second `res.status(200).json` then throws because the
  headers are already sent, and that throw goes to `next(error)` after the response is
  complete. `ChangePassword` calls `res.send` before the final `json` in the same way.
  Only their store and mail effects and the status the client receives are modelled;
  the late throw is left out.
- The list-all handlers (`getCalendars`, `getRosters`, `getRegisters`) are left out.
  So are `getAuthenticatedUser` and the staffs controller's `getAuthenticatedStaff`.
  Each returns stored records unchanged.
- `suggestBooking` is left out. It is a plain date filter over rosters.
- Bookings.Matching: the regular-expression name filter is the parameter
  `nameMatches`; the regex language is not modelled. Whether a name compiles as a
  pattern is the parameter `nameCompiles`; a name that does not compile answers 500.
- Bookings.GetAllBookings: page and limit are the integers `parseInt` returns. NaN
  is not modelled, and a negative limit is excluded by the `nat` type. A negative skip
  is taken to be rejected by the database, which ends as a 500.
- ObjectId syntax is the parameter `validId`. New ids come from `FreshId`, not from
  ObjectId generation.
- Scheduler.Start: the cron expression is not parsed. `'10 0 0 * * *'` uses
  node-schedule's seconds-first format and fires daily at 00:00:10, not at the 10:00 its
  comment claims. Each firing is one run of `sendEmails`, in firing order.
- The wall clock is the `Clock` input, and time zones are not modelled.
- Session expiry, rolling renewal, CORS and the request logger are left out.
- The staff guard has no try/catch. A database failure there (for example a
  malformed stored staff id) is an unhandled rejection, and it is not modelled.
- Store reads and writes in the handlers are assumed to succeed. A rejected `find`,
  `findOne`, `findById`, `countDocuments` or `aggregate`, or a rejected `create`, `save`
  or `deleteOne`, would reach the handler's `catch` and answer 500; that path is not
  modelled. `Lookup` and `FindBy` are total, so "otherwise the document" and the 200 of
  `GetMonthCalendars` hold for a read that succeeds. Only the reminder job models a
  failed read (`fetchFails`). The handlers whose writes are affected are listed below.
- Calendars.CreateCalendar: a rejected `create` (500) is not modelled.
- Calendars.UpdateCalendar: a rejected `save` (500) is not modelled.
- Calendars.DeleteCalendar: a rejected `deleteOne` (500) is not modelled.
- Rosters.CreateRoster: a rejected `create` (500) is not modelled.
- Rosters.UpdateRoster: a rejected `save` (500) is not modelled.
- Rosters.DeleteRoster: a rejected `deleteOne` (500) is not modelled.
- Registers.CreateRegister: a rejected `create` (500) is not modelled.
- Registers.DeleteRegisterWithEmail: a rejected `deleteOne` after the mail (500) is not
  modelled.
- Registers.DeleteRegisterWithoutEmail: a rejected `deleteOne` (500) is not modelled.
- The same holds for the writes of the booking, user and staff handlers.
- Staffs.StaffLogin: request fields are modelled as absent or a string (`Field`), and
  the passenger count as absent or an integer. The body parsers accept any JSON value
  and no query-filter sanitising is set, so an email such as `{"$ne": null}` is truthy
  and `findOne({ email })` returns the first staff record; operator objects, arrays and
  other non-string values are not modelled.
- Bookings.ZeroPassengersMissing: holds for a JSON number 0. A form-encoded body
  delivers `"0"`, which is truthy and is stored; numbers sent as strings are not
  modelled.
- Concurrent requests are modelled one at a time; interleavings between awaits are
  not modelled.
- Mongoose schema validation and defaults are left out; records hold what the handler
  passes.
- Calendars.GetMonthCalendars: the database's `$match`/`$group` stage is the input
  `g`, required to be a correct grouping (`IsGrouping`) in any order. `Aggregate`
  shows one always exists.
- Dates.FormatDateRoundTrip: stated for four-digit years, months 0 to 11 and days 1 to
  31. Other clock readings are formatted the same way but not read back.
