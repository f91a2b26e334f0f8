# Meetup backend: admission rules of the meetup and subscription controllers

This project models, in Dafny, the two controllers at the heart of a meetup
scheduling backend:

- `MeetupController`: `index` lists meetups by date, ten per page. `store`,
  `update` and `delete` run a fixed sequence of guards. The first guard that
  fails answers with an error status. If all pass, the meetups table is written.
- `SubscriptionController`: `index` lists the requester's upcoming
  subscriptions. `store` joins a meetup after five ordered checks, inserts the
  subscription and queues a `SubscriptionMail` job.

The database is an in-memory value, `Records.Tables`. It holds the meetups
table and the subscriptions table in insertion order, an auto-increment
counter for each, and the mail job queue. `Database.Db` is the object that
holds this state; the controller methods change it in place (`modifies db`).
The controllers themselves keep no state, as in the source, so each is a
module. Every write is modelled twice:

- a step function (`StoreStep`, `UpdateStep`, `DeleteStep`) maps a database
  value to a response and the database after the call. Its contract states the
  guards in the order the controller runs them, that a failed call changes
  nothing, and what a successful call writes;
- a method of the controller module (`Store`, `Update`, `Delete`) performs
  the call on a `Db` object it is given. It is proved to leave exactly the
  state and response of the step function.

The clock (`now`, integer milliseconds) and the authenticated user id (the
`req.userId` the token middleware sets) are parameters. A response is
`Ok(record)`, `Rejected(status, message)` with the controller's own status and
message, or `Thrown`. `Thrown` stands for an exception raised before any
answer. This happens in two ways: the code reads a property of a meetup that
does not exist, or a listing is asked for a page below 1, whose negative offset
makes the query fail.

The model follows the code as written, defects included:

- `store` checks for a slot conflict at `startOfHour(date)`, but it writes the
  unrounded `date` and no `user_id` or `banner_id`.
- The `index` day filter is built but passed under the key `whereClause`, which
  the ORM does not read. The `date` query parameter therefore has no effect.
- Subscription `store` reads `meetup.date` before it tests whether the meetup
  exists. A missing meetup throws, rather than getting the 400 answer.
- `update` and `delete` never test whether the meetup exists, so a missing
  meetup throws.
- A failed call changes nothing, and each successful write keeps the integrity
  of the tables (`Records.WellFormed`).

Three rules about subscriptions are kept by subscription `store` and by
meetup `store` and `delete` (`Records.Consistent`):

- no user holds two subscriptions to the same meetup;
- no user holds two subscriptions to meetups at the same instant;
- no user is subscribed to a meetup they organize.

Meetup `update` can break the last two. It never looks at subscriptions, and
its body may change `date` and `user_id`.

Two more behaviours of the code are modelled as they stand:

- Meetup `store` tests the past against the start of the hour of `date`. So
  any time in the current hour is refused, even one still ahead, unless
  `now` is exactly on the hour.
- Subscriptions are created by `POST /subscriptions` (src/routes.js:26), and
  the meetup is named by `meetupId` in the request body.

## Model

| member | source | states |
|---|---|---|
| `Clock.StartOfHour` | src/app/controllers/MeetupController.js:65 | the result is the whole hour at or before the time: a multiple of 3 600 000 ms, at most the time and less than one hour before it |
| `Clock.StartOfDay` | src/app/controllers/MeetupController.js:23 | the result is the midnight at or before the time: a multiple of 86 400 000 ms within one day before it |
| `Clock.EndOfDay` | src/app/controllers/MeetupController.js:23 | the result is the last millisecond of the time's day, on or after the time and before the next midnight |
| `Clock.HourStartBoundsDate` | src/app/controllers/MeetupController.js:65-68 | if a date's start of hour is not before now, the date itself is not before now |
| `Ordering.InsertBy` | src/app/controllers/MeetupController.js:29 | inserting into a sorted sequence gives a sorted sequence that holds the old rows plus the new one (a permutation) |
| `Ordering.SortBy` | src/app/controllers/MeetupController.js:29 | the ordered rows are in ascending (column, id) order and are a permutation of the input rows |
| `Ordering.SortByNoRepeat` | src/app/controllers/MeetupController.js:29 | ordering a sequence in which no row repeats puts different rows at different positions |
| `Ordering.SortBySameRows` | src/app/controllers/SubscriptionController.js:28 | a row occurs in the ordered result exactly when it occurs in the input |
| `Paging.PageOf` | src/app/controllers/MeetupController.js:16 | a request without `page` asks for page 1; otherwise for the page given |
| `Paging.Offset` | src/app/controllers/MeetupController.js:32 | the offset `(page - 1) * 10` is non-negative exactly when the page is at least 1 |
| `Paging.OffsetAligned` | src/app/controllers/MeetupController.js:32 | for a page of at least 1, the offset is a multiple of 10 whose quotient is page - 1 |
| `Paging.PageLength` | src/app/controllers/MeetupController.js:31-32 | a page starting at the offset holds at most 10 rows, none exactly when the offset is past the last row, and never runs past the last row |
| `Paging.Slice` | src/app/controllers/MeetupController.js:31-32 | a page holds at most 10 rows; it holds exactly min(10, rows left after the offset) rows; its row k is row offset + k |
| `Paging.EveryRowOnAPage` | src/app/controllers/MeetupController.js:31-32 | paging loses no row: row i is row i mod 10 of page i / 10 + 1 |
| `Paging.PagesDisjoint` | src/app/controllers/SubscriptionController.js:29-30 | paging repeats no row: a row on an earlier page is at an earlier position than any row on a later page |
| `Records.Past` | src/app/controllers/MeetupController.js:30 | the virtual `past` attribute holds exactly when the meetup's date is before now |
| `Records.IndexOfMeetup` | src/app/controllers/MeetupController.js:102-104 | returns the position of the first meetup with the primary key, or -1 when no meetup has it |
| `Records.FindMeetup` | src/app/controllers/SubscriptionController.js:47-50 | a found meetup is in the table and has the id; when none is found, no meetup of the table has the id |
| `Records.FindMeetupUnique` | src/app/controllers/MeetupController.js:126-128 | when ids are unique, the lookup returns a meetup exactly when that meetup is in the table with that id |
| `Database.Db.constructor` | src/app/controllers/SubscriptionController.js:5-7 | a fresh database holds empty meetups and subscriptions tables with counters at 1 and an empty mail queue, and is well-formed |
| `Database.Db.Load` | src/app/controllers/SubscriptionController.js:5-7 | a database loaded from well-formed tables holds exactly those tables and is well-formed |
| `MeetupController.StoreBodyValid` | src/app/controllers/MeetupController.js:52-59 | a body the store schema accepts also passes the update schema; an empty title, description or location is refused |
| `MeetupController.UpdateBodyValid` | src/app/controllers/MeetupController.js:90-97 | the empty body passes, since every field is optional; a malformed `date` or `user_id` is refused |
| `MeetupController.Listings` | src/app/controllers/MeetupController.js:30 | each listed row has the id and date of the meetup at its position, `past` equal to "date before now", and its organizer |
| `MeetupController.SortedPage` | src/app/controllers/MeetupController.js:27-32 | the page at an offset holds `PageLength` meetups; its row k is row offset + k of the table ordered by (date, id). So every row is from the table, in ascending date order |
| `MeetupController.Index` | src/app/controllers/MeetupController.js:15-49 | with a page of at least 1 (default 1), the answer holds `PageLength` rows for the page's offset. Row k lists meetup offset + k of the table ordered by (date, id), with `past` set exactly when its date is before now. A page below 1 fails the query |
| `MeetupController.PageRow` | src/app/controllers/MeetupController.js:27-32 | row j of page p is the listing of row offset + j of the ordered table |
| `MeetupController.PagesInDateOrder` | src/app/controllers/MeetupController.js:29-32 | for pages 1 <= p < q, every meetup on page p is dated no later than every meetup on page q |
| `MeetupController.PagesShareNoMeetup` | src/app/controllers/MeetupController.js:29-32 | with unique ids, no meetup is listed on two different pages |
| `MeetupController.SortKeepsIdsUnique` | src/app/controllers/MeetupController.js:29 | ordering a table with unique ids gives a sequence with unique ids |
| `MeetupController.IndexListsEveryMeetup` | src/app/controllers/MeetupController.js:27-32 | every meetup of the table is listed on some page of at least 1 |
| `MeetupController.IndexIgnoresDateFilter` | src/app/controllers/MeetupController.js:17-28 | the listing with a `date` parameter equals the listing without one, because the window goes to `whereClause` |
| `MeetupController.SlotTaken` | src/app/controllers/MeetupController.js:70-72 | the slot is taken exactly when some meetup of the table has the requester as organizer and the given instant as date |
| `MeetupController.StoreStep` | src/app/controllers/MeetupController.js:51-87 | an invalid body gives 400 "Validation fails." Then a start of hour before now gives 400. Then a meetup of the requester at that start of hour gives 400 "Meetup date is not available." It succeeds exactly when none of these applies. A failure leaves every table unchanged. A success appends exactly one meetup under a fresh id, with the given title, description and location, the unrounded date and no organizer or banner, and changes nothing else. Its date is not before now, and integrity is kept |
| `MeetupController.Store` | src/app/controllers/MeetupController.js:51-87 | the method leaves the database and answer that `StoreStep` gives for the old database, and keeps it valid |
| `MeetupController.Patch` | src/app/controllers/MeetupController.js:120 | the patched meetup keeps its id; each supplied field (title, description, location, `banner_id`, `user_id`, date) replaces the old value, and each absent one keeps it |
| `MeetupController.UpdateStep` | src/app/controllers/MeetupController.js:89-123 | the guards run in order. An invalid body gives 400, then a missing meetup throws. Then a requester who is not the organizer gets 401, then a past meetup gives 401, then a supplied date before now gives 400. Otherwise the answer is the patched meetup. Failures change nothing. A success replaces only that meetup's row, and the row comes out not past |
| `MeetupController.Update` | src/app/controllers/MeetupController.js:89-123 | the method leaves the database and answer that `UpdateStep` gives for the old database |
| `MeetupController.RemoveAt` | src/app/controllers/MeetupController.js:140 | removing a row leaves one row fewer with unique ids: every row except the one with the removed id |
| `MeetupController.DeleteStep` | src/app/controllers/MeetupController.js:125-142 | a missing meetup throws. Then a requester who is not the organizer gets 401, then a past meetup gives 401. Otherwise the answer is the meetup's prior record. Failures change nothing. A success removes exactly that meetup and leaves every other meetup and the other tables unchanged |
| `MeetupController.Delete` | src/app/controllers/MeetupController.js:125-142 | the method leaves the database and answer that `DeleteStep` gives for the old database |
| `SubscriptionController.Upcoming` | src/app/controllers/SubscriptionController.js:14-24 | an upcoming subscription belongs to the requester, and a meetup with its meetup id exists with a date strictly after now |
| `SubscriptionController.Joined` | src/app/controllers/SubscriptionController.js:13-26 | each joined row is a subscription of the requester whose meetup exists and is strictly after now, paired with that meetup. Every such subscription has a row |
| `SubscriptionController.JoinedListsEachOnce` | src/app/controllers/SubscriptionController.js:13-26 | with unique subscription ids, no two joined rows carry the same subscription, so each upcoming subscription has exactly one row |
| `SubscriptionController.SortedPage` | src/app/controllers/SubscriptionController.js:28-30 | the page at an offset holds `PageLength` rows; its row k is row offset + k of the joined rows ordered by (meetup date, subscription id). So every row is a joined row, in ascending meetup-date order |
| `SubscriptionController.Index` | src/app/controllers/SubscriptionController.js:11-34 | with a page of at least 1 (default 1), the answer holds `PageLength` rows for the page's offset. Row k is row offset + k of the ordered join: a subscription of the requester with its existing meetup dated strictly after now. A page below 1 fails the query |
| `SubscriptionController.PageRow` | src/app/controllers/SubscriptionController.js:28-30 | row j of page p is row offset + j of the ordered join |
| `SubscriptionController.PagesInDateOrder` | src/app/controllers/SubscriptionController.js:28-30 | for pages 1 <= p < q, every meetup on page p is dated no later than every meetup on page q |
| `SubscriptionController.PagesShareNoSubscription` | src/app/controllers/SubscriptionController.js:28-30 | with unique subscription ids, no subscription is listed on two different pages |
| `SubscriptionController.SortKeepsRowsUnique` | src/app/controllers/SubscriptionController.js:28 | ordering a join that lists each subscription once keeps it listing each subscription once |
| `SubscriptionController.IndexListsEveryUpcoming` | src/app/controllers/SubscriptionController.js:28-30 | every upcoming subscription of the requester is listed on some page |
| `SubscriptionController.AlreadySubscribed` | src/app/controllers/SubscriptionController.js:63-65 | holds exactly when the table has a subscription of the requester to that meetup |
| `SubscriptionController.HasSameInstant` | src/app/controllers/SubscriptionController.js:72-85 | when it holds, the requester has a subscription to an existing meetup dated at that instant |
| `SubscriptionController.StoreStep` | src/app/controllers/SubscriptionController.js:36-105 | the guards run in order. A missing or non-numeric `meetupId` gives 400, then a missing meetup throws. Then a past meetup gives 401, the requester's own meetup gives 400, an existing subscription to it gives 400, and a subscription to another meetup at the same instant gives 400. Otherwise it succeeds. Failures change nothing. A success appends exactly one subscription (requester, meetup) and one SubscriptionMail job carrying the meetup, and changes nothing else |
| `SubscriptionController.Store` | src/app/controllers/SubscriptionController.js:36-105 | the method leaves the database and answer that `StoreStep` gives for the old database |
| `Rules.FindAfterAppend` | src/app/controllers/MeetupController.js:79-84 | appending a meetup does not change the lookup of any other id |
| `Rules.FindAfterRemove` | src/app/controllers/MeetupController.js:140 | after removal, the removed id finds nothing and every other id finds what it found before |
| `Rules.SubscriptionStorePreservesConsistency` | src/app/controllers/SubscriptionController.js:58-97 | subscription store keeps the rules: no duplicate pair, no two subscriptions of one user at one instant, no subscription to one's own meetup |
| `Rules.MeetupStorePreservesConsistency` | src/app/controllers/MeetupController.js:77-84 | meetup store keeps the three subscription rules |
| `Rules.MeetupDeletePreservesConsistency` | src/app/controllers/MeetupController.js:125-142 | meetup delete keeps the three subscription rules |
| `Rules.SecondJoinRejected` | src/app/controllers/SubscriptionController.js:63-70 | repeating a successful join is rejected with 400 "You are already subscribed to this meetup." and changes nothing |
| `Rules.BothJoinedConsistent` | src/app/controllers/SubscriptionController.js:58-97 | the example database (two meetups of one organizer, another user subscribed to both) has unique keys and keeps the three subscription rules |
| `Rules.UpdateCanBreakSameInstant` | src/app/controllers/MeetupController.js:116-120 | from a database that keeps the rules, moving one meetup to another's instant is accepted and leaves a user subscribed to both at one instant |
| `Rules.UpdateCanBreakOwnMeetup` | src/app/controllers/MeetupController.js:120 | from a database that keeps the rules, an update that sets `user_id` to a subscriber is accepted and leaves that user subscribed to their own meetup |
| `Corrections.StoredMeetupIsLocked` | src/app/controllers/MeetupController.js:79-84 | after a successful store, its creator's update (valid body) and delete of the new meetup are refused with 401, at any later time |
| `Corrections.SlotCheckMissesSameInstant` | src/app/controllers/MeetupController.js:70-83 | a user who holds a meetup at 00:30 may store another at 00:30 |
| `Corrections.StoreStepCorrected` | src/app/controllers/MeetupController.js:64-84 | succeeds exactly when the as-written store does, and a refusal is the same status and message. A success stores the as-written row with the requester as organizer and the start of the hour as date. It is then not past, and no organizer ever holds two meetups at one instant. Failures change nothing |
| `Corrections.CorrectedStoreKeepsOwnership` | src/app/controllers/MeetupController.js:125-142 | after the corrected store, its creator can delete the meetup, and the answer is its record |
| `Corrections.MissingMeetupThrows` | src/app/controllers/SubscriptionController.js:47-58 | joining a meetup id that does not exist throws |
| `Corrections.SubscriptionStoreCorrected` | src/app/controllers/SubscriptionController.js:47-61 | never throws. A missing meetup gives 400 "Unable to join own meetup or meetup does not exist." and changes nothing. Otherwise it is the as-written store |
| `Corrections.MissingMeetupEditThrows` | src/app/controllers/MeetupController.js:102-109 | updating (valid body) or deleting a meetup id that does not exist throws |
| `Corrections.UpdateStepCorrected` | src/app/controllers/MeetupController.js:102-109 | never throws. A missing meetup gives 404 and changes nothing. Otherwise it is the as-written update |
| `Corrections.DeleteStepCorrected` | src/app/controllers/MeetupController.js:126-133 | never throws. A missing meetup gives 404 and changes nothing. Otherwise it is the as-written delete |
| `Corrections.OnDay` | src/app/controllers/MeetupController.js:19-24 | a meetup is kept exactly when it is in the table and dated from the day's start to its last millisecond |
| `Corrections.OnDayKeepsEachOnce` | src/app/controllers/MeetupController.js:19-24 | the filter holds each meetup at most as often as the table does (multiset inclusion), so it repeats no meetup |
| `Corrections.IndexCorrected` | src/app/controllers/MeetupController.js:17-32 | with a `date`, every listed meetup lies within that day. Every row lists a meetup of the table. Without a `date`, it is the as-written listing |
| `Corrections.IndexCorrectedPagesTheDay` | src/app/controllers/MeetupController.js:17-32 | a dated query is the as-written listing over the day's meetups alone, so all of `MeetupController.Index`'s contract applies to them: `PageLength` rows per page, row k is row (page - 1) * 10 + k of the day's meetups in (date, id) order |
| `Corrections.IndexCorrectedListsEveryMeetupOfDay` | src/app/controllers/MeetupController.js:17-32 | with the window applied, every meetup of the requested day is listed on some page of at least 1 |
| `Corrections.DateFilterListsOtherDays` | src/app/controllers/MeetupController.js:17-28 | with one meetup on day 2, the listing filtered to day 0 still shows it |

## Left out

- Authentication and sessions (`src/app/midllewares/auth.js`, `src/app/controllers/SessionController.js`): token checks and password hashing are library calls. The authenticated user id is a parameter.
- Routing (`src/routes.js`): the model keeps `delete` as the controller defines it, though no DELETE route is registered. It does not model that `FileController` is used without an import.
- Validation schemas: each body field is absent, given with a value of its type, or malformed. A required string must be non-empty. Yup's own parsing and coercion are not modelled, nor are non-integer numbers for `meetupId`. The schemas call `Yup.integer()`, while Yup documents integers as `number().integer()`. If Yup has no top-level `integer`, building the store and update schemas throws before any guard runs. The model assumes the schema is built.
- Body keys outside the schema: `Meetup.update(req.body)` would write them too. The model patches only the six schema fields.
- `Meetup.update(req.body)` has no `where` clause, and Sequelize answers an update with affected-row counts. The model reads the call as "update the loaded meetup" and answers with the patched row.
- `meetup.delete()` is not a Sequelize instance method (that is `destroy`). The model reads it as "remove the loaded meetup".
- Cascades on delete: the schema is not part of this model. Subscriptions to a deleted meetup stay in their table, and lookups of them find nothing.
- Time zones and date parsing: dates are integer UTC milliseconds, and the hour and day roundings are floors. In `update`, an absent `date` makes `parseISO` give an invalid date, which `isBefore` never finds earlier. The model therefore lets an absent date through that guard.
- Index tie order: the database leaves rows with equal dates unordered. The model breaks ties by id.
- Index page parameter: a page below 1 gives a negative offset. The model takes the query to fail (`Thrown`), as PostgreSQL and MySQL refuse a negative OFFSET; the database dialect is not part of this model. Non-numeric pages are not modelled.
- Joined attributes: the organizer's name and avatar (meetup index), the `User` include (subscription store), and Sequelize timestamps are not modelled. A listing carries only the organizer id.
- Mail job (`src/app/jobs/SubscriptionMail.js`): a job is the queue key and the meetup. The payload's second field is the `User` model class, not the subscriber. Sending mail and the template (including the misspelt `meetup.usUserer`) are not modelled.
- Response body keys: the model keeps the status and message, but not whether the message sits under `message` or `error`.
- Concurrency: the check-then-insert race between simultaneous requests and the asynchronous queue worker are not modelled. Each call runs alone on the database.
- `Corrections.UpdateStepCorrected` and `Corrections.DeleteStepCorrected` answer a missing meetup with 404 and the message "Meetup not found.". The controllers have no such answer, so both are the model's own.

## Findings

| source | as written | input that shows it | evidently intended | confidence | as-written member | corrected member |
|---|---|---|---|---|---|---|
| src/app/controllers/MeetupController.js:79-84 | `Meetup.create` is given no `user_id`, so the new meetup has no organizer | user u stores a meetup, then updates or deletes it: 401 | the requester is recorded as organizer | high; not executed | `Corrections.StoredMeetupIsLocked` | `Corrections.CorrectedStoreKeepsOwnership` |
| src/app/controllers/MeetupController.js:70-83 | the slot check looks for a meetup at `startOfHour(date)`, but rows keep the unrounded date | user 7 holds a meetup at 00:30 and stores another at 00:30 at time 0: accepted | rows are stored at the rounded date that the check looks for | medium; not executed | `Corrections.SlotCheckMissesSameInstant` | `Corrections.StoreStepCorrected` |
| src/app/controllers/MeetupController.js:17-28 | the day window is passed as `whereClause` and never applied | one meetup on day 2, index with a date on day 0: the meetup is listed | the window is the query's `where` | high; not executed | `Corrections.DateFilterListsOtherDays` | `Corrections.IndexCorrected` |
| src/app/controllers/SubscriptionController.js:52-58 | `meetup.date` is read before the `!meetup` test | `meetupId` of no meetup: throws | 400 "Unable to join own meetup or meetup does not exist." | high; not executed | `Corrections.MissingMeetupThrows` | `Corrections.SubscriptionStoreCorrected` |
| src/app/controllers/MeetupController.js:102-109 | `update` reads `exitMeetup.user_id` with no existence test | update of an id with no meetup: throws | a not-found answer | high; not executed | `Corrections.MissingMeetupEditThrows` | `Corrections.UpdateStepCorrected` |
| src/app/controllers/MeetupController.js:126-133 | `delete` reads `meetup.user_id` with no existence test | delete of an id with no meetup: throws | a not-found answer | high; not executed | `Corrections.MissingMeetupEditThrows` | `Corrections.DeleteStepCorrected` |
