# racional-watcher, modelled in Dafny

racional-watcher polls a brokerage API for each subscribed user's positions.
It keeps, per position, a ladder of return thresholds with the bracket around
the current total return marked active, and it notifies the user's chat
whenever that bracket moves. This project models the core of that service as
pure functions over immutable tables, and proves what each operation
promises:

- **Bracket** (`bracket.dfy`) is the threshold-bracket engine
  (`getVariation`). It is modelled from its test table
  (src/services/__tests__/stock.service.test.ts); src/services/stock.service.ts
  is not modelled. It has a recomputation, a uniqueness theorem, saturation
  at both ends of the ladder, a mirror symmetry, and every test case as a
  lemma.
- **StockRepository** (`stock_repository.dfy`) is the stock table: the
  queries, the deletion, the batch update of ladders and the
  reconciliation `syncStocks`. Reconciliation is proved convergent and
  idempotent.
- **UserRepository** (`user_repository.dfy`) is the user table: the active
  and expired queries and the token and error writes, together with the
  schema's uniqueness invariant.
- **Racional** (`racional.dfy`) maps HTTP failures of the brokerage API to
  the service's errors.
- **UserService** (`user_service.dfy`) is the credential lifecycle: expiry,
  then re-login, then the token and error writes.
- **Watcher** (`watcher.dfy`) is one watch cycle (`checkStocks`), written as
  the ordered trace of the calls it makes.
- **SleepTime** (`sleep_time.dfy`) is the calendar arithmetic of the wait
  until the market next opens.
- **Schema**, **Seqs** and **Wrappers** hold the table rows, sequence
  helpers and `Option`/`Result`.

Database tables are sequences of rows in insertion order, and a query is a
filter that keeps that order. A transaction is one pure function, so it is
atomic by construction. Concurrent fan-outs (`Promise.all`,
`Promise.allSettled`) are folds in issue order. Answers from the brokerage
API and from code outside the core (the current instant, login and position
responses, the variations found per user, the default ladder) are
parameters.

The stored flag of a threshold is called `active` (the source's `in`, a
Dafny keyword). The tests do not say what happens when the value equals a
threshold. The engine takes that rule as a parameter `Tie`, chosen per
threshold: whether the threshold counts as above a value lying exactly on
it. Every test-derived lemma holds for every such rule.

`refreshTokens` (src/services/user.service.ts:44-46) writes only the new
token after a successful re-login; the error column keeps its old value.
`UserService.RefreshTokens` and `UserService.CredentialCycle` state this.

## Model

| member | source | states |
|---|---|---|
| Schema.InsertUser | src/db/schema.ts:5-17 | an insert succeeds exactly when id, chat id and e-mail are all new; the new row has the column defaults (enabled, no error, no token); a table with unique columns stays so |
| Bracket.Ladder | src/services/__tests__/stock.service.test.ts:7-14 | the test ladder 2, 1, 0.5, -0.5, -1, -2 is strictly decreasing |
| Bracket.Recompute | src/services/__tests__/stock.service.test.ts:58-107 | recomputing the flags keeps the thresholds and leaves exactly the thresholds bordering the value active |
| Bracket.SettledUnique | src/services/__tests__/stock.service.test.ts:58-107 | two ladders with the same thresholds that both bracket the value are equal, so the bracket is a function of the value |
| Bracket.GetVariation | src/services/__tests__/stock.service.test.ts:16-140 | "undefined" exactly when the stored flags already bracket the value; otherwise a ladder with the same thresholds that brackets the value and differs from the stored one |
| Bracket.BetweenActivatesPair | src/services/__tests__/stock.service.test.ts:59-107 | a value strictly between thresholds i and i+1 leaves exactly that pair active, and the answer is "unchanged" exactly when that pair was already the active one |
| Bracket.AboveTopSaturates | src/services/__tests__/stock.service.test.ts:25-39 | a value above the top threshold, or on it when the tie rule counts the top as below it, leaves only the top active, and that is no change if it already was so |
| Bracket.BelowBottomSaturates | src/services/__tests__/stock.service.test.ts:41-55 | a value below the bottom threshold, or on it when the tie rule counts the bottom as above it, leaves only the bottom active, and that is no change if it already was so |
| Bracket.TieIrrelevantOffThresholds | src/services/__tests__/stock.service.test.ts:58-107 | for a value on no threshold, any two tie rules give the same answer |
| Bracket.MirrorVariation | src/services/__tests__/stock.service.test.ts:109-138 | the engine commutes with turning the ladder upside down and negating the value, with the tie rule flipped |
| Bracket.SymmetricLadderMirrors | src/services/__tests__/stock.service.test.ts:98-106 | on a symmetric ladder, the answers for a value and for its negation are mirror images |
| Bracket.SameLadder | src/services/__tests__/stock.service.test.ts:65-96 | a ladder with the test thresholds and the given flags is the expected ladder of the tests |
| Bracket.ExampleInRange | src/services/__tests__/stock.service.test.ts:18-55 | the three "in range" cases give "undefined" |
| Bracket.InRangeMiddle | src/services/__tests__/stock.service.test.ts:18-23 | 0.1 inside the stored (0.5, -0.5) bracket gives "undefined" |
| Bracket.InRangeTop | src/services/__tests__/stock.service.test.ts:25-39 | 2.5 with only the top threshold active gives "undefined" |
| Bracket.InRangeBottom | src/services/__tests__/stock.service.test.ts:41-55 | -2.5 with only the bottom threshold active gives "undefined" |
| Bracket.ExampleBetween | src/services/__tests__/stock.service.test.ts:59-107 | 1.9, 0.9, -0.9 and -1.9 move the bracket to the expected adjacent pair |
| Bracket.ExampleMove | src/services/__tests__/stock.service.test.ts:59-107 | on the test ladder, a value between another adjacent pair than the stored one activates that pair |
| Bracket.ExampleSaturated | src/services/__tests__/stock.service.test.ts:109-138 | 3 leaves only the top threshold active and -3 only the bottom one |
| Bracket.ExampleBeyond | src/services/__tests__/stock.service.test.ts:109-138 | on the test ladder, a value beyond an end leaves only that end active |
| StockRepository.GetStocksByUserId | src/repository/stock.repository.ts:11-13 | the rows returned are exactly the user's rows |
| StockRepository.GetStocksByUserIds | src/repository/stock.repository.ts:15-17 | the rows returned are exactly those of the listed users |
| StockRepository.GetStockInByUserId | src/repository/stock.repository.ts:19-24 | the rows returned are exactly the user's rows whose asset is listed |
| StockRepository.RemoveStocksByUserId | src/repository/stock.repository.ts:26-30 | a row survives exactly when it is not one of the user's listed assets |
| StockRepository.RemoveDeletesExactlyStockIn | src/repository/stock.repository.ts:19-30 | the rows deleted and the rows kept together are the table, as a multiset |
| StockRepository.DeleteAbsent | src/repository/stock.repository.ts:49-59 | drops exactly the user's rows whose asset is not listed; other users' rows are unchanged; unique keys stay unique |
| StockRepository.TrackedAssets | src/repository/stock.repository.ts:61-68 | the user's assets after deletion, each once, are exactly the assets the user tracks |
| StockRepository.Missing | src/repository/stock.repository.ts:68-69 | exactly the listed assets the user does not track yet |
| StockRepository.CountMatchConverges | src/repository/stock.repository.ts:61-66 | after the deletion, equal counts already mean the user tracks exactly the listed assets, so the early return is safe |
| StockRepository.InsertMissing | src/repository/stock.repository.ts:68-77 | inserting the missing assets gives each listed asset one row, default ladder on the new ones, unique keys kept |
| StockRepository.SyncStocks | src/repository/stock.repository.ts:47-79 | afterwards the user tracks exactly the listed assets; kept rows keep their ladders; new ones get the default; other users' rows and key uniqueness are unchanged |
| StockRepository.SyncOfSyncedIsIdentity | src/repository/stock.repository.ts:47-79 | reconciling a user who already tracks exactly the listed assets changes nothing |
| StockRepository.NothingAbsent | src/repository/stock.repository.ts:49-59 | when every tracked asset is listed, the deletion step deletes nothing |
| StockRepository.SyncedCountMatches | src/repository/stock.repository.ts:61-66 | a user tracking exactly the distinct listed assets has one row per listed asset, so the early return is taken |
| StockRepository.SyncIdempotent | src/repository/stock.repository.ts:47-79 | reconciling twice with the same list is the same as reconciling once |
| StockRepository.UpdateStockRanges | src/repository/stock.repository.ts:32-45 | each targeted row gets its new ladder; every other row and every key is unchanged |
| StockRepository.UpdateKeepsUniqueKeys | src/repository/stock.repository.ts:32-45 | a batch update keeps the (user, asset) key unique |
| UserRepository.Get | src/repository/user.repository.ts:11-16 | the rows returned are exactly the enabled users holding a token |
| UserRepository.GetExpired | src/repository/user.repository.ts:25-30 | the rows returned are exactly the enabled users without a token |
| UserRepository.ActiveAndExpiredPartitionEnabled | src/repository/user.repository.ts:11-30 | active and expired users together are the enabled users, each once; disabled users are in neither |
| UserRepository.RemoveTokenByUserIds | src/repository/user.repository.ts:18-23 | exactly the enabled listed users lose their token, and nothing else changes |
| UserRepository.RemovedUsersAreExpired | src/repository/user.repository.ts:18-30 | after the removal, every enabled listed user is expired and not active |
| UserRepository.UpdateTokenByUserId | src/repository/user.repository.ts:32-34 | exactly the rows with that id get the token, and nothing else changes |
| UserRepository.SetErrorByUserId | src/repository/user.repository.ts:36-38 | exactly the rows with that id get the error (possibly cleared), and nothing else changes |
| UserRepository.UpdateTokenKeepsWellFormed | src/repository/user.repository.ts:32-34 | storing a token no other user holds keeps the schema's unique columns unique |
| UserRepository.ClearingKeepsWellFormed | src/repository/user.repository.ts:18-38 | clearing tokens or writing an error keeps the unique columns unique |
| Racional.ClassifyLoginError | src/services/racional.service.ts:33-45 | a login failure becomes "invalid credentials" exactly for a 400 answer with INVALID_PASSWORD, with message "Invalid email or password"; anything else is rethrown unchanged |
| Racional.ClassifyGetStocksError | src/services/racional.service.ts:59-65 | a positions failure becomes "invalid credentials" exactly for a 403 answer, with message "Invalid token"; anything else is rethrown unchanged |
| Racional.MappingsDiffer | src/services/racional.service.ts:38-43 | a 403 on login and a 400 on positions are both rethrown, not mapped |
| Racional.UnansweredErrorsPassThrough | src/services/racional.service.ts:33-36 | errors that are not HTTP errors, or carry no response, are rethrown by both calls |
| UserService.ProcessExpiredUsers | src/services/user.service.ts:14-19 | the enabled listed users lose their token, nothing else changes, and the refresh is scheduled for exactly the listed users |
| UserService.WriteFor | src/services/user.service.ts:34-42 | each login outcome gives one write addressed to that user: a successful login stores its id token, a failed one stores the message of the classified error |
| UserService.IssuedIsPermutation | src/services/user.service.ts:44-49 | token writes followed by error writes are a permutation of the per-user outcomes |
| UserService.IssuedNoDuplicates | src/services/user.service.ts:44-49 | with distinct users, no write is issued twice and each outcome is issued |
| UserService.ApplyAllFrame | src/services/user.service.ts:59 | writes addressed to other users leave a row unchanged |
| UserService.ApplyAllAddressed | src/services/user.service.ts:59 | with one write per user, a row ends as its own write leaves it |
| UserService.RefreshFrame | src/services/user.service.ts:21-60 | a refresh changes only tokens and errors, and only of the listed users |
| UserService.RefreshRows | src/services/user.service.ts:44-59 | with distinct users, each listed user's row ends as its own outcome's write leaves it |
| UserService.RefreshPerUser | src/services/user.service.ts:34-59 | each listed user's row ends as its own login outcome's write leaves it |
| UserService.RefreshTokens | src/services/user.service.ts:21-60 | one login per listed user; one write per user; an empty list changes nothing; success stores the token and leaves the error; failure stores the classified message and leaves the token |
| UserService.CredentialCycle | src/services/user.service.ts:14-49 | an expired user whose re-login fails is expired with an error; a later successful re-login makes them active again, with the token stored and the error kept |
| UserService.ExpireThenFail | src/services/user.service.ts:14-49 | expiring an enabled user and failing the re-login leaves the user expired with the classified failure recorded |
| UserService.Relogin | src/services/user.service.ts:21-46 | a successful re-login makes an enabled user active with the new token and leaves the recorded error unchanged |
| Watcher.ChatIdOf | src/services/watcher.service.ts:59-63 | the chat id stored for an id is that of some user with the id, and nothing is found exactly when no user has it |
| Watcher.ChatIdOfOwner | src/services/watcher.service.ts:59-63 | with unique ids, the chat id found is the user's own |
| Watcher.Head | src/services/watcher.service.ts:26-38 | the events before any sync are reads, fetches, refresh scheduling and logging |
| Watcher.HeadFacts | src/services/watcher.service.ts:30-38 | the refresh is scheduled once, exactly when some user expired, with exactly those users; every fetch error is logged, and nothing else is |
| Watcher.Cycle | src/services/watcher.service.ts:25-67 | the users are read first and only once; with no users only the read happens; with some, the one fetch of exactly those users comes next; the refresh is scheduled exactly when there are expired users; the events before the first sync are exactly the read, the fetch, at most one refresh and one log line per fetch error, in that order; syncs and comparisons are one per user with positions; the update and the notifications happen only if there are variations; stages never go back |
| Watcher.RunStages | src/services/watcher.service.ts:29-66 | in a cycle over some users each stage consists of exactly its own events, in issue order, and the stages never go back |
| Watcher.RunOpening | src/services/watcher.service.ts:26-29 | a cycle over some users starts with the read and then the fetch, and neither recurs |
| Watcher.Opening | src/services/watcher.service.ts:26-29 | a cycle over some users starts with the read and then the fetch, and neither recurs |
| Watcher.CheckStocks | src/services/watcher.service.ts:25-67 | the read comes first; with no active user in the table nothing else happens; otherwise the fetch covers exactly the active users; a notification's chat belongs to an active user with the variation's id, and in a well-formed table it is that user's own |
| Watcher.NotificationChats | src/services/watcher.service.ts:59-65 | a notification names a chat only when a user read has the variation's user id and that chat |
| Watcher.NotificationsReachActiveOwner | src/services/watcher.service.ts:26-65 | in a well-formed user table, every notification for an active user goes to that user's chat |
| Watcher.NotificationsReachOwner | src/services/watcher.service.ts:59-66 | with unique user ids, every notification goes to the chat of the variation's user |
| Watcher.ActiveUsersHaveUniqueIds | src/repository/user.repository.ts:11-16 | the active users of a table with unique columns have unique ids |
| SleepTime.Scheduler | src/utils/sleep-time.ts:4-10 | the schedule has an entry for exactly Monday to Friday |
| SleepTime.OrElse | src/utils/sleep-time.ts:48-51 | a field is kept unless it is zero, in which case the fallback is used |
| SleepTime.Offset | src/utils/sleep-time.ts:17-26 | only GMT-3 and GMT-4 are accepted, as offsets -3 and -4 hours |
| SleepTime.TimeOfDay | src/utils/sleep-time.ts:41 | an instant is its day's start plus a time of day within the day |
| SleepTime.Weekday | src/utils/sleep-time.ts:32-33 | the weekday is between 1 (Monday) and 7 (Sunday) |
| SleepTime.WeekdayNext | src/utils/sleep-time.ts:32-33 | the day after weekday w is weekday w + 1, Sunday wrapping to Monday |
| SleepTime.AddDays | src/utils/sleep-time.ts:39-40 | adding n days moves the day by n and keeps the time of day |
| SleepTime.SetHours | src/utils/sleep-time.ts:41 | setting the hours keeps the day and sets the time of day |
| SleepTime.ScheduleIsUniform | src/utils/sleep-time.ts:45-51 | every weekday's window, through the fallbacks, is 09:30 to 16:00 |
| SleepTime.NextTradingDay | src/utils/sleep-time.ts:65-70 | the skip loop ends on a weekday, adding two days from Saturday, one from Sunday and none otherwise |
| SleepTime.WeekendFacts | src/utils/sleep-time.ts:36-43 | on a weekend the days until Monday are 1 or 2, skip only weekend days and reach a Monday |
| SleepTime.AfterCloseFacts | src/utils/sleep-time.ts:63-70 | after a weekday's close the next trading day is one day ahead, or three from a Friday, and the days skipped are weekend days |
| SleepTime.QuietUntil | src/utils/sleep-time.ts:36-81 | if the rest of today is closed and the days between are weekend days, nothing opens before the target opening |
| SleepTime.NextOpening | src/utils/sleep-time.ts:36-81 | the opening reached is inside a window, nothing before it is, and it is less than 65.5 hours away |
| SleepTime.WaitFrom | src/utils/sleep-time.ts:29-81 | the wait is under 65.5 hours, ends inside a trading window, and no earlier instant is inside one: it is the least wait until the market is open |
| SleepTime.WeekendWait | src/utils/sleep-time.ts:36-43 | on a weekend the wait ends at Monday's opening, the least wait into a window |
| SleepTime.WeekdayWait | src/utils/sleep-time.ts:45-62 | on a weekday the wait is zero inside the window and runs to today's opening before it; in every case it is the least wait into a window |
| SleepTime.AfterCloseWait | src/utils/sleep-time.ts:63-81 | after a weekday's close the wait ends at the next weekday's opening, the least wait into a window |
| SleepTime.SleepMillis | src/utils/sleep-time.ts:12-81 | an unsupported zone is an error; otherwise the wait is zero exactly when the market is open now, and is the least wait until it is |
| SleepTime.GetSleepSeconds | src/utils/sleep-time.ts:12-81 | the same wait in seconds, below 235 800, and an error exactly for an unsupported zone |

## Left out

- src/services/stock.service.ts is not part of this model. `getVariation` is
  modelled from its tests. `getUserStocks` and `compareStocksByTotalRevenue`
  are inputs to `Watcher.Cycle` (the fetched positions and the variations
  per user), and `syncUserStocks` is `StockRepository.SyncStocks`.
- src/services/notification.service.ts, src/services/cron.service.ts, the
  dependency container, configuration and start-up are out of scope: they
  only wire things together or do I/O. A notification is an event of the
  trace.
- Logging (`console.log` and `console.error`) is left out. The watcher's
  per-error log lines are trace events.
- Bracket.GetVariation: the rule for a value lying exactly on a threshold
  is a per-threshold parameter. The tests do not exercise it, and
  src/services/stock.service.ts is not part of this model.
- Racional.ClassifyLoginError: a 400 answer whose body is JSON `null` is not
  modelled. The source then reads `error` of `null` and throws a `TypeError`
  instead of rethrowing the original error; the model's body field cannot
  tell a null body from one without `error.message`.
- Racional.Login: the HTTP exchange itself, timeouts and the request body
  are out of scope. The call's outcome is a parameter, and only the fields
  of the answer the core reads are kept.
- The stock row's auto-increment `id` is omitted. Rows are keyed by (user,
  asset), the table's unique key.
- StockRepository.SyncStocks: requires the asset ids to be distinct, as the
  brokerage lists each position once. With a repeated id, the count test
  and the insert would disagree with the unique key.
- StockRepository.UpdateStockRanges: requires at most one update per
  (user, asset). Concurrent updates of one row inside the transaction have
  no defined winner.
- UserRepository.UpdateTokenByUserId: a token another user already holds
  would be refused by the unique constraint. That database error is not
  modelled; `UserRepository.UpdateTokenKeepsWellFormed` assumes a fresh
  token instead.
- The database library's own edge cases, such as an empty insert or an
  empty `NOT IN` list, are not modelled.
- UserService.RefreshTokens: the concurrent writes are applied in issue
  order, token writes before error writes. With distinct users the order
  does not matter (`UserService.RefreshRows`). With a repeated user the
  outcome depends on that order.
- UserService.ProcessExpiredUsers: the background refresh is a returned
  value ("scheduled for these users"), not an execution. It is run by
  `UserService.RefreshTokens`.
- Watcher.Cycle: only cycles in which every awaited call succeeds are
  modelled. In the source a rejected `get`, `getUserStocks`, sync,
  comparison, update or notification ends the cycle there (`Promise.all`
  rejects on the first failure), and the cron job logs and swallows the
  error (src/services/cron.service.ts:28-32).
- Watcher.Cycle: the background refresh and the concurrent fan-outs are
  events in issue order. The user list is the result of
  `UserRepository.Get`, and `Watcher.CheckStocks` composes the two.
- SleepTime.GetSleepSeconds: the current instant is a parameter in whole
  milliseconds. The schedule's "HH:MM" strings are given already split into
  numbers, so the parsing by `split` and `Number` is not modelled, but the
  `|| default` fallback is. JavaScript's `Date` range limit (±8.64e15 ms) is
  not modelled.
- SleepTime.GetSleepSeconds: returns the exact quotient of the wait by
  1000 as a real number. The source returns the IEEE-754 double nearest to
  it, and that rounding is not modelled.
- `sleep` (src/utils/sleep-time.ts:84-86) is a timer and is left out.
