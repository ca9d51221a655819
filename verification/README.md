# Testable services with in-memory fakes and a virtual clock

This project models three small services of a repository that shows how to
test business logic written against injected services, with in-memory
fakes and a controllable clock:

- **Freeze, polling variant** (`Time`, `time.dfy`). `start` reads the clock
  and records an absolute expiry instant `now + timeout`. `isFrozen` reads
  the clock again and answers whether an expiry is recorded and the current
  instant lies strictly before it. The state is one optional number,
  `expiresAt`, which is undefined until the first `start`. Time is a natural
  number of milliseconds. The clock is passed in as `now`. A test's virtual
  clock is the `World` datatype: `Adjust(d)` plays `TestClock.adjust` as
  `now := now + d`. `Run` replays a sequence of starts and clock advances.
- **Duplicate-checking user gateway** (`DuplicateCheck`, `failure.dfy`). `create`
  searches the stored users for one with the same `name`. If one is found,
  it fails with `DuplicateUser { name }`. Otherwise it appends the user.
  `list` returns the stored users. The stored array is a `seq<User>`, and
  `create` returns `Result<seq<User>, DuplicateUser>`. `StoredAfter` gives the
  stored users once a call has finished, whether it succeeded or failed.
  `CreateAll` replays a series of calls.
- **Buy-subscription fan-out** (`ShadowServices`, `shadow_services.dfy`).
  `sendBuySubscriptionEmail` lists the users and keeps those without a
  subscription. It maps each one to an email with the buy-subscription
  template addressed to the user, and hands the emails to the mailer one
  after another. Its two collaborators are modelled as the test doubles
  used with it:
  - a mailer that records every email it is sent and answers `sentEmailTo`
    by looking for a recorded email with that recipient;
  - a user gateway whose `create` always appends, without any check.

All state is immutable: an operation returns the new state, and a query
(`list`, `isFrozen`, `sentEmailTo`) is a function that cannot change
anything. So "the query does not modify the state" holds by construction.
The use case takes the gateway only as an input, so the user list it reads
is never modified.

Two points of detail:

- The "still frozen" test advances the clock by `timeout - 1s`
  (`src/time.spec.ts:25-27`), and `FrozenOneSecondBeforeTimeout` states
  exactly that. `StartThenAdjust` covers every advance shorter than the
  timeout, a one-millisecond margin included.
- No subscribed user's address is among the recipients only when no user
  without a subscription shares that address. The filter selects users by
  their subscription flag. The emails, and `sentEmailTo`, identify a user
  only by its address. So a subscribed user who shares an address with a
  non-subscribed one is also reported as mailed
  (`SharedAddressReportedAsMailed`). `SentEmailToAfterUseCase` states the
  exact condition.

## Model

| member | source | states |
|---|---|---|
| Time.Initial | src/time.spec.ts:52 | a freshly built Freeze, with `expiresAt` undefined, is not frozen at any instant |
| Time.IsFrozen | src/time.spec.ts:64-67 | frozen at `now` exactly when an expiry is recorded and `now` is strictly before it; never frozen while no expiry is recorded |
| Time.Start | src/time.spec.ts:54-63 | after `start` at `now` with a timeout, the freeze is active at an instant `t` exactly when `t < now + timeout`, whatever the earlier state |
| Time.FrozenEarlier | src/time.spec.ts:64-67 | a freeze that is active at some instant is active at every earlier instant |
| Time.ExpiredStaysExpired | src/time.spec.ts:64-67 | for the same state (no new `start`), once `isFrozen` is false it stays false at every later instant |
| Time.RestartOverwrites | src/time.spec.ts:57-61 | a second `start` replaces the first: the state equals a fresh Freeze started at the second instant, and it is active exactly before the second instant plus the second timeout |
| Time.Apply | src/time.spec.ts:23-27 | one test step: `start` does not move the clock and arms the freeze for exactly the instants before `now + timeout`; `TestClock.adjust` moves only the clock, by the given amount, and leaves the Freeze state untouched |
| Time.AdjustsOnlyMoveClock | src/time.spec.ts:52-67 | clock advances alone leave the Freeze state unchanged and move the clock by their sum |
| Time.StaysExpiredWithoutStart | src/time.spec.ts:64-67 | a freeze that is expired or was never started stays unfrozen through any clock advances that include no new `start` |
| Time.LastStartDecides | src/time.spec.ts:54-67 | after any history, the last `start` decides: the freeze is active exactly when the time elapsed since that start is less than its timeout; earlier sessions do not stack |
| Time.StartThenAdjust | src/time.spec.ts:20-46 | starting a fresh Freeze with a timeout and then advancing by `d` leaves it frozen exactly when `d` is less than the timeout |
| Time.FrozenOneSecondBeforeTimeout | src/time.spec.ts:20-33 | for every timeout of at least one second, the freeze is still active one second before it ends |
| Time.ExpiredAtTimeout | src/time.spec.ts:35-46 | after advancing by exactly the timeout, the freeze is no longer active; the boundary is exclusive |
| Time.TenMinuteScenarios | src/time.spec.ts:18-46 | with the ten-minute timeout, the freeze is active after 9m59s and inactive after 10m |
| Time.ZeroTimeoutNotFrozen | src/time.spec.ts:56-66 | a `start` with a zero timeout is already expired at the instant it is made |
| DuplicateCheck.Empty | src/failure.spec.ts:56 | a freshly built gateway stores no user, so its names are trivially distinct |
| DuplicateCheck.List | src/failure.spec.ts:58 | `list` returns every stored user, unchanged and in insertion order |
| DuplicateCheck.FindByName | src/failure.spec.ts:61-62 | the search finds a user exactly when some stored user has the name, and the user found is the first one with that name |
| DuplicateCheck.Create | src/failure.spec.ts:59-66 | `create` fails exactly when a stored user has the same name, and the failure is `DuplicateUser` with that name; on success the result is the old list unchanged with the user added at the end |
| DuplicateCheck.CreateOutcome | src/failure.spec.ts:62-65 | a refused `create` leaves the stored list unchanged; an accepted one stores the old list followed by the user |
| DuplicateCheck.CreateKeepsInvariant | src/failure.spec.ts:59-66 | one `create` keeps stored names pairwise distinct, keeps the earlier entries in place and leaves the user's name stored |
| DuplicateCheck.CreateAllKeepsInvariant | src/failure.spec.ts:53-70 | after any series of `create` calls, stored names are pairwise distinct, the earlier entries are still there in order, and every attempted name is stored |
| DuplicateCheck.CreateThenList | src/failure.spec.ts:23-35 | `create` on a fresh gateway succeeds, and `list` then gives exactly `[user]` |
| DuplicateCheck.CreateTwiceFails | src/failure.spec.ts:37-50 | creating the same user a second time fails with `DuplicateUser` carrying its name |
| ShadowServices.EmptyGateway | src/shadow-services.spec.ts:141 | a freshly built non-checking gateway stores no user |
| ShadowServices.ListUsers | src/shadow-services.spec.ts:143 | `list` returns every stored user, unchanged and in insertion order |
| ShadowServices.CreateUser | src/shadow-services.spec.ts:144 | `create` always appends the user after the stored ones, and the user's count goes up by one |
| ShadowServices.CreateAllowsDuplicates | src/shadow-services.spec.ts:144 | creating the same user twice stores it twice; nothing is refused |
| ShadowServices.EmptyMailer | src/shadow-services.spec.ts:119 | a freshly built mailer has recorded nothing, and `sentEmailTo` is false for every address |
| ShadowServices.SendEmail | src/shadow-services.spec.ts:121 | `sendEmail` records the email after the earlier ones and leaves those intact |
| ShadowServices.AnySentTo | src/shadow-services.spec.ts:123 | the recursive `some` scan is true exactly when some recorded email has the address as recipient |
| ShadowServices.SentEmailTo | src/shadow-services.spec.ts:122-123 | `sentEmailTo(address)` is true exactly when some recorded email has `address` as recipient |
| ShadowServices.SendEmailThenSentTo | src/shadow-services.spec.ts:121-123 | after `sendEmail`, `sentEmailTo` is true for the new recipient and answers as before for every other address |
| ShadowServices.NonSubscribed | src/shadow-services.ts:47 | the filter keeps only users without a subscription, each exactly as many times as it is stored |
| ShadowServices.BuySubscriptionEmail | src/shadow-services.ts:49-54 | the email for a user carries the buy-subscription template and is addressed to the user's email |
| ShadowServices.ToEmails | src/shadow-services.ts:48-55 | the map gives one email per user, in the same position, with the buy-subscription template and the user's address as recipient |
| ShadowServices.SendEach | src/shadow-services.ts:56 | sending the emails one by one records them after what the mailer held before, in the given order |
| ShadowServices.SendBuySubscriptionEmail | src/shadow-services.ts:42-59 | after the use case, the mailer holds its earlier records followed by exactly the emails for the users without a subscription, filtered and mapped in list order: one per such user, each with the buy-subscription template |
| ShadowServices.NonSubscribedAppend | src/shadow-services.ts:47 | the filter keeps the relative order of the users it keeps |
| ShadowServices.BuySubscriptionEmailsInOrder | src/shadow-services.ts:43-56 | the emails for a list are the emails for its first part followed by those for the rest, so they follow the users' order |
| ShadowServices.BuySubscriptionEmailsSingle | src/shadow-services.ts:47-55 | a single user gets one buy-subscription email to its address exactly when it has no subscription |
| ShadowServices.BuySubscriptionEmailsReach | src/shadow-services.ts:47-54 | the produced emails go to an address exactly when some user without a subscription has it |
| ShadowServices.SentEmailToAfterUseCase | src/shadow-services.ts:42-59 | after the use case, `sentEmailTo(address)` holds exactly when it held before or some user without a subscription has that address |
| ShadowServices.SharedAddressReportedAsMailed | src/shadow-services.ts:47-56 | a subscribed user stored together with a non-subscribed user of the same address is reported as mailed by `sentEmailTo` |
| ShadowServices.SendsEmailToNonPayingUser | src/shadow-services.spec.ts:82-95 | after storing one user without a subscription and running the use case, `sentEmailTo` of its address is true |
| ShadowServices.NoEmailToPaidUser | src/shadow-services.spec.ts:97-108 | after storing one subscribed user and running the use case, `sentEmailTo` of its address is false |

The use case also appears, identically, in `src/shadow-services.spec.ts:52-69`.
The rows above cite the copy in `src/shadow-services.ts`.

## Left out

- The effect runtime is not modelled: service tags, layers, contexts, providing and running effects, and the test runner. Each service is a set of pure functions over explicit state, and a test is a composition of those functions.
- `Duration` values and the `TestClock`/`Clock` internals are not modelled. Durations and instants are natural numbers of milliseconds: `Duration.minutes(10)` is 600000 and `Duration.seconds(1)` is 1000. `TestClock.adjust(d)` is `now + d`. The lemmas take the starting instant as a parameter and do not fix it at zero.
- JavaScript number arithmetic is not modelled: `now + toMillis(timeout)` is exact integer addition. It agrees with double-precision addition below 2^53 ms. Infinite durations are not represented.
- `Duration.subtract` is not modelled for a timeout shorter than one second. `FrozenOneSecondBeforeTimeout` requires a timeout of at least one second, as the test's ten minutes does.
- The blocking, cancellable Freeze variant is not modelled. `Time` covers only the polling variant of `src/time.spec.ts:49-70`.
- Branded addresses and `Data.Class` structural equality are not modelled. An address is a `string`, and users and emails are datatypes compared by value.
- `Email.variables` is always `undefined` for the only template in use, which has an empty payload schema, so the `Email` datatype has no payload field. The template's schema is dropped as well, and its subject and body are kept as constants.
- `sentEmailTo` is declared to return `Effect<void>` (`src/shadow-services.spec.ts:114`) but computes a boolean (`src/shadow-services.spec.ts:123`). It is modelled as returning `bool`.
- The aliasing of `list` is not modelled. In the source, `list` hands out the live stored array. Here it returns a value, so later calls cannot change what an earlier `list` returned.
- `src/time.ts` and `src/failure.ts` declare only the operation shapes. They are used for the signatures and have no behaviour to model.
- DuplicateCheck.Create: the duplicate search and the append are one step here. In the source (`src/failure.spec.ts:59-66`) the search runs when `create(user)` is called, and only the push is deferred into the returned effect. Running one returned effect twice would append the user twice without a second search. `CreateAllKeepsInvariant` therefore assumes that each effect returned by `create` runs at most once, as the accessor and the tests use it.
