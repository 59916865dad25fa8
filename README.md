# User selectors of a mobile chat client

This project models the user-selector layer of the zulip-mobile chat client:
pure functions that derive user views from an immutable snapshot of the
application state. The snapshot holds the known users, each user's aggregated
presence status (keyed by email), the navigation stack (the route at `index`
is the current one) and the locally logged-in accounts (the first is "me").

The selectors' implementation file is not part of this model; their behaviour
is the contract asserted by the selector test suite, which the model follows:

- `GetAccountDetailsUser`: the user whose email is the current route's `email`
  parameter, or a placeholder with that email, `fullName` equal to the email,
  empty avatar, id -1 and every flag false.
- `GetActiveUsers`: the users whose `isActive` is true, in order.
- `GetUsersStatusActive` / `GetUsersStatusIdle` / `GetUsersStatusOffline`: the
  users whose presence entry has that status, in order; users with no entry are
  left out.
- `GetUsersByEmail` / `GetUsersById`: maps keyed by email and by id.
- `GetUsersSansMe`: every user whose email differs from the first account's.

Layout:

- `wrappers.dfy` — `Option`.
- `user_state.dfy` — the state snapshot: `User`, `Status`, `Route`, `Nav`, `Account`, `State`.
- `collections.dfy` — the two shapes the selectors are built from: an
  order-preserving `Filter` (what it keeps is stated by `FilterExact`:
  membership, multiplicity and `IsSubsequence`) and `KeyBy` (a map with last-write-wins on shared keys).
- `user_selectors.dfy` — the selectors and the lemmas about them.
- `user_selectors_examples.dfy` — each example state of the test suite with
  the result it expects, proved.

Every selector is a Dafny function, so calling it twice on the same state gives
the same result by construction; no lemma is needed for that.

## Model

| member | source | states |
|---|---|---|
| UserSelectors.FindUserByEmail | src/users/__tests__/userSelectors-test.js:14-28 | finds a user exactly when some user carries the email; the user found carries it |
| UserSelectors.GetAccountDetailsUser | src/users/__tests__/userSelectors-test.js:14-54 | result carries the current route's email; it is a known user when one carries that email, otherwise the placeholder with fullName = email, avatarUrl "", id -1, isActive, isAdmin and isBot false |
| UserSelectors.AccountDetailsUsesCurrentRouteOnly | src/users/__tests__/userSelectors-test.js:30-40 | the result depends only on the users and the route at `nav.index`; other routes' emails are ignored |
| UserSelectors.AccountDetailsFindsUser | src/users/__tests__/userSelectors-test.js:15-27 | with distinct emails the result is exactly the user carrying the route's email |
| UserSelectorsExamples.AccountDetailsExampleFound | src/users/__tests__/userSelectors-test.js:15-28 | index 1 with email b@a.com selects user b, not a |
| UserSelectorsExamples.AccountDetailsExamplePlaceholder | src/users/__tests__/userSelectors-test.js:30-54 | no users: the placeholder for b@a.com, the current route's email, not a@a.com |
| UserSelectors.GetActiveUsers | src/users/__tests__/userSelectors-test.js:57-75 | exactly the users with isActive, every occurrence kept, as a subsequence of the input (order preserved) |
| UserSelectorsExamples.ActiveUsersExample | src/users/__tests__/userSelectors-test.js:58-74 | [Abc active, Def inactive, Xyz active] gives [Abc, Xyz] |
| UserSelectors.UsersWithStatus | src/users/__tests__/userSelectors-test.js:77-169 | exactly the users whose presence entry exists and has the given status, every occurrence kept, order preserved |
| UserSelectors.GetUsersStatusActive | src/users/__tests__/userSelectors-test.js:77-99 | exactly the users whose entry is active; users without an entry are excluded even when isActive; order preserved |
| UserSelectorsExamples.StatusActiveExample | src/users/__tests__/userSelectors-test.js:78-98 | only abc has an active entry, so only abc is returned |
| UserSelectors.GetUsersStatusIdle | src/users/__tests__/userSelectors-test.js:101-131 | exactly the users whose entry is idle, in input order; users without an entry excluded |
| UserSelectorsExamples.StatusIdleExample | src/users/__tests__/userSelectors-test.js:102-130 | abc and def idle, xyz without entry: [abc, def] |
| UserSelectors.GetUsersStatusOffline | src/users/__tests__/userSelectors-test.js:133-169 | exactly the users whose entry is offline, order preserved |
| UserSelectors.UsersWithStatusAll | src/users/__tests__/userSelectors-test.js:133-169 | when every user has an entry with the status, the whole user list is returned unchanged |
| UserSelectors.AllOfflineSelectsAll | src/users/__tests__/userSelectors-test.js:133-169 | every user offline: the offline selector returns all users in order |
| UserSelectorsExamples.StatusOfflineExample | src/users/__tests__/userSelectors-test.js:134-168 | three offline users are all returned in order |
| UserSelectors.GetUsersByEmail | src/users/__tests__/userSelectors-test.js:171-190 | key set is exactly the users' emails; each key maps to a user carrying that email |
| UserSelectors.UsersByEmailLastWins | src/users/__tests__/userSelectors-test.js:171-190 | a user whose email no later user shares is the one stored under it (last write wins) |
| UserSelectors.UsersByEmailOnePerUser | src/users/__tests__/userSelectors-test.js:171-190 | distinct emails: one entry per user, each user under its own email |
| UserSelectorsExamples.UsersByEmailExample | src/users/__tests__/userSelectors-test.js:172-189 | three users give the three-entry email map of the test |
| UserSelectors.GetUsersById | src/users/__tests__/userSelectors-test.js:192-211 | key set is exactly the users' ids; each key maps to a user carrying that id |
| UserSelectors.UsersByIdLastWins | src/users/__tests__/userSelectors-test.js:192-211 | a user whose id no later user shares is the one stored under it |
| UserSelectors.UsersByIdOnePerUser | src/users/__tests__/userSelectors-test.js:192-211 | distinct ids: one entry per user, each user under its own id |
| UserSelectorsExamples.UsersByIdExample | src/users/__tests__/userSelectors-test.js:193-210 | ids 1, 2, 3 give the three-entry id map of the test |
| UserSelectors.GetUsersSansMe | src/users/__tests__/userSelectors-test.js:213-229 | exactly the users whose email differs from accounts[0].email, every occurrence kept, order preserved |
| UserSelectors.SansMeDropsOnlyMe | src/users/__tests__/userSelectors-test.js:213-229 | when exactly one user is me, the result is the input with that one user removed |
| UserSelectors.SansMeKeepsAllOthers | src/users/__tests__/userSelectors-test.js:213-229 | when no user is me, the result is the whole input |
| UserSelectorsExamples.UsersSansMeExample | src/users/__tests__/userSelectors-test.js:214-228 | [me, john, doe] with account me gives [john, doe] |
| Collections.Filter | src/users/__tests__/userSelectors-test.js:57-131 | the shared order-preserving filter never lengthens its input |
| Collections.FilterExact | src/users/__tests__/userSelectors-test.js:57-131 | the filter holds exactly the kept elements, every occurrence of each, as a subsequence of the input |
| Collections.FilterKeepsAll | src/users/__tests__/userSelectors-test.js:133-169 | a filter that keeps every element is the identity |
| Collections.FilterDropsOne | src/users/__tests__/userSelectors-test.js:213-229 | a filter rejecting exactly one element removes that element only |
| Collections.KeyBy | src/users/__tests__/userSelectors-test.js:171-211 | the shared map builder: keys are exactly the elements' keys; each maps to an element carrying it |
| Collections.KeyByLastWins | src/users/__tests__/userSelectors-test.js:171-211 | the last element carrying a key is the one stored |
| Collections.KeyByCardinality | src/users/__tests__/userSelectors-test.js:171-211 | pairwise distinct keys give one entry per element |

## Left out

- The settings screen component (src/settings/SettingsCard.js): React Native rendering, styles, navigation wiring and action dispatch; its one piece of logic, the night/default theme flip, is a UI event handler.
- The selector implementation module is not part of this model; the model states the contract its tests assert.
- The test harness's deep-freeze of the input: Dafny values are immutable, so selectors cannot mutate their input.
- Memoisation a selector library might add: not visible and does not change results.
- GetAccountDetailsUser: requires that `nav.index` is in range and that the current route carries `params` with an email; a route without params, or whose params carry no email, is not pinned down by the tests and is not modelled.
- GetUsersSansMe: requires at least one account; an empty account list is not pinned down by the tests.
- FindUserByEmail: with several users sharing the email the model returns the first; the contract only promises some user carrying it, since the tests do not pin which.
- GetUsersByEmail / GetUsersById: when keys are shared, the later user overwrites the earlier one (KeyBy assigns in list order; UsersByEmailLastWins and UsersByIdLastWins state it). The tests cover only distinct keys.
- GetUsersById: ids are `int` keys; the JavaScript object the source builds uses their string forms as keys.
- Test users carry only some fields; in the example lemmas the missing fields get fixed defaults (id 0, empty strings, false flags), and the test's `firstName` is modelled as `fullName`.
