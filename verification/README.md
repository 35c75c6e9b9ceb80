# Points ledger of starland-account, in Dafny

This project models the points ledger of the starland-account service:
- accounts earn points (`integral`) by playing rate-limited activities;
- accounts claim points (`received`) in exchange for a signed token;
- a periodic task compares each account with its on-chain points record and
  quarantines (`state = -1`) accounts whose record does not check out.

Four stores sit behind the services, each modelled as abstract state:
- the accounts table: a sequence of rows in primary-key order. gorm's
  `First` orders by primary key, so it finds the earliest matching row;
  `Find` listings are taken in the same order (see "## Left out");
- the activity catalog: a table of activities;
- the Redis play counters: a map from key to stored string and time to live;
- the append-only activity log.

Each repository is a class whose methods update its store. A boolean
parameter says when the database or Redis engine refuses a call.

The services hold references to the repositories:
- `Activity.ActivityService` also holds the in-memory catalog snapshot
  `actMap`.
- What one service operation does to the stores is stated as a function:
  `PlayStep`, `AuthStep`, `ClaimStep`, `TaskStep` and `TickStep`.
- Each service method is proved to do exactly what its function says.
- The ledger's rules are lemmas about these functions.

Modules:
- `Base`: options, results, the service errors, and Go's 64-bit `int`.
- `Text`: Go's `%d` formatting, `strconv.Atoi` and `strings.Split`.
- `Biz`: the use-case layer (`internal/biz`).
- `AccountData`, `ActivityData` and `ActivityLogData`: the repositories
  (`internal/data`).
- `Account` and `Activity`: the two services.
- `Goth`: the provider-from-path adapter.

Outside inputs are parameters:
- the clock (`now`);
- fresh UUIDs (`uuid`, `freshId`);
- signing (`sign`);
- signature checking (`verify`);
- the on-chain account reads (`chain`).

## Model

| member | source | states |
|---|---|---|
| Base.Wrap64 | internal/service/account/account.go:79 | Go `int` addition: the result is in the int64 range, congruent to the sum modulo 2^64, and equal to it when the sum fits |
| Base.ToInt64 | internal/service/account/account.go:164 | `int(uint64)`: in range, congruent modulo 2^64, unchanged exactly when the value is at most 2^63-1 |
| Text.AtoiFormatInt | internal/data/activity.go:60 | a counter written as a decimal `int` is read back by `strconv.Atoi` as the same value |
| Text.FormatIntInjective | internal/service/activity/activity.go:70 | distinct integers format to distinct `%d` strings |
| Text.JoinSplit | internal/pkg/util/goth.go:14 | `strings.Split` loses nothing: joining the pieces with the separator gives back the path |
| Text.SplitPiecesHaveNoSeparator | internal/pkg/util/goth.go:14 | no piece of a split contains the separator |
| Biz.QueryActivity | internal/biz/activity.go:54-67 | the map holds every code of the list, each key maps to the LAST entry with that code, its size is at most the list length, every key equals its entry's code; a failure is `Internal` |
| Biz.IndexedByCodeDeterministic | internal/biz/activity.go:60-65 | the indexed map is determined by the list alone |
| AccountData.FirstWithId | internal/data/account.go:109 | `First` by `account_id`: the earliest row with that id, or none |
| AccountData.FirstMember | internal/data/account.go:102 | `First` by email and provider: the earliest matching row, or none |
| AccountData.Lookup | internal/data/account.go:99-117 | an empty id looks up by email and provider, any other id by `account_id`; found exactly when a matching row exists |
| AccountData.Active | internal/data/account.go:121 | exactly the rows with `state <> -1`, each one from the table |
| AccountData.ActiveUniqueIds | internal/data/account.go:119-128 | the listed accounts have distinct ids when the table does |
| AccountData.Saved | internal/data/account.go:38-71 | the row with the request's id is rewritten in place, or one row is appended; other rows and the ids stay; unique ids stay unique |
| AccountData.SavedRow | internal/data/account.go:41-69 | after a save, email, name, avatar, provider and state are the request's even when empty; integral and received are kept (0 for a new row); the address changes only to a non-empty one; the claim count changes only when the stored one is not 0 |
| AccountData.SavedKeepsClaimsCovered | internal/data/account.go:38-71 | saving an account request never lets `received` exceed `integral`: a new row has both 0 and an existing row keeps both |
| AccountData.CreditedEffect | internal/data/account.go:73-79 | crediting adds the delta to `integral` of the rows with that id and changes nothing else; an unknown id changes nothing |
| AccountData.AccountRepo.SaveAccount | internal/data/account.go:38-71 | the field-by-field merge writes exactly `Saved`; a failure writes nothing |
| AccountData.AccountRepo.UpdateAccountIntegral | internal/data/account.go:73-79 | the table becomes `Credited`; a failure writes nothing |
| AccountData.AccountRepo.UpdateClaimPoints | internal/data/account.go:81-88 | struct `Updates`: integral and received of the rows with that id are set, each only when non-zero |
| AccountData.AddrUpdatedEffect | internal/data/account.go:90-97 | an address update changes only `solanaAddr`, and only on the rows with that id; an empty address or an unknown id changes nothing |
| AccountData.AccountRepo.UpdateAddr | internal/data/account.go:90-97 | the table becomes the address update of `AddrUpdatedEffect`, or an engine failure writes nothing |
| AccountData.AccountRepo.QueryAccount | internal/data/account.go:99-117 | not found is `Ok(None)`, only an engine failure is an error; a found row is returned without email, provider and state |
| AccountData.AccountRepo.QueryAccounts | internal/data/account.go:119-128 | the responses of the non-quarantined rows, in table order |
| AccountData.MakeAccountResponses | internal/data/account.go:130-148 | one response per row in the same order, with email, provider and state left out |
| ActivityData.MakeActivityToBizResponse | internal/data/activity.go:67-78 | same length and order; code, name, integral and limit copied |
| ActivityData.CounterRead | internal/data/activity.go:52-65 | a missing key reads 0 without error; a value `Atoi` rejects reads 0 with an error; otherwise the parsed int64 |
| ActivityData.ConsumeThenRead | internal/data/activity.go:47-65 | a counter set to `n` reads back as `n` |
| ActivityData.ConsumeKeepsOthers | internal/data/activity.go:47-50 | setting one key leaves the reading of every other key alone |
| ActivityData.ActivityRepo.QueryActivity | internal/data/activity.go:36-45 | the whole catalog in table order, or an engine failure |
| ActivityData.ActivityRepo.ConsumeActivityLimit | internal/data/activity.go:47-50 | an absolute `SET key n` with the TTL, not an increment; a failure writes nothing |
| ActivityData.ActivityRepo.QueryActivityExpend | internal/data/activity.go:52-65 | the missing-key, non-integer and failure readings as `CounterRead` states them |
| ActivityData.ActivityRepo.Expire | internal/data/activity.go:47-50 | the key's time to live runs out and only that key is dropped |
| ActivityLogData.ForAccount | internal/data/activity_log.go:50 | `Where account_id = ?`: only that account's rows, all of them |
| ActivityLogData.ForAccountChronological | internal/data/activity_log.go:50 | filtering a chronological log keeps it chronological |
| ActivityLogData.NewestFirst | internal/data/activity_log.go:50 | `Order("updated_at desc")` on rows never updated: the rows in non-increasing creation time, a permutation of the table, whatever the clock did |
| ActivityLogData.NewestFirstChronological | internal/data/activity_log.go:50 | when the rows were stamped by a clock that never goes backwards, the sorted listing is the table in reverse insertion order |
| ActivityLogData.NewestFirstSorted | internal/data/activity_log.go:50 | an account's listing holds exactly its rows, only its rows, in non-increasing time order; with a clock that never goes backwards, in reverse insertion order |
| ActivityLogData.Page | internal/data/activity_log.go:50 | computes the offset `(page-1)*limit` in 64-bit `int`, wrapping as Go does; skips that many rows when positive and returns at most `limit` rows when the limit is not negative, as a slice of the listing |
| ActivityLogData.HugePageIsFirstPage | internal/data/activity_log.go:50 | a page number whose offset wraps around to 0 (page 2^62+1 of size 4) returns the first page again |
| ActivityLogData.PagesContinue | internal/data/activity_log.go:50 | consecutive pages of one size are adjacent slices, on a table whose row count fits the `int64` that `Count` returns |
| ActivityLogData.PageKeepsOrder | internal/data/activity_log.go:50 | a page of a newest-first listing is newest first |
| ActivityLogData.AppendKeepsChronological | internal/data/activity_log.go:33-43 | appending a row stamped no earlier than the rest keeps the log chronological |
| ActivityLogData.MakeActivityLogsToBizRes | internal/data/activity_log.go:62-74 | same length and order, `CreatedAt` becoming `CreateAt` |
| ActivityLogData.ActivityLogRepo.AddActivityLog | internal/data/activity_log.go:33-43 | appends exactly one row with the request's fields, the fresh uuid and the creation time |
| ActivityLogData.ActivityLogRepo.QueryActivityLog | internal/data/activity_log.go:45-60 | a page of the account's rows newest first plus the count of all its rows; either query failing gives an empty list, count 0 and an error |
| Activity.ActivityKeyInjective | internal/service/activity/activity.go:20 | `starland-account:%d_%s` keys of distinct (activity, account) pairs differ |
| Activity.MakeActivitys | internal/service/activity/activity.go:137-149 | one entry per map key, each key once, in some iteration order: as many entries as keys, every catalog entry listed, nothing else listed |
| Activity.MakeActivityLogs | internal/service/activity/activity.go:123-135 | one entry per row, same order: account, creation time, name, integral |
| Activity.ActivityService.constructor | internal/service/activity/service.go:22-30 | the service starts with an empty catalog snapshot |
| Activity.ActivityService.RefreshActMap | internal/service/activity/activity.go:41-51 | on failure the old snapshot stays; on success it is replaced wholesale by the index of the whole catalog |
| Activity.ActivityService.Play | internal/service/activity/activity.go:69-105 | the three stores and the error are exactly `PlayStep` of the old stores |
| Activity.ActivityService.QueryIsLimit | internal/service/activity/activity.go:106-121 | never an error; true exactly when the activity is known, its counter reads without error, and the count has reached the limit |
| Activity.ActivityService.QueryActivitys | internal/service/activity/activity.go:61-67 | the catalog read afresh, indexed by code and listed once per code; a failure is `Internal` |
| Activity.ActivityService.QueryActivityLogs | internal/service/activity/activity.go:53-59 | the page of the account's plays newest first and the total count; a failure gives an empty list |
| Activity.PlayUnknownActivity | internal/service/activity/activity.go:71-102 | a code not in the snapshot gives `ActivityNotExist` and touches no store |
| Activity.PlayAtLimit | internal/service/activity/activity.go:76-79 | a counter at or over the limit gives `LimitError` and touches no store |
| Activity.LimitedIffPlayRefused | internal/service/activity/activity.go:76-121 | `QueryIsLimit` says true exactly when a play would be refused for the limit |
| Activity.PlaySucceeds | internal/service/activity/activity.go:80-98 | a completed play credits exactly the activity's integral, appends one log row with its code, name and integral, and sets the counter to the old count plus one with a 24-hour TTL |
| Activity.PlayBoundary | internal/service/activity/activity.go:76-95 | a play at `limit-1` succeeds and leaves the counter at `limit`; the next play is refused |
| Activity.PlayKeepsCounterWithinLimit | internal/service/activity/activity.go:76-98 | a counter within the limit stays within it |
| Activity.PlayCountersIndependent | internal/service/activity/activity.go:70-95 | a play changes no other (activity, account) pair's counter |
| Activity.PlayTouchesOnlyPlayer | internal/service/activity/activity.go:80 | a play changes only the player's `integral` |
| Activity.PlayNoRollback | internal/service/activity/activity.go:80-98 | when logging or counting fails, the credit stays, the counter is unchanged and an error is returned |
| Activity.PlayWithoutAccount | internal/service/activity/activity.go:80-98 | a play by an id with no account row succeeds, credits nothing, and is still logged |
| Activity.PlayReadFailure | internal/service/activity/activity.go:72-75 | when the counter read fails, or the counter is not an integer, the play is `Internal` with that cause and touches no store |
| Activity.PlayKeepsClaimsCovered | internal/service/activity/activity.go:80-98 | a play of an activity with non-negative integral never lets `received` exceed `integral` |
| Activity.NegativeIntegralBreaksClaimsCovered | internal/service/activity/activity.go:80 | a catalog entry with negative integral lets a play leave `received` above `integral` |
| Activity.PlayKeepsLogChronological | internal/service/activity/activity.go:84-93 | with a clock that does not go backwards, plays keep the log chronological |
| Account.MakeBizToAccountResponse | internal/service/account/account.go:96-107 | every field is copied except `ClaimCount`, which is 0 |
| Account.ClaimMessageInjective | internal/service/account/account.go:292 | a message `<user>-<n>` names one user and one non-negative count, even when the user id contains '-' |
| Account.DefaultName | internal/service/account/account.go:43-49 | the request's name, or else the first six characters of the account id (all of it when shorter) |
| Account.AccountService.Auth | internal/service/account/account.go:33-63 | the error and the table are exactly `AuthStep` of the old table |
| Account.AccountService.QueryAccount | internal/service/account/account.go:65-71 | the lookup by id (wallet lookup for an empty id); found exactly when a row has the id; the view has no email or provider and claim count 0 |
| Account.AccountService.ClaimPoints | internal/service/account/account.go:73-94 | the token and the table are exactly `ClaimStep` of the old table |
| Account.AccountService.SavePointsAddr | internal/service/account/account.go:307-312 | the address update of `AddrUpdatedEffect` (only `solanaAddr` of the id's rows, and nothing for an empty address), or `Internal` and no write |
| Account.AccountService.SolanaTask | internal/service/account/account.go:130-185 | the table becomes exactly `TaskStep` of the old table |
| Account.AccountService.SolanaChainDataCheckTick | internal/service/account/account.go:117-127 | one tick: a failed listing skips it, otherwise each listed account's task runs in list order, as `TickStep` |
| Account.QueryViewOutcomes | internal/biz/account.go:74-88 | an engine failure is `Internal`; an id with no row is `AccountNotExist`; a found row is its response with claim count 0; an empty id is found exactly when a wallet account exists |
| Account.AuthFoundWritesNothing | internal/service/account/account.go:36-62 | a sign-in that finds its account writes nothing |
| Account.AuthRegisters | internal/service/account/account.go:36-60 | an unknown id is registered with zero points, the request's email, provider and avatar, and the defaulted name |
| Account.AuthRegistersFreshId | internal/service/account/account.go:39-42 | a sign-in with no id that finds nothing registers under the fresh id |
| Account.AuthLookupFailureResetsState | internal/service/account/account.go:36-60 | a failed lookup of an existing account re-saves it with state 0, keeping its points |
| Account.ClaimRefusesOverdraw | internal/service/account/account.go:79-82 | a claim taking `received` over `integral` is "Not enough points" and writes nothing |
| Account.ClaimUnknownAccount | internal/service/account/account.go:75-78 | a claim for an unknown account is an error and writes nothing |
| Account.ClaimPreviewWritesNothing | internal/service/account/account.go:86-91 | an unconfirmed claim writes nothing; repeating it writes nothing, refuses exactly when the first refused, and signs the same message `<id>-0` (the token itself may differ) |
| Account.ClaimTokenSignsCountZero | internal/service/account/account.go:93-107 | the token always signs `<accountID>-0` |
| Account.ClaimCommits | internal/service/account/account.go:86-91 | a confirmed claim sets `received` to old received plus the points (a sum of 0 is skipped by gorm's `Updates`) and keeps `integral`; other fields and rows are untouched |
| Account.ClaimKeepsClaimsCovered | internal/service/account/account.go:79-91 | no claim lets `received` exceed `integral` |
| Account.ClaimWithoutIdWritesNothing | internal/service/account/account.go:65-94 | a claim with an empty id answers for the first wallet account, but its update matches no row |
| Account.TaskSkips | internal/service/account/account.go:136-166 | no address, an unreadable record, or on-chain points equal to `received`: no change |
| Account.TaskOutcomes | internal/service/account/account.go:130-185 | a task either changes nothing or saves the account with state -1 |
| Account.QuarantineEffect | internal/service/account/account.go:169-178 | quarantine sets state -1 and blanks email and provider; points, name, avatar, address and claim count stay |
| Account.MismatchQuarantines | internal/service/account/account.go:164-178 | points differing from `received` and a signature that fails to verify quarantine the account |
| Account.RunTasksUntouched | internal/service/account/account.go:124-126 | the tasks of other accounts leave a row alone |
| Account.AuthKeepsClaimsCovered | internal/service/account/account.go:33-63 | no sign-in lets `received` exceed `integral` |
| Account.TaskKeepsClaimsCovered | internal/service/account/account.go:130-185 | no reconciliation task lets `received` exceed `integral` |
| Account.RunTasksKeepClaimsCovered | internal/service/account/account.go:124-126 | a run of tasks in list order keeps `received` within `integral` |
| Account.TickKeepsClaimsCovered | internal/service/account/account.go:117-127 | no tick lets `received` exceed `integral` |
| Account.TickKeepsQuarantined | internal/service/account/account.go:119-126 | a tick never touches a quarantined row |
| Goth.FirstAuth | internal/pkg/util/goth.go:16-21 | the position of the first "auth" segment, or none |
| Goth.Adapted | internal/pkg/util/goth.go:13-28 | panics exactly when "auth" is first found in the last segment; otherwise uses the segment after the first "auth" (the first segment when there is none); the path is kept; only the provider key may be added to the context, and only for a registered provider |
| Goth.FiberGothAdapter | internal/pkg/util/goth.go:13-28 | the loop with `break` computes exactly `Adapted` |
| Goth.AbsolutePathWithoutAuth | internal/pkg/util/goth.go:15-22 | an absolute path without "auth" yields the empty provider name and is forwarded unchanged |
| Goth.TrailingAuthPanics | internal/pkg/util/goth.go:18-22 | a path ending in its first "auth" segment indexes past the end |
| Goth.ProviderRecorded | internal/pkg/util/goth.go:14-27 | a registered provider right after the first "auth" is recorded in the context, whatever follows |

## Left out

- ECDSA signing and verification, SHA-256, PEM/x509 key parsing and base64 (internal/service/account/account.go:187-305) are not modelled. Signing is a parameter `sign` from message to optional token. Verification is a parameter `verify` over the message and the on-chain signature, with a panic outcome.
- The Solana RPC call, the endpoint choice by `Env`, base58 address parsing and Borsh decoding are not modelled. A chain read is a parameter returning either the decoded `UserPoints` or `Unreadable`.
- `Authority` in `UserPoints` is not used by the code and is dropped.
- Goroutines, tickers, the `recover`-and-restart supervisors and the catalog lock are not modelled:
  - a tick runs its tasks one after another, in list order;
  - the unlocked read of `actMap` is not represented;
  - the race between reading and setting a counter is not represented.
- Counter expiry by wall-clock time is not modelled. It is the explicit step `ActivityRepo.Expire`, and the TTL is only recorded.
- The HTTP layer (`api/http`), the token middleware and configuration loading are not part of this model. The key path and `Env` are replaced by the parameters above.
- Engine setup and wiring (`internal/data/data.go`, `cmd/wire.go`) are not part of this model.
- UUID generation is not modelled: fresh ids are parameters.
- zap logging has no behaviour and is not modelled.
- The `fmt.Errorf` wrapping in the services adds text only. Errors are compared by their biz identity.
- AccountData.AccountRepo.UpdateAccountIntegral: MySQL `BIGINT` overflow of `integral + delta` is not modelled, because the engine reports an error there rather than wrapping. The sum is unbounded.
- AccountData.AccountRepo.SaveAccount: the repository's lookup failure and its write failure are one `dbFails` flag, because both end the call with an error and no write.
- ActivityLogData.Page: paging follows gorm versions that leave out `OFFSET` when it is not positive and `LIMIT` when it is negative. Older gorm versions differ, and the version is not part of this model.
- ActivityLogData.NewestFirst: rows created within the same clock tick are ordered newest insertion first. MySQL leaves their order unspecified.
- Strings are sequences of characters with one character per byte. There is no UTF-8 decoding, so `req.AccountID[:6]` is six characters.
- Account.AccountService.SolanaTask: a chain read that fails but still yields a decodable record (the code goes on after logging the RPC error) is folded into `Unreadable` or `Decoded`. That is what the read parameter answers.
- Account.ClaimPreviewWritesNothing: signing tokens are not modelled as randomized. Each call's `sign` parameter stands for that call's signing, so the lemma compares the signed messages, not the tokens.
- Activity.PlayKeepsClaimsCovered: holds only for catalog entries whose integral is not negative. Play credits the catalog's integral without a check, and `NegativeIntegralBreaksClaimsCovered` shows the invariant failing otherwise.
- `Find` without `Order` (internal/data/account.go:121, internal/data/activity.go:40) has no order the engine promises. The model lists rows in primary-key order. So it fixes two things the engine leaves open: which entry wins when two catalog entries share an `ActivityCode` (the last one listed, in `Biz.QueryActivity`), and the order in which a tick runs its account tasks.
