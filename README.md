# Transaction authorizer: a verified Dafny model

The authorizer decides card transactions against one account. It reads a
stream of lines, and each line either creates the account or asks for a
transaction to be authorized. A transaction is rejected without further checks
in two cases: no account exists yet, or the card is inactive. Otherwise three
rules are checked in order:

- insufficient limit;
- velocity: three or more accepted transactions created strictly after the
  instant two minutes before it. The window has no upper bound, so accepted
  transactions dated later than it count too;
- a duplicate (same amount and merchant) among the accepted transactions in
  that same window.

Every rule that fires adds its violation code. A transaction with no violation
is appended to an in-memory log, and its amount is debited from the account
limit. A rejected transaction changes nothing.

The model follows the program's structure, one module per Go package part:

- `Domain` (`domain.dfy`): the account, transaction and violation types
  (internal/core/domain). Instants are integers counting nanoseconds, and
  `Minute` is 60 000 000 000 of them.
- `Repository` (`memory_repository.dfy`): the `MemoryRepository` class, with
  its three fields updated in place. `Store` is its state as a value. `After`
  is the pure filter that `FindTransactionsAfter` computes.
- `AccountServices` (`account_service.dfy`): the `AccountService` class over
  the repository.
- `TransactionServices` (`transaction_service.dfy`): the rule checks as the
  pure functions `Violations` and `Decide`. The `TransactionService` class
  runs them against the repository, and `AuthorizeTransaction` is proved to
  follow `Decide`.
- `Authorizer` (`authorizer.dfy`): the wiring and per-line dispatch of
  cmd/main.go. `Step` and `Run` describe the whole system as functions of the
  store. `Authorizer.Process` is proved to follow `Step`. This module also
  holds the invariants kept over any stream of lines, and the example runs of
  cmd/main_test.go.

## Model

| member | source | states |
|---|---|---|
| Domain.Code | internal/core/domain/errors.go:6-11 | defines the printed code of each violation; every code is a non-empty word that neither starts nor ends with a hyphen |
| Domain.CodesDistinct | internal/core/domain/errors.go:6-11 | the six violations print as six different codes |
| Repository.After | internal/repository/memory_repository.go:24-32 | the entries found are never more than the entries logged |
| Repository.AfterMembership | internal/repository/memory_repository.go:24-32 | a transaction is found exactly when it is logged and created strictly after the instant (both directions) |
| Repository.AfterConcat | internal/repository/memory_repository.go:24-32 | the filter distributes over concatenation, so the result keeps log order |
| Repository.AfterAppend | internal/repository/memory_repository.go:24-32 | logging one more entry extends the result by that entry exactly when it is strictly after the instant |
| Repository.AfterEmpty | internal/repository/memory_repository.go:24-32 | nothing is found exactly when no entry is strictly after the instant |
| Repository.AfterCountsIndices | internal/repository/memory_repository.go:24-32 | any group of distinct logged entries strictly after the instant is counted: the result is at least that long |
| Repository.MemoryRepository.constructor | internal/repository/memory_repository.go:16-18 | a new repository has an empty log, the zero account and no account initialized |
| Repository.MemoryRepository.SaveTransaction | internal/repository/memory_repository.go:20-22 | the log becomes the old log plus the transaction at its end; the account slot is unchanged |
| Repository.MemoryRepository.FindTransactionsAfter | internal/repository/memory_repository.go:24-32 | the loop returns exactly `After(log, time)`, and the repository is unchanged |
| Repository.MemoryRepository.SaveAccount | internal/repository/memory_repository.go:34-41 | the first call stores and returns the account with no error; later calls keep and return the first account with "account already initialized"; the log is unchanged |
| Repository.MemoryRepository.FindAccount | internal/repository/memory_repository.go:43-48 | no error exactly when an account is stored, which is then returned; otherwise the zero account and "account not initialized" |
| Repository.MemoryRepository.UpdateAccountLimit | internal/repository/memory_repository.go:50-52 | only the limit changes; the card status, the initialized flag and the log are kept |
| AccountServices.ClampLimit | internal/core/service/account_service.go:36-38 | the limit written is never negative: a negative request becomes 0, any other is kept |
| AccountServices.AccountService.constructor | internal/core/service/account_service.go:17-19 | the service works on the repository it is given |
| AccountServices.AccountService.CreateAccount | internal/core/service/account_service.go:21-26 | without an account, the requested one is stored and returned with no error; otherwise the zero account and `AccountAlreadyInitialized`, and the store keeps its first account |
| AccountServices.AccountService.GetAccount | internal/core/service/account_service.go:28-33 | the stored account with no error exactly when one exists; otherwise the zero account and `AccountNotInitialized` |
| AccountServices.AccountService.SetAccountLimit | internal/core/service/account_service.go:35-44 | the stored limit becomes the clamped request and nothing else changes; the result is the account read back, or the zero account when none exists; never an error |
| TransactionServices.IsDouble | internal/core/service/transaction_service.go:55 | defines a duplicate: the same amount and the same merchant, whatever the instants |
| TransactionServices.DoubleDiffersOnlyInInstant | internal/core/service/transaction_service.go:55 | two transactions are duplicates exactly when they differ at most in their instants |
| TransactionServices.Violations | internal/core/service/transaction_service.go:43-59 | each of the three checks contributes its code exactly when its condition holds (insufficient limit iff amount > limit; velocity iff at least 3 in the window; duplicate iff the window holds one), in evaluation order, at most three codes |
| TransactionServices.Decide | internal/core/service/transaction_service.go:33-71 | a rejection always carries a violation; an approval happens only with a found active account, and the debited limit is the old limit minus the amount and is not negative |
| TransactionServices.DecideLookupFailed | internal/core/service/transaction_service.go:34-37 | any lookup error gives the zero account and exactly that error, whatever the transaction and the window |
| TransactionServices.DecideCardNotActive | internal/core/service/transaction_service.go:39-41 | an inactive card gives the fetched account and exactly `CardNotActive`, whatever the amount, limit and history |
| TransactionServices.DecideActiveCard | internal/core/service/transaction_service.go:43-70 | with an active card, approval (debiting the amount) happens exactly when no check fires; otherwise the fetched account comes back with the checks' codes |
| TransactionServices.DecideNoRepeatedCode | internal/core/service/transaction_service.go:54-59 | a rejection lists at most three codes and none twice; `DoubleTransaction` appears at most once however many duplicates there are |
| TransactionServices.TransactionService.constructor | internal/core/service/transaction_service.go:26-31 | the service keeps the repository and account service it is given |
| TransactionServices.TransactionService.AuthorizeTransaction | internal/core/service/transaction_service.go:33-71 | the result is `Decide` over the account lookup and `After(log, createdAt - 2 minutes)`; on rejection neither store changes; on approval the transaction is appended, the limit is debited exactly, and the result is the account read back with no violations |
| Authorizer.IsCreateAccount | cmd/input.go:16-18 | defines the dispatch test of cmd/input.go:17: the account part differs from the zero account, so a line whose account is inactive with a zero limit is handled as a transaction; its consequences are proved in `StepFrame` |
| Authorizer.CreateAccountStep | cmd/main.go:21-25 | defines account creation on the store value, through the service's behaviour |
| Authorizer.CreateFirstWins | internal/core/service/account_service.go:21-26 | creation succeeds exactly when no account exists; the first account stays and a later attempt prints the zero account and `AccountAlreadyInitialized`; the log is never touched |
| Authorizer.AuthorizeStep | cmd/main.go:28-30 | defines authorization on the store value: `Decide` over the lookup and the two-minute window, then the append and the debit on approval |
| Authorizer.Step | cmd/main.go:21-30 | defines the per-line dispatch: account creation when `IsCreateAccount` holds, authorization otherwise |
| Authorizer.StepFrame | cmd/main.go:21-30 | after any line an account exists exactly when one existed or the line creates it; a stored account's card status never changes; the log grows by at most one entry, at its end |
| Authorizer.Run | cmd/main.go:18-31 | every input line produces exactly one output line |
| Authorizer.StepChangesStoreIffClear | cmd/main.go:21-30 | a line changes the store exactly when its output has no violation |
| Authorizer.ApprovalDebitsExactly | internal/core/service/transaction_service.go:65-70 | an approval needs a stored active account with enough limit; it appends the transaction, debits exactly the amount (the clamp never fires), keeps the card status, and prints the debited account |
| Authorizer.RejectionChangesNothing | internal/core/service/transaction_service.go:61-63 | a rejection leaves the store as it was and prints the account as it was, or the zero account when none exists |
| Authorizer.NotInitializedShortCircuits | internal/core/service/transaction_service.go:34-37 | without an account every transaction prints the zero account and exactly `AccountNotInitialized`, and the store is unchanged |
| Authorizer.InactiveCardShortCircuits | internal/core/service/transaction_service.go:39-41 | with an inactive card every transaction prints the account and exactly `CardNotActive`, whatever the log holds |
| Authorizer.ApprovedIsVisibleLater | internal/core/service/transaction_service.go:48-49 | an approved transaction is in every later window that starts before its instant |
| Authorizer.ApprovedStaysVisible | internal/core/service/transaction_service.go:48-49 | after any further lines, an approved transaction is still found by every window query that starts before its instant |
| Authorizer.HighFrequencyFlagged | internal/core/service/transaction_service.go:48-52 | three logged transactions strictly inside the two-minute window flag an active account's new transaction as high-frequency, and the store is unchanged |
| Authorizer.WindowHoldsThree | internal/repository/memory_repository.go:24-32 | three distinct logged entries strictly after the instant give a window of at least three |
| Authorizer.DoubleFlaggedOnce | internal/core/service/transaction_service.go:54-59 | a logged duplicate inside the window gives exactly one `DoubleTransaction`, and the store is unchanged |
| Authorizer.WindowHoldsDouble | internal/core/service/transaction_service.go:48-59 | a logged duplicate strictly inside the window is found by the duplicate check |
| Authorizer.ActiveCardStep | internal/core/service/transaction_service.go:43-70 | for a stored active account, a step rejects with the account exactly when a check fires; otherwise it logs the transaction and debits the amount |
| Authorizer.ActiveCardApproves | internal/core/service/transaction_service.go:65-70 | for a stored active account with no check firing, the step logs the transaction at the end, debits exactly the amount, and prints the debited account with no violation |
| Authorizer.RejectedStep | internal/core/service/transaction_service.go:61-63 | when the decision for an existing account is a rejection, the step prints that rejection's account and codes and keeps the store |
| Authorizer.ActiveCardRejects | internal/core/service/transaction_service.go:61-63 | for a stored active account with a check firing, the decision is a rejection with the account, and the step leaves the store as it was and prints the account with those codes |
| Authorizer.ApprovalPassedChecks | internal/core/service/transaction_service.go:48-63 | an approved transaction had fewer than three entries in its window and no duplicate there |
| Authorizer.HistoryExtends | internal/core/service/transaction_service.go:61-65 | appending a transaction that passed both window checks keeps "every logged entry passed its checks" |
| Authorizer.StepPreservesInvariants | cmd/main.go:21-30 | one line of either kind keeps both invariants: no account means an empty store; a non-empty log means an active card with a non-negative limit; every logged entry passed its checks |
| Authorizer.RunPreservesInvariants | cmd/main.go:18-31 | any stream of lines keeps both invariants |
| Authorizer.EmptyStoreIsConsistent | internal/repository/memory_repository.go:16-18 | the fresh store satisfies both invariants |
| Authorizer.StepKeepsAccount | cmd/main.go:21-30 | once an account exists, a line either leaves the store as it was or logs its transaction at the end and debits exactly its amount |
| Authorizer.RunKeepsHistory | cmd/main.go:18-31 | once an account exists it stays; the log only grows at its end; the card status never changes; the limit drops by exactly the sum of the amounts accepted |
| Authorizer.RunConcat | cmd/main.go:18-31 | a stream split in two runs as its first part and then its second from the store the first leaves; the outputs are concatenated in order |
| Authorizer.RunFollowsSteps | cmd/main.go:18-31 | when each line steps from one listed store to the next, the run ends in the last store and prints exactly the listed outputs, in order |
| Authorizer.ScenarioCreateAccount | cmd/main_test.go:10-18 | creating an account prints it with no violation |
| Authorizer.ScenarioAccountNotInitialized | cmd/main_test.go:20-28 | a transaction before any account prints the zero account and `account-not-initialized` |
| Authorizer.ScenarioCardNotActive | cmd/main_test.go:30-39 | after creating an inactive account, a transaction prints that account and `card-not-active` |
| Authorizer.ScenarioFirstApproval | cmd/main_test.go:49 | the first purchase is approved and the limit goes from 100 to 90 |
| Authorizer.ScenarioSecondApproval | cmd/main_test.go:50 | the second purchase is approved and the limit goes to 70 |
| Authorizer.ScenarioThirdApproval | cmd/main_test.go:51 | the third purchase is approved and the limit goes to 65 |
| Authorizer.ThreeApprovedWindows | internal/core/service/transaction_service.go:48-49 | all three approved entries are in the window of any instant from one to two minutes after the first; none is in it three minutes on |
| Authorizer.DoubleRejectedViolations | cmd/main_test.go:52 | the repeated purchase triggers velocity and duplicate, in that order |
| Authorizer.ScenarioDoubleRejected | cmd/main_test.go:52 | the repeated purchase is rejected with the account at 65, and nothing changes |
| Authorizer.ScenarioOverLimitRejected | cmd/main_test.go:53-54 | the two purchases over the limit are rejected for limit and velocity, and nothing changes |
| Authorizer.ScenarioWindowMovesOn | cmd/main_test.go:55 | once the window is empty again, a small purchase is approved and the limit goes to 50 |
| Authorizer.ScenarioThreeApprovals | cmd/main_test.go:48-51 | the first four lines print the account at 100, 90, 70 and 65 with no violation, and leave the three purchases logged with the limit at 65 |
| Authorizer.ScenarioAfterThreeApprovals | cmd/main_test.go:52-55 | the last four lines print the expected rejections and the final approval |
| Authorizer.ScenarioMultipleViolations | cmd/main_test.go:41-56 | the whole multiple-violations run prints exactly the eight expected lines |
| Authorizer.Authorizer.constructor | cmd/main.go:13-15 | one fresh, empty repository is shared by both services |
| Authorizer.Authorizer.Process | cmd/main.go:21-30 | handling a line through the real objects gives exactly the new store and output that `Step` gives |

## Left out

- The stdin scanner loop, `fmt.Println`, JSON decoding (cmd/input.go) and `os.Exit(1)` on a malformed line are I/O. `Operation` is a decoded line, and `Run` consumes a sequence of them.
- The output formatting is left out. `parseOutput` is not part of this model, and cmd/output.go has no logic. An output line is modelled as an account plus a list of violations. Account creation passes `[]error{err}`, and the model assumes a `nil` error prints no violation, as cmd/main_test.go:17 shows (`Authorizer.Errors`).
- cmd/main.go calls `parseInput`, but cmd/input.go declares `parseOperation`. cmd/main.go:22 calls `CreateAccount(input.Account)`, but the service takes `(cardStatus, availableLimit)`. The model passes the account's two fields.
- The `AccountRepository` interface declares `SaveAccount(cardStatus, availableLimit)`. `MemoryRepository.SaveAccount` takes a whole account. The model follows the repository, and `CreateAccount` builds the account.
- The interfaces `AccountRepository`, `AccountServicer` and `TransactionRepository`, and the test mocks, are not modelled as abstract types. Each service is wired to the concrete class it gets in cmd/main.go. The behaviour under an arbitrary lookup error is stated on `Decide`, which takes the lookup's result as a parameter (`DecideLookupFailed`).
- The declaration of `domain.Account` is not part of this model. Its two fields and its zero value come from their uses.
- `time.Time` is modelled as integer nanoseconds. Time zones, the monotonic clock reading and calendar arithmetic are left out. `UTC()` does not change an instant, so it is the identity.
- TransactionServices.TransactionService.AuthorizeTransaction: does not model the 64-bit wrap-around of Go's `int` in `limit := account.AvailableLimit - transaction.Amount` (internal/core/service/transaction_service.go:67). Amounts and limits are unbounded integers, and negative amounts are accepted, as the source accepts them. The comparison at line 44 cannot wrap. The subtraction can, and then the clamp in `SetAccountLimit` (internal/core/service/account_service.go:36-38) fires. Example: an active account with limit 0, an empty log and amount -9223372036854775808. Go approves it, the subtraction wraps to -9223372036854775808, and the clamp stores 0. The model stores 9223372036854775808.
- TransactionServices.Decide: states the same unbounded arithmetic as `AuthorizeTransaction`; its "debited limit is not negative" holds only over unbounded integers.
- Authorizer.ApprovalDebitsExactly: "debits exactly the amount" and "the clamp never fires" hold only over unbounded integers; the wrapping example above breaks both in Go.
- Authorizer.RunKeepsHistory: "the limit drops by exactly the amounts accepted" holds only over unbounded integers, for the same reason. The non-negative-limit part of the `Consistent` invariant kept by `RunPreservesInvariants` also holds in Go, because every debit passes through the clamp; only the limit's exact value differs.
- Authorizer.ActiveCardApproves: "debits exactly the amount" holds only over unbounded integers, as for `ApprovalDebitsExactly`.
- Authorizer.ActiveCardStep: its approving half, "debits the amount", holds only over unbounded integers, as for `ApprovalDebitsExactly`.
- Authorizer.StepKeepsAccount: the debited limit it states holds only over unbounded integers, as for `ApprovalDebitsExactly`.
- The test input files read by cmd/main_test.go are not part of this model. The scenario lemmas use transactions chosen to give the printed outputs, with every instant relative to an arbitrary `start`.
- `AccountService.CreateAccount` returns the zero account with `AccountAlreadyInitialized` (internal/core/service/account_service.go:25), although `MemoryRepository.SaveAccount` returns the stored account with its error (internal/repository/memory_repository.go:40). The model follows both.
- Concurrency: there is none. Lines are processed one at a time.
