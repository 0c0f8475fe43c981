# Verified model of the Crater backend's approval, account and quota logic

Crater schedules batch jobs for users who work in accounts. This project models four parts of
its backend and proves properties of the model with Dafny 4.11 (`dafny verify dfyconfig.toml`):

- **Approval orders and job locks.** A user asks for more lock time on a job. A job order for
  fewer than 12 hours is approved at once unless the user had an automatic approval in the last
  48 hours; the job's lock then moves to `max(old lock, now) + hours`. A sweep cancels pending
  orders of jobs that do not run.
- **Accounts, memberships and Volcano queues.** A database with transactions and a queue store
  without them; the call to the queue store is the last action inside the transaction.
- **The two quota views**, which merge resource lists in several passes over Go maps.
- **The generated paging queries**, with their shortcut for the count.

## How it is modelled

Each handler is a method of a class `Store` whose fields are the tables, written with the
original's loops and early returns, and proved equal to a step function on a table value
(`Approvals`, `Accounts`). What a step stores, refuses and leaves alone is proved field by field,
without the functions that the step is made of (`ApprovalEffects`, `AccountEffects`). Queries
return rows in arbitrary order, and Go's map iteration is an arbitrary choice of the next key.

Runs are sequences of such steps; the lemmas about runs hold for every sequence. A handler is one
atomic step; clock ticks, phase changes and deletions of jobs, and deletions of users are steps as
well. Database errors, queue-store errors, lost replies,
failed commits and all clock reads are inputs of the step. One create reads the clock up to four
times, in order: eligibility check, the two reads of the lock code, creation time. The ledger of
grants and the set of accounts created with a queue are history variables that no handler reads.

| module | content |
|---|---|
| `Options`, `Listings` | the shared option type; sequences that list a set |
| `LockArithmetic` | lock accumulator, 64-bit durations, max-plus closed form |
| `Approvals`, `ApprovalStore`, `ApprovalEffects` | tables and steps; the handlers; what each handler stores and refuses, in plain values |
| `SweepLaws`, `OrderUpdates` | laws of the sweep and of the zero-skipping update, and a row after a whole run |
| `ApprovalRuns`, `RateLimit`, `Backlog`, `BacklogGrowth` | whole runs: provenance, lock refinement, rate limit, backlog |
| `Decimal`, `Accounts`, `AccountStore`, `AccountEffects` | account names; tables and steps; the handlers; what each handler stores and refuses, in plain values |
| `AccountRuns`, `Memberships`, `AccountDeletion`, `QuotaAgreement` | whole runs: names, the two stores, membership counts, the two member views, which accounts can be deleted, quotas |
| `Labels`, `QuotaResponse`, `Quantities`, `AccountQuota`, `UserQuota` | the quota views |
| `Paging` | page and count |

## What holds only under a condition

Where a promise is not kept on all inputs, the model keeps the code as it is and a lemma gives
the exact condition.

- *Rate limit.* The check looks at live rows only, so a user who deletes the order of a fresh
  grant, or overwrites its note, is approved again at once (`DeletingTheRecordBreaksTheLimit`).
  The check protects the limit in exactly the states where every grant of the last 48 hours is
  covered by a live marked order (`SafeIffCovered`), and `RecordKeptIff` says which steps take
  that order away.
- *Backlog.* The lead of a lock over the clock is at most 11 hours per user and what is left of
  its initial lead (`BacklogBound`). For k users that rest shrinks at (48 - 11 k) / 48 of the
  clock's speed, so it vanishes for four users or fewer (`FourUsersAreBounded`) and grows from
  five on. The bound is attained for every number of users (`BoundIsAttained`), so five or more
  make the lock grow without limit (`FiveUsersAreUnbounded`).
- *Two clock reads.* The lock code compares with a later read than the one it extends. The lock
  can move backwards, exactly when it expires between the two reads by more than the extension
  (`NewLockBounds`; `LockMovesBack` is an input).
- *Sweep.* The code reads every lookup error as "job not found" and then cancels orders of running
  jobs (`LookupErrorCancelsRunning`); `SweepExactIff` says when the sweep does what its comment
  says.
- *Two stores.* They disagree after a step if and only if the queue store acted and its reply was
  lost or the commit failed (`StoresAgreeIff`; `LostReplySplitsStores` is an input).
- *Absent quota.* An update without a quota keeps the stored quota but clears the queue's
  (`UpdateAgreesIff`; `AbsentQuotaDisagrees` is an input).
- *Deleting an account.* A delete goes through if and only if the account is live, empty and was
  created with a queue and nothing fails or runs outside (`DeleteSucceedsIff`). An account
  created without a queue therefore stays when it is empty (`EmptiedAccountMayStay` is an input).
  A member whose user row is deleted first can no longer be removed and keeps the account for
  ever (`DeletedUserStrandsAccount` is an input). Some run deletes a live account if and only if
  it was created with a queue and has no such member (`DeletableIff`).
- *Users added twice.* The add does not refuse them. One removal leaves such a user a member
  (`RemovedIffListedOnce`), and the member view repeats the user if and only if role, mode or
  quota of the rows differ (`RepeatedIffRowsDiffer`; `AddedTwiceStaysMember` is an input).
- *Format of a user's totals.* The jobs are fetched without an order, and a sum takes the format
  of its first non-zero summand. Amounts do not depend on the order (`AmountsAreOrderFree`), the
  format does (`FormatDependsOnOrder` is an input). The table is the same for every order if and
  only if, for each reported resource, all non-zero requests have one format, and all requests do
  if all are zero (`TableOrderFreeIff`). The response is the same for every order if and only if,
  besides, accelerators with one label agree in every amount (`ResponseDeterminedIff`).
- *Accelerator order.* Two vendors' resources with one derived label are listed in an arbitrary
  order unless they agree in every amount (`ViewDeterminedIff`; `SharedLabelIsUndetermined` is an
  input).
- *Paging.* With a negative offset the shortcut reports a wrong count (`CountIsRightIff`;
  `NegativeOffsetMiscounts` is an input).

## Model

| member | source | states |
|---|---|---|
| `LockArithmetic.ExtensionExactIff` | internal/handler/approvalorder.go:793-807 | the 64-bit duration of an hour count is exact up to 2562047 hours and wrong for every larger count |
| `LockArithmetic.NewLockBounds` | internal/handler/approvalorder.go:799-807 | one lock call is at most the max-plus step, at least the first read plus the hours, and moves the lock back exactly when it expires between the reads by more than the extension |
| `LockArithmetic.LockMovesBack` | internal/handler/approvalorder.go:799-807 | a concrete pair of reads on which the lock moves backwards |
| `LockArithmetic.ClosedForm` | internal/handler/approvalorder.go:799-812 | with one read per call the lock is the maximum of the initial lock plus all hours and, over each call, its read plus the hours from it on |
| `LockArithmetic.LockEnvelope` | internal/handler/approvalorder.go:799-812 | the lock never falls and never exceeds the later of start and last read by more than the total hours |
| `LockArithmetic.TwoReads` | internal/handler/approvalorder.go:800-803 | two reads per call give at most the one-read lock and lose at most the time between the reads |
| `ApprovalStore.Store.CheckAutoApprovalEligibility` | internal/handler/approvalorder.go:748-776 | true exactly for a short job order whose creator has no recent order with the automatic note; query errors surface only after the early return |
| `ApprovalStore.Store.LockJobForApproval` | internal/handler/approvalorder.go:779-816 | succeeds exactly when the job exists, is not permanently locked, the hours are in range and the write works; only the lock of that job changes |
| `ApprovalStore.Store.CreateApprovalOrder` | internal/handler/approvalorder.go:332-402 | the whole new state and the reply of a create, for every pattern of errors |
| `ApprovalStore.Store.UpdateApprovalOrder` | internal/handler/approvalorder.go:431-481 | the whole new state of an update; only administrators may set Approved |
| `ApprovalStore.Store.DeleteApprovalOrder` | internal/handler/approvalorder.go:498-551 | the whole new state of a delete; only the creator may delete |
| `ApprovalStore.Store.IsJobRunning` | internal/handler/approvalorder.go:159-174 | true for the phase Running only |
| `ApprovalStore.Store.UpdateApprovalOrderByJobStatus` | internal/handler/approvalorder.go:67-137 | the sweep loop cancels exactly the stale checked orders whose write works and counts them, in whatever order the rows were fetched |
| `ApprovalEffects.GrantedIff` | internal/handler/approvalorder.go:348-366 | exactly which requests are approved automatically |
| `ApprovalEffects.RepliesIff` | internal/handler/approvalorder.go:332-402 | which reply each create gets |
| `ApprovalEffects.CreatedOrder` | internal/handler/approvalorder.go:367-390 | a created order has the request's name, kind and content, its creator and time, and is approved with the automatic note if granted and pending without a note otherwise; no other order changes |
| `ApprovalEffects.RefusedOrder` | internal/handler/approvalorder.go:332-395 | any other create leaves the orders alone |
| `ApprovalEffects.GrantedLock` | internal/handler/approvalorder.go:799-812 | a granted create, and no other, moves a lock: that of its job, by the hours, from the old lock or the clock |
| `ApprovalEffects.LockedExactly` | internal/handler/approvalorder.go:779-816 | the lock code takes up to 60 days and adds them exactly |
| `ApprovalEffects.UpdatedOrder` | internal/handler/approvalorder.go:447-473 | only setting Approved needs an administrator; an update writes name and kind, every other field it carries, and neither creator nor creation time |
| `ApprovalEffects.DeletedIff` | internal/handler/approvalorder.go:515-545 | an order goes if and only if its creator deletes it and the write works, whatever its status |
| `SweepLaws.SweepSpares` | internal/handler/approvalorder.go:71-115 | a sweep leaves alone what is not a pending job order, has a running job, or fails to be written |
| `SweepLaws.SweepCancels` | internal/handler/approvalorder.go:95-125 | a sweep cancels every other order, with a note that tells a missing job from a stopped one |
| `SweepLaws.SweepFrame` | internal/handler/approvalorder.go:93-156 | rows are neither added nor lost; only status and notes of canceled rows change |
| `SweepLaws.SweepExactIff` | internal/handler/approvalorder.go:95-111 | the sweep cancels exactly the orders of missing or stopped jobs if and only if no lookup error hits a running job's order |
| `SweepLaws.LookupErrorCancelsRunning` | internal/handler/approvalorder.go:95-102 | a concrete sweep that cancels the order of a running job after a lookup error |
| `SweepLaws.SweepAccounting` | internal/handler/approvalorder.go:91-136 | canceled + failed + kept = checked |
| `SweepLaws.RetryConverges` | internal/handler/approvalorder.go:93-129 | a failure-free sweep after one with cancel errors gives the table of a single failure-free sweep |
| `SweepLaws.SecondSweepCancelsNothing` | internal/handler/approvalorder.go:71-129 | a second failure-free sweep cancels nothing |
| `OrderUpdates.UpdateIsALens` | internal/handler/approvalorder.go:460-473 | carried fields read back, others stay, and two updates act as their field-wise composition |
| `OrderUpdates.RowIsOneUpdate` | internal/handler/approvalorder.go:460-473 | over every run, a surviving row is the original with all writes of updates and sweeps composed into one, the later winning field by field |
| `ApprovalRuns.StepFrame` | internal/handler/approvalorder.go:377-390 | no step changes a row's creator or creation time; rows appear for the caller and go only by their creator's delete |
| `ApprovalRuns.OnlyCreatorsDelete` | internal/handler/approvalorder.go:515-535 | over every run, a row that disappeared was deleted by its creator |
| `ApprovalRuns.Provenance` | internal/handler/approvalorder.go:358-388 | over every run, an approved order comes from a successful lock or from an administrator's update that was accepted and written |
| `ApprovalRuns.JobsNeverReturn` | internal/handler/vcjob/vcjob.go:206-228 | over every run, a job that is there at the end was there at every moment before: a deleted name is never used again |
| `ApprovalRuns.LockIsAccumulator` | internal/handler/approvalorder.go:779-812 | over every run, the lock of a job that still exists is the accumulator applied to the grants on that job and nothing else moves it |
| `ApprovalRuns.LockClosedForm` | internal/handler/approvalorder.go:799-812 | over every run, the closed form for the lock of a job that still exists, up to the time between paired reads |
| `ApprovalRuns.PermanentIsAbsorbing` | internal/handler/approvalorder.go:788-791 | over every run a permanent lock stays as long as the job exists and no grant ever names the job |
| `ApprovalRuns.LockedHoursAreExact` | internal/handler/approvalorder.go:793-807 | every hour count that the lock code accepts converts without overflow |
| `RateLimit.SafeIffCovered` | internal/handler/approvalorder.go:754-775 | the check protects the limit in exactly the states where fresh grants are covered by live marked orders |
| `RateLimit.SpacedIfCovered` | internal/handler/approvalorder.go:748-776 | over every run in which each automatic approval of the user is given in a covered state, they are 48 hours apart |
| `RateLimit.RecordKeptIff` | internal/handler/approvalorder.go:460-473 | a step takes the record of a grant away if and only if it is an authorised update with another note, the creator's delete, or a sweep that cancels the order |
| `RateLimit.RateLimitHolds` | internal/handler/approvalorder.go:348-388 | from every state that keeps the limit, over every run that erases no fresh record of the user, other updates included, automatic approvals are 48 hours apart and fresh records survive |
| `RateLimit.SweepsNeverErase` | internal/handler/approvalorder.go:71-129 | sweeps need no condition: a run whose updates and deletes leave fresh records alone keeps them, approved, and the rate limit holds |
| `RateLimit.OrdersAreSpaced` | internal/handler/approvalorder.go:358-390 | any two live automatically approved orders of a user were created 48 hours apart |
| `RateLimit.LimiterIsExact` | internal/handler/approvalorder.go:748-776 | over every such run without forged notes, a request passes the check if and only if it is a short job order and the user had no automatic approval for 48 hours |
| `RateLimit.DeletingTheRecordBreaksTheLimit` | internal/handler/approvalorder.go:535-535 | a concrete run: create, delete, create gives two automatic approvals at one moment |
| `Backlog.PaidStep` | internal/handler/approvalorder.go:748-816 | every step keeps the lock's lead within 11/48 of the users' remaining cooldowns and a debt that goes down with time |
| `Backlog.UndisturbedIsMetered` | internal/handler/approvalorder.go:748-816 | every run that erases no fresh record gives its grants in covered states, as the backlog bound asks |
| `Backlog.BacklogBound` | internal/handler/approvalorder.go:748-816 | for every number k of users and every initial lock, the lead over the clock is at most 11 k hours and the rest of the initial lead, and 48 hours after the last grant only that rest |
| `Backlog.FourUsersAreBounded` | internal/handler/approvalorder.go:748-816 | with k <= 4 users the lock is at most 11 k hours and its initial lead ahead of the clock, and of that lead nothing is left after twelve times as long |
| `Backlog.SingleUserNeverStacks` | internal/handler/approvalorder.go:799-807 | with one user, once the initial lead is worked off, each automatic lock has expired before the next is granted |
| `BacklogGrowth.BoundIsAttained` | internal/handler/approvalorder.go:748-816 | for every k a run of k users reaches the backlog bound exactly, from k = 5 on after every number of rounds |
| `BacklogGrowth.FiveUsersAreUnbounded` | internal/handler/approvalorder.go:748-816 | for every k >= 5 and every bound there is an undisturbed run of k users that exceeds it |
| `Decimal.QueueNameInjective` | internal/handler/account.go:452-453 | different ids give different names |
| `Decimal.QueueNameReadsBack` | internal/handler/account.go:452-453 | the name is "q-" and the decimal numeral of the id, which reads back |
| `AccountStore.Store.InsertAdmins` | internal/handler/account.go:439-449 | the loop inserts one administrator row per listed user, or stops at the failing insert |
| `AccountStore.Store.CreateAccount` | internal/handler/account.go:407-487 | the whole new state of a create in both stores, with rollback of the tables only |
| `AccountStore.Store.UpdateAccount` | internal/handler/account.go:535-581 | the whole new state of an update: table first, queue second, no rollback |
| `AccountStore.Store.DeleteAccount` | internal/handler/account.go:623-688 | the whole new state of a delete, with rollback of the tables only |
| `AccountStore.Store.DeleteQueue` | internal/handler/account.go:690-707 | removes the queue exactly when it exists, has nothing running and the call takes effect |
| `AccountStore.Store.AddUserProject` | internal/handler/account.go:737-799 | adds one row, with role and mode cut to eight bits, even if the user is already a member |
| `AccountStore.Store.DeleteUserProject` | internal/handler/account.go:1076-1107 | soft-deletes exactly the first live row of the pair |
| `AccountStore.Store.GetUserInProject` | internal/handler/account.go:902-928 | the join of live rows with users, without repetition of equal user, role, mode and quota, for every row order |
| `AccountStore.Store.GetUserOutOfProject` | internal/handler/account.go:1029-1060 | the users whose id is not among the member ids, the empty id list included |
| `AccountEffects.CreatedIff` | internal/handler/account.go:407-487 | which creates are rejected and which succeed |
| `AccountEffects.CreatedAccount` | internal/handler/account.go:431-466 | a created account has the request's nickname, three quota lists and expiry, and "q-" and its id as name and space; no other account changes |
| `AccountEffects.CreatedAdmins` | internal/handler/account.go:439-449 | the listed users become administrators with read-write access, one row each in list order; no other row changes |
| `AccountEffects.FailedCreate` | internal/handler/account.go:426-487 | any other create leaves both tables as they were and uses up the ids it drew |
| `AccountEffects.CreatedQueue` | internal/handler/account.go:490-521 | the queue of the new name, with the request's three quota lists and the caller, is the only queue that a create adds or changes |
| `AccountEffects.UpdatedAccount` | internal/handler/account.go:549-575 | an update writes nickname, quota and expiry, the latter two only if sent, and no other account |
| `AccountEffects.UpdatedQueue` | internal/handler/account.go:583-607 | the account's queue takes over all three quota lists, absent ones as empty, and no other queue changes |
| `AccountEffects.UpdateSucceedsIff` | internal/handler/account.go:535-581 | which updates succeed, and that the others write nothing |
| `AccountEffects.DeletedAccount` | internal/handler/account.go:638-680 | which deletes mark the account row as deleted |
| `AccountEffects.DeletedQueue` | internal/handler/account.go:690-707 | the queue goes even if the reply is lost or the commit fails, and no other queue does |
| `AccountEffects.AddedIff` | internal/handler/account.go:744-779 | an add needs account, user, and a role and mode that parse, and does not ask for membership |
| `AccountEffects.AddedMember` | internal/handler/account.go:781-792 | the new row has role and mode of the request, cut to eight bits, and its list as capability; no other row changes |
| `AccountEffects.RemovedMember` | internal/handler/account.go:1083-1104 | a removal marks the first live row of the pair and nothing else |
| `AccountEffects.InsideShows` | internal/handler/account.go:917-925 | the member view shows user, role, mode and quota of the live rows whose user exists, and nothing else |
| `AccountEffects.AddedIsShown` | internal/handler/account.go:781-925 | an added user is shown with the role and mode of the request |
| `AccountRuns.NamesStep` | dao/model/account.go:31-35 | every step keeps names and spaces non-empty, generated from the id and pairwise distinct |
| `AccountRuns.CreateFailsOnlyByFaults` | internal/handler/account.go:431-476 | in a consistent state a create never meets a name, space or queue conflict |
| `AccountRuns.QueuesHaveOneOwner` | internal/handler/account.go:452-476 | over every run that leaves no queue effect uncommitted, each queue has exactly one live account of its name, created with a queue, and every live account created with one still has it |
| `AccountRuns.StoresAgreeIff` | internal/handler/account.go:426-479 | a step keeps database and queue store in agreement unless, and only unless, the queue store acts and its reply is lost or the commit fails |
| `AccountRuns.LostReplySplitsStores` | internal/handler/account.go:455-476 | a concrete create whose queue is made while the account is rolled back |
| `AccountRuns.StoresStayConsistent` | internal/handler/account.go:648-680 | over every run without such a step, names, references and the two stores stay consistent, whatever calls fail |
| `AccountRuns.FreshInstallIsConsistent` | cmd/gorm-gen/models/migrate.go:658-720 | the tables of a fresh installation, with the queue `default` of Volcano, satisfy the invariant |
| `Memberships.MembershipConserved` | internal/handler/account.go:744-792 | over every run, live rows of a pair = rows at the start + rows created - rows removed, and each belongs to a live account |
| `Memberships.DeletedOnlyWhenEmpty` | internal/handler/account.go:638-673 | an account is deleted only when its member count is zero for every user |
| `Memberships.CreateAllOrNothing` | internal/handler/account.go:426-479 | a committed create adds one account and, as a multiset, one read-write administrator row per listed user; otherwise both tables are unchanged |
| `Memberships.RemovedIffListedOnce` | internal/handler/account.go:1096-1104 | a removed user is out of the account if and only if there was one row |
| `Memberships.ViewsPartition` | internal/handler/account.go:902-1060 | whatever rows the two view handlers return, every user is in exactly one of them and nobody else is in either |
| `Memberships.OutsideAfterRun` | internal/handler/account.go:1029-1060 | over every run the outside view lists a user exactly when removals used up the rows at the start and those created |
| `Memberships.RepeatedIffRowsDiffer` | internal/handler/account.go:902-928 | the inside view repeats a user if and only if two live rows differ in role, mode or quota |
| `Memberships.AddedTwiceStaysMember` | internal/handler/account.go:781-792 | a concrete user added twice has two differing rows and one left after a removal |
| `AccountDeletion.DeleteSucceedsIff` | internal/handler/account.go:638-707 | in a consistent state a delete commits if and only if the account is live, empty and was created with a queue, and no call fails |
| `AccountDeletion.QueuelessAccountsStay` | internal/handler/account.go:690-707 | over every run that leaves no queue effect uncommitted, an account created without a queue is never deleted |
| `AccountDeletion.StrandedAccountsStay` | internal/handler/account.go:1088-1100 | over every run an account with a member whose user row is deleted keeps that member and is never deleted |
| `AccountDeletion.DeletableIff` | internal/handler/account.go:638-707 | some run deletes a live account if and only if it was created with a queue and every member's user exists |
| `AccountDeletion.EmptiedAccountMayStay` | internal/handler/account.go:671-680 | a concrete run: create, leave, delete without any failure removes the account if and only if it has a queue |
| `AccountDeletion.DeletedUserStrandsAccount` | internal/handler/user.go:101-115 | a concrete run: deleting the only member's user makes an account with a queue undeletable |
| `QuotaAgreement.UpdateAgreesIff` | internal/handler/account.go:555-600 | an update that reaches the queue leaves both quotas equal if and only if it carries a quota or none was stored |
| `QuotaAgreement.AbsentQuotaDisagrees` | internal/handler/account.go:555-600 | a concrete update without a quota that keeps the stored one and clears the queue's |
| `QuotaAgreement.MissedQueueAgreesIff` | internal/handler/account.go:564-578 | an update that misses the queue keeps agreement if and only if the stored quota does not change |
| `QuotaAgreement.AgreementSurvivesIff` | internal/handler/account.go:535-707 | agreement survives a step of any kind, as long as the account lives, if and only if the step is not an update of it that tells the stores apart |
| `QuotaAgreement.QuotaStaysInAgreement` | internal/handler/account.go:454-519 | once set in both stores, the quotas agree over every run whose updates of the account meet the conditions above |
| `Labels.LabelAfterSlash` | internal/handler/account.go:354-361 | the label of "domain/device" is "device" |
| `Labels.LabelIff` | internal/handler/account.go:355-361 | a name with exactly one slash has the part after it as label, any other is its own label |
| `Labels.JoinSplits` | internal/handler/account.go:356-356 | splitting at slashes undoes joining with them |
| `Labels.AtMostIff` | internal/handler/account.go:365-367 | the sort order on labels is the lexicographic order on characters |
| `QuotaResponse.BuildResponse` | internal/handler/account.go:347-373 | for every map order the response shows CPU and memory and a label-sorted permutation of the accelerator entries |
| `QuotaResponse.ShownOnce` | internal/handler/account.go:347-364 | every kept resource is shown in exactly one place |
| `QuotaResponse.DeterminedIff` | internal/handler/account.go:353-367 | the response is independent of map order and sort if and only if entries with one label are identical |
| `AccountQuota.PassesMerge` | internal/handler/account.go:289-345 | the five in-place passes refine the pointwise description |
| `AccountQuota.GetQuota` | internal/handler/account.go:284-374 | for every iteration order the response is one for the pointwise merged table |
| `AccountQuota.ShownCpuAndMemory` | internal/handler/account.go:284-350 | in every response CPU and memory carry the four amounts of their lists, or of the resource table, when allocated, and are empty otherwise |
| `AccountQuota.ShownAccelerators` | internal/handler/account.go:351-373 | in every response the accelerator list has one entry, with its label and amounts, for each allocated name with a slash, sorted |
| `AccountQuota.ViewDeterminedIff` | internal/handler/account.go:353-373 | two runs of the view always give one response if and only if accelerators with a common derived label agree in every amount |
| `AccountQuota.SharedLabelIsUndetermined` | internal/handler/account.go:354-367 | a concrete allocation with one shared label has two different responses |
| `UserQuota.Aggregate` | internal/handler/context.go:96-107 | the nested loops compute the total for every map order |
| `UserQuota.TotalIsSum` | internal/handler/context.go:98-107 | a total is present exactly for requested resources and is the exact sum |
| `UserQuota.ReportedAmount` | internal/handler/context.go:113-123 | the reported amount is the exact sum rounded once, less than one away from it; for non-negative requests it is rounded up and at most the sum of per-job roundings |
| `UserQuota.AmountsAreOrderFree` | internal/handler/context.go:86-144 | for every order of the jobs the same resources are reported, with the same amounts and capabilities |
| `UserQuota.TableOrderFreeIff` | internal/handler/context.go:86-144 | for non-negative requests the table is the same for every order if and only if the requests that can decide a format agree on it |
| `UserQuota.ResponseDeterminedIff` | internal/handler/context.go:86-170 | the response is the same for every order of jobs, maps and sort if and only if formats are settled and accelerators with one label agree |
| `UserQuota.FormatDependsOnOrder` | internal/handler/context.go:86-107 | two concrete jobs whose two orders give different tables |
| `UserQuota.GetQuota` | internal/handler/context.go:81-170 | the response is one for the summed table with the member's capability |
| `UserQuota.ShownSums` | internal/handler/context.go:96-150 | in every response CPU and memory carry the exact sum of the requests, rounded once, and the member's capability, and are empty if no job asks for them |
| `UserQuota.ShownAcceleratorSums` | internal/handler/context.go:151-170 | in every response the accelerator list has one entry for each requested name with a slash, sorted |
| `UserQuota.FormatIsDecided` | internal/handler/context.go:96-107 | a total has the format of the last request that met a zero sum, for requests of any sign |
| `Paging.FindByPage` | dao/query/accounts.gen.go:574-587 | the page, and a count that equals the number of matches if and only if the offset is not negative or the shortcut was not taken |
| `Paging.CountIsRightIff` | dao/query/accounts.gen.go:580-585 | the reported count is right if and only if the offset is not negative or the shortcut is not taken |
| `Paging.NegativeOffsetMiscounts` | dao/query/accounts.gen.go:580-585 | a concrete page of one row that is reported with count 0 |
| `Paging.ScanByPage` | dao/query/accounts.gen.go:589-597 | the same page with the true count |
| `Paging.PageIsLongest` | dao/query/accounts.gen.go:574-575 | the page is the longest run of rows from the offset on within the limit; a negative limit gives all of them |
| `Paging.PagesAreTheTable` | dao/query/accounts.gen.go:574-587 | consecutive pages of a fixed positive limit concatenate to the table |

## Left out

- Interleaving of SQL statements of different handlers: each handler is one atomic step, as the code takes no locks. In particular two creates at once could both insert the empty name.
- The membership delete inside the delete transaction: it repeats the query of the check before it and, with atomic handlers, finds nothing.
- `operations/lock.go` (manual lock, permanent lock, unlock) and the low-usage cleaner that reads the lock: other writers of the lock are not steps of a run.
- `UpdateUserProject` and `PutUserInProject`: they rewrite role, mode and quota of existing rows in place and do not change membership; they are not steps of a run.
- The user rows: a user stands for its id, and the views leave out name and attributes, which are functions of the id.
- User creation and login (`auth.go`): a new user has a new id and no membership row, so runs have no step for it.
- Request binding beyond required fields, HTTP replies, logging, and the read-only listing handlers.
- The account and queue lookups that open the account's quota view, and the job query that opens the user's: their results are parameters.
- Database timestamp precision (microseconds) and time zones: times are exact nanoseconds, and the permanent lock is one constant.
- `resource.Quantity`: amounts are exact reals, added exactly and rounded away from zero; saturation at 64 bits is not modelled.
- UserQuota.ResponseDeterminedIff: stated under the same condition on the requests as `TableOrderFreeIff`.
- UserQuota.TableOrderFreeIff: stated for requests that are not negative, as Kubernetes demands; with both signs a partial sum can be zero, and then the format can also come from a later request.
- `sort.Slice`: modelled by its contract, a label-sorted permutation.
- AccountStore.Store.CreateAccount: ids used up by failed inserts follow the order of the statements; a database that fails before drawing an id would use up fewer.
- Errors of the resource-table lookup in the account's quota view: the original skips the entry, so the table parameter holds just the rows that are found.
