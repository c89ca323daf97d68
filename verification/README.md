# Chia operator reconcile dispatchers, modelled in Dafny

This project models the `Reconcile` entry points of three controllers of the Chia
Kubernetes operator: `ChiaCAReconciler`, `ChiaWalletReconciler` and
`ChiaFarmerReconciler`. Each one is a short sequential state machine. It fetches its
custom resource. It reconciles its child objects in a fixed order and stops at the
first failing helper. Then it writes `Status.Ready = true`. For the CA, the status
write only happens after a bounded poll for the CA Secret.

Every side effect is a call to an abstract oracle (`Kube.Oracle`). The n-th call an
invocation issues receives the oracle's n-th answer. An answer holds the parts of a Go
return value: an optional `ctrl.Result`, a `notFound` flag and an optional error. Each
call reads only the parts its Go signature returns. A `Reconcile` is therefore a pure
function of the oracle. It returns an `Outcome`:

- the `(ctrl.Result, error)` pair;
- the trace of issued calls (fetch, child reconcile, Secret query, status update);
- the number of 10-second sleeps.

Call number i of the trace was answered by answer i. This lets every property be
stated over the trace and the answers: which calls are issued and in what order,
where an invocation stops, what it returns, and whether `Ready` is written.

Files:

- `kube.dfy` (`Kube`): API values. `ctrl.Result`, errors with `errors.IsNotFound` and
  `client.IgnoreNotFound`, the child objects, calls, answers and outcomes. A helper
  error re-raised with `fmt.Errorf("...: %v", err)` is `StepError(child, cause)`.
  Because `%v` formats the cause instead of wrapping it, such an error is never NotFound.
- `dispatch.dfy` (`Dispatch`): the parts all three reconcilers share. These are the
  child-step sequence, the status write, and the reference description
  `PropagatesLastAnswer`. That description says every call except the last succeeded,
  and the returned pair is decided by the last call's answer. A NotFound on the primary
  fetch gives `({}, nil)`. A helper error gives the helper's result (or `{}`) and a
  `StepError`. Any other error is returned as it came. `StraightLine` adds a fixed call
  schedule and gives the complete behaviour of a reconciler with no wait loop.
- `chiawallet.dfy` (`WalletController`) and `chiafarmer.dfy` (`FarmerController`): the
  two source files are identical apart from names, and so are their models.
- `chiaca.dfy` (`CAController`): the CA reconciler. It includes the wait loop, both as
  a recursive function (`WaitForSecret`) and as the counted loop of the source
  (`WaitLoop`), and proves the two equal. `WellBehaved` is the complete description of
  a CA invocation: call order, where it may stop, what each Secret query decides, the
  returned pair, and one sleep per missed poll. `CAController.Characterization` proves
  that it holds of exactly the outcome Reconcile returns.

Notes on what the code does, which the model follows:

- Only helper errors are wrapped with context. Errors from the primary fetch, the
  Secret query and the status update are returned unchanged.
- The wallet and farmer each reconcile two Services (base and chia-exporter) before
  the Deployment.
- When all 100 polls miss, the CA reconciler falls through to `return ctrl.Result{}, nil`:
  no error, no requeue, and `Ready` is not written. `CAController.WaitExhausted` proves
  this.

## Model

| member | source | states |
|---|---|---|
| Dispatch.ReconcileChildren | internal/controller/chiaca/controller.go:58-84 | Children are reconciled in order. The run continues exactly when every helper answered without an error, and then it issued one call per child. Otherwise it stops at the first failing child: that child and all before it were attempted, none after it. It returns the helper's result (or the empty one) and the error tagged with that child. |
| Dispatch.WriteReady | internal/controller/chiawallet/controller.go:82-90 | Writing `Ready = true` appends the status update as the last call. The returned pair is what the last-answer rule gives for an update: `{}` with the update's error, or nil. |
| WalletController.Reconcile | internal/controller/chiawallet/controller.go:37-90 | The invocation issues a non-empty prefix of fetch, base Service, exporter Service, Deployment, status update. It stops early only on a call that failed. Every call before the last succeeded, and the last call's answer decides the returned pair. |
| WalletController.Characterization | internal/controller/chiawallet/controller.go:37-90 | An outcome meets the straight-line description exactly when it is the one Reconcile returns, so the description determines the outcome. |
| WalletController.DeletedWalletIsIgnored | internal/controller/chiawallet/controller.go:44-48 | If the fetch reports NotFound, the result is `({}, nil)` after the fetch alone. No child, no status update. |
| WalletController.FetchErrorReturned | internal/controller/chiawallet/controller.go:49-52 | Any other fetch error is returned unchanged with `{}` after the fetch alone. `IgnoreNotFound` is the identity on that path. |
| WalletController.ChildFailureAborts | internal/controller/chiawallet/controller.go:54-80 | If child k is the first call to fail, the trace is the fetch plus children 0..k. The error is the helper's error tagged with child k, the result is the helper's (or `{}`), and no status update happens. |
| WalletController.FailedChildKeepsHelperResult | internal/controller/chiawallet/controller.go:57-61 | When the last call is a failing child helper, the invocation returns that helper's result if it gave one, else `{}`. |
| WalletController.ReadyOnlyAfterAllChildren | internal/controller/chiawallet/controller.go:82-84 | The `Ready = true` update is issued if and only if the fetch and all three child steps succeeded. No status update appears anywhere but as the last call, so there is at most one. |
| WalletController.StatusUpdateResult | internal/controller/chiawallet/controller.go:82-90 | When all earlier calls succeed, the full schedule is issued and the invocation returns `{}` with the status update's error (nil on success). |
| FarmerController.Reconcile | internal/controller/chiafarmer/controller.go:37-90 | Same as the wallet, for the ChiaFarmer kind: a prefix of the fixed schedule, stopping only on a failure, with the returned pair decided by the last answer. |
| FarmerController.Characterization | internal/controller/chiafarmer/controller.go:37-90 | The straight-line description holds of exactly the outcome Reconcile returns. |
| FarmerController.DeletedFarmerIsIgnored | internal/controller/chiafarmer/controller.go:44-48 | A NotFound fetch gives `({}, nil)` and no further call. |
| FarmerController.FetchErrorReturned | internal/controller/chiafarmer/controller.go:49-52 | Any other fetch error is returned unchanged with `{}`, and nothing else is attempted. |
| FarmerController.ChildFailureAborts | internal/controller/chiafarmer/controller.go:54-80 | The first failing child ends the invocation. Later children and the status update are not attempted. The helper's error is returned with the child's identity. |
| FarmerController.FailedChildKeepsHelperResult | internal/controller/chiafarmer/controller.go:66-70 | A failing helper's own result is returned, or `{}` when it gave none. |
| FarmerController.ReadyOnlyAfterAllChildren | internal/controller/chiafarmer/controller.go:82-84 | `Ready = true` is written if and only if all child steps succeeded, at most once and as the last call. |
| FarmerController.StatusUpdateResult | internal/controller/chiafarmer/controller.go:82-90 | A status-update error gives `({}, err)`, and success gives `({}, nil)`. |
| CAController.Reconcile | internal/controller/chiaca/controller.go:41-129 | The invocation starts with the fetch, issues at most 107 calls and sleeps at most 100 times. Its full behaviour is proved by `CAController.Characterization`, `CAController.ReconcileWellBehaved` and the per-case lemmas below. |
| CAController.DeletedCAIsIgnored | internal/controller/chiaca/controller.go:46-52 | A NotFound fetch gives `({}, nil)`. There is no child reconcile, no Secret query and no status update. |
| CAController.FetchErrorReturned | internal/controller/chiaca/controller.go:53-56 | Any other fetch error is returned unchanged with `{}`, and nothing else is attempted. |
| CAController.ChildFailureAborts | internal/controller/chiaca/controller.go:58-84 | If ServiceAccount, Role or RoleBinding k is the first call to fail, the trace stops there. There is no Secret query and no Job. The helper's result (or `{}`) and its error, tagged with the child, are returned. |
| CAController.SecretQueryFails | internal/controller/chiaca/controller.go:86-91 | An error from the first Secret query is returned unchanged with `{}`, and no Job is reconciled. |
| CAController.SecretAlreadyExists | internal/controller/chiaca/controller.go:86-93 | If the Secret already exists, the result is `({}, nil)` right after the query. There is no Job, no wait and no status update, so `Ready` is not written. |
| CAController.JobFailureAborts | internal/controller/chiaca/controller.go:93-101 | A failing Job helper ends the invocation with its result (or `{}`) and its error tagged CAJob, before any poll. |
| CAController.JobReconciledThenWait | internal/controller/chiaca/controller.go:92-104 | The Job is reconciled only after the first query reported NotFound. After it, the invocation is exactly the wait loop started from the six calls before it. |
| CAController.FirstNonMiss | internal/controller/chiaca/controller.go:104-122 | The position where the loop settles: every earlier poll succeeded with NotFound, and the poll there (if in range) did not. |
| CAController.WaitForSecret | internal/controller/chiaca/controller.go:103-125 | From iteration i, the loop issues polls up to the first one that does not miss, and none beyond iteration 100. It sleeps once per miss. When all polls miss it returns no error. A failed poll's error is returned. A found Secret adds one `Ready` update whose error is returned. |
| CAController.WaitLoop | internal/controller/chiaca/controller.go:104-125 | The counted `for i := 1; i <= 100` loop computes the same outcome as the recursive description. |
| CAController.PollsExhausted | internal/controller/chiaca/controller.go:104-128 | If no poll settles, the loop issues exactly 100 polls and 100 sleeps and falls through to `({}, nil)` with no status update. |
| CAController.PollFails | internal/controller/chiaca/controller.go:107-111 | A failing poll ends the loop with its error, after one sleep per earlier miss, and no status update. |
| CAController.PollFinds | internal/controller/chiaca/controller.go:113-121 | The poll that finds the Secret is followed by exactly one `Ready` update, whose error is returned. |
| CAController.SecretFoundOnCheck | internal/controller/chiaca/controller.go:104-121 | A Secret first found on poll k means exactly k polls, k-1 sleeps and one `Ready` update, ending with `({}, update error)`. |
| CAController.PollErrorOnCheck | internal/controller/chiaca/controller.go:104-111 | A query error on poll k, after k-1 misses, ends the invocation with that error after exactly k polls. |
| CAController.WaitExhausted | internal/controller/chiaca/controller.go:104-128 | If all 100 polls miss, the result is `({}, nil)` after 100 polls and 100 sleeps. `Ready` is not written and no requeue is asked for. |
| CAController.ReconcileWellBehaved | internal/controller/chiaca/controller.go:41-129 | Every invocation meets `WellBehaved`. Calls follow the source order: a prefix of the six calls before the loop, or all six, then 1 to 100 polls and possibly the update. Only the last call may have failed, and its answer decides the returned pair. After a Secret query the status update follows exactly when the Secret was found. The invocation stops only on a failure, the update, a first query that found the Secret, or a 100th poll that missed. It sleeps once after each missed poll. |
| CAController.WellBehavedUnique | internal/controller/chiaca/controller.go:41-129 | Two outcomes that both meet `WellBehaved` for the same answers are equal: the description leaves no choice. |
| CAController.Characterization | internal/controller/chiaca/controller.go:41-129 | An outcome meets `WellBehaved` if and only if it is the one Reconcile returns. |
| CAController.JobOnlyWhenSecretAbsent | internal/controller/chiaca/controller.go:86-101 | The generator Job is reconciled if and only if the fetch, the three RBAC children and the first Secret query succeeded and that query reported NotFound. |
| CAController.WaitWellBehaved | internal/controller/chiaca/controller.go:103-128 | Once the Job is reconciled, the wait loop's outcome meets `WellBehaved`. |
| CAController.ExhaustedRules | internal/controller/chiaca/controller.go:104-128 | When all 100 polls miss, every poll went on to the next one, the invocation stops after the 100th, and it slept once after each of the 100 polls. |
| CAController.FailsRules | internal/controller/chiaca/controller.go:104-111 | When the first poll that does not miss fails, the invocation stops on it and slept once after each earlier poll. |
| CAController.FindsRules | internal/controller/chiaca/controller.go:104-121 | When the first poll that does not miss finds the Secret, that poll goes on to the status update, the invocation stops after the update, and it slept once after each earlier miss. |
| CAController.ReadyNotWrittenWhenExhausted | internal/controller/chiaca/controller.go:104-125 | When every poll misses, no status update is issued. |
| CAController.ReadyNotWrittenOnPollError | internal/controller/chiaca/controller.go:107-111 | When a poll fails before any poll finds the Secret, no status update is issued. |
| CAController.ReadyWrittenWhenFound | internal/controller/chiaca/controller.go:113-121 | When a poll finds the Secret, the `Ready` update is issued, and only as the last call. |
| CAController.ReadyIffSecretFound | internal/controller/chiaca/controller.go:107-121 | `Ready = true` is written if and only if the Job was reconciled and a poll found the Secret. No status update appears anywhere but as the last call. |

## Left out

- The `assemble*` builders and the `kube.Reconcile*` helpers are not part of this model. They are oracle calls returning an optional `ctrl.Result` and an optional error. Their create/update/diff behaviour, write avoidance, drift detection and owner references are not modelled.
- `getCASecret` is not part of this model. It is one oracle call returning `(notFound, err)`.
- The controller-runtime client, the status writer, the work queue, `SetupWithManager`, and the RBAC markers are left out. They are I/O or wiring.
- Log lines and the text of `fmt.Errorf` messages are left out. A re-raised helper error keeps only the child it names and its cause.
- `time.Sleep(10 * time.Second)` only counts in `Outcome.sleeps`. Wall-clock time, worker starvation and context cancellation are not modelled.
- The custom-resource spec and every status field except `Ready` are left out. The reconcilers only read the spec through the builders, and only write `Ready`.
- The API type declarations and their YAML tests are left out. They declare schema and have no reconcile behaviour.
- Concurrency is left out. Per-key serialization and parallel workers belong to the work queue, and one invocation is sequential.
