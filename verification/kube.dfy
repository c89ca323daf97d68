/** Values the Chia operator's reconcilers exchange with the Kubernetes API and with
    the controller-runtime work queue.

    Every side effect of a reconciler (reading the custom resource, the `kube.Reconcile*`
    helpers, the CA secret query, the status write) is a call to an abstract oracle:
    the n-th call a reconciler issues receives the oracle's n-th answer. A reconciler is
    then a pure function of the oracle, and its trace of issued calls is part of its
    result, so that call order, early exits and status writes can be stated as
    properties of that trace. */
module Kube {

  datatype Option<+T> = None | Some(value: T)

  /** `ctrl.Result`: whether the work queue should retry the request, and after how
      long (a Go `time.Duration`, in nanoseconds). */
  datatype Requeue = Requeue(requeue: bool, requeueAfter: int)

  /** `ctrl.Result{}`: no explicit retry. */
  const Empty: Requeue := Requeue(false, 0)

  /** The `if res == nil { res = &reconcile.Result{} }; return *res` idiom. */
  function OrEmpty(res: Option<Requeue>): Requeue
  {
    match res
    case Some(q) => q
    case None => Empty
  }

  /** The reason an API status error carries. The reconcilers only ever ask whether it
      is NotFound; the other reasons are kept apart to show they are not confused with it. */
  datatype Reason = NotFound | Conflict | OtherReason

  /** The Go `error` values the reconcilers see or return. `StepError` is the error built
      by `fmt.Errorf("... encountered error reconciling <child>: %v", err)`; `%v` formats
      the cause into the message instead of wrapping it, so such an error is never
      NotFound, whatever its cause was. */
  datatype Error =
    | ApiError(reason: Reason, message: string)
    | StepError(child: Child, cause: Error)

  /** `errors.IsNotFound`. */
  predicate IsNotFound(e: Error)
  {
    e.ApiError? && e.reason == NotFound
  }

  /** `client.IgnoreNotFound`: drops a NotFound error, keeps any other error as it is. */
  function IgnoreNotFound(e: Error): (r: Option<Error>)
    ensures r.None? <==> IsNotFound(e)
    ensures r.Some? ==> r.value == e
  {
    if IsNotFound(e) then None else Some(e)
  }

  /** The custom-resource kinds whose reconcilers are modelled. */
  datatype Kind = ChiaCA | ChiaWallet | ChiaFarmer

  /** The child objects the reconcilers assemble and pass to a `kube.Reconcile*` helper. */
  datatype Child =
    | CAServiceAccount  // kube.ReconcileServiceAccount, CA generator ServiceAccount
    | CARole            // kube.ReconcileRole, CA generator Role
    | CARoleBinding     // kube.ReconcileRoleBinding, CA generator RoleBinding
    | CAJob             // kube.ReconcileJob, CA generator Job
    | BaseService       // kube.ReconcileService, the node's own Service
    | ExporterService   // kube.ReconcileService, the chia-exporter Service
    | Deployment        // kube.ReconcileDeployment

  /** The status subresource; only `Ready` is ever written. */
  datatype Status = Status(ready: bool)

  const Ready: Status := Status(true)

  /** A call a reconciler issues through its client or a helper. */
  datatype Call =
    | Fetch(kind: Kind)                          // r.Get of the custom resource
    | ReconcileChild(child: Child)               // assemble* followed by kube.Reconcile*
    | QuerySecret                                // r.getCASecret
    | UpdateStatus(kind: Kind, status: Status)   // r.Status().Update

  /** One answer of the oracle. Each call reads the part its Go signature returns:
      a fetch and a status update read `err`; a `kube.Reconcile*` helper reads `res`
      and `err`; the CA secret query reads `notFound` and `err`. */
  datatype Answer = Answer(res: Option<Requeue>, notFound: bool, err: Option<Error>)

  /** The environment: the answer to the n-th call of one invocation. */
  type Oracle = nat -> Answer

  /** What one Reconcile invocation returns, `(ctrl.Result, error)`, together with the
      calls it issued in order and how many times it slept. Call number n of `trace`
      was answered by the oracle's answer n. */
  datatype Outcome = Outcome(result: Requeue, err: Option<Error>, trace: seq<Call>, sleeps: nat)
}
