/** `ChiaFarmerReconciler.Reconcile`: fetch the ChiaFarmer, reconcile its base Service,
    its chia-exporter Service and its Deployment in that order, then mark it Ready. */
module FarmerController {
  import opened Kube
  import opened Dispatch

  /** The owned objects, in the order the reconciler attempts them. */
  const Children: seq<Child> := [BaseService, ExporterService, Deployment]

  /** Every call an invocation can issue, in the order it issues them. */
  const Schedule: seq<Call> :=
    [Fetch(ChiaFarmer), ReconcileChild(BaseService), ReconcileChild(ExporterService),
     ReconcileChild(Deployment), UpdateStatus(ChiaFarmer, Ready)]

  /** Oracle position of the status update. */
  const StatusCall: nat := 4

  /** One invocation: fetch the ChiaFarmer, reconcile its children, then write `Ready`. */
  function Reconcile(o: Oracle): (r: Outcome)
    ensures StraightLine(Schedule, o, r)
  {
    var get := o(0);
    var t := [Fetch(ChiaFarmer)];
    if get.err.Some? && IsNotFound(get.err.value) then Outcome(Empty, None, t, 0)
    else if get.err.Some? then Outcome(Empty, IgnoreNotFound(get.err.value), t, 0)
    else
      assert Calls(Children) == Schedule[1..StatusCall];
      match ReconcileChildren(Children, o, t)
      case Stop(out) => out
      case Continue(t') => WriteReady(ChiaFarmer, o, t')
  }

  /** The straight-line description is exact: an outcome satisfies it exactly when it is
      the one Reconcile returns. */
  lemma Characterization(o: Oracle, r: Outcome)
    ensures StraightLine(Schedule, o, r) <==> r == Reconcile(o)
  {
    if StraightLine(Schedule, o, r) {
      StraightLineDeterministic(Schedule, o, r, Reconcile(o));
    }
  }

  /** A ChiaFarmer that no longer exists ends the invocation cleanly, with nothing else attempted. */
  lemma DeletedFarmerIsIgnored(o: Oracle)
    requires o(0).err.Some? && IsNotFound(o(0).err.value)
    ensures Reconcile(o) == Outcome(Empty, None, [Fetch(ChiaFarmer)], 0)
  {
  }

  /** Any other fetch error is returned unchanged: `client.IgnoreNotFound` cannot drop it,
      because the NotFound case was handled just before. */
  lemma FetchErrorReturned(o: Oracle)
    requires o(0).err.Some? && !IsNotFound(o(0).err.value)
    ensures IgnoreNotFound(o(0).err.value) == o(0).err
    ensures Reconcile(o) == Outcome(Empty, o(0).err, [Fetch(ChiaFarmer)], 0)
  {
  }

  /** When the k-th child (0-based) is the first call to fail, the children after it and
      the status update are never attempted, and the helper's error is returned with the
      child's identity. */
  lemma ChildFailureAborts(o: Oracle, k: nat)
    requires k < |Children|
    requires NoErrors(o, 0, k + 1) && o(k + 1).err.Some?
    ensures var r := Reconcile(o);
            && r.trace == [Fetch(ChiaFarmer)] + Calls(Children[..k + 1])
            && r.err == Some(StepError(Children[k], o(k + 1).err.value))
            && r.result == OrEmpty(o(k + 1).res)
            && UpdateStatus(ChiaFarmer, Ready) !in r.trace
  {
    var r := Reconcile(o);
    StraightLineStopsAtFirstError(Schedule, o, r, k + 1);
    assert Schedule[..k + 2] == [Fetch(ChiaFarmer)] + Calls(Children[..k + 1]);
  }

  /** A failing helper's own `ctrl.Result` is what the invocation returns, or the empty
      one when the helper gave none. */
  lemma FailedChildKeepsHelperResult(o: Oracle)
    ensures var r := Reconcile(o); var last := |r.trace| - 1;
            r.trace[last].ReconcileChild? && o(last).err.Some? ==>
              && r.result == OrEmpty(o(last).res)
              && r.err == Some(StepError(r.trace[last].child, o(last).err.value))
  {
  }

  /** The status update with `Ready = true` is issued exactly when the fetch and all three
      child steps succeeded; it is then the last call, issued once. */
  lemma ReadyOnlyAfterAllChildren(o: Oracle)
    ensures var r := Reconcile(o);
            && (UpdateStatus(ChiaFarmer, Ready) in r.trace <==> NoErrors(o, 0, StatusCall))
            && (forall i :: 0 <= i < |r.trace| - 1 ==> !r.trace[i].UpdateStatus?)
  {
    var r := Reconcile(o);
    if NoErrors(o, 0, StatusCall) {
      StraightLineCompletes(Schedule, o, r);
    }
  }

  /** After the status update, the invocation returns `ctrl.Result{}` with the update's
      error, if any. */
  lemma StatusUpdateResult(o: Oracle)
    requires NoErrors(o, 0, StatusCall)
    ensures var r := Reconcile(o);
            && r.trace == Schedule
            && r.result == Empty
            && r.err == o(StatusCall).err
  {
    StraightLineCompletes(Schedule, o, Reconcile(o));
  }
}
