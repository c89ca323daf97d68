/** The steps every Chia reconciler is built from: a run of child reconciles that stops
    at the first failing helper, and the final status write. Also the reference
    description of how an invocation turns the answer of its last call into its
    `(ctrl.Result, error)` pair, which all three reconcilers satisfy. */
module Dispatch {
  import opened Kube

  /** The calls at oracle positions [lo, hi) all came back without an error. */
  ghost predicate NoErrors(o: Oracle, lo: nat, hi: nat)
  {
    forall j :: lo <= j < hi ==> o(j).err.None?
  }

  /** The error an invocation returns when it stops right after `call` was answered
      with `a`: a NotFound on the primary fetch is swallowed (the resource was deleted),
      a helper's error is reported with the child it was reconciling, and every other
      error is returned as it came. No error, no error returned. */
  function Propagated(call: Call, a: Answer): Option<Error>
  {
    match a.err
    case None => None
    case Some(e) =>
      if call.Fetch? && IsNotFound(e) then None
      else if call.ReconcileChild? then Some(StepError(call.child, e))
      else Some(e)
  }

  /** The `ctrl.Result` an invocation returns when it stops right after `call` was
      answered with `a`: only a failing helper passes on its own result, defaulted to the
      empty one when it gave none. */
  function Returned(call: Call, a: Answer): Requeue
  {
    if call.ReconcileChild? && a.err.Some? then OrEmpty(a.res) else Empty
  }

  /** The invocation issued at least one call, every call but its last one succeeded,
      and the pair it returns is decided by the last call's answer alone. */
  ghost predicate PropagatesLastAnswer(o: Oracle, r: Outcome)
  {
    && |r.trace| >= 1
    && NoErrors(o, 0, |r.trace| - 1)
    && r.err == Propagated(r.trace[|r.trace| - 1], o(|r.trace| - 1))
    && r.result == Returned(r.trace[|r.trace| - 1], o(|r.trace| - 1))
  }

  /** Either every call of a run succeeded and the invocation goes on from `trace`, or
      the invocation ends with `out`. */
  datatype Step = Continue(trace: seq<Call>) | Stop(out: Outcome)

  /** The calls that reconcile `children` in order. */
  function Calls(children: seq<Child>): seq<Call>
  {
    seq(|children|, i requires 0 <= i < |children| => ReconcileChild(children[i]))
  }

  /** Reconciles `children` one after the other, each with `res, err := kube.Reconcile*(...)`
      and `if err != nil { if res == nil { res = &reconcile.Result{} }; return *res, fmt.Errorf(...) }`.
      The first failing helper ends the invocation; no later child is attempted. */
  function ReconcileChildren(children: seq<Child>, o: Oracle, trace: seq<Call>): (r: Step)
    decreases |children|
    ensures r.Continue? <==> NoErrors(o, |trace|, |trace| + |children|)
    ensures r.Continue? ==> r.trace == trace + Calls(children)
    ensures r.Stop? ==>
              var n := |r.out.trace| - |trace|;
              && 1 <= n <= |children|
              && r.out.trace == trace + Calls(children[..n])
              && NoErrors(o, |trace|, |r.out.trace| - 1)
              && o(|r.out.trace| - 1).err.Some?
              && r.out.err == Some(StepError(children[n - 1], o(|r.out.trace| - 1).err.value))
              && r.out.result == OrEmpty(o(|r.out.trace| - 1).res)
              && r.out.sleeps == 0
  {
    if children == [] then Continue(trace)
    else
      var a := o(|trace|);
      var t := trace + [ReconcileChild(children[0])];
      if a.err.Some? then
        Stop(Outcome(OrEmpty(a.res), Some(StepError(children[0], a.err.value)), t, 0))
      else
        var r := ReconcileChildren(children[1..], o, t);
        assert Calls(children) == [ReconcileChild(children[0])] + Calls(children[1..]);
        if r.Stop? then
          var n := |r.out.trace| - |t|;
          assert children[1..][..n] == children[1..n + 1];
          assert Calls(children[..n + 1]) == [ReconcileChild(children[0])] + Calls(children[1..n + 1]);
          r
        else r
  }

  /** `cr.Status.Ready = true; err = r.Status().Update(ctx, &cr)`, and the invocation returns
      `ctrl.Result{}` with the update's error, if any. The update is the invocation's last
      call, and the pair it returns is the one the last-answer rule gives for it. */
  function WriteReady(kind: Kind, o: Oracle, trace: seq<Call>): (r: Outcome)
    ensures r.trace == trace + [UpdateStatus(kind, Ready)] && r.sleeps == 0
    ensures r.err == Propagated(UpdateStatus(kind, Ready), o(|trace|))
    ensures r.result == Returned(UpdateStatus(kind, Ready), o(|trace|))
  {
    Outcome(Empty, o(|trace|).err, trace + [UpdateStatus(kind, Ready)], 0)
  }

  /** The invocation follows the fixed call sequence `schedule`: it issues a prefix of it,
      stops early only on a call that failed, and returns what the last call's answer
      decides. This is the whole behaviour of a reconciler without a wait loop. */
  ghost predicate StraightLine(schedule: seq<Call>, o: Oracle, r: Outcome)
  {
    && 1 <= |r.trace| <= |schedule|
    && r.trace == schedule[..|r.trace|]
    && (|r.trace| < |schedule| ==> o(|r.trace| - 1).err.Some?)
    && PropagatesLastAnswer(o, r)
    && r.sleeps == 0
  }

  /** A straight-line description leaves no choice: the oracle decides the outcome. */
  lemma StraightLineDeterministic(schedule: seq<Call>, o: Oracle, r1: Outcome, r2: Outcome)
    requires StraightLine(schedule, o, r1) && StraightLine(schedule, o, r2)
    ensures r1 == r2
  {
    var last1: nat, last2: nat := |r1.trace| - 1, |r2.trace| - 1;
    assert last1 < last2 ==> o(last1).err.None?;
    assert last2 < last1 ==> o(last2).err.None?;
  }

  /** In a straight-line invocation, the first failing call is the last call issued. */
  lemma StraightLineStopsAtFirstError(schedule: seq<Call>, o: Oracle, r: Outcome, k: nat)
    requires StraightLine(schedule, o, r)
    requires k < |schedule| && NoErrors(o, 0, k) && o(k).err.Some?
    ensures r.trace == schedule[..k + 1]
  {
    var last: nat := |r.trace| - 1;
    assert last < k ==> o(last).err.None?;
    assert last > k ==> o(k).err.None?;
  }

  /** In a straight-line invocation where no call fails, the whole schedule is issued. */
  lemma StraightLineCompletes(schedule: seq<Call>, o: Oracle, r: Outcome)
    requires StraightLine(schedule, o, r)
    requires NoErrors(o, 0, |schedule| - 1)
    ensures r.trace == schedule
  {
    var last: nat := |r.trace| - 1;
    assert last < |schedule| - 1 ==> o(last).err.None?;
  }
}
