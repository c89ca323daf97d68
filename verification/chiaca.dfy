/** `ChiaCAReconciler.Reconcile`: fetch the ChiaCA, reconcile the CA generator's
    ServiceAccount, Role and RoleBinding in that order, then look for the CA Secret. When
    it is absent, reconcile the generator Job and poll for the Secret at most 100 times,
    sleeping 10 seconds after each miss; the ChiaCA is marked Ready only when a poll finds
    the Secret. */
module CAController {
  import opened Kube
  import opened Dispatch

  /** The generator's RBAC objects, in the order the reconciler attempts them. */
  const Children: seq<Child> := [CAServiceAccount, CARole, CARoleBinding]

  /** The wait loop's bound: `for i := 1; i <= 100; i++`. */
  const MaxChecks: nat := 100

  /** The calls an invocation issues before the wait loop, in order. */
  const Prefix: seq<Call> :=
    [Fetch(ChiaCA), ReconcileChild(CAServiceAccount), ReconcileChild(CARole),
     ReconcileChild(CARoleBinding), QuerySecret, ReconcileChild(CAJob)]

  /** Oracle position of the first Secret query, of the Job reconcile, and of the wait
      loop's first poll. */
  const SecretCall: nat := 4
  const JobCall: nat := 5
  const FirstCheck: nat := 6

  /** `n` Secret queries in a row. */
  function Checks(n: nat): seq<Call>
  {
    seq(n, _ => QuerySecret)
  }

  /** A Secret query that succeeded and reported the Secret absent. */
  predicate Miss(a: Answer)
  {
    a.err.None? && a.notFound
  }

  /** A Secret query that succeeded and found the Secret. */
  predicate Hit(a: Answer)
  {
    a.err.None? && !a.notFound
  }

  /** The first oracle position in [lo, hi) whose Secret query does not miss, or `hi`
      when every one of them misses. */
  function FirstNonMiss(o: Oracle, lo: nat, hi: nat): (p: nat)
    requires lo <= hi
    decreases hi - lo
    ensures lo <= p <= hi
    ensures forall j :: lo <= j < p ==> Miss(o(j))
    ensures p < hi ==> !Miss(o(p))
  {
    if lo == hi then hi
    else if !Miss(o(lo)) then lo
    else FirstNonMiss(o, lo + 1, hi)
  }

  /** The wait loop from iteration `i` on: query the Secret; on an error return it; when
      found, write `Ready = true` and return the update's error; otherwise sleep and go on
      with iteration i + 1. After iteration 100 the loop falls through to
      `return ctrl.Result{}, nil`. The polls it issues are those up to the first one that
      does not miss, and it sleeps once per miss. */
  function WaitForSecret(o: Oracle, trace: seq<Call>, i: nat): (r: Outcome)
    requires 1 <= i <= MaxChecks + 1
    decreases MaxChecks + 1 - i
    ensures var lo := |trace|;
            var hi := lo + MaxChecks + 1 - i;
            var p := FirstNonMiss(o, lo, hi);
            && r.sleeps == p - lo
            && r.result == Empty
            && (p == hi ==> r.trace == trace + Checks(hi - lo) && r.err == None)
            && (p < hi && o(p).err.Some? ==>
                  r.trace == trace + Checks(p - lo + 1) && r.err == o(p).err)
            && (p < hi && Hit(o(p)) ==>
                  && r.trace == trace + Checks(p - lo + 1) + [UpdateStatus(ChiaCA, Ready)]
                  && r.err == o(p + 1).err)
  {
    if i == MaxChecks + 1 then
      assert trace + Checks(0) == trace;
      Outcome(Empty, None, trace, 0)
    else
      var a := o(|trace|);
      var t := trace + [QuerySecret];
      assert t == trace + Checks(1);
      if a.err.Some? then Outcome(Empty, a.err, t, 0)
      else if !a.notFound then WriteReady(ChiaCA, o, t)
      else
        var r := WaitForSecret(o, t, i + 1);
        var p := FirstNonMiss(o, |t|, |trace| + MaxChecks + 1 - i);
        assert t + Checks(p - |t|) == trace + Checks(p - |trace|);
        assert t + Checks(p - |t| + 1) == trace + Checks(p - |trace| + 1);
        r.(sleeps := r.sleeps + 1)
  }

  /** The wait loop as the source writes it, a counted loop over iterations 1 to 100. */
  method WaitLoop(o: Oracle, trace: seq<Call>) returns (r: Outcome)
    ensures r == WaitForSecret(o, trace, 1)
  {
    var t := trace;
    var sleeps := 0;
    for i := 1 to MaxChecks + 1
      invariant var w := WaitForSecret(o, t, i);
                WaitForSecret(o, trace, 1) == w.(sleeps := w.sleeps + sleeps)
    {
      var a := o(|t|);
      t := t + [QuerySecret];
      if a.err.Some? {
        return Outcome(Empty, a.err, t, sleeps);
      }
      if !a.notFound {
        var u := o(|t|);
        return Outcome(Empty, u.err, t + [UpdateStatus(ChiaCA, Ready)], sleeps);
      }
      sleeps := sleeps + 1;
    }
    return Outcome(Empty, None, t, sleeps);
  }

  /** The order calls can come in: a prefix of the calls before the loop, or all of them
      followed by 1 to 100 polls and possibly the status update. */
  ghost predicate Ordered(trace: seq<Call>)
  {
    || (1 <= |trace| <= |Prefix| && trace == Prefix[..|trace|])
    || (&& |trace| > |Prefix|
        && var updated := trace[|trace| - 1].UpdateStatus?;
           var k := |trace| - |Prefix| - (if updated then 1 else 0);
           && 1 <= k <= MaxChecks
           && trace == Prefix + Checks(k) + (if updated then [UpdateStatus(ChiaCA, Ready)] else []))
  }

  /** One invocation: fetch, RBAC children, Secret query, then (Secret absent) the Job and
      the wait loop. It starts with the fetch, issues at most 107 calls and sleeps at most
      100 times. Its complete description is `WellBehaved`; see `Characterization`. */
  function Reconcile(o: Oracle): (r: Outcome)
    ensures 1 <= |r.trace| <= |Prefix| + MaxChecks + 1 && r.trace[0] == Fetch(ChiaCA)
    ensures r.sleeps <= MaxChecks
  {
    var get := o(0);
    var t := [Fetch(ChiaCA)];
    if get.err.Some? && IsNotFound(get.err.value) then Outcome(Empty, None, t, 0)
    else if get.err.Some? then Outcome(Empty, get.err, t, 0)
    else
      match ReconcileChildren(Children, o, t)
      case Stop(out) => out
      case Continue(t1) =>
        var q := o(|t1|);
        var t2 := t1 + [QuerySecret];
        if q.err.Some? then Outcome(Empty, q.err, t2, 0)
        else if !q.notFound then Outcome(Empty, None, t2, 0)
        else
          match ReconcileChildren([CAJob], o, t2)
          case Stop(out) => out
          case Continue(t3) => WaitForSecret(o, t3, 1)
  }

  /** Every call before the wait loop succeeded and the first Secret query found no
      Secret, so the generator Job was reconciled. */
  ghost predicate JobReconciled(o: Oracle)
  {
    NoErrors(o, 0, FirstCheck) && o(SecretCall).notFound
  }

  /** Oracle position of the wait loop's first poll that does not miss, or the position
      just past the 100th poll. */
  function Settle(o: Oracle): nat
  {
    FirstNonMiss(o, FirstCheck, FirstCheck + MaxChecks)
  }

  /** The wait loop was entered and one of its polls found the Secret. */
  ghost predicate SecretAppears(o: Oracle)
  {
    JobReconciled(o) && Settle(o) < FirstCheck + MaxChecks && Hit(o(Settle(o)))
  }

  /** Every call up to the first poll that does not miss came back without an error. */
  lemma PollsSucceeded(o: Oracle)
    requires JobReconciled(o)
    ensures NoErrors(o, 0, Settle(o))
  {
  }

  /** All 100 polls miss: the loop issues them all, sleeps after each, and falls through
      with no error. */
  lemma PollsExhausted(o: Oracle)
    requires JobReconciled(o) && Settle(o) == FirstCheck + MaxChecks
    ensures var r := WaitForSecret(o, Prefix, 1);
            && r == Outcome(Empty, None, Prefix + Checks(MaxChecks), MaxChecks)
            && PropagatesLastAnswer(o, r)
            && (forall i :: 0 <= i < |r.trace| ==> !r.trace[i].UpdateStatus?)
  {
    PollTrace(MaxChecks);
    var last := FirstCheck + MaxChecks - 1;
    PollsSucceeded(o);
    var r := WaitForSecret(o, Prefix, 1);
    assert r.trace[last] == QuerySecret;
    assert Propagated(QuerySecret, o(last)) == None;
  }

  /** The first poll that does not miss fails: its error ends the invocation. */
  lemma PollFails(o: Oracle)
    requires JobReconciled(o) && Settle(o) < FirstCheck + MaxChecks && o(Settle(o)).err.Some?
    ensures var p := Settle(o);
            var r := WaitForSecret(o, Prefix, 1);
            && r == Outcome(Empty, o(p).err, Prefix + Checks(p - FirstCheck + 1), p - FirstCheck)
            && PropagatesLastAnswer(o, r)
            && (forall i :: 0 <= i < |r.trace| ==> !r.trace[i].UpdateStatus?)
  {
    PollTrace(Settle(o) - FirstCheck + 1);
    var p := Settle(o);
    PollsSucceeded(o);
    var r := WaitForSecret(o, Prefix, 1);
    assert r.trace[p] == QuerySecret;
    assert Propagated(QuerySecret, o(p)) == o(p).err;
  }

  /** The first poll that does not miss finds the Secret: `Ready = true` is written once,
      as the last call, and the update's error is returned. */
  lemma PollFinds(o: Oracle)
    requires SecretAppears(o)
    ensures var p := Settle(o);
            var r := WaitForSecret(o, Prefix, 1);
            && r == Outcome(Empty, o(p + 1).err,
                            Prefix + Checks(p - FirstCheck + 1) + [UpdateStatus(ChiaCA, Ready)],
                            p - FirstCheck)
            && PropagatesLastAnswer(o, r)
  {
    var p := Settle(o);
    PollsSucceeded(o);
    var r := WaitForSecret(o, Prefix, 1);
    assert |r.trace| == p + 2;
    assert r.trace[p + 1] == UpdateStatus(ChiaCA, Ready);
    assert NoErrors(o, 0, p + 1);
  }

  /** The misses of the wait loop from position `j` on are those in [j, m): every poll
      there missed, and nothing at or after `m` is a poll that missed. */
  lemma {:induction false} LoopMissesCount(o: Oracle, trace: seq<Call>, j: nat, m: nat)
    requires j <= m <= |trace|
    requires forall i :: j <= i < m ==> trace[i] == QuerySecret && Miss(o(i))
    requires forall i :: m <= i < |trace| ==> !(trace[i] == QuerySecret && Miss(o(i)))
    ensures LoopMisses(o, trace, j) == m - j
    decreases |trace| - j
  {
    if j < |trace| {
      LoopMissesCount(o, trace, j + 1, if j < m then m else j + 1);
    }
  }

  /** After the calls before the loop and `k` polls, every query the invocation went on
      from missed: the first query let the Job run and each earlier poll led to another. */
  lemma PollsDecide(o: Oracle, k: nat)
    requires 1 <= k <= MaxChecks && o(SecretCall).notFound
    requires forall j :: FirstCheck <= j < FirstCheck + k - 1 ==> Miss(o(j))
    ensures QueriesDecide(o, Prefix + Checks(k))
  {
    var t := Prefix + Checks(k);
    PollTrace(k);
    assert t[SecretCall + 1] == ReconcileChild(CAJob);
    assert forall i :: 0 <= i < FirstCheck && t[i] == QuerySecret ==> i == SecretCall;
  }

  /** When poll k found the Secret, the status update that follows it is what that query
      decided, and the earlier queries decide as in `PollsDecide`. */
  lemma FoundDecides(o: Oracle, k: nat)
    requires 1 <= k <= MaxChecks && o(SecretCall).notFound
    requires forall j :: FirstCheck <= j < FirstCheck + k - 1 ==> Miss(o(j))
    requires Hit(o(FirstCheck + k - 1))
    ensures QueriesDecide(o, Prefix + Checks(k) + [UpdateStatus(ChiaCA, Ready)])
  {
    var s := Prefix + Checks(k);
    var t := s + [UpdateStatus(ChiaCA, Ready)];
    PollsDecide(o, k);
    PollTrace(k);
    assert forall i :: 0 <= i < |s| ==> t[i] == s[i];
    assert t[|s|] == UpdateStatus(ChiaCA, Ready);
  }

  /** The calls before the loop followed by 1 to 100 polls come in the source's order. */
  lemma PollsOrdered(k: nat)
    requires 1 <= k <= MaxChecks
    ensures Ordered(Prefix + Checks(k))
  {
    PollTrace(k);
    var t := Prefix + Checks(k);
    assert t + [] == t;
  }

  /** So do they when the status update follows the last poll. */
  lemma FoundOrdered(k: nat)
    requires 1 <= k <= MaxChecks
    ensures Ordered(Prefix + Checks(k) + [UpdateStatus(ChiaCA, Ready)])
  {
  }

  /** All 100 polls missed: each one decided to go on, the 100th is a place the source
      returns after, and the loop slept after every one of them. */
  lemma ExhaustedRules(o: Oracle)
    requires JobReconciled(o) && Settle(o) == FirstCheck + MaxChecks
    ensures WellBehaved(o, WaitForSecret(o, Prefix, 1))
  {
    PollsExhausted(o);
    PollTrace(MaxChecks);
    var t := Prefix + Checks(MaxChecks);
    PollsDecide(o, MaxChecks);
    PollsOrdered(MaxChecks);
    LoopMissesCount(o, t, FirstCheck, |t|);
  }

  /** The first poll that does not miss failed: the polls before it went on, it is a place
      the source returns after, and the loop slept after each earlier poll. */
  lemma FailsRules(o: Oracle)
    requires JobReconciled(o) && Settle(o) < FirstCheck + MaxChecks && o(Settle(o)).err.Some?
    ensures WellBehaved(o, WaitForSecret(o, Prefix, 1))
  {
    var p := Settle(o);
    PollFails(o);
    PollTrace(p - FirstCheck + 1);
    var t := Prefix + Checks(p - FirstCheck + 1);
    PollsDecide(o, p - FirstCheck + 1);
    PollsOrdered(p - FirstCheck + 1);
    LoopMissesCount(o, t, FirstCheck, p);
  }

  /** The first poll that does not miss found the Secret: the misses before it went on to
      another poll, it went on to the status update, and the loop slept after each miss. */
  lemma FindsRules(o: Oracle)
    requires SecretAppears(o)
    ensures WellBehaved(o, WaitForSecret(o, Prefix, 1))
  {
    var p := Settle(o);
    PollFinds(o);
    FoundTrace(p - FirstCheck + 1);
    PollTrace(p - FirstCheck + 1);
    var t := Prefix + Checks(p - FirstCheck + 1) + [UpdateStatus(ChiaCA, Ready)];
    FoundDecides(o, p - FirstCheck + 1);
    assert forall i :: FirstCheck <= i < p ==> t[i] == QuerySecret;
    FoundOrdered(p - FirstCheck + 1);
    LoopMissesCount(o, t, FirstCheck, p);
  }

  /** Once the Job is reconciled, the wait loop keeps every guarantee of the invocation. */
  lemma WaitWellBehaved(o: Oracle)
    requires JobReconciled(o)
    ensures WellBehaved(o, WaitForSecret(o, Prefix, 1))
  {
    var p := Settle(o);
    if p == FirstCheck + MaxChecks {
      ExhaustedRules(o);
    } else if o(p).err.Some? {
      FailsRules(o);
    } else {
      FindsRules(o);
    }
  }

  /** The calls before the loop, `k` polls and the status update: the update is the last
      call and the only one. */
  lemma FoundTrace(k: nat)
    ensures var t := Prefix + Checks(k) + [UpdateStatus(ChiaCA, Ready)];
            && t[|t| - 1] == UpdateStatus(ChiaCA, Ready)
            && (forall i :: 0 <= i < |t| - 1 ==> !t[i].UpdateStatus?)
  {
    PollTrace(k);
    var t := Prefix + Checks(k) + [UpdateStatus(ChiaCA, Ready)];
    assert forall i :: 0 <= i < |t| - 1 ==> t[i] == (Prefix + Checks(k))[i];
  }

  /** The calls before the loop followed by `k` polls, position by position. */
  lemma PollTrace(k: nat)
    ensures |Prefix + Checks(k)| == FirstCheck + k
    ensures (Prefix + Checks(k))[..|Prefix|] == Prefix
    ensures forall j :: FirstCheck <= j < FirstCheck + k ==> (Prefix + Checks(k))[j] == QuerySecret
    ensures forall j :: 0 <= j < |Prefix + Checks(k)| ==> !(Prefix + Checks(k))[j].UpdateStatus?
  {
    assert forall j :: 0 <= j < |Prefix| ==> !Prefix[j].UpdateStatus?;
  }

  /** A ChiaCA that no longer exists ends the invocation cleanly, with nothing else attempted. */
  lemma DeletedCAIsIgnored(o: Oracle)
    requires o(0).err.Some? && IsNotFound(o(0).err.value)
    ensures Reconcile(o) == Outcome(Empty, None, [Fetch(ChiaCA)], 0)
    ensures WellBehaved(o, Reconcile(o))
  {
    StopBeforeLoop(o, Reconcile(o), 1);
  }

  /** Any other fetch error is returned unchanged, with nothing else attempted. */
  lemma FetchErrorReturned(o: Oracle)
    requires o(0).err.Some? && !IsNotFound(o(0).err.value)
    ensures Reconcile(o) == Outcome(Empty, o(0).err, [Fetch(ChiaCA)], 0)
    ensures WellBehaved(o, Reconcile(o))
  {
    StopBeforeLoop(o, Reconcile(o), 1);
  }

  /** When the k-th RBAC child (0-based) is the first call to fail, nothing after it is
      attempted (no later child, no Secret query, no Job, no status update), and the
      helper's error is returned with the child's identity and the helper's own result. */
  lemma ChildFailureAborts(o: Oracle, k: nat)
    requires k < |Children|
    requires NoErrors(o, 0, k + 1) && o(k + 1).err.Some?
    ensures Reconcile(o) ==
              Outcome(OrEmpty(o(k + 1).res), Some(StepError(Children[k], o(k + 1).err.value)),
                      Prefix[..k + 2], 0)
    ensures WellBehaved(o, Reconcile(o))
  {
    assert [Fetch(ChiaCA)] + Calls(Children[..k + 1]) == Prefix[..k + 2];
    StopBeforeLoop(o, Reconcile(o), k + 2);
  }

  /** The RBAC children all succeeded: the Secret query is the next call. */
  lemma ChildrenSucceed(o: Oracle)
    requires NoErrors(o, 0, SecretCall)
    ensures ReconcileChildren(Children, o, [Fetch(ChiaCA)]) == Continue(Prefix[..SecretCall])
  {
    assert [Fetch(ChiaCA)] + Calls(Children) == Prefix[..SecretCall];
  }

  /** A failing Secret query before the Job is returned as it came. */
  lemma SecretQueryFails(o: Oracle)
    requires NoErrors(o, 0, SecretCall) && o(SecretCall).err.Some?
    ensures Reconcile(o) == Outcome(Empty, o(SecretCall).err, Prefix[..SecretCall + 1], 0)
    ensures WellBehaved(o, Reconcile(o))
  {
    ChildrenSucceed(o);
    StopBeforeLoop(o, Reconcile(o), SecretCall + 1);
  }

  /** A CA Secret that already exists ends the invocation with `(ctrl.Result{}, nil)`: no
      Job, no wait, and no status update, so `Ready` is not written on this path. */
  lemma SecretAlreadyExists(o: Oracle)
    requires NoErrors(o, 0, SecretCall + 1) && !o(SecretCall).notFound
    ensures Reconcile(o) == Outcome(Empty, None, Prefix[..SecretCall + 1], 0)
    ensures ReconcileChild(CAJob) !in Reconcile(o).trace
    ensures UpdateStatus(ChiaCA, Ready) !in Reconcile(o).trace
    ensures WellBehaved(o, Reconcile(o))
  {
    ChildrenSucceed(o);
    StopBeforeLoop(o, Reconcile(o), SecretCall + 1);
  }

  /** A failing Job reconcile is reported like any other child's, and nothing is polled. */
  lemma JobFailureAborts(o: Oracle)
    requires NoErrors(o, 0, JobCall) && o(SecretCall).notFound && o(JobCall).err.Some?
    ensures Reconcile(o) ==
              Outcome(OrEmpty(o(JobCall).res), Some(StepError(CAJob, o(JobCall).err.value)), Prefix, 0)
    ensures WellBehaved(o, Reconcile(o))
  {
    ChildrenSucceed(o);
    var r := Reconcile(o);
    assert Prefix[..SecretCall] + [QuerySecret] + Calls([CAJob]) == Prefix;
    assert r.trace == Prefix;
    assert Propagated(ReconcileChild(CAJob), o(JobCall)) == r.err;
    StopBeforeLoop(o, r, JobCall + 1);
  }

  /** Once the Job is reconciled, the invocation is the wait loop started after the calls
      before it. */
  lemma JobReconciledThenWait(o: Oracle)
    requires JobReconciled(o)
    ensures Reconcile(o) == WaitForSecret(o, Prefix, 1)
    ensures WellBehaved(o, Reconcile(o))
  {
    ChildrenSucceed(o);
    assert Prefix[..SecretCall] + [QuerySecret] + Calls([CAJob]) == Prefix;
    WaitWellBehaved(o);
  }

  /** After every Secret query the invocation went on from, the next call is the status
      update exactly when that query found the Secret. */
  ghost predicate QueriesDecide(o: Oracle, trace: seq<Call>)
  {
    forall i :: 0 <= i < |trace| - 1 && trace[i] == QuerySecret ==>
      (trace[i + 1].UpdateStatus? <==> !o(i).notFound)
  }

  /** Call `c` at oracle position `m` is one the source returns after: it failed, it is
      the status update, it is the first Secret query and found the Secret, or it is the
      100th poll and missed. */
  ghost predicate StopPoint(o: Oracle, m: nat, c: Call)
  {
    || o(m).err.Some?
    || c.UpdateStatus?
    || (m == SecretCall && !o(m).notFound)
    || (m == FirstCheck + MaxChecks - 1 && c == QuerySecret && o(m).notFound)
  }

  /** The invocation stops only where the source returns. */
  ghost predicate StopsOnlyWhen(o: Oracle, trace: seq<Call>)
  {
    |trace| >= 1 ==> StopPoint(o, |trace| - 1, trace[|trace| - 1])
  }

  /** How many polls of the wait loop, from oracle position `j` on, missed: one
      `time.Sleep` follows each of them. */
  function LoopMisses(o: Oracle, trace: seq<Call>, j: nat): nat
    decreases |trace| - j
  {
    if j >= |trace| then 0
    else (if trace[j] == QuerySecret && Miss(o(j)) then 1 else 0) + LoopMisses(o, trace, j + 1)
  }

  /** The whole behaviour of one invocation: only its last call may have failed and it
      alone decides the returned pair; its calls come in the order of the source; every
      Secret query it went on from decided whether `Ready` is written next; it stops only
      where the source returns; and it sleeps once after every poll that missed, which is
      at most 100 times. */
  ghost predicate WellBehaved(o: Oracle, r: Outcome)
  {
    && PropagatesLastAnswer(o, r)
    && Ordered(r.trace)
    && QueriesDecide(o, r.trace)
    && StopsOnlyWhen(o, r.trace)
    && r.sleeps == LoopMisses(o, r.trace, FirstCheck)
    && r.sleeps <= MaxChecks
    && |r.trace| <= |Prefix| + MaxChecks + 1
  }

  /** An invocation that stops after the n-th call before the loop. */
  lemma StopBeforeLoop(o: Oracle, r: Outcome, n: nat)
    requires 1 <= n <= |Prefix| && r.trace == Prefix[..n] && r.sleeps == 0
    requires NoErrors(o, 0, n - 1)
    requires r.err == Propagated(Prefix[n - 1], o(n - 1))
    requires r.result == Returned(Prefix[n - 1], o(n - 1))
    requires n - 1 > SecretCall ==> o(SecretCall).notFound
    requires StopsOnlyWhen(o, Prefix[..n])
    ensures WellBehaved(o, r)
  {
  }

  /** Every invocation keeps `WellBehaved`: it issues its calls in the order of the source,
      goes on from a Secret query to the status update exactly when the query found the
      Secret, stops only where the source returns, returns what its last call's answer
      decides, and sleeps once after every poll that missed, at most 100 times. */
  lemma ReconcileWellBehaved(o: Oracle)
    ensures WellBehaved(o, Reconcile(o))
  {
    if o(0).err.Some? && IsNotFound(o(0).err.value) {
      DeletedCAIsIgnored(o);
    } else if o(0).err.Some? {
      FetchErrorReturned(o);
    } else if o(1).err.Some? {
      ChildFailureAborts(o, 0);
    } else if o(2).err.Some? {
      ChildFailureAborts(o, 1);
    } else if o(3).err.Some? {
      ChildFailureAborts(o, 2);
    } else if o(SecretCall).err.Some? {
      SecretQueryFails(o);
    } else if !o(SecretCall).notFound {
      SecretAlreadyExists(o);
    } else if o(JobCall).err.Some? {
      JobFailureAborts(o);
    } else {
      JobReconciledThenWait(o);
    }
  }

  /** `Ordered`, position by position: the calls before the loop come first, then polls,
      and a status update can only be the last call, right after a poll. */
  lemma OrderedFacts(trace: seq<Call>)
    requires Ordered(trace)
    ensures 1 <= |trace| <= |Prefix| + MaxChecks + 1
    ensures forall i :: 0 <= i < |trace| && i < |Prefix| ==> trace[i] == Prefix[i]
    ensures forall i :: |Prefix| <= i < |trace| - 1 ==> trace[i] == QuerySecret
    ensures |trace| > |Prefix| ==>
              || trace[|trace| - 1] == QuerySecret
              || (&& trace[|trace| - 1] == UpdateStatus(ChiaCA, Ready)
                  && |trace| >= |Prefix| + 2 && trace[|trace| - 2] == QuerySecret)
    ensures |trace| == |Prefix| + MaxChecks + 1 ==> trace[|trace| - 1].UpdateStatus?
  {
    if |trace| > |Prefix| {
      var updated := trace[|trace| - 1].UpdateStatus?;
      var k := |trace| - |Prefix| - (if updated then 1 else 0);
      PollTrace(k);
      var s := Prefix + Checks(k);
      assert forall i :: 0 <= i < |s| ==> trace[i] == s[i];
    }
  }

  /** A well-behaved invocation does not go on from a call the source returns after. */
  lemma NoStopBeforeEnd(o: Oracle, r: Outcome, m: nat)
    requires WellBehaved(o, r)
    ensures m < |r.trace| - 1 ==> !StopPoint(o, m, r.trace[m])
  {
    var t := r.trace;
    OrderedFacts(t);
    if m < |t| - 1 {
      assert o(m).err.None?;
      if m < |Prefix| {
        assert t[m] == Prefix[m];
      }
      if m == SecretCall {
        assert t[m] == QuerySecret && t[m + 1] == ReconcileChild(CAJob);
      }
      if m == FirstCheck + MaxChecks - 1 {
        assert t[m] == QuerySecret && t[m + 1].UpdateStatus?;
      }
    }
  }

  /** A poll a well-behaved invocation went on from to another call that is not the
      status update reported the Secret absent; a poll followed by the update found it. */
  lemma PollDecided(o: Oracle, r: Outcome, m: nat)
    requires WellBehaved(o, r)
    ensures 1 <= m < |r.trace| && r.trace[m - 1] == QuerySecret ==>
              (o(m - 1).notFound <==> !r.trace[m].UpdateStatus?)
  {
  }

  /** Two well-behaved outcomes of the same oracle stop at the same call: where the
      shorter one stops, the source would have stopped the longer one too. */
  lemma SameLength(o: Oracle, r1: Outcome, r2: Outcome)
    requires WellBehaved(o, r1) && WellBehaved(o, r2)
    ensures |r1.trace| >= |r2.trace|
  {
    var t1, t2 := r1.trace, r2.trace;
    OrderedFacts(t1);
    OrderedFacts(t2);
    var m: nat := |t1| - 1;
    NoStopBeforeEnd(o, r2, m);
    PollDecided(o, r1, m);
    PollDecided(o, r2, m);
  }

  /** Two well-behaved outcomes of the same oracle issue the same calls. */
  lemma SameTrace(o: Oracle, r1: Outcome, r2: Outcome)
    requires WellBehaved(o, r1) && WellBehaved(o, r2)
    ensures r1.trace == r2.trace
  {
    SameLength(o, r1, r2);
    SameLength(o, r2, r1);
    var t1, t2 := r1.trace, r2.trace;
    OrderedFacts(t1);
    OrderedFacts(t2);
    assert forall i :: 0 <= i < |t1| ==> t1[i] == t2[i];
  }

  /** The guarantees leave no choice: the oracle decides the outcome. */
  lemma WellBehavedUnique(o: Oracle, r1: Outcome, r2: Outcome)
    requires WellBehaved(o, r1) && WellBehaved(o, r2)
    ensures r1 == r2
  {
    SameTrace(o, r1, r2);
  }

  /** `WellBehaved` is the exact description of the CA reconciler: an outcome satisfies it
      exactly when it is the one Reconcile returns. */
  lemma Characterization(o: Oracle, r: Outcome)
    ensures WellBehaved(o, r) <==> r == Reconcile(o)
  {
    ReconcileWellBehaved(o);
    if WellBehaved(o, r) {
      WellBehavedUnique(o, r, Reconcile(o));
    }
  }

  /** The generator Job is reconciled exactly when the fetch and the RBAC children
      succeeded and the first Secret query succeeded and reported the Secret absent. */
  lemma JobOnlyWhenSecretAbsent(o: Oracle)
    ensures ReconcileChild(CAJob) in Reconcile(o).trace <==>
              NoErrors(o, 0, JobCall) && o(SecretCall).notFound
  {
    ReconcileWellBehaved(o);
    OrderedFacts(Reconcile(o).trace);
  }

  /** The first poll that does not miss is the one after all the misses. */
  lemma FirstNonMissIs(o: Oracle, lo: nat, hi: nat, p: nat)
    requires lo <= p <= hi
    requires forall j :: lo <= j < p ==> Miss(o(j))
    requires p < hi ==> !Miss(o(p))
    ensures FirstNonMiss(o, lo, hi) == p
  {
  }

  /** A Secret found on poll k (1-based) means exactly k polls, k - 1 sleeps, and one
      status update with `Ready = true`, whose error is returned. */
  lemma SecretFoundOnCheck(o: Oracle, k: nat)
    requires JobReconciled(o) && 1 <= k <= MaxChecks
    requires forall j :: FirstCheck <= j < FirstCheck + k - 1 ==> Miss(o(j))
    requires Hit(o(FirstCheck + k - 1))
    ensures Reconcile(o) ==
              Outcome(Empty, o(FirstCheck + k).err,
                      Prefix + Checks(k) + [UpdateStatus(ChiaCA, Ready)], k - 1)
  {
    FirstNonMissIs(o, FirstCheck, FirstCheck + MaxChecks, FirstCheck + k - 1);
    JobReconciledThenWait(o);
    PollFinds(o);
  }

  /** A Secret query that fails on poll k (1-based) ends the invocation with its error
      after exactly k polls; `Ready` is not written. */
  lemma PollErrorOnCheck(o: Oracle, k: nat)
    requires JobReconciled(o) && 1 <= k <= MaxChecks
    requires forall j :: FirstCheck <= j < FirstCheck + k - 1 ==> Miss(o(j))
    requires o(FirstCheck + k - 1).err.Some?
    ensures Reconcile(o) == Outcome(Empty, o(FirstCheck + k - 1).err, Prefix + Checks(k), k - 1)
  {
    FirstNonMissIs(o, FirstCheck, FirstCheck + MaxChecks, FirstCheck + k - 1);
    JobReconciledThenWait(o);
    PollFails(o);
  }

  /** When all 100 polls miss, the invocation returns `(ctrl.Result{}, nil)` after 100
      polls and 100 sleeps, without writing `Ready` and without asking for a requeue. */
  lemma WaitExhausted(o: Oracle)
    requires JobReconciled(o)
    requires forall j :: FirstCheck <= j < FirstCheck + MaxChecks ==> Miss(o(j))
    ensures Reconcile(o) == Outcome(Empty, None, Prefix + Checks(MaxChecks), MaxChecks)
    ensures UpdateStatus(ChiaCA, Ready) !in Reconcile(o).trace
  {
    FirstNonMissIs(o, FirstCheck, FirstCheck + MaxChecks, FirstCheck + MaxChecks);
    JobReconciledThenWait(o);
    PollsExhausted(o);
    PollTrace(MaxChecks);
  }

  /** An invocation that does not reconcile the Job stops within the calls before the loop. */
  lemma StopsBeforeLoop(o: Oracle)
    requires !JobReconciled(o)
    ensures var r := Reconcile(o);
            1 <= |r.trace| <= |Prefix| && r.trace == Prefix[..|r.trace|]
  {
    if o(0).err.Some? && IsNotFound(o(0).err.value) {
      DeletedCAIsIgnored(o);
    } else if o(0).err.Some? {
      FetchErrorReturned(o);
    } else if o(1).err.Some? {
      ChildFailureAborts(o, 0);
    } else if o(2).err.Some? {
      ChildFailureAborts(o, 1);
    } else if o(3).err.Some? {
      ChildFailureAborts(o, 2);
    } else if o(SecretCall).err.Some? {
      SecretQueryFails(o);
    } else if !o(SecretCall).notFound {
      SecretAlreadyExists(o);
    } else {
      JobFailureAborts(o);
    }
  }

  /** `Ready = true` is written, once and as the last call, exactly when the Job was
      reconciled and a poll of the wait loop found the Secret. */
  lemma ReadyIffSecretFound(o: Oracle)
    ensures var r := Reconcile(o);
            && (UpdateStatus(ChiaCA, Ready) in r.trace <==> SecretAppears(o))
            && (forall i :: 0 <= i < |r.trace| - 1 ==> !r.trace[i].UpdateStatus?)
  {
    if SecretAppears(o) {
      ReadyWrittenWhenFound(o);
    } else if JobReconciled(o) && Settle(o) == FirstCheck + MaxChecks {
      ReadyNotWrittenWhenExhausted(o);
    } else if JobReconciled(o) {
      ReadyNotWrittenOnPollError(o);
    } else {
      StopsBeforeLoop(o);
      var n := |Reconcile(o).trace|;
      assert forall j :: 0 <= j < |Prefix| ==> !Prefix[j].UpdateStatus?;
      assert forall j :: 0 <= j < n ==> Reconcile(o).trace[j] == Prefix[j];
    }
  }

  /** All polls miss: `Ready` is never written. */
  lemma ReadyNotWrittenWhenExhausted(o: Oracle)
    requires JobReconciled(o) && Settle(o) == FirstCheck + MaxChecks
    ensures var r := Reconcile(o);
            && UpdateStatus(ChiaCA, Ready) !in r.trace && !SecretAppears(o)
            && (forall i :: 0 <= i < |r.trace| ==> !r.trace[i].UpdateStatus?)
  {
    JobReconciledThenWait(o);
    PollsExhausted(o);
  }

  /** A poll fails before any poll finds the Secret: `Ready` is never written. */
  lemma ReadyNotWrittenOnPollError(o: Oracle)
    requires JobReconciled(o) && Settle(o) < FirstCheck + MaxChecks && o(Settle(o)).err.Some?
    ensures var r := Reconcile(o);
            && UpdateStatus(ChiaCA, Ready) !in r.trace && !SecretAppears(o)
            && (forall i :: 0 <= i < |r.trace| ==> !r.trace[i].UpdateStatus?)
  {
    JobReconciledThenWait(o);
    PollFails(o);
  }

  /** A poll finds the Secret: `Ready` is written once, as the last call. */
  lemma ReadyWrittenWhenFound(o: Oracle)
    requires SecretAppears(o)
    ensures var r := Reconcile(o);
            && UpdateStatus(ChiaCA, Ready) in r.trace
            && (forall i :: 0 <= i < |r.trace| - 1 ==> !r.trace[i].UpdateStatus?)
  {
    JobReconciledThenWait(o);
    PollFinds(o);
    FoundTrace(Settle(o) - FirstCheck + 1);
  }
}
