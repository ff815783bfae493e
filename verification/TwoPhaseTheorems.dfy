/** What the two-phase commit protocol guarantees over every run. */
module TwoPhaseTheorems {
  import opened TwoPhaseProtocol

  predicate Joins(w: World, x: Xid, p: Name) {
    x in w && p in w[x].row.participants
  }

  function BranchIn(w: World, x: Xid, p: Name): Branch
    requires x in w
  {
    At(w[x].branches, p)
  }

  /** No run ever shows one branch committed and another one rolled back, abandoned or not yet
      prepared: as soon as one branch is committed, every branch is committed or can still be. */
  lemma Atomicity(run: seq<World>, k: nat, x: Xid, p: Name, q: Name)
    requires IsRun(run) && k < |run| && Joins(run[k], x, p) && Joins(run[k], x, q)
    ensures BranchIn(run[k], x, p).Committed? ==> BranchIn(run[k], x, q).Prepared? || BranchIn(run[k], x, q).Committed?
    ensures BranchIn(run[k], x, p).RolledBack? ==> !BranchIn(run[k], x, q).Committed?
  {
    InvHoldsThroughout(run, k);
    var t := run[k][x];
    var i :| 0 <= i < |t.row.participants| && t.row.participants[i] == p;
    var j :| 0 <= j < |t.row.participants| && t.row.participants[j] == q;
    assert BranchOf(t, i) == BranchIn(run[k], x, p) && BranchOf(t, j) == BranchIn(run[k], x, q);
  }

  /** The durable row describes the branches at every moment of every run, and its decision
      column is a function of its status. */
  lemma LogTellsTheTruth(run: seq<World>, k: nat, x: Xid)
    requires IsRun(run) && k < |run| && x in run[k]
    ensures LogDescribesBranches(run[k][x])
    ensures run[k][x].row.decision == DecisionOf(run[k][x].row.status)
  {
    InvHoldsThroughout(run, k);
  }

  /** The recovery arm for a `prepared` row with a rollback decision is unreachable, and the
      `xa_recover` cross-check is made exactly for the rows that recovery commits. */
  lemma PreparedRollbackArmIsDead(run: seq<World>, k: nat, x: Xid)
    requires IsRun(run) && k < |run| && x in run[k]
    ensures !(run[k][x].row.status.LogPrepared? && run[k][x].row.decision.Rollback?)
    ensures ShouldCommit(run[k][x].row) <==> CrossCheck(run[k][x].row)
    ensures !run[k][x].pc.UnwindCheck?
  {
    InvHoldsThroughout(run, k);
  }

  /** Treating "unknown xid" as success is sound: a COMMIT is only issued to a branch that is
      prepared or already committed, so a reported success means committed; a ROLLBACK is never
      issued to a committed branch, so a reported success means it can no longer commit. */
  lemma UnknownXidIsSound(run: seq<World>, k: nat, x: Xid, after: Branch)
    requires IsRun(run) && k < |run| && x in run[k]
    requires Pending(run[k][x].row, run[k][x].pc).Call?
    ensures var action := Pending(run[k][x].row, run[k][x].pc);
            var before := BranchIn(run[k], x, action.p);
            && (action.cmd.XaCommit? ==> before.Prepared? || before.Committed?)
            && (action.cmd.XaRollback? ==> !before.Committed?)
            && (action.cmd.XaCommit? && Serves(XaCommit, before, after, true) ==> after.Committed?)
            && (action.cmd.XaRollback? && Serves(XaRollback, before, after, true) ==>
                after.RolledBack? || after.Absent?)
  {
    InvHoldsThroughout(run, k);
    var t := run[k][x];
    var p := Pending(t.row, t.pc).p;
    var i :| 0 <= i < |t.row.participants| && t.row.participants[i] == p;
    assert BranchOf(t, i) == BranchIn(run[k], x, p);
    match t.pc
    case UnwindRollback(left, _) => assert BranchOf(t, left - 1) == At(t.branches, p);
    case CleanRollback(c) => assert BranchOf(t, c) == At(t.branches, p);
    case _ =>
  }

  // ---- decisions are irreversible ---------------------------------------------------------

  predicate CommitSide(s: Status) {
    s.LogPrepared? || s.LogCommitting? || s.LogCommitted?
  }

  predicate RollbackSide(s: Status) {
    s.LogRollingBack? || s.LogRolledBack?
  }

  /** How far `t'` may be from `t`: the side, the outcome and finished branches are kept. */
  ghost predicate Later(t: Tx, t': Tx) {
    && t'.row.participants == t.row.participants
    && (CommitSide(t.row.status) ==> CommitSide(t'.row.status))
    && (RollbackSide(t.row.status) ==> RollbackSide(t'.row.status))
    && (t.row.status.LogCommitting? ==> !t'.row.status.LogPrepared?)
    && (!Recoverable(t.row) ==> t'.row == t.row)
    && (forall p :: At(t.branches, p).Committed? ==> At(t'.branches, p).Committed?)
    && (forall p :: At(t.branches, p).RolledBack? ==> At(t'.branches, p).RolledBack?)
    && (forall p :: At(t.branches, p).Prepared? ==> !Open(At(t'.branches, p)))
    && (forall p :: At(t'.branches, p).Absent? ==> At(t.branches, p).Absent?)
  }

  lemma ActsGoesForward(t: Tx, t': Tx)
    requires TxInv(t) && Acts(t, t')
    ensures Later(t, t')
  {
    forall p
      ensures At(t.branches, p).Committed? ==> At(t'.branches, p).Committed?
      ensures At(t.branches, p).RolledBack? ==> At(t'.branches, p).RolledBack?
      ensures At(t.branches, p).Prepared? ==> !Open(At(t'.branches, p))
      ensures At(t'.branches, p).Absent? ==> At(t.branches, p).Absent?
    {
    }
  }

  lemma TxStepGoesForward(t: Tx, t': Tx)
    requires TxInv(t) && TxStep(t, t')
    ensures Later(t, t')
  {
    if Acts(t, t') {
      ActsGoesForward(t, t');
    } else if Drops(t, t') && t' != t.(pc := Idle) {
      var pc :| Acts(t, t'.(pc := pc));
      ActsGoesForward(t, t'.(pc := pc));
    }
  }

  lemma TxNextGoesForward(t: Tx, t': Tx)
    requires TxInv(t) && TxNext(t, t')
    ensures Later(t, t')
  {
    hide TxInv, Acts;
    if TxStep(t, t') {
      TxStepGoesForward(t, t');
    }
  }

  lemma StepProjects(w: World, w': World, x: Xid)
    requires Next(w, w') && x in w && x in w' && w'[x] != w[x]
    ensures TxNext(w[x], w'[x])
  {
    hide TxStep, Crashes, Rescans;
  }

  lemma NextGoesForward(w: World, w': World, x: Xid)
    requires Inv(w) && Next(w, w') && x in w
    ensures x in w' && Later(w[x], w'[x])
  {
    hide TxStep, Crashes, Rescans, Later, TxInv;
    assert x in w';
    if w'[x] == w[x] {
      LaterIsReflexive(w[x]);
    } else {
      StepProjects(w, w', x);
      TxNextGoesForward(w[x], w'[x]);
    }
  }

  lemma RunSteps(run: seq<World>, k: nat)
    requires IsRun(run) && 0 < k < |run|
    ensures Next(run[k - 1], run[k])
  {
  }

  lemma LaterIsReflexive(t: Tx)
    ensures Later(t, t)
  {
  }

  lemma LaterIsTransitive(t: Tx, u: Tx, v: Tx)
    requires Later(t, u) && Later(u, v)
    ensures Later(t, v)
  {
    forall p
      ensures At(t.branches, p).Committed? ==> At(v.branches, p).Committed?
      ensures At(t.branches, p).RolledBack? ==> At(v.branches, p).RolledBack?
      ensures At(t.branches, p).Prepared? ==> !Open(At(v.branches, p))
      ensures At(v.branches, p).Absent? ==> At(t.branches, p).Absent?
    {
      assert At(u.branches, p) == At(u.branches, p);
    }
  }

  /** Over any stretch of any run the log never changes sides, a finished row never changes and
      a finished branch keeps its outcome. */
  lemma {:induction false} DecisionsAreIrreversible(run: seq<World>, k: nat, m: nat, x: Xid)
    requires IsRun(run) && k <= m < |run| && x in run[k]
    ensures x in run[m] && Later(run[k][x], run[m][x])
    decreases m - k
  {
    if k == m {
      LaterIsReflexive(run[k][x]);
    } else {
      InvHoldsThroughout(run, k);
      RunSteps(run, k + 1);
      hide IsRun, Inv, Next, Later;
      NextGoesForward(run[k], run[k + 1], x);
      DecisionsAreIrreversible(run, k + 1, m, x);
      LaterIsTransitive(run[k][x], run[k + 1][x], run[m][x]);
    }
  }

  /** Atomicity across time: a branch committed at one moment and a branch rolled back at any
      other moment never belong to the same transaction. */
  lemma OutcomesAgreeAcrossTime(run: seq<World>, k: nat, m: nat, x: Xid, p: Name, q: Name)
    requires IsRun(run) && k < |run| && m < |run| && Joins(run[k], x, p) && Joins(run[m], x, q)
    ensures !(BranchIn(run[k], x, p).Committed? && BranchIn(run[m], x, q).RolledBack?)
  {
    if k <= m {
      DecisionsAreIrreversible(run, k, m, x);
      Atomicity(run, m, x, p, q);
    } else {
      DecisionsAreIrreversible(run, m, k, x);
      Atomicity(run, k, x, p, q);
    }
  }

  // ---- the order of the calls ---------------------------------------------------------------

  /** Up to `k` the END of participant `q` was issued by `commit` and succeeded. */
  ghost predicate EndedBefore(trace: seq<Tx>, k: int, q: nat) {
    exists j :: 0 < j <= k && j < |trace| && EndSucceeds(trace[j - 1].pc, trace[j].pc, q)
  }

  ghost predicate EndSucceeds(pc: Pc, pc': Pc, q: nat) {
    pc == Ending(q) && (pc' == Ending(q + 1) || pc' == Preparing(0))
  }

  ghost predicate PassedBefore(trace: seq<Tx>, k: int, pc: Pc) {
    exists j :: 0 <= j < k && j < |trace| && trace[j].pc == pc
  }

  ghost predicate EndsDone(trace: seq<Tx>, k: nat)
    requires k < |trace|
  {
    var pc, n := trace[k].pc, |trace[k].row.participants|;
    && (pc.Ending? ==> forall q: nat | q < pc.i :: EndedBefore(trace, k, q))
    && (pc.Preparing? ==> forall q: nat | q < n :: EndedBefore(trace, k, q))
  }

  /** What has been issued when the code is at `k`: before a PREPARE every participant was ENDed, and
      before a ROLLBACK that participant was. */
  ghost predicate InSequence(trace: seq<Tx>, k: nat)
    requires k < |trace|
  {
    var pc := trace[k].pc;
    && EndsDone(trace, k)
    && (pc.CleanRollback? ==> PassedBefore(trace, k, CleanEnd(pc.i)))
    && (pc.UnwindRollback? ==> PassedBefore(trace, k, UnwindEnd(pc.left, pc.cross)))
  }

  /** Where the code can have come from. */
  ghost predicate FollowsFrom(t: Tx, t': Tx) {
    && (t'.pc.Ending? ==>
          t.pc == t'.pc || (t.pc.CommitCheck? && t'.pc.i == 0) || (t.pc.Ending? && t'.pc.i == t.pc.i + 1))
    && (t'.pc.Preparing? ==>
          t.pc.Preparing? || (t'.pc.i == 0 && t.pc.Ending? && t.pc.i + 1 == |t.row.participants|))
    && (t'.pc.CleanRollback? ==> t.pc == t'.pc || t.pc == CleanEnd(t'.pc.i))
    && (t'.pc.UnwindRollback? ==> t.pc == t'.pc || t.pc == UnwindEnd(t'.pc.left, t'.pc.cross))
  }

  lemma ActsFollows(t: Tx, t': Tx)
    requires Acts(t, t')
    ensures FollowsFrom(t, t')
  {
    hide Serves;
  }

  lemma CameFrom(t: Tx, t': Tx)
    requires TxInv(t) && TxNext(t, t')
    ensures t'.row.participants == t.row.participants && FollowsFrom(t, t')
  {
    TxNextGoesForward(t, t');
    hide TxInv, Acts, Pending, Later;
    if Acts(t, t') {
      hide FollowsFrom;
      ActsFollows(t, t');
    }
    assert t'.row.participants == t.row.participants by {
      SameNames(t, t');
    }
  }

  lemma SameNames(t: Tx, t': Tx)
    requires Later(t, t')
    ensures t'.row.participants == t.row.participants
  {
  }

  lemma EndedStays(trace: seq<Tx>, k: nat, q: nat)
    requires EndedBefore(trace, k, q)
    ensures EndedBefore(trace, k + 1, q)
  {
    var j :| 0 < j <= k && j < |trace| && EndSucceeds(trace[j - 1].pc, trace[j].pc, q);
  }

  lemma PassedStays(trace: seq<Tx>, k: nat, pc: Pc)
    requires k < |trace| && (PassedBefore(trace, k, pc) || trace[k].pc == pc)
    ensures PassedBefore(trace, k + 1, pc)
  {
  }

  lemma EndsAreCounted(trace: seq<Tx>, k: nat)
    requires k + 1 < |trace| && InSequence(trace, k) && FollowsFrom(trace[k], trace[k + 1])
    requires trace[k + 1].row.participants == trace[k].row.participants
    ensures EndsDone(trace, k + 1)
  {
    hide PassedBefore;
    var pc, pc' := trace[k].pc, trace[k + 1].pc;
    forall q: nat | EndedBefore(trace, k, q) || EndSucceeds(pc, pc', q)
      ensures EndedBefore(trace, k + 1, q)
    {
      if EndedBefore(trace, k, q) {
        EndedStays(trace, k, q);
      }
    }
    hide EndedBefore;
    if pc.Ending? && (pc' == Ending(pc.i + 1) || pc' == Preparing(0)) {
      assert EndSucceeds(pc, pc', pc.i);
    }
  }

  lemma OrderIsKept(trace: seq<Tx>, k: nat)
    requires k + 1 < |trace| && InSequence(trace, k) && FollowsFrom(trace[k], trace[k + 1])
    requires trace[k + 1].row.participants == trace[k].row.participants
    ensures InSequence(trace, k + 1)
  {
    EndsAreCounted(trace, k);
    hide EndsDone, EndedBefore, PassedBefore;
    var pc' := trace[k + 1].pc;
    if pc'.CleanRollback? {
      PassedStays(trace, k, CleanEnd(pc'.i));
    } else if pc'.UnwindRollback? {
      PassedStays(trace, k, UnwindEnd(pc'.left, pc'.cross));
    }
  }

  /** In every trace the calls come in the order the XA state tables ask for: no PREPARE before the END
      of every participant has succeeded, no ROLLBACK before an END of that participant. */
  lemma {:induction false} CallsComeInOrder(trace: seq<Tx>, k: nat)
    requires IsTrace(trace) && k < |trace|
    ensures InSequence(trace, k)
  {
    hide TxInv, TxNext, FollowsFrom, EndedBefore, PassedBefore;
    if k > 0 {
      CallsComeInOrder(trace, k - 1);
      TxInvHoldsThroughout(trace, k - 1);
      CameFrom(trace[k - 1], trace[k]);
      hide InSequence;
      OrderIsKept(trace, k - 1);
    }
  }

  // ---- a rolled back row may leave one branch open -----------------------------------------

  /** A finished rollback leaves at most one branch open, and none prepared or committed. */
  lemma RolledBackLeavesAtMostOneOpen(run: seq<World>, k: nat, x: Xid, p: Name, q: Name)
    requires IsRun(run) && k < |run| && Joins(run[k], x, p) && Joins(run[k], x, q) && p != q
    requires run[k][x].row.status.LogRolledBack?
    ensures Unpromised(BranchIn(run[k], x, p))
    ensures !Open(BranchIn(run[k], x, p)) || !Open(BranchIn(run[k], x, q))
  {
    InvHoldsThroughout(run, k);
    var t := run[k][x];
    var i :| 0 <= i < |t.row.participants| && t.row.participants[i] == p;
    var j :| 0 <= j < |t.row.participants| && t.row.participants[j] == q;
    assert BranchOf(t, i) == BranchIn(run[k], x, p) && BranchOf(t, j) == BranchIn(run[k], x, q);
  }

  /** `begin` with one participant: START takes effect but its reply is lost, the cleanup of the
      failed participant fails and is ignored, and the row is written as rolled back. */
  lemma LostStartTrace(p: Name) returns (trace: seq<Tx>)
    ensures trace != [] && IsTrace(trace)
    ensures trace[|trace| - 1] == Tx(Row(LogRolledBack, [p], Rollback), map[p := Active], Idle)
  {
    hide IsTrace, TxNext, Acts, Chooses;
    var row := Row(LogStarted, [p], Undecided);
    var t1 := Tx(row, map[p := Active], CleanEnd(0));
    trace := Inserted([p]);
    LostStartSteps(p);
    trace := Act(trace, t1);
    trace := Act(trace, t1.(pc := CleanRollback(0)));
    trace := Act(trace, t1.(pc := WriteRolledBack));
    LastWriteStep(p);
    trace := Act(trace, Tx(Row(LogRolledBack, [p], Rollback), map[p := Active], Idle));
  }

  lemma LostStartSteps(p: Name)
    ensures var t1 := Tx(Row(LogStarted, [p], Undecided), map[p := Active], CleanEnd(0));
            && Acts(Tx(Row(LogStarted, [p], Undecided), map[], Starting(0)), t1)
            && Acts(t1, t1.(pc := CleanRollback(0))) && Acts(t1.(pc := CleanRollback(0)), t1.(pc := WriteRolledBack))
  {
    var active := map[p := Active];
    assert map[][p := Active] == active && active[p := Active] == active;
  }

  lemma LastWriteStep(p: Name)
    ensures Acts(Tx(Row(LogStarted, [p], Undecided), map[p := Active], WriteRolledBack),
                 Tx(Row(LogRolledBack, [p], Rollback), map[p := Active], Idle))
  {
  }

  lemma Inserted(names: seq<Name>) returns (trace: seq<Tx>)
    requires 0 < |names| && Distinct(names)
    ensures IsTrace(trace) && trace == [Tx(Row(LogStarted, names, Undecided), map[], Starting(0))]
  {
    trace := [Tx(Row(LogStarted, names, Undecided), map[], Starting(0))];
  }

  /** One more await, or the caller's choice, at the end of a trace. */
  lemma Act(trace: seq<Tx>, t: Tx) returns (longer: seq<Tx>)
    requires trace != [] && IsTrace(trace) && (Acts(trace[|trace| - 1], t) || Chooses(trace[|trace| - 1], t))
    ensures longer != [] && IsTrace(longer) && longer[|longer| - 1] == t
  {
    hide IsTrace, Acts, Chooses;
    TraceExtends(trace, t);
    longer := trace + [t];
  }

  /** "Rolled back" does not mean that every branch is finished: `begin` ignores the cleanup
      result of the participant whose START failed.  The branch stays open under a final row. */
  lemma OpenBranchUnderRolledBackRow(x: Xid, p: Name) returns (run: seq<World>)
    ensures IsRun(run)
    ensures var last := run[|run| - 1];
            x in last && last[x].row == Row(LogRolledBack, [p], Rollback) && last[x].pc ==
                Idle && BranchIn(last, x, p).Active?
  {
    var trace := LostStartTrace(p);
    hide IsTrace, IsRun;
    TraceIsRun(x, trace);
    run := Alone(x, trace);
  }

  // ---- one transaction alone ---------------------------------------------------------------

  lemma TxNextAlone(x: Xid, t: Tx, t': Tx)
    requires TxNext(t, t')
    ensures Next(map[x := t], map[x := t'])
  {
    var w, w' := map[x := t], map[x := t'];
    if TxStep(t, t') {
      assert w' == w[x := w'[x]] && TxStep(w[x], w'[x]);
      assert Advances(w, w');
    } else if Crashes(t, t') {
      assert WorldCrashes(w, w');
    } else {
      assert Scans(w, w');
    }
  }

  /** The states one transaction passes through, seen as a run of a world that holds only it. */
  function Alone(x: Xid, trace: seq<Tx>): seq<World> {
    [map[]] + seq(|trace|, k requires 0 <= k < |trace| => map[x := trace[k]])
  }

  /** Every trace of a single transaction is a run, so every theorem here applies to it. */
  lemma TraceIsRun(x: Xid, trace: seq<Tx>)
    requires IsTrace(trace)
    ensures IsRun(Alone(x, trace))
  {
    var run := Alone(x, trace);
    forall k | 0 < k < |run|
      ensures Next(run[k - 1], run[k])
    {
      if k == 1 {
        assert run[1][x] == trace[0];
        assert Inserts(run[0], run[1]);
      } else {
        TxNextAlone(x, trace[k - 2], trace[k - 1]);
      }
    }
  }

  lemma TraceExtends(trace: seq<Tx>, t: Tx)
    requires IsTrace(trace) && TxNext(trace[|trace| - 1], t)
    ensures IsTrace(trace + [t])
  {
    var longer := trace + [t];
    forall k | 0 < k < |longer|
      ensures TxNext(longer[k - 1], longer[k])
    {
      if k < |trace| {
        assert TxNext(trace[k - 1], trace[k]);
      }
    }
  }

  /** What a run does to one transaction is a trace of that transaction. */
  lemma {:induction false} RunProjects(run: seq<World>, k: nat, x: Xid) returns (trace: seq<Tx>)
    requires IsRun(run) && k < |run| && x in run[k]
    ensures IsTrace(trace) && trace[|trace| - 1] == run[k][x]
  {
    RunSteps(run, k);
    var w, w' := run[k - 1], run[k];
    if x !in w {
      assert Inserts(w, w');
      trace := [w'[x]];
    } else {
      trace := RunProjects(run, k - 1, x);
      if w'[x] != w[x] {
        StepProjects(w, w', x);
        hide IsTrace, TxNext;
        TraceExtends(trace, w'[x]);
        trace := trace + [w'[x]];
      }
    }
  }

  /** Transactions do not influence each other: what can become of one in company, with the others
      failing, crashing and recovering in any way, is exactly what can become of it alone. */
  lemma TransactionsAreIndependent(x: Xid, t: Tx)
    ensures (exists run :: RunEndsIn(run, x, t)) <==> (exists trace :: TraceEndsIn(trace, t))
  {
    hide Next, TxNext;
    if run: seq<World> :| RunEndsIn(run, x, t) {
      var trace := RunProjects(run, |run| - 1, x);
      assert TraceEndsIn(trace, t);
    }
    if trace: seq<Tx> :| TraceEndsIn(trace, t) {
      TraceIsRun(x, trace);
      assert RunEndsIn(Alone(x, trace), x, t);
    }
  }

  ghost predicate RunEndsIn(run: seq<World>, x: Xid, t: Tx) {
    IsRun(run) && x in run[|run| - 1] && run[|run| - 1][x] == t
  }

  ghost predicate TraceEndsIn(trace: seq<Tx>, t: Tx) {
    IsTrace(trace) && trace[|trace| - 1] == t
  }

  // ---- the recovery cross-check ------------------------------------------------------------

  /** Fault-free replay of COMMIT over the participants; `cross` skips a participant that does
      not list the xid as prepared. */
  function ReplayedCommit(branches: map<Name, Branch>, ps: seq<Name>, cross: bool): map<Name, Branch>
    decreases |ps|
  {
    if ps == [] then branches
    else if cross && !At(branches, ps[0]).Prepared? then ReplayedCommit(branches, ps[1..], cross)
    else
      var after := if At(branches, ps[0]).Prepared? then Committed else At(branches, ps[0]);
      ReplayedCommit(branches[ps[0] := after], ps[1..], cross)
  }

  lemma AtUpdated(branches: map<Name, Branch>, p: Name, b: Branch)
    ensures forall q :: At(branches[p := b], q) == if q == p then b else At(branches, q)
  {
    forall q
      ensures At(branches[p := b], q) == if q == p then b else At(branches, q)
    {
    }
  }

  lemma {:induction false} SkippingEqualsReplaying(branches: map<Name, Branch>, other: map<Name, Branch>,
      ps: seq<Name>, p: Name)
    requires forall q :: At(branches, q) == At(other, q)
    ensures At(ReplayedCommit(branches, ps, true), p) == At(ReplayedCommit(other, ps, false), p)
    decreases |ps|
  {
    if ps != [] {
      AtUpdated(branches, ps[0], Committed);
      AtUpdated(other, ps[0], Committed);
      AtUpdated(other, ps[0], At(other, ps[0]));
      if !At(branches, ps[0]).Prepared? {
        var same := other[ps[0] := At(other, ps[0])];
        forall q
          ensures At(branches, q) == At(same, q)
        {
          assert At(branches, q) == At(other, q);
        }
        SkippingEqualsReplaying(branches, same, ps[1..], p);
      } else {
        var done, done' := branches[ps[0] := Committed], other[ps[0] := Committed];
        forall q
          ensures At(done, q) == At(done', q)
        {
          assert At(branches, q) == At(other, q);
        }
        SkippingEqualsReplaying(done, done', ps[1..], p);
      }
    }
  }

  lemma {:induction false} ReplayCommitsEverything(branches: map<Name, Branch>, ps: seq<Name>, cross: bool, p: Name)
    requires forall q | q in ps :: At(branches, q).Prepared? || At(branches, q).Committed?
    ensures p in ps ==> At(ReplayedCommit(branches, ps, cross), p).Committed?
    ensures p !in ps || At(branches, p).Committed? ==> At(ReplayedCommit(branches, ps, cross), p) == At(branches, p)
    decreases |ps|
  {
    if ps != [] {
      AtUpdated(branches, ps[0], Committed);
      assert forall q | q in ps[1..] :: q in ps;
      var after := if At(branches, ps[0]).Prepared? then Committed else At(branches, ps[0]);
      if !(cross && !At(branches, ps[0]).Prepared?) {
        ReplayCommitsEverything(branches[ps[0] := after], ps[1..], cross, p);
      } else {
        ReplayCommitsEverything(branches, ps[1..], cross, p);
      }
    }
  }

  /** For every row recovery commits, in every run, skipping participants that do not list the
      xid gives the same branches as replaying COMMIT to all of them: all committed. */
  lemma CrossCheckChangesNothing(run: seq<World>, k: nat, x: Xid, p: Name)
    requires IsRun(run) && k < |run| && Joins(run[k], x, p) && ShouldCommit(run[k][x].row)
    ensures var t := run[k][x];
            && At(ReplayedCommit(t.branches, t.row.participants, true), p).Committed?
            && At(ReplayedCommit(t.branches, t.row.participants, false), p).Committed?
  {
    InvHoldsThroughout(run, k);
    var t := run[k][x];
    forall q | q in t.row.participants
      ensures At(t.branches, q).Prepared? || At(t.branches, q).Committed?
    {
      var i :| 0 <= i < |t.row.participants| && t.row.participants[i] == q;
      assert BranchOf(t, i) == At(t.branches, q);
    }
    ReplayCommitsEverything(t.branches, t.row.participants, true, p);
    SkippingEqualsReplaying(t.branches, t.branches, t.row.participants, p);
  }
}
