/** When a rolled-back row is the whole truth: exactly which branches `begin` can leave open. */
module TwoPhaseCleanup {
  import opened TwoPhaseProtocol
  import opened TwoPhaseTheorems

  /** The cleanup that `begin` makes of the participant whose START failed, and whose answers it
      ignores, is over and has left that participant's branch open. */
  predicate LeavesOpen(t: Tx, t': Tx, p: Name) {
    && CleansUp(t, t')
    && t.row.participants[t.pc.i] == p
    && Open(At(t'.branches, p))
  }

  predicate CleansUp(t: Tx, t': Tx) {
    t.pc.CleanRollback? && t.pc.i < |t.row.participants| && t'.pc == UnwindFrom(t.pc.i, false)
  }

  /** Where unwinding has passed the participant, its branch is not open. */
  ghost predicate Tidy(t: Tx, k: nat)
    requires k < |t.row.participants|
  {
    && ((t.pc.UnwindEnd? || t.pc.UnwindRollback?) && t.pc.left <= k ==> !Open(BranchOf(t, k)))
    && (t.pc.WriteRolledBack? || t.row.status.LogRolledBack? ==> !Open(BranchOf(t, k)))
  }

  lemma CleanKeepsTidy(t: Tx, t': Tx, k: nat)
    requires TxInv(t) && k < |t.row.participants| && Acts(t, t') && (t.pc.CleanEnd? || t.pc.CleanRollback?)
    requires !LeavesOpen(t, t', t.row.participants[k])
    ensures t'.row == t.row && Tidy(t', k)
  {
    CallTouchesOne(t, t', t.pc.i);
  }

  lemma UnwindKeepsTidy(t: Tx, t': Tx, k: nat)
    requires TxInv(t) && k < |t.row.participants| && Tidy(t, k) && Acts(t,
               t') && (t.pc.UnwindEnd? || t.pc.UnwindRollback?)
    ensures t'.row == t.row && Tidy(t', k)
  {
    CallTouchesOne(t, t', t.pc.left - 1);
  }

  lemma ActsKeepsTidy(t: Tx, t': Tx, k: nat)
    requires TxInv(t) && k < |t.row.participants| && Tidy(t, k) && Acts(t, t')
    requires !LeavesOpen(t, t', t.row.participants[k])
    ensures t'.row.participants == t.row.participants && Tidy(t', k)
  {
    if t.pc.CleanEnd? || t.pc.CleanRollback? {
      CleanKeepsTidy(t, t', k);
    } else if t.pc.UnwindEnd? || t.pc.UnwindRollback? {
      UnwindKeepsTidy(t, t', k);
    } else {
      OtherKeepsTidy(t, t', k);
    }
  }

  lemma OtherKeepsTidy(t: Tx, t': Tx, k: nat)
    requires TxInv(t) && k < |t.row.participants| && Tidy(t, k) && Acts(t, t')
    requires !(t.pc.CleanEnd? || t.pc.CleanRollback? || t.pc.UnwindEnd? || t.pc.UnwindRollback?)
    ensures t'.row.participants == t.row.participants && Tidy(t', k)
  {
    if !Pending(t.row, t.pc).Call? {
      assert BranchOf(t', k) == BranchOf(t, k);
    }
  }

  /** A branch that unwinding has passed is open only if the ignored cleanup left it so. */
  lemma StepKeepsTidy(t: Tx, t': Tx, k: nat)
    requires TxInv(t) && k < |t.row.participants| && Tidy(t, k) && TxNext(t, t')
    requires !LeavesOpen(t, t', t.row.participants[k])
    ensures t'.row.participants == t.row.participants && Tidy(t', k)
  {
    if Acts(t, t') {
      ActsKeepsTidy(t, t', k);
    } else if Drops(t, t') && t' != t.(pc := Idle) {
      DropKeepsTidy(t, t', k);
    } else {
      QuietKeepsTidy(t, t', k);
    }
  }

  lemma DropKeepsTidy(t: Tx, t': Tx, k: nat)
    requires TxInv(t) && k < |t.row.participants| && Tidy(t, k) && Drops(t, t') && t' != t.(pc := Idle)
    ensures t'.row.participants == t.row.participants && Tidy(t', k)
  {
    var pc :| Acts(t, t'.(pc := pc));
    var u := t'.(pc := pc);
    assert BranchOf(u, k) == BranchOf(t', k);
    if LeavesOpen(t, u, t.row.participants[k]) {
      assert t'.row == t.row;
    } else {
      ActsKeepsTidy(t, u, k);
    }
  }

  lemma QuietKeepsTidy(t: Tx, t': Tx, k: nat)
    requires TxInv(t) && k < |t.row.participants| && Tidy(t, k) && TxNext(t, t')
    requires !Acts(t, t') && (Drops(t, t') ==> t' == t.(pc := Idle))
    ensures t'.row.participants == t.row.participants && Tidy(t', k)
  {
    hide Acts, Pending, Drops;
    if Crashes(t, t') {
      assert At(t'.branches, t.row.participants[k]) == BranchOf(t', k);
    }
  }

  lemma FreshIsTidy(t: Tx, k: nat)
    requires Fresh(t) && k < |t.row.participants|
    ensures Tidy(t, k)
  {
  }

  ghost predicate StepLeavesOpen(trace: seq<Tx>, j: int, p: Name) {
    0 < j < |trace| && LeavesOpen(trace[j - 1], trace[j], p)
  }

  lemma {:induction false} TidyThroughout(trace: seq<Tx>, m: nat, p: Name, k: nat)
    requires IsTrace(trace) && m < |trace| && k < |trace[0].row.participants| && trace[0].row.participants[k] == p
    requires forall j | j <= m :: !StepLeavesOpen(trace, j, p)
    ensures trace[m].row.participants == trace[0].row.participants && Tidy(trace[m], k)
  {
    if m == 0 {
      FreshIsTidy(trace[0], k);
    } else {
      TidyThroughout(trace, m - 1, p, k);
      TxInvHoldsThroughout(trace, m - 1);
      assert !StepLeavesOpen(trace, m, p);
      StepKeepsTidy(trace[m - 1], trace[m], k);
    }
  }

  lemma {:induction false} TraceGoesForward(trace: seq<Tx>, j: nat, m: nat)
    requires IsTrace(trace) && j <= m < |trace|
    ensures Later(trace[j], trace[m])
    decreases m
  {
    hide TxInv, TxNext, Later, Fresh;
    if j == m {
      LaterIsReflexive(trace[j]);
    } else {
      TraceGoesForward(trace, j, m - 1);
      TxInvHoldsThroughout(trace, m - 1);
      TxNextGoesForward(trace[m - 1], trace[m]);
      LaterIsTransitive(trace[j], trace[m - 1], trace[m]);
    }
  }

  /** Under a rolled-back row a branch is open if and only if `begin` gave up on that participant, the
      cleanup whose answers it ignores left the branch open, and the server has not rolled it back
      since. */
  lemma OpenUnderRolledBackIff(trace: seq<Tx>, m: nat, p: Name)
    requires IsTrace(trace) && m < |trace| && trace[m].row.status.LogRolledBack? && p in trace[m].row.participants
    ensures Open(At(trace[m].branches, p)) <==>
            (exists j :: j <= m && StepLeavesOpen(trace, j, p)) && !At(trace[m].branches, p).RolledBack?
  {
    TxInvHoldsThroughout(trace, m);
    TraceGoesForward(trace, 0, m);
    var k :| 0 <= k < |trace[m].row.participants| && trace[m].row.participants[k] == p;
    assert BranchOf(trace[m], k) == At(trace[m].branches, p);
    if j :| j <= m && StepLeavesOpen(trace, j, p) {
      TraceGoesForward(trace, j, m);
      assert !At(trace[j].branches, p).Absent?;
    } else {
      TidyThroughout(trace, m, p, k);
    }
  }

  /** So if every such cleanup leaves its branch not open, a rolled-back row is the whole truth. */
  lemma RolledBackIsComplete(trace: seq<Tx>, m: nat, p: Name)
    requires IsTrace(trace) && m < |trace| && trace[m].row.status.LogRolledBack? && p in trace[m].row.participants
    requires forall j | j <= m :: !StepLeavesOpen(trace, j, p)
    ensures At(trace[m].branches, p).Absent? || At(trace[m].branches, p).RolledBack?
  {
    OpenUnderRolledBackIff(trace, m, p);
    TxInvHoldsThroughout(trace, m);
    var k :| 0 <= k < |trace[m].row.participants| && trace[m].row.participants[k] == p;
    assert BranchOf(trace[m], k) == At(trace[m].branches, p);
  }
}
