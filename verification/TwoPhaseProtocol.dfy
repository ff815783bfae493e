/** The crash-recoverable XA two-phase commit protocol as a step system.

    A transaction is a durable log row, one branch per participant and the point the running
    code has reached.  `Pending` is the control-flow graph of `begin`, `commit`, `rollback`,
    `abort` and the recovery pass: it names the await that is in flight.  Every await may
    succeed, fail without effect or fail after taking effect; a future may be dropped, a server
    may abandon an unprepared branch and the process may crash between any two steps.
    Transactions interleave freely.  The theorems quantify over every run. */
module TwoPhaseProtocol {
  type Xid = string
  type Name = string

  /** A branch as its server sees it (state tables of the X/Open XA specification, chapter 6). */
  datatype Branch = Absent | Active | Ended | Prepared | Committed | RolledBack

  datatype Status =
    | LogStarted | LogPrepared | LogCommitting | LogCommitted | LogRollingBack | LogRolledBack

  datatype Decision = Undecided | Commit | Rollback

  datatype Row = Row(status: Status, participants: seq<Name>, decision: Decision)

  datatype Command = XaStart | XaEnd | XaPrepare | XaCommit | XaRollback

  function At(branches: map<Name, Branch>, p: Name): Branch {
    if p in branches then branches[p] else Absent
  }

  /** Started and not yet prepared: lost when its connection goes away. */
  predicate Open(b: Branch) {
    b.Active? || b.Ended?
  }

  /** The server has given no promise that it could commit, and has not committed. */
  predicate Unpromised(b: Branch) {
    !b.Prepared? && !b.Committed?
  }

  /** The server answers XAER_NOTA: it does not, or no longer, know the xid. */
  predicate Unknown(b: Branch) {
    b.Absent? || b.Committed? || b.RolledBack?
  }

  // ---- one participant call ---------------------------------------------------------------

  /** Everything a participant may do with a command.  `ok` is what the caller sees; a failing
      call may have had no effect, its full effect, or have cost an unprepared branch its
      connection.  COMMIT and ROLLBACK of an unknown xid count as success, and END may say yes
      without asking the server. */
  predicate Serves(cmd: Command, before: Branch, after: Branch, ok: bool) {
    match cmd
    case XaStart =>
      if ok then (before.Absent? && after.Active?) || (!before.Absent? && after == before)
      else after == before || (before.Absent? && (after.Active? || after.RolledBack?))
    case XaEnd =>
      if ok then (Open(before) && Open(after)) || after == before
      else after == before || (Open(before) && (after.Ended? || after.RolledBack?))
    case XaPrepare =>
      if ok then Open(before) && after.Prepared?
      else after == before || (Open(before) && (after.Prepared? || after.RolledBack?))
    case XaCommit =>
      if ok then (before.Prepared? && after.Committed?) || (Unknown(before) && after == before)
      else after == before || (before.Prepared? && after.Committed?)
    case XaRollback =>
      if ok then (!Unknown(before) && after.RolledBack?) || (Unknown(before) && after == before)
      else after == before || (!Unknown(before) && after.RolledBack?)
  }

  /** The same without faults: the call fails only where the state table rejects it. */
  predicate ServesCalm(cmd: Command, before: Branch, after: Branch, ok: bool) {
    && Serves(cmd, before, after, ok)
    && (ok <==>
        match cmd
        case XaStart => before.Absent?
        case XaEnd => Open(before)
        case XaPrepare => Open(before)
        case XaCommit => !Open(before)
        case XaRollback => true)
    && (!ok ==> after == before)
  }

  // ---- control flow -----------------------------------------------------------------------

  datatype Pc =
    | Idle                                              // no handle and no recovery on this xid
    | Starting(i: nat)                                  // begin
    | CleanEnd(i: nat) | CleanRollback(i: nat)          // begin: clean up the failed participant
    | Held                                              // the caller holds the DistributedTx
    | CommitCheck | Ending(i: nat) | Preparing(i: nat)  // commit
    | WritePrepared | WriteCommitting | Committing(i: nat) | WriteCommitted
    | RollbackCheck | WriteRollingBack                  // rollback and abort
    | UnwindCheck(left: nat) | UnwindEnd(left: nat, cross: bool)
    | UnwindRollback(left: nat, cross: bool) | WriteRolledBack
    | ReplayCheck(i: nat) | ReplayCommit(i: nat, cross: bool) // recovery towards commit

  datatype Action =
    | Quiet
    | Call(cmd: Command, p: Name, onOk: Pc, onErr: Pc)
    | Write(status: Status, decision: Decision, onOk: Pc, onErr: Pc)
    | ReadStatus(resume: Pc)
    | ListPrepared(p: Name, onListed: Pc, onGone: Pc)

  /** Participants `left - 1` down to `0` remain to be rolled back. */
  function UnwindFrom(left: nat, cross: bool): Pc {
    if left == 0 then WriteRolledBack
    else if cross then UnwindCheck(left)
    else UnwindEnd(left, false)
  }

  /** Participants `i` up to `n - 1` remain to be committed by recovery. */
  function ReplayFrom(i: nat, n: nat, cross: bool): Pc {
    if i >= n then WriteCommitted
    else if cross then ReplayCheck(i)
    else ReplayCommit(i, false)
  }

  function Pending(row: Row, pc: Pc): Action {
    var ps := row.participants;
    var n := |ps|;
    match pc
    case Idle => Quiet
    case Held => Quiet
    case Starting(i) =>
      if i < n then Call(XaStart, ps[i], if i + 1 < n then Starting(i + 1) else Held, CleanEnd(i)) else Quiet
    case CleanEnd(i) =>
      if i < n then Call(XaEnd, ps[i], CleanRollback(i), CleanRollback(i)) else Quiet
    case CleanRollback(i) =>
      if i < n then Call(XaRollback, ps[i], UnwindFrom(i, false), UnwindFrom(i, false)) else Quiet
    case CommitCheck => ReadStatus(Ending(0))
    case Ending(i) =>
      if i < n then Call(XaEnd, ps[i], if i + 1 < n then Ending(i + 1) else Preparing(0), WriteRollingBack) else Quiet
    case Preparing(i) =>
      if i < n then Call(XaPrepare, ps[i], if i + 1 < n then Preparing(i + 1) else WritePrepared, WriteRollingBack)
      else Quiet
    case WritePrepared => Write(LogPrepared, Undecided, WriteCommitting, Idle)
    case WriteCommitting => Write(LogCommitting, Commit, Committing(0), Idle)
    case Committing(i) =>
      if i < n then Call(XaCommit, ps[i], if i + 1 < n then Committing(i + 1) else WriteCommitted, Idle) else Quiet
    case WriteCommitted => Write(LogCommitted, Commit, Idle, Idle)
    case RollbackCheck => ReadStatus(WriteRollingBack)
    case WriteRollingBack => Write(LogRollingBack, Rollback, UnwindFrom(n, false), Idle)
    case UnwindCheck(left) =>
      if 0 < left <= n then ListPrepared(ps[left - 1], UnwindEnd(left, true), UnwindFrom(left - 1, true)) else Quiet
    case UnwindEnd(left, cross) =>
      if 0 < left <= n then Call(XaEnd, ps[left - 1], UnwindRollback(left, cross), UnwindRollback(left, cross))
      else Quiet
    case UnwindRollback(left, cross) =>
      if 0 < left <= n then Call(XaRollback, ps[left - 1], UnwindFrom(left - 1, cross), Idle) else Quiet
    case WriteRolledBack => Write(LogRolledBack, Rollback, Idle, Idle)
    case ReplayCheck(i) =>
      if i < n then ListPrepared(ps[i], ReplayCommit(i, true), ReplayFrom(i + 1, n, true)) else Quiet
    case ReplayCommit(i, cross) =>
      if i < n then Call(XaCommit, ps[i], ReplayFrom(i + 1, n, cross), Idle) else Quiet
  }

  // ---- recovery decisions -----------------------------------------------------------------

  predicate Recoverable(row: Row) {
    row.status.LogStarted? || row.status.LogPrepared? || row.status.LogCommitting? || row.status.LogRollingBack?
  }

  predicate ShouldCommit(row: Row) {
    match row.status
    case LogStarted => false
    case LogRollingBack => false
    case LogPrepared => !row.decision.Rollback?
    case LogCommitting => true
    case _ => false
  }

  predicate CrossCheck(row: Row) {
    row.status.LogPrepared? || row.status.LogCommitting?
  }

  function ReplayEntry(row: Row): Pc {
    if ShouldCommit(row) then ReplayFrom(0, |row.participants|, CrossCheck(row))
    else UnwindFrom(|row.participants|, CrossCheck(row))
  }

  // ---- steps ------------------------------------------------------------------------------

  datatype Tx = Tx(row: Row, branches: map<Name, Branch>, pc: Pc)

  /** The await in flight resolves and the code runs on to its next await. */
  predicate Acts(t: Tx, t': Tx) {
    match Pending(t.row, t.pc)
    case Quiet => false
    case Call(cmd, p, onOk, onErr) =>
      && t'.row == t.row
      && t'.branches == t.branches[p := At(t'.branches, p)]
      && (|| (Serves(cmd, At(t.branches, p), At(t'.branches, p), true) && t'.pc == onOk)
          || (Serves(cmd, At(t.branches, p), At(t'.branches, p), false) && t'.pc == onErr))
    case Write(status, decision, onOk, onErr) =>
      && t'.branches == t.branches
      && (|| (t'.row == t.row.(status := status, decision := decision) && (t'.pc == onOk || t'.pc == onErr))
          || (t'.row == t.row && t'.pc == onErr))
    case ReadStatus(resume) =>
      && t'.row == t.row
      && t'.branches == t.branches
      && (|| t'.pc == Idle
          || (t'.pc == resume && !t.row.status.LogCommitted? && !t.row.status.LogRolledBack?))
    case ListPrepared(p, onListed, onGone) =>
      && t'.row == t.row
      && t'.branches == t.branches
      && (t'.pc == onListed || (t'.pc == onGone && !At(t.branches, p).Prepared?))
  }

  /** The future is dropped at its await; what was in flight may still take effect. */
  ghost predicate Drops(t: Tx, t': Tx) {
    || t' == t.(pc := Idle)
    || (t'.pc == Idle && exists pc :: Acts(t, t'.(pc := pc)))
  }

  /** The caller of `begin` decides what to do with its handle. */
  predicate Chooses(t: Tx, t': Tx) {
    t.pc == Held && (t' == t.(pc := CommitCheck) || t' == t.(pc := RollbackCheck))
  }

  /** A server abandons a branch it has not prepared. */
  ghost predicate Abandons(t: Tx, t': Tx) {
    exists p :: Open(At(t.branches, p)) && t' == t.(branches := t.branches[p := RolledBack])
  }

  ghost predicate TxStep(t: Tx, t': Tx) {
    Acts(t, t') || Drops(t, t') || Chooses(t, t') || Abandons(t, t')
  }

  /** The process dies: handles vanish, unprepared branches go with their connections. */
  ghost predicate Crashes(t: Tx, t': Tx) {
    && t'.row == t.row
    && t'.pc == Idle
    && forall p :: At(t'.branches, p) == if Open(At(t.branches, p)) then RolledBack else At(t.branches, p)
  }

  /** The recovery pass picks the row up. */
  predicate Rescans(t: Tx, t': Tx) {
    t.pc == Idle && Recoverable(t.row) && t' == t.(pc := ReplayEntry(t.row))
  }

  type World = map<Xid, Tx>

  predicate Distinct(names: seq<Name>) {
    forall i, j | 0 <= i < j < |names| :: names[i] != names[j]
  }

  /** The insert of the log row in `begin`; the reply may be lost or the future dropped. */
  predicate Fresh(t: Tx) {
    && t == Tx(Row(LogStarted, t.row.participants, Undecided), map[], t.pc)
    && 0 < |t.row.participants|
    && Distinct(t.row.participants)
    && (t.pc == Starting(0) || t.pc == Idle)
  }

  ghost predicate Inserts(w: World, w': World) {
    exists x :: x !in w && x in w' && w' == w[x := w'[x]] && Fresh(w'[x])
  }

  ghost predicate Advances(w: World, w': World) {
    exists x :: x in w && x in w' && w' == w[x := w'[x]] && TxStep(w[x], w'[x])
  }

  /** The recovery pass reads the log.  It is only started while no transaction is live; rows
      naming an unregistered participant stay idle. */
  ghost predicate Scans(w: World, w': World) {
    && w'.Keys == w.Keys
    && (forall x | x in w :: w[x].pc == Idle)
    && (forall x | x in w :: w'[x] == w[x] || Rescans(w[x], w'[x]))
  }

  ghost predicate WorldCrashes(w: World, w': World) {
    && w'.Keys == w.Keys
    && forall x | x in w :: Crashes(w[x], w'[x])
  }

  ghost predicate Next(w: World, w': World) {
    Inserts(w, w') || Advances(w, w') || Scans(w, w') || WorldCrashes(w, w')
  }

  ghost predicate IsRun(run: seq<World>) {
    && 0 < |run|
    && run[0] == map[]
    && forall k | 0 < k < |run| :: Next(run[k - 1], run[k])
  }

  /** The part of a run that concerns one transaction. */
  ghost predicate TxNext(t: Tx, t': Tx) {
    TxStep(t, t') || Crashes(t, t') || Rescans(t, t')
  }

  ghost predicate IsTrace(trace: seq<Tx>) {
    && 0 < |trace|
    && Fresh(trace[0])
    && forall k | 0 < k < |trace| :: TxNext(trace[k - 1], trace[k])
  }

  // ---- the invariant ----------------------------------------------------------------------

  function DecisionOf(s: Status): Decision {
    match s
    case LogStarted => Undecided
    case LogPrepared => Undecided
    case LogCommitting => Commit
    case LogCommitted => Commit
    case LogRollingBack => Rollback
    case LogRolledBack => Rollback
  }

  function BranchOf(t: Tx, k: nat): Branch
    requires k < |t.row.participants|
  {
    At(t.branches, t.row.participants[k])
  }

  /** Participants from `left` on hold no promise, and at most one of them is still open. */
  ghost predicate UnwoundFrom(t: Tx, left: nat) {
    && (forall k | left <= k < |t.row.participants| :: Unpromised(BranchOf(t, k)))
    && (forall k, l | left <= k < l < |t.row.participants| :: !Open(BranchOf(t, k)) || !Open(BranchOf(t, l)))
  }

  ghost predicate AllUnpromised(t: Tx) {
    forall k | 0 <= k < |t.row.participants| :: Unpromised(BranchOf(t, k))
  }

  ghost predicate AllCommittedBelow(t: Tx, i: nat) {
    forall k | 0 <= k < i && k < |t.row.participants| :: BranchOf(t, k).Committed?
  }

  ghost predicate AllPreparedBelow(t: Tx, i: nat) {
    forall k | 0 <= k < i && k < |t.row.participants| :: BranchOf(t, k).Prepared?
  }

  /** What the durable row tells a reader about the branches, at any moment. */
  ghost predicate LogDescribesBranches(t: Tx) {
    var n := |t.row.participants|;
    match t.row.status
    case LogStarted => forall k | 0 <= k < n :: !BranchOf(t, k).Committed?
    case LogRollingBack => forall k | 0 <= k < n :: !BranchOf(t, k).Committed?
    case LogPrepared => forall k | 0 <= k < n :: BranchOf(t, k).Prepared? || BranchOf(t, k).Committed?
    case LogCommitting => forall k | 0 <= k < n :: BranchOf(t, k).Prepared? || BranchOf(t, k).Committed?
    case LogCommitted => AllCommittedBelow(t, n)
    case LogRolledBack => UnwoundFrom(t, 0)
  }

  ghost predicate Unwinding(t: Tx) {
    t.row.status.LogStarted? || t.row.status.LogRollingBack?
  }

  ghost predicate PcAgrees(t: Tx) {
    var n := |t.row.participants|;
    var s := t.row.status;
    match t.pc
    case Idle => true
    case Starting(i) =>
      s.LogStarted? && i < n && AllUnpromised(t) && forall k | i <= k < n :: BranchOf(t, k).Absent?
    case CleanEnd(i) =>
      s.LogStarted? && i < n && AllUnpromised(t) && forall k | i < k < n :: BranchOf(t, k).Absent?
    case CleanRollback(i) =>
      s.LogStarted? && i < n && AllUnpromised(t) && forall k | i < k < n :: BranchOf(t, k).Absent?
    case Held => s.LogStarted? && AllUnpromised(t)
    case CommitCheck => s.LogStarted? && AllUnpromised(t)
    case RollbackCheck => s.LogStarted? && AllUnpromised(t)
    case Ending(i) => s.LogStarted? && i < n && AllUnpromised(t)
    case Preparing(i) =>
      s.LogStarted? && i < n && AllPreparedBelow(t, i) && forall k | i <= k < n :: Unpromised(BranchOf(t, k))
    case WritePrepared => s.LogStarted? && AllPreparedBelow(t, n)
    case WriteCommitting => s.LogPrepared?
    case Committing(i) => s.LogCommitting? && i < n && AllCommittedBelow(t, i)
    case WriteCommitted => (s.LogPrepared? || s.LogCommitting?) && AllCommittedBelow(t, n)
    case WriteRollingBack => s.LogStarted?
    case UnwindCheck(_) => false
    case UnwindEnd(left, cross) => !cross && 0 < left <= n && Unwinding(t) && UnwoundFrom(t, left)
    case UnwindRollback(left, cross) => !cross && 0 < left <= n && Unwinding(t) && UnwoundFrom(t, left)
    case WriteRolledBack => Unwinding(t) && UnwoundFrom(t, 0)
    case ReplayCheck(i) => (s.LogPrepared? || s.LogCommitting?) && i < n && AllCommittedBelow(t, i)
    case ReplayCommit(i, cross) =>
      cross && (s.LogPrepared? || s.LogCommitting?) && i < n && AllCommittedBelow(t, i)
  }

  ghost predicate TxInv(t: Tx) {
    && 0 < |t.row.participants|
    && Distinct(t.row.participants)
    && t.row.decision == DecisionOf(t.row.status)
    && LogDescribesBranches(t)
    && PcAgrees(t)
  }

  ghost predicate Inv(w: World) {
    forall x | x in w :: TxInv(w[x])
  }

  // ---- every step keeps it ----------------------------------------------------------------

  /** A call changes the branch it addresses and no other. */
  lemma CallTouchesOne(t: Tx, t': Tx, i: nat)
    requires TxInv(t) && Acts(t, t') && Pending(t.row, t.pc).Call? && i < |t.row.participants|
    requires Pending(t.row, t.pc).p == t.row.participants[i]
    ensures t'.row == t.row
    ensures forall k | 0 <= k < |t.row.participants| && k != i :: BranchOf(t', k) == BranchOf(t, k)
    ensures var action := Pending(t.row, t.pc);
            || (Serves(action.cmd, BranchOf(t, i), BranchOf(t', i), true) && t'.pc == action.onOk)
            || (Serves(action.cmd, BranchOf(t, i), BranchOf(t', i), false) && t'.pc == action.onErr)
  {
  }

  lemma StartCallKeepsInv(t: Tx, t': Tx)
    requires TxInv(t) && Acts(t, t') && t.pc.Starting?
    ensures TxInv(t')
  {
    CallTouchesOne(t, t', t.pc.i);
  }

  lemma CleanCallKeepsInv(t: Tx, t': Tx)
    requires TxInv(t) && Acts(t, t') && (t.pc.CleanEnd? || t.pc.CleanRollback?)
    ensures TxInv(t')
  {
    CallTouchesOne(t, t', t.pc.i);
  }

  lemma PrepareCallKeepsInv(t: Tx, t': Tx)
    requires TxInv(t) && Acts(t, t') && (t.pc.Ending? || t.pc.Preparing?)
    ensures TxInv(t')
  {
    CallTouchesOne(t, t', t.pc.i);
  }

  lemma CommitCallKeepsInv(t: Tx, t': Tx)
    requires TxInv(t) && Acts(t, t') && (t.pc.Committing? || t.pc.ReplayCommit?)
    ensures TxInv(t')
  {
    CallTouchesOne(t, t', t.pc.i);
  }

  lemma UnwindEndKeepsInv(t: Tx, t': Tx)
    requires TxInv(t) && Acts(t, t') && t.pc.UnwindEnd?
    ensures TxInv(t')
  {
    CallTouchesOne(t, t', t.pc.left - 1);
  }

  lemma UnwindRollbackKeepsInv(t: Tx, t': Tx)
    requires TxInv(t) && Acts(t, t') && t.pc.UnwindRollback?
    ensures TxInv(t')
  {
    CallTouchesOne(t, t', t.pc.left - 1);
  }

  lemma CallKeepsInv(t: Tx, t': Tx)
    requires TxInv(t) && Acts(t, t') && Pending(t.row, t.pc).Call?
    ensures TxInv(t')
  {
    if t.pc.Starting? {
      StartCallKeepsInv(t, t');
    } else if t.pc.CleanEnd? || t.pc.CleanRollback? {
      CleanCallKeepsInv(t, t');
    } else if t.pc.Ending? || t.pc.Preparing? {
      PrepareCallKeepsInv(t, t');
    } else if t.pc.Committing? || t.pc.ReplayCommit? {
      CommitCallKeepsInv(t, t');
    } else if t.pc.UnwindEnd? {
      UnwindEndKeepsInv(t, t');
    } else {
      UnwindRollbackKeepsInv(t, t');
    }
  }

  lemma WriteKeepsInv(t: Tx, t': Tx)
    requires TxInv(t) && Acts(t, t') && Pending(t.row, t.pc).Write?
    ensures TxInv(t')
  {
    assert forall k | 0 <= k < |t.row.participants| :: BranchOf(t', k) == BranchOf(t, k);
  }

  lemma ReadKeepsInv(t: Tx, t': Tx)
    requires TxInv(t) && Acts(t, t')
    requires Pending(t.row, t.pc).ReadStatus? || Pending(t.row, t.pc).ListPrepared?
    ensures TxInv(t')
  {
    assert forall k | 0 <= k < |t.row.participants| :: BranchOf(t', k) == BranchOf(t, k);
  }

  lemma ActsKeepsInv(t: Tx, t': Tx)
    requires TxInv(t) && Acts(t, t')
    ensures TxInv(t')
  {
    match Pending(t.row, t.pc)
    case Call(_, _, _, _) => CallKeepsInv(t, t');
    case Write(_, _, _, _) => WriteKeepsInv(t, t');
    case ReadStatus(_) => ReadKeepsInv(t, t');
    case ListPrepared(_, _, _) => ReadKeepsInv(t, t');
  }

  /** Losing the running code never hurts: the log alone still describes the branches. */
  lemma IdleKeepsInv(t: Tx)
    requires TxInv(t)
    ensures TxInv(t.(pc := Idle))
  {
    var t' := t.(pc := Idle);
    assert forall k | 0 <= k < |t.row.participants| :: BranchOf(t', k) == BranchOf(t, k);
  }

  lemma DropsKeepsInv(t: Tx, t': Tx)
    requires TxInv(t) && Drops(t, t')
    ensures TxInv(t')
  {
    if t' == t.(pc := Idle) {
      IdleKeepsInv(t);
    } else {
      var pc :| Acts(t, t'.(pc := pc));
      ActsKeepsInv(t, t'.(pc := pc));
      IdleKeepsInv(t'.(pc := pc));
      assert t' == t'.(pc := pc).(pc := Idle);
    }
  }

  /** `t'` differs from `t` only in open branches that are gone. */
  ghost predicate LosesOpen(t: Tx, t': Tx) {
    && t'.row == t.row
    && forall k | 0 <= k < |t.row.participants| ::
         BranchOf(t', k) == BranchOf(t, k) || (Open(BranchOf(t, k)) && BranchOf(t', k).RolledBack?)
  }

  lemma LosingOpenKeepsLog(t: Tx, t': Tx)
    requires LosesOpen(t, t') && LogDescribesBranches(t)
    ensures LogDescribesBranches(t')
  {
  }

  lemma LosingOpenKeepsPc(t: Tx, t': Tx)
    requires LosesOpen(t, t') && t'.pc == t.pc && PcAgrees(t)
    ensures PcAgrees(t')
  {
  }

  lemma AbandonsKeepsInv(t: Tx, t': Tx)
    requires TxInv(t) && Abandons(t, t')
    ensures TxInv(t')
  {
    assert LosesOpen(t, t');
    hide LosesOpen, LogDescribesBranches, PcAgrees;
    LosingOpenKeepsLog(t, t');
    LosingOpenKeepsPc(t, t');
  }

  lemma CrashKeepsInv(t: Tx, t': Tx)
    requires TxInv(t) && Crashes(t, t')
    ensures TxInv(t')
  {
    assert LosesOpen(t, t');
    LosingOpenKeepsLog(t, t');
  }

  lemma TxStepKeepsInv(t: Tx, t': Tx)
    requires TxInv(t) && TxStep(t, t')
    ensures TxInv(t')
  {
    if Acts(t, t') {
      ActsKeepsInv(t, t');
    } else if Drops(t, t') {
      DropsKeepsInv(t, t');
    } else if Abandons(t, t') {
      AbandonsKeepsInv(t, t');
    } else {
      assert forall k | 0 <= k < |t.row.participants| :: BranchOf(t', k) == BranchOf(t, k);
    }
  }

  lemma RescansKeepsInv(t: Tx, t': Tx)
    requires TxInv(t) && Rescans(t, t')
    ensures TxInv(t')
  {
    assert forall k | 0 <= k < |t.row.participants| :: BranchOf(t', k) == BranchOf(t, k);
  }

  lemma TxNextKeepsInv(t: Tx, t': Tx)
    requires TxInv(t) && TxNext(t, t')
    ensures TxInv(t')
  {
    if TxStep(t, t') {
      TxStepKeepsInv(t, t');
    } else if Crashes(t, t') {
      CrashKeepsInv(t, t');
    } else {
      RescansKeepsInv(t, t');
    }
  }

  lemma FreshHasInv(t: Tx)
    requires Fresh(t)
    ensures TxInv(t)
  {
    assert forall k | 0 <= k < |t.row.participants| :: BranchOf(t, k).Absent?;
  }

  lemma NextKeepsInv(w: World, w': World)
    requires Inv(w) && Next(w, w')
    ensures Inv(w')
  {
    forall x | x in w'
      ensures TxInv(w'[x])
    {
      if x !in w {
        FreshHasInv(w'[x]);
      } else if w'[x] != w[x] {
        assert TxNext(w[x], w'[x]);
        TxNextKeepsInv(w[x], w'[x]);
      }
    }
  }

  lemma {:induction false} InvHoldsThroughout(run: seq<World>, k: nat)
    requires IsRun(run) && k < |run|
    ensures Inv(run[k])
  {
    if k > 0 {
      InvHoldsThroughout(run, k - 1);
      NextKeepsInv(run[k - 1], run[k]);
    }
  }

  lemma {:induction false} TxInvHoldsThroughout(trace: seq<Tx>, k: nat)
    requires IsTrace(trace) && k < |trace|
    ensures TxInv(trace[k])
  {
    if k == 0 {
      FreshHasInv(trace[0]);
    } else {
      TxInvHoldsThroughout(trace, k - 1);
      TxNextKeepsInv(trace[k - 1], trace[k]);
    }
  }
}
