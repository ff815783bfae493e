/** The coordinator and its recovery worker as they run: loops that issue calls and write the
    log.  Every method keeps `Valid()`: the states the code passes through form a trace of the
    step system, so every theorem of `TwoPhaseTheorems` applies to each of them.  The network
    may misbehave arbitrarily; `calm` marks an execution without call failures. */
module TwoPhaseCoordinator {
  import opened TwoPhaseProtocol
  import opened TwoPhaseTheorems

  datatype Error =
    | NoParticipants
    | DuplicateParticipant(p: Name)
    | NotRegistered(p: Name)
    | DatabaseFailed
    | CallFailed(cmd: Command, p: Name)
    | AbortFailed(p: Name)
    | WasCommitted
    | WasRolledBack

  datatype Result<+T> = Ok(value: T) | Err(error: Error)

  datatype Unit = Unit

  datatype Report = Report(recovered: nat, failed: nat)

  /** The answer of a participant that works. */
  function CalmReply(cmd: Command, b: Branch): (r: (Branch, bool))
    ensures Serves(cmd, b, r.0, r.1) && ServesCalm(cmd, b, r.0, r.1)
  {
    match cmd
    case XaStart => if b.Absent? then (Active, true) else (b, false)
    case XaEnd => if Open(b) then (Ended, true) else (b, false)
    case XaPrepare => if Open(b) then (Prepared, true) else (b, false)
    case XaCommit => if b.Prepared? then (Committed, true) else (b, !Open(b))
    case XaRollback => if Unknown(b) then (b, true) else (RolledBack, true)
  }

  /** A step of the code itself: an await that resolves, the caller's choice, or recovery reading the row. */
  ghost predicate Does(t: Tx, t': Tx) {
    Acts(t, t') || Chooses(t, t') || Rescans(t, t')
  }

  /** From `since` on nothing but the code has moved the transaction. */
  ghost predicate Driven(trace: seq<Tx>, since: nat) {
    since < |trace| && forall k | since < k < |trace| :: Does(trace[k - 1], trace[k])
  }

  lemma DrivenExtends(trace: seq<Tx>, since: nat, t: Tx)
    requires IsTrace(trace) && Driven(trace, since) && Does(trace[|trace| - 1], t)
    ensures IsTrace(trace + [t]) && Driven(trace + [t], since)
  {
    hide IsTrace, Acts, Chooses, Rescans;
    TraceExtends(trace, t);
    var longer := trace + [t];
    forall k | since < k < |longer|
      ensures Does(longer[k - 1], longer[k])
    {
      if k < |trace| {
        assert Does(trace[k - 1], trace[k]);
      }
    }
  }

  lemma NothingDone(trace: seq<Tx>, since: nat)
    requires since + 1 == |trace|
    ensures Driven(trace, since)
  {
  }

  lemma CallIsStep(t: Tx, t': Tx, ok: bool)
    requires Pending(t.row, t.pc).Call? && t'.row == t.row
    requires var a := Pending(t.row, t.pc);
             && t'.branches == t.branches[a.p := At(t'.branches, a.p)]
             && Serves(a.cmd, At(t.branches, a.p), At(t'.branches, a.p), ok)
             && t'.pc == if ok then a.onOk else a.onErr
    ensures Does(t, t')
  {
    assert Acts(t, t');
  }

  lemma WriteIsStep(t: Tx, t': Tx, ok: bool)
    requires Pending(t.row, t.pc).Write? && t'.branches == t.branches
    requires var a := Pending(t.row, t.pc);
             && (t'.row == t.row.(status := a.status, decision := a.decision) || (!ok && t'.row == t.row))
             && t'.pc == if ok then a.onOk else a.onErr
    ensures Does(t, t')
  {
    assert Acts(t, t');
  }

  lemma ReadIsStep(t: Tx, t': Tx)
    requires t'.row == t.row && t'.branches == t.branches
    requires match Pending(t.row, t.pc)
             case ReadStatus(resume) =>
               t'.pc == Idle || (t'.pc == resume && !t.row.status.LogCommitted? && !t.row.status.LogRolledBack?)
             case ListPrepared(p, onListed, onGone) =>
               t'.pc == onListed || (t'.pc == onGone && !At(t.branches, p).Prepared?)
             case _ => false
    ensures Does(t, t')
  {
    assert Acts(t, t');
  }

  ghost predicate Settled(b: Branch) {
    b.Absent? || b.RolledBack?
  }

  /** Every branch of the transaction is committed. */
  ghost predicate FullyCommitted(t: Tx) {
    forall p | p in t.row.participants :: At(t.branches, p).Committed?
  }

  /** No branch of the transaction is left with work in it. */
  ghost predicate FullySettled(t: Tx) {
    forall p | p in t.row.participants :: Settled(At(t.branches, p))
  }

  /** Recovery will pick the row up, or it is final and says what happened to every branch. */
  ghost predicate InHand(t: Tx) {
    || Recoverable(t.row)
    || (t.row.status.LogCommitted? && FullyCommitted(t))
    || (t.row.status.LogRolledBack? && FullySettled(t))
  }

  lemma StartedIsInHand(t: Tx)
    requires t.row.status.LogStarted?
    ensures InHand(t)
  {
  }

  lemma CommittedRowIsFullyCommitted(t: Tx)
    requires TxInv(t) && t.row.status.LogCommitted?
    ensures FullyCommitted(t)
  {
    forall p | p in t.row.participants
      ensures At(t.branches, p).Committed?
    {
      var k :| 0 <= k < |t.row.participants| && t.row.participants[k] == p;
      assert BranchOf(t, k).Committed?;
    }
  }

  lemma UnwoundIsUncommitted(t: Tx, left: nat)
    requires TxInv(t) && 0 < left <= |t.row.participants| && t.pc == UnwindFrom(left, false)
    ensures !At(t.branches, t.row.participants[left - 1]).Committed?
  {
    assert BranchOf(t, left - 1) == At(t.branches, t.row.participants[left - 1]);
  }

  lemma CommittableIsNotOpen(t: Tx, i: nat)
    requires TxInv(t) && i < |t.row.participants|
    requires t.row.status.LogPrepared? || t.row.status.LogCommitting?
    ensures At(t.branches, t.row.participants[i]).Prepared? || At(t.branches, t.row.participants[i]).Committed?
  {
    assert BranchOf(t, i) == At(t.branches, t.row.participants[i]);
  }

  /** What plain replay makes of a row that recovery commits. */
  lemma ReplayOf(t: Tx)
    requires TxInv(t) && ShouldCommit(t.row)
    ensures forall p | p in t.row.participants ::
              At(ReplayedCommit(t.branches, t.row.participants, false), p).Committed?
    ensures forall p | p !in t.row.participants ::
              At(ReplayedCommit(t.branches, t.row.participants, false), p) == At(t.branches, p)
  {
    hide ReplayedCommit;
    forall q | q in t.row.participants
      ensures At(t.branches, q).Prepared? || At(t.branches, q).Committed?
    {
      var i :| 0 <= i < |t.row.participants| && t.row.participants[i] == q;
      CommittableIsNotOpen(t, i);
    }
    forall p
      ensures p in t.row.participants ==> At(ReplayedCommit(t.branches, t.row.participants, false), p).Committed?
      ensures p !in t.row.participants ==>
                At(ReplayedCommit(t.branches, t.row.participants, false), p) == At(t.branches, p)
    {
      ReplayCommitsEverything(t.branches, t.row.participants, false, p);
    }
  }

  lemma TxInvNames(t: Tx)
    requires TxInv(t)
    ensures 0 < |t.row.participants| && Distinct(t.row.participants)
    ensures t.row.decision == DecisionOf(t.row.status)
    ensures t.pc == Held || t.pc.Starting? ==> t.row.status.LogStarted?
  {
  }

  /** One distributed transaction: its durable row, its branches and the code driving it. */
  class Transaction {
    var row: Row
    var branches: map<Name, Branch>
    ghost var pc: Pc
    ghost var trace: seq<Tx>
    ghost var since: nat

    /** The row is inserted; `acknowledged` tells whether `begin` learns of it. */
    constructor (names: seq<Name>, acknowledged: bool)
      requires 0 < |names| && Distinct(names)
      ensures Valid() && since == 0
      ensures Now() == Tx(Row(LogStarted, names, Undecided), map[], if acknowledged then Starting(0) else Idle)
    {
      row := Row(LogStarted, names, Undecided);
      branches := map[];
      pc := if acknowledged then Starting(0) else Idle;
      trace := [Tx(Row(LogStarted, names, Undecided), map[], if acknowledged then Starting(0) else Idle)];
      since := 0;
    }

    ghost function Now(): Tx
      reads this
    {
      Tx(row, branches, pc)
    }

    /** The states passed so far are a trace of the protocol that ends in the present state.  Since the
        last interruption every step was one the code makes: no method may skip an await or stop
        before its end. */
    ghost predicate Valid()
      reads this
    {
      IsTrace(trace) && Driven(trace, since) && trace[|trace| - 1] == Now()
    }

    /** Where the code was before its last step. */
    ghost function LastPc(): Pc
      requires |trace| >= 2
      reads this
    {
      trace[|trace| - 2].pc
    }

    lemma PresentInv()
      requires Valid()
      ensures TxInv(Now())
    {
      TxInvHoldsThroughout(trace, |trace| - 1);
    }

    // ---- awaits ---------------------------------------------------------------------------

    ghost method Passed(before: Tx)
      requires IsTrace(trace) && Driven(trace, since) && trace[|trace| - 1] == before && Does(before, Now())
      modifies this`trace
      ensures Valid() && trace == old(trace) + [Now()] && |trace| >= 2 && LastPc() == before.pc
    {
      hide Driven, Does, TxNext;
      DrivenExtends(trace, since, Now());
      trace := trace + [Now()];
    }

    /** What is not the code's doing: the future is dropped, a server abandons a branch, or the process
        crashes. */
    method Interrupt(t: Tx)
      requires Valid() && (Drops(Now(), t) || Abandons(Now(), t) || Crashes(Now(), t))
      modifies this
      ensures Valid() && Now() == t && trace == old(trace) + [t] && since == |old(trace)|
    {
      hide IsTrace, Driven, Drops, Abandons, Crashes;
      TraceExtends(trace, t);
      row, branches, pc := t.row, t.branches, t.pc;
      trace := trace + [t];
      since := |trace| - 1;
      NothingDone(trace, since);
    }

    method XaCall(cmd: Command, p: Name, calm: bool, ghost onOk: Pc, ghost onErr: Pc) returns (ok: bool)
      requires Valid() && Pending(row, pc) == Call(cmd, p, onOk, onErr)
      modifies this`branches, this`pc, this`trace
      ensures Valid() && trace == old(trace) + [Now()] && |trace| >= 2 && LastPc() == old(pc)
      ensures pc == if ok then onOk else onErr
      ensures branches == old(branches)[p := At(branches, p)]
      ensures Serves(cmd, old(At(branches, p)), At(branches, p), ok)
      ensures calm ==> ServesCalm(cmd, old(At(branches, p)), At(branches, p), ok)
    {
      hide IsTrace, Driven, Does, Pending, Serves, ServesCalm, CalmReply;
      var before := At(branches, p);
      ghost var t := Now();
      ghost var reply := CalmReply(cmd, before);
      assert Serves(cmd, before, reply.0, reply.1) && ServesCalm(cmd, before, reply.0, reply.1);
      var after: Branch;
      after, ok :| Serves(cmd, before, after, ok) && (calm ==> ServesCalm(cmd, before, after, ok));
      branches := branches[p := after];
      pc := if ok then onOk else onErr;
      CallIsStep(t, Now(), ok);
      Passed(t);
    }

    method SetLog(status: Status, decision: Decision, calm: bool, ghost onOk: Pc, ghost onErr: Pc) returns (ok: bool)
      requires Valid() && Pending(row, pc) == Write(status, decision, onOk, onErr)
      modifies this`row, this`pc, this`trace
      ensures Valid() && trace == old(trace) + [Now()] && |trace| >= 2 && LastPc() == old(pc)
      ensures pc == if ok then onOk else onErr
      ensures row == old(row) || row == old(row).(status := status, decision := decision)
      ensures ok ==> row == old(row).(status := status, decision := decision)
      ensures calm ==> ok
    {
      hide IsTrace, Driven, Does, Pending;
      ghost var t := Now();
      var lands: bool;
      lands, ok :| (ok ==> lands) && (calm ==> ok);
      if lands {
        row := row.(status := status, decision := decision);
      }
      pc := if ok then onOk else onErr;
      WriteIsStep(t, Now(), ok);
      Passed(t);
    }

    /** The status query at the head of `commit` and `rollback`; false when it fails. */
    method ReadLog(calm: bool, ghost resume: Pc) returns (ok: bool, status: Status)
      requires Valid() && Pending(row, pc) == ReadStatus(resume)
      modifies this`pc, this`trace
      ensures Valid() && trace == old(trace) + [Now()] && |trace| >= 2 && LastPc() == old(pc)
      ensures ok ==> status == row.status
      ensures pc == if ok && !status.LogCommitted? && !status.LogRolledBack? then resume else Idle
      ensures calm ==> ok
    {
      hide IsTrace, Driven, Does, Pending;
      ghost var t := Now();
      ok :| calm ==> ok;
      status := row.status;
      pc := if ok && !status.LogCommitted? && !status.LogRolledBack? then resume else Idle;
      ReadIsStep(t, Now());
      Passed(t);
    }

    /** `already_resolved`: the participant answers and does not list the xid as prepared. */
    method AlreadyResolved(p: Name, calm: bool, ghost onListed: Pc, ghost onGone: Pc) returns (gone: bool)
      requires Valid() && Pending(row, pc) == ListPrepared(p, onListed, onGone)
      modifies this`pc, this`trace
      ensures Valid() && trace == old(trace) + [Now()] && |trace| >= 2 && LastPc() == old(pc)
      ensures gone ==> !At(branches, p).Prepared?
      ensures calm ==> (gone <==> !At(branches, p).Prepared?)
      ensures pc == if gone then onGone else onListed
    {
      hide IsTrace, Driven, Does, Pending;
      ghost var t := Now();
      var answered: bool :| calm ==> answered;
      gone := answered && !At(branches, p).Prepared?;
      pc := if gone then onGone else onListed;
      ReadIsStep(t, Now());
      Passed(t);
    }

    /** The caller consumes its handle. */
    ghost method Choose(next: Pc)
      requires Valid() && pc == Held && (next == CommitCheck || next == RollbackCheck)
      modifies this`pc, this`trace
      ensures Valid() && trace == old(trace) + [Now()] && pc == next
    {
      hide IsTrace, Driven;
      var t := Now();
      pc := next;
      assert Chooses(t, Now());
      Passed(t);
    }

    /** The recovery pass has read the row. */
    ghost method PickUp()
      requires Valid() && pc == Idle && Recoverable(row)
      modifies this`pc, this`trace
      ensures Valid() && trace == old(trace) + [Now()] && pc == ReplayEntry(row)
    {
      hide IsTrace, Driven;
      var t := Now();
      pc := ReplayEntry(row);
      assert Rescans(t, Now());
      Passed(t);
    }

    // ---- begin ----------------------------------------------------------------------------

    /** The START loop of `begin`; returns the position that failed, or the number of participants.  After
        a failed START the failed participant is cleaned up, ignoring the answers, and everything
        started before it is rolled back until a ROLLBACK fails; if none does, the row is written.  If
        nothing fails after the START (`steady`), nothing is left.  When the row says rolled back,
        nothing is left open if and only if the ignored cleanup left nothing open at the failed
        participant (`cleaned`). */
    method StartAll(calm: bool, steady: bool) returns (i: nat, ghost cleaned: bool)
      requires Valid() && pc == Starting(0) && branches == map[]
      modifies this`row, this`branches, this`pc, this`trace
      ensures Valid() && old(trace) <= trace && i <= |row.participants| && row.participants == old(row.participants)
      ensures i == |row.participants| ==>
                row == old(row) && pc == Held && forall p | p in row.participants :: At(branches, p).Active?
      ensures i < |row.participants| ==>
                && pc == Idle
                && (row.status.LogStarted? || row.status.LogRolledBack?)
                && (row.status.LogRolledBack? ==> (cleaned <==> FullySettled(Now())))
                && StoppedUnwinding(i)
                && (exists k :: |old(trace)| <= k < |trace| && trace[k].pc == CleanEnd(i))
                && (steady ==> row.status.LogRolledBack? && FullySettled(Now()))
      ensures calm ==> i == |row.participants|
    {
      hide IsTrace, Driven, TxInv, Serves, ServesCalm, StoppedUnwinding, FullySettled;
      cleaned := false;
      PresentInv();
      TxInvNames(Now());
      var ps := row.participants;
      i := 0;
      while i < |ps|
        invariant i <= |ps|
        invariant Valid() && old(trace) <= trace && row == old(row)
        invariant pc == if i < |ps| then Starting(i) else Held
        invariant forall k | 0 <= k < i :: At(branches, ps[k]).Active?
        invariant forall k | i <= k < |ps| :: At(branches, ps[k]).Absent?
      {
        var ok := Start(i, calm);
        if !ok {
          ghost var k := |trace| - 1;
          assert trace[k].pc == CleanEnd(i);
          cleaned := GiveUp(i, steady);
          assert trace[k].pc == CleanEnd(i);
          return i, cleaned;
        }
        i := i + 1;
      }
    }

    method Start(i: nat, calm: bool) returns (ok: bool)
      requires Valid() && i < |row.participants| && pc == Starting(i) && At(branches, row.participants[i]).Absent?
      modifies this`branches, this`pc, this`trace
      ensures Valid() && trace == old(trace) + [Now()]
      ensures pc == if !ok then CleanEnd(i) else if i + 1 < |row.participants| then Starting(i + 1) else Held
      ensures branches == old(branches)[row.participants[i] := At(branches, row.participants[i])]
      ensures ok ==> At(branches, row.participants[i]).Active?
      ensures Unpromised(At(branches, row.participants[i]))
      ensures calm ==> ok
    {
      hide IsTrace, Driven;
      var next := if i + 1 < |row.participants| then Starting(i + 1) else Held;
      ok := XaCall(XaStart, row.participants[i], calm, next, CleanEnd(i));
    }

    /** Unwinding below `i` has come to its end, or to a ROLLBACK that failed. */
    ghost predicate StoppedUnwinding(i: nat)
      reads this
    {
      && |trace| >= 2
      && (LastPc().UnwindRollback? || LastPc().WriteRolledBack?)
      && (LastPc().UnwindRollback? ==> row.status.LogStarted?)
      && (LastPc().WriteRolledBack? ==>
            forall k | 0 <= k < i && k < |row.participants| :: Settled(At(branches, row.participants[k])))
    }

    method CleanUp(i: nat, calm: bool) returns (ok: bool)
      requires Valid() && i < |row.participants| && pc == CleanEnd(i) && Unpromised(At(branches, row.participants[i]))
      modifies this`branches, this`pc, this`trace
      ensures Valid() && old(trace) <= trace && pc == UnwindFrom(i, false)
      ensures branches == old(branches)[row.participants[i] := At(branches, row.participants[i])]
      ensures ok ==> Settled(At(branches, row.participants[i]))
      ensures calm ==> ok
    {
      hide IsTrace, Driven;
      var p := row.participants[i];
      var _ := XaCall(XaEnd, p, calm, CleanRollback(i), CleanRollback(i));
      ok := XaCall(XaRollback, p, calm, UnwindFrom(i, false), UnwindFrom(i, false));
    }

    /** START of participant `i` failed but may have taken effect: clean it up ignoring the
        answers, then roll back what was started and log it.  `cleaned` is what the cleanup achieved,
        whatever was answered. */
    method GiveUp(i: nat, calm: bool) returns (ghost cleaned: bool)
      requires Valid() && i < |row.participants| && pc == CleanEnd(i) && row.status.LogStarted?
      requires Distinct(row.participants) && Unpromised(At(branches, row.participants[i]))
      requires forall k | i < k < |row.participants| :: At(branches, row.participants[k]).Absent?
      modifies this`row, this`branches, this`pc, this`trace
      ensures Valid() && old(trace) <= trace && pc == Idle
      ensures row == old(row) || row == Row(LogRolledBack, old(row).participants, Rollback)
      ensures row.status.LogRolledBack? ==> (cleaned <==> FullySettled(Now()))
      ensures StoppedUnwinding(i)
      ensures calm ==> row.status.LogRolledBack? && FullySettled(Now())
    {
      hide IsTrace, Driven, Serves, ServesCalm;
      var ps := row.participants;
      var _ := CleanUp(i, calm);
      cleaned := Settled(At(branches, ps[i]));
      var undone := Unwind(i, calm);
      if undone.Ok? {
        var _ := SetLog(LogRolledBack, Rollback, calm, Idle, Idle);
      }
    }

    method UnwindOne(i: nat, calm: bool) returns (ok: bool)
      requires Valid() && 0 < i <= |row.participants| && pc == UnwindFrom(i, false)
      modifies this`branches, this`pc, this`trace
      ensures Valid() && old(trace) <= trace
      ensures pc == if ok then UnwindFrom(i - 1, false) else Idle
      ensures branches == old(branches)[row.participants[i - 1] := At(branches, row.participants[i - 1])]
      ensures ok ==> Settled(At(branches, row.participants[i - 1]))
      ensures |trace| >= 2 && LastPc() == UnwindRollback(i, false)
      ensures calm ==> ok
    {
      hide IsTrace, Driven, TxInv;
      var p := row.participants[i - 1];
      PresentInv();
      UnwoundIsUncommitted(Now(), i);
      var _ := XaCall(XaEnd, p, calm, UnwindRollback(i, false), UnwindRollback(i, false));
      ok := XaCall(XaRollback, p, calm, UnwindFrom(i - 1, false), Idle);
    }

    /** The loop of `rollback_started`, `rollback`, `abort` and `recover_rollback`: END, ignoring
        the answer, then ROLLBACK, last participant first.  On success none of the participants
        below `left` has work left. */
    method Unwind(left: nat, calm: bool) returns (r: Result<Unit>)
      requires Valid() && left <= |row.participants| && pc == UnwindFrom(left, false)
      modifies this`branches, this`pc, this`trace
      ensures Valid() && old(trace) <= trace
      ensures pc == if r.Ok? then WriteRolledBack else Idle
      ensures r.Err? ==>
                && |trace| >= 2 && LastPc().UnwindRollback? && 0 < LastPc().left <= left
                && r.error == CallFailed(XaRollback, row.participants[LastPc().left - 1])
      ensures r.Ok? ==> forall k | 0 <= k < left :: Settled(At(branches, row.participants[k]))
      ensures forall k | left <= k < |row.participants| ::
                At(branches, row.participants[k]) == old(At(branches, row.participants[k]))
      ensures calm ==> r.Ok?
    {
      hide IsTrace, Driven, TxInv, Serves, ServesCalm, Pending;
      var ps := row.participants;
      PresentInv();
      TxInvNames(Now());
      var i := left;
      while i > 0
        invariant 0 <= i <= left
        invariant Valid() && old(trace) <= trace && pc == UnwindFrom(i, false)
        invariant forall k | i <= k < left :: Settled(At(branches, ps[k]))
        invariant forall k | left <= k < |ps| :: At(branches, ps[k]) == old(At(branches, ps[k]))
      {
        var ok := UnwindOne(i, calm);
        if !ok {
          return Err(CallFailed(XaRollback, ps[i - 1]));
        }
        i := i - 1;
      }
      return Ok(Unit);
    }

    // ---- commit ---------------------------------------------------------------------------

    /** `commit`.  Success means committed everywhere.  A failed COMMIT leaves the row committing;
        a failed END or PREPARE leads to the rollback side and never past it, and to its end if
        nothing fails there (`steady`).  After any error, a failed log write included, the row is left
        to recovery or is final and fully carried out.  Errors name the call that failed.  Without
        call failures a transaction whose branches are all open commits. */
    method CommitTx(calm: bool, steady: bool) returns (r: Result<Unit>)
      requires Valid() && pc == Held
      modifies this`row, this`branches, this`pc, this`trace
      ensures Valid() && old(trace) <= trace && pc == Idle && row.participants == old(row.participants)
      ensures r.Ok? ==> row.status.LogCommitted? && FullyCommitted(Now())
      ensures r.Err? && r.error.CallFailed? && r.error.cmd.XaCommit? ==> row.status.LogCommitting?
      ensures r.Err? && r.error.CallFailed? && !r.error.cmd.XaCommit? ==>
                row.status.LogRolledBack? && FullySettled(Now())
      ensures r.Err? && r.error.AbortFailed? ==> row.status.LogRollingBack?
      ensures InHand(Now())
      ensures |trace| >= 2 && EndedWith(r)
      ensures r.Err? && r.error.CallFailed? && !r.error.cmd.XaCommit? ==> TurnedBackFor(r.error, |old(trace)|)
      ensures steady && UndoPc(LastPc()) ==> r.Err? && r.error.CallFailed? && !r.error.cmd.XaCommit?
      ensures calm && (forall p | p in row.participants :: Open(old(At(branches, p)))) ==> r.Ok?
    {
      hide IsTrace, Driven, TxInv, Serves, ServesCalm, Pending, InHand, FullyCommitted, FullySettled, TurnedBackFor;
      PresentInv();
      TxInvNames(Now());
      Choose(CommitCheck);
      r := CheckCommit(calm);
      StartedIsInHand(Now());
      if r.Err? || row.status.LogCommitted? {
        return;
      }
      ghost var before := trace;
      r := Drive(calm, steady);
      if r.Err? && r.error.CallFailed? && !r.error.cmd.XaCommit? {
        TurnedBackEarlier(r.error, |before|, |old(trace)|);
      }
    }

    /** Where an abort or a rollback stops. */
    static ghost predicate UndoPc(pc: Pc) {
      pc.WriteRollingBack? || pc.UnwindRollback? || pc.WriteRolledBack?
    }

    /** The last await explains the result of `commit`. */
    ghost predicate EndedWith(r: Result<Unit>)
      requires |trace| >= 2
      reads this
    {
      var ps, last := row.participants, LastPc();
      match r
      case Ok(_) => last.WriteCommitted? || last.CommitCheck?
      case Err(CallFailed(cmd, p)) =>
        if cmd.XaCommit? then last.Committing? && last.i < |ps| && p == ps[last.i] else last.WriteRolledBack?
      case Err(AbortFailed(p)) => last.UnwindRollback? && 0 < last.left <= |ps| && p == ps[last.left - 1]
      case Err(DatabaseFailed) => !last.UnwindRollback? && !last.Committing?
      case Err(WasRolledBack) => last.CommitCheck?
      case _ => false
    }

    /** Since `from` the code turned back because this call failed. */
    ghost predicate TurnedBackFor(error: Error, from: nat)
      requires error.CallFailed?
      reads this
    {
      exists k :: from <= k < |trace| && 0 < k && TurnsBack(row.participants, trace[k - 1].pc, trace[k].pc, error)
    }

    lemma TurnedBackEarlier(error: Error, later: nat, from: nat)
      requires error.CallFailed? && from <= later && TurnedBackFor(error, later)
      ensures TurnedBackFor(error, from)
    {
    }

    static ghost predicate TurnsBack(ps: seq<Name>, pc: Pc, pc': Pc, error: Error)
      requires error.CallFailed?
    {
      && pc'.WriteRollingBack?
      && ((pc.Ending? && error.cmd.XaEnd?) || (pc.Preparing? && error.cmd.XaPrepare?))
      && pc.i < |ps| && error.p == ps[pc.i]
    }

    /** `commit` after its status query. */
    method Drive(calm: bool, steady: bool) returns (r: Result<Unit>)
      requires Valid() && pc ==
                 Ending(0) && row.status.LogStarted? && 0 < |row.participants| && Distinct(row.participants)
      modifies this`row, this`branches, this`pc, this`trace
      ensures Valid() && old(trace) <= trace && pc == Idle && row.participants == old(row.participants)
      ensures r.Ok? ==> row.status.LogCommitted? && FullyCommitted(Now())
      ensures r.Err? && r.error.CallFailed? && r.error.cmd.XaCommit? ==> row.status.LogCommitting?
      ensures r.Err? && r.error.CallFailed? && !r.error.cmd.XaCommit? ==>
                row.status.LogRolledBack? && FullySettled(Now())
      ensures r.Err? && r.error.AbortFailed? ==> row.status.LogRollingBack?
      ensures InHand(Now())
      ensures |trace| >= 2 && EndedWith(r)
      ensures r.Err? && r.error.CallFailed? && !r.error.cmd.XaCommit? ==> TurnedBackFor(r.error, |old(trace)|)
      ensures steady && UndoPc(LastPc()) ==> r.Err? && r.error.CallFailed? && !r.error.cmd.XaCommit?
      ensures calm && (forall p | p in row.participants :: Open(old(At(branches, p)))) ==> r.Ok?
    {
      hide IsTrace, Driven, TxInv, Serves, ServesCalm, Pending, InHand, FullyCommitted, FullySettled;
      var failed := EndAll(calm);
      if failed.Ok? {
        failed := PrepareAll(calm);
      }
      if failed.Err? {
        ghost var k := |trace| - 1;
        assert TurnsBack(row.participants, trace[k - 1].pc, trace[k].pc, failed.error);
        r := Abort(failed.error, steady);
        assert TurnsBack(row.participants, trace[k - 1].pc, trace[k].pc, failed.error);
        return;
      }
      r := Decide(calm);
    }

    /** The status query of `commit`: a finished transaction is reported, not driven again. */
    method CheckCommit(calm: bool) returns (r: Result<Unit>)
      requires Valid() && pc == CommitCheck
      modifies this`pc, this`trace
      ensures Valid() && trace == old(trace) + [Now()] && LastPc() == CommitCheck
      ensures r.Ok? && row.status.LogCommitted? ==> pc == Idle && FullyCommitted(Now())
      ensures r.Ok? && !row.status.LogCommitted? ==> pc == Ending(0)
      ensures r.Err? ==> pc == Idle && (r.error == DatabaseFailed || r.error == WasRolledBack)
      ensures r.Err? ==> !calm || row.status.LogRolledBack?
    {
      hide IsTrace, Driven, TxInv;
      var ok, status := ReadLog(calm, Ending(0));
      if !ok {
        return Err(DatabaseFailed);
      }
      if status.LogCommitted? {
        PresentInv();
        CommittedRowIsFullyCommitted(Now());
      } else if status.LogRolledBack? {
        return Err(WasRolledBack);
      }
      return Ok(Unit);
    }

    method EndAll(calm: bool) returns (r: Result<Unit>)
      requires Valid() && pc == Ending(0) && 0 < |row.participants|
      modifies this`branches, this`pc, this`trace
      ensures Valid() && old(trace) <= trace
      ensures r.Ok? ==> pc == Preparing(0)
      ensures r.Err? ==>
                && pc == WriteRollingBack && |trace| > |old(trace)| && |trace| >= 2
                && LastPc().Ending? && LastPc().i < |row.participants|
                && r.error == CallFailed(XaEnd, row.participants[LastPc().i])
      ensures calm && (forall p | p in row.participants :: Open(old(At(branches, p)))) ==>
                r.Ok? && forall p | p in row.participants :: Open(At(branches, p))
    {
      hide IsTrace, Driven;
      var ps := row.participants;
      for i := 0 to |ps|
        invariant Valid() && old(trace) <= trace
        invariant pc == if i < |ps| then Ending(i) else Preparing(0)
        invariant calm && (forall p | p in ps :: Open(old(At(branches, p)))) ==>
                    forall p | p in ps :: Open(At(branches, p))
      {
        var ok := XaCall(XaEnd, ps[i], calm, if i + 1 < |ps| then Ending(i + 1) else Preparing(0), WriteRollingBack);
        if !ok {
          return Err(CallFailed(XaEnd, ps[i]));
        }
      }
      return Ok(Unit);
    }

    method PrepareAll(calm: bool) returns (r: Result<Unit>)
      requires Valid() && pc == Preparing(0) && 0 < |row.participants| && Distinct(row.participants)
      modifies this`branches, this`pc, this`trace
      ensures Valid() && old(trace) <= trace
      ensures r.Ok? ==> pc == WritePrepared && forall p | p in row.participants :: At(branches, p).Prepared?
      ensures r.Err? ==>
                && pc == WriteRollingBack && |trace| > |old(trace)| && |trace| >= 2
                && LastPc().Preparing? && LastPc().i < |row.participants|
                && r.error == CallFailed(XaPrepare, row.participants[LastPc().i])
      ensures calm && (forall p | p in row.participants :: Open(old(At(branches, p)))) ==> r.Ok?
    {
      hide IsTrace, Driven;
      var ps := row.participants;
      for i := 0 to |ps|
        invariant Valid() && old(trace) <= trace
        invariant pc == if i < |ps| then Preparing(i) else WritePrepared
        invariant forall k | 0 <= k < i :: At(branches, ps[k]).Prepared?
        invariant forall k | i <= k < |ps| :: At(branches, ps[k]) == old(At(branches, ps[k]))
      {
        var ok := XaCall(XaPrepare, ps[i], calm, if i + 1 < |ps| then Preparing(i + 1) else WritePrepared,
            WriteRollingBack);
        if !ok {
          return Err(CallFailed(XaPrepare, ps[i]));
        }
      }
      return Ok(Unit);
    }

    /** The decision is logged, then carried out. */
    method Decide(calm: bool) returns (r: Result<Unit>)
      requires Valid() && pc == WritePrepared && 0 < |row.participants| && row.status.LogStarted?
      modifies this`row, this`branches, this`pc, this`trace
      ensures Valid() && old(trace) <= trace && pc == Idle && row.participants == old(row.participants)
      ensures r.Ok? ==> row.status.LogCommitted? && FullyCommitted(Now())
      ensures r.Err? ==>
                r.error == DatabaseFailed || (r.error.CallFailed? && r.error.cmd.XaCommit? && row.status.LogCommitting?)
      ensures |trace| >= 2 && EndedWith(r) && !UndoPc(LastPc())
      ensures InHand(Now())
      ensures calm ==> r.Ok?
    {
      hide IsTrace, Driven, TxInv, FullyCommitted, FullySettled;
      var ok := LogDecision(calm);
      if !ok {
        return Err(DatabaseFailed);
      }
      r := CommitAll(calm);
      if r.Err? {
        return;
      }
      ok := SetLog(LogCommitted, Commit, calm, Idle, Idle);
      if row.status.LogCommitted? {
        PresentInv();
        CommittedRowIsFullyCommitted(Now());
      }
      return if ok then Ok(Unit) else Err(DatabaseFailed);
    }

    /** First that everything is prepared, then that it is to be committed. */
    method LogDecision(calm: bool) returns (ok: bool)
      requires Valid() && pc == WritePrepared && row.status.LogStarted?
      modifies this`row, this`pc, this`trace
      ensures Valid() && old(trace) <= trace && row.participants == old(row.participants)
      ensures |trace| >= 2 && (LastPc().WritePrepared? || LastPc().WriteCommitting?)
      ensures pc == if ok then Committing(0) else Idle
      ensures ok ==> row.status.LogCommitting? && LastPc().WriteCommitting?
      ensures Recoverable(row)
      ensures calm ==> ok
    {
      hide IsTrace, Driven;
      ok := SetLog(LogPrepared, Undecided, calm, WriteCommitting, Idle);
      if ok {
        ok := SetLog(LogCommitting, Commit, calm, Committing(0), Idle);
      }
    }

    method CommitAll(calm: bool) returns (r: Result<Unit>)
      requires Valid() && pc == Committing(0) && row.status.LogCommitting? && 0 < |row.participants|
      modifies this`branches, this`pc, this`trace
      ensures Valid() && old(trace) <= trace
      ensures r.Ok? ==> pc == WriteCommitted
      ensures r.Err? ==>
                && pc == Idle && |trace| >= 2 && LastPc().Committing? && LastPc().i < |row.participants|
                && r.error == CallFailed(XaCommit, row.participants[LastPc().i])
      ensures calm ==> r.Ok?
    {
      hide IsTrace, Driven, TxInv;
      var ps := row.participants;
      for i := 0 to |ps|
        invariant Valid() && old(trace) <= trace
        invariant pc == if i < |ps| then Committing(i) else WriteCommitted
      {
        PresentInv();
        CommittableIsNotOpen(Now(), i);
        var ok := XaCall(XaCommit, ps[i], calm, if i + 1 < |ps| then Committing(i + 1) else WriteCommitted, Idle);
        if !ok {
          return Err(CallFailed(XaCommit, ps[i]));
        }
      }
      return Ok(Unit);
    }

    // ---- rollback -------------------------------------------------------------------------

    /** `rollback`.  Success means that the row is final and no branch keeps work; a failed call
        leaves a row that recovery will roll back, and a failed log write leaves the row to recovery
        or final and fully carried out. */
    method RollbackTx(calm: bool) returns (r: Result<Unit>)
      requires Valid() && pc == Held
      modifies this`row, this`branches, this`pc, this`trace
      ensures Valid() && old(trace) <= trace && pc == Idle && row.participants == old(row.participants)
      ensures r.Ok? ==> row.status.LogRolledBack? && FullySettled(Now())
      ensures r.Err? && r.error.CallFailed? ==> row.status.LogRollingBack?
      ensures InHand(Now())
      ensures calm ==> r.Ok?
    {
      hide IsTrace, Driven, TxInv, Pending;
      PresentInv();
      TxInvNames(Now());
      Choose(RollbackCheck);
      var ok, status := ReadRollback(calm);
      if !ok {
        return Err(DatabaseFailed);
      }
      if status.LogRolledBack? {
        return Ok(Unit);
      }
      if status.LogCommitted? {
        return Err(WasCommitted);
      }
      r := Undo(calm);
    }

    method ReadRollback(calm: bool) returns (ok: bool, status: Status)
      requires Valid() && pc == RollbackCheck
      modifies this`pc, this`trace
      ensures Valid() && old(trace) <= trace
      ensures ok ==> status == row.status
      ensures pc == if ok && !status.LogCommitted? && !status.LogRolledBack? then WriteRollingBack else Idle
      ensures calm ==> ok
    {
      hide IsTrace, Driven;
      ok, status := ReadLog(calm, WriteRollingBack);
    }

    /** The common tail of `rollback` and `abort`: log the intent, unwind, log the outcome. */
    method Undo(calm: bool) returns (r: Result<Unit>)
      requires Valid() && pc == WriteRollingBack && row.status.LogStarted?
      modifies this`row, this`branches, this`pc, this`trace
      ensures Valid() && old(trace) <= trace && pc == Idle && row.participants == old(row.participants)
      ensures r.Ok? ==> row.status.LogRolledBack? && FullySettled(Now())
      ensures r.Err? ==>
                || r.error == DatabaseFailed
                || (r.error.CallFailed? && r.error.cmd.XaRollback? && row.status.LogRollingBack?)
      ensures |trace| >= 2 && UndoPc(LastPc())
      ensures r.Ok? ==> LastPc().WriteRolledBack?
      ensures r.Err? && r.error == DatabaseFailed ==> !LastPc().UnwindRollback?
      ensures r.Err? && r.error.CallFailed? ==>
                && LastPc().UnwindRollback? && 0 < LastPc().left <= |row.participants|
                && r.error.p == row.participants[LastPc().left - 1]
      ensures InHand(Now())
      ensures calm ==> r.Ok?
    {
      hide IsTrace, Driven;
      var n := |row.participants|;
      var ok := SetLog(LogRollingBack, Rollback, calm, UnwindFrom(n, false), Idle);
      if !ok {
        return Err(DatabaseFailed);
      }
      r := Unwind(n, calm);
      if r.Err? {
        return;
      }
      ok := SetLog(LogRolledBack, Rollback, calm, Idle, Idle);
      if !ok {
        return Err(DatabaseFailed);
      }
    }

    /** `abort`: undo, then report why the commit failed. */
    method Abort(original: Error, calm: bool) returns (r: Result<Unit>)
      requires Valid() && pc ==
                 WriteRollingBack && row.status.LogStarted? && original.CallFailed? && !original.cmd.XaCommit?
      modifies this`row, this`branches, this`pc, this`trace
      ensures Valid() && old(trace) <= trace && pc == Idle && row.participants == old(row.participants)
      ensures r.Err? && (r.error == original || r.error.AbortFailed? || r.error == DatabaseFailed)
      ensures r.error == original ==> row.status.LogRolledBack? && FullySettled(Now())
      ensures r.error.AbortFailed? ==> row.status.LogRollingBack?
      ensures |trace| >= 2 && EndedWith(r) && UndoPc(LastPc())
      ensures InHand(Now())
      ensures calm ==> r.error == original
    {
      hide IsTrace, Driven, Pending;
      var undone := Undo(calm);
      match undone
      case Ok(_) => return Err(original);
      case Err(DatabaseFailed) => return Err(DatabaseFailed);
      case Err(CallFailed(_, p)) => return Err(AbortFailed(p));
    }

    // ---- recovery of one row --------------------------------------------------------------

    method ReplayOne(i: nat, calm: bool) returns (ok: bool)
      requires Valid() && i < |row.participants| && pc == ReplayCheck(i) && ShouldCommit(row)
      modifies this`branches, this`pc, this`trace
      ensures Valid() && old(trace) <= trace
      ensures pc == if ok then ReplayFrom(i + 1, |row.participants|, true) else Idle
      ensures forall p | p !in row.participants :: At(branches, p) == old(At(branches, p))
      ensures calm ==> ok
    {
      hide IsTrace, Driven, TxInv;
      var p := row.participants[i];
      PresentInv();
      CommittableIsNotOpen(Now(), i);
      var gone := AlreadyResolved(p, calm, ReplayCommit(i, true), ReplayFrom(i + 1, |row.participants|, true));
      if gone {
        return true;
      }
      ok := XaCall(XaCommit, p, calm, ReplayFrom(i + 1, |row.participants|, true), Idle);
    }

    /** `recover_commit`: skip participants that no longer list the xid, commit the others.  Without
        call failures the branches end as plain replay of the log would leave them. */
    method RecoverCommit(calm: bool) returns (ok: bool)
      requires Valid() && pc == ReplayEntry(row) && ShouldCommit(row)
      modifies this`row, this`branches, this`pc, this`trace
      ensures Valid() && old(trace) <= trace && pc == Idle
      ensures row == old(row) || (row == old(row).(status := LogCommitted, decision := Commit) && FullyCommitted(Now()))
      ensures ok ==> row.status.LogCommitted?
      ensures calm ==> ok
      ensures ok ==> forall p :: At(branches, p) == At(ReplayedCommit(old(branches), row.participants, false), p)
    {
      hide IsTrace, Driven, TxInv, Serves, ServesCalm, ReplayedCommit;
      PresentInv();
      TxInvNames(Now());
      ReplayOf(Now());
      var ps := row.participants;
      for i := 0 to |ps|
        invariant Valid() && old(trace) <= trace && row == old(row)
        invariant pc == ReplayFrom(i, |ps|, true)
        invariant forall p | p !in ps :: At(branches, p) == old(At(branches, p))
      {
        var done := ReplayOne(i, calm);
        if !done {
          return false;
        }
      }
      ok := SetLog(LogCommitted, Commit, calm, Idle, Idle);
      if row != old(row) {
        PresentInv();
        CommittedRowIsFullyCommitted(Now());
      }
    }

    /** `recover_rollback`.  No row that reaches it is cross-checked. */
    method RecoverRollback(calm: bool) returns (ok: bool)
      requires Valid() && pc == ReplayEntry(row) && Recoverable(row) && !ShouldCommit(row)
      modifies this`row, this`branches, this`pc, this`trace
      ensures Valid() && old(trace) <= trace && pc == Idle
      ensures row ==
                old(row) || (row == old(row).(status := LogRolledBack, decision := Rollback) && FullySettled(Now()))
      ensures ok ==> row.status.LogRolledBack?
      ensures calm ==> ok
    {
      hide IsTrace, Driven, TxInv;
      PresentInv();
      TxInvNames(Now());
      assert !CrossCheck(row);
      var r := Unwind(|row.participants|, calm);
      if r.Err? {
        return false;
      }
      ok := SetLog(LogRolledBack, Rollback, calm, Idle, Idle);
    }

    /** One turn of the recovery loop: a row with an unregistered participant is left alone. */
    method RecoverRow(registry: set<Name>, calm: bool) returns (ok: bool)
      requires Valid() && pc == Idle && Recoverable(row)
      modifies this`row, this`branches, this`pc, this`trace
      ensures Valid() && old(trace) <= trace && pc == Idle
      ensures Treated(old(Now()), Now(), registry, calm, ok)
      ensures Unregistered(old(row), registry) ==> !ok && Now() == old(Now())
    {
      hide IsTrace, Driven;
      if Unregistered(row, registry) {
        return false;
      }
      PickUp();
      if ShouldCommit(row) {
        ok := RecoverCommit(calm);
      } else {
        ok := RecoverRollback(calm);
      }
    }
  }

  /** `participants_for` finds no participant under some name of the row. */
  predicate Unregistered(row: Row, registry: set<Name>) {
    exists p :: p in row.participants && p !in registry
  }

  /** What a turn of the recovery loop may make of a transaction: nothing new in the log, or the outcome
      the log called for; the latter for certain if no call fails and every participant is known.  It
      counts as recovered only if it is final, and then for certain if no call fails. */
  ghost predicate Treated(before: Tx, after: Tx, registry: set<Name>, calm: bool, counted: bool) {
    && (after.row == before.row || Resolved(before.row, after))
    && (calm ==> (Recoverable(after.row) <==> Unregistered(before.row, registry)))
    && (counted ==> !Recoverable(after.row))
    && (calm && !Recoverable(after.row) ==> counted)
  }

  /** What recovery turns a row into: the outcome its log called for, in every branch. */
  ghost predicate Resolved(row: Row, t: Tx) {
    if ShouldCommit(row) then t.row == row.(status := LogCommitted, decision := Commit) && FullyCommitted(t)
    else t.row == row.(status := LogRolledBack, decision := Rollback) && FullySettled(t)
  }

  // ---- begin and the recovery pass ----------------------------------------------------------

  predicate Acceptable(names: seq<Name>, registry: set<Name>) {
    0 < |names| && Distinct(names) && forall p | p in names :: p in registry
  }

  /** What is wrong with the name at `i`, all before it being in order: a repetition is noticed first. */
  function Offence(names: seq<Name>, i: nat): Error
    requires i < |names|
  {
    if names[i] in names[..i] then DuplicateParticipant(names[i]) else NotRegistered(names[i])
  }

  /** The checks at the head of `begin`: they accept exactly the non-empty lists of distinct registered
      names and report the first name that offends. */
  method CheckParticipants(names: seq<Name>, registry: set<Name>) returns (r: Result<Unit>)
    ensures r.Ok? <==> Acceptable(names, registry)
    ensures names == [] <==> r == Err(NoParticipants)
    ensures r.Err? && names != [] ==>
              exists i :: 0 <= i < |names| && (i > 0 ==> Acceptable(names[..i], registry)) && r.error ==
                  Offence(names, i)
                          && (names[i] in names[..i] || names[i] !in registry)
  {
    if names == [] {
      return Err(NoParticipants);
    }
    var seen: set<Name> := {};
    for i := 0 to |names|
      invariant seen == set p | p in names[..i]
      invariant i > 0 ==> Acceptable(names[..i], registry)
    {
      assert names[..i + 1] == names[..i] + [names[i]];
      if names[i] in seen {
        assert Offence(names, i) == DuplicateParticipant(names[i]);
        assert !Distinct(names) by {
          RepetitionShows(names, i);
        }
        return Err(DuplicateParticipant(names[i]));
      }
      seen := seen + {names[i]};
      if names[i] !in registry {
        assert Offence(names, i) == NotRegistered(names[i]);
        return Err(NotRegistered(names[i]));
      }
    }
    assert names[..|names|] == names;
    return Ok(Unit);
  }

  lemma RepetitionShows(names: seq<Name>, i: nat)
    requires i < |names| && names[i] in names[..i]
    ensures !Distinct(names)
  {
    var k :| 0 <= k < i && names[..i][k] == names[i];
    assert names[k] == names[i];
  }

  /** How the insert of the log row ends: not at all, without an answer, or well. */
  datatype Insertion = Refused | Unanswered | Inserted

  /** `begin`.  `tx` is the row it leaves in the log, if any; the caller holds the transaction only on
      success, and then every branch is active.  A START that fails is named in the error, and what
      was started is undone as `StartAll` says. */
  method Begin(names: seq<Name>, registry: set<Name>, insertion: Insertion, calm: bool, steady: bool)
    returns (r: Result<Unit>, tx: Transaction?, ghost cleaned: bool)
    ensures !Acceptable(names, registry) ==> r.Err? && tx == null && !r.error.DatabaseFailed? && !r.error.CallFailed?
    ensures Acceptable(names, registry) && !insertion.Inserted? ==> r == Err(DatabaseFailed)
    ensures Acceptable(names, registry) ==> (tx == null <==> insertion.Refused?)
    ensures tx != null ==> fresh(tx) && tx.Valid() && tx.since == 0 && tx.row.participants == names
    ensures tx != null && insertion.Unanswered? ==> tx.Now() == Tx(Row(LogStarted, names, Undecided), map[], Idle)
    ensures tx != null && insertion.Inserted? ==> r.Ok? || (r.error.CallFailed? && r.error.cmd.XaStart?)
    ensures r.Ok? ==> tx != null && tx.pc == Held && tx.row.status.LogStarted?
    ensures r.Ok? ==> forall p | p in names :: At(tx.branches, p).Active?
    ensures r.Err? && r.error.CallFailed? ==>
              && tx != null && tx.pc == Idle && (tx.row.status.LogStarted? || tx.row.status.LogRolledBack?)
              && (tx.row.status.LogRolledBack? ==> (cleaned <==> FullySettled(tx.Now())))
              && (steady ==> tx.row.status.LogRolledBack? && FullySettled(tx.Now()))
              && (exists i: nat :: i < |names| && r.error.p == names[i] && tx.StoppedUnwinding(i)
                                   && exists k :: 0 <= k < |tx.trace| && tx.trace[k].pc == CleanEnd(i))
    ensures calm && insertion.Inserted? && Acceptable(names, registry) ==> r.Ok?
  {
    hide IsTrace, Driven, TxInv, FullySettled;
    tx, cleaned := null, false;
    r := CheckParticipants(names, registry);
    if r.Err? {
      return;
    }
    if insertion.Refused? {
      return Err(DatabaseFailed), tx, cleaned;
    }
    tx := new Transaction(names, insertion.Inserted?);
    if insertion.Unanswered? {
      return Err(DatabaseFailed), tx, cleaned;
    }
    var failedAt;
    failedAt, cleaned := tx.StartAll(calm, steady);
    if failedAt < |names| {
      return Err(CallFailed(XaStart, names[failedAt])), tx, cleaned;
    }
  }

  predicate AllDistinct(table: seq<Transaction>) {
    forall i, j | 0 <= i < j < |table| :: table[i] != table[j]
  }

  /** The rows the recovery query selects, in table order. */
  method RecoverableLogs(table: seq<Transaction>) returns (rows: seq<Transaction>)
    requires AllDistinct(table)
    ensures AllDistinct(rows)
    ensures forall t :: t in rows <==> t in table && Recoverable(t.row)
  {
    rows := [];
    for i := 0 to |table|
      invariant AllDistinct(rows)
      invariant forall t :: t in rows <==> t in table[..i] && Recoverable(t.row)
    {
      assert table[..i + 1] == table[..i] + [table[i]];
      if Recoverable(table[i].row) {
        assert table[i] !in rows;
        rows := rows + [table[i]];
      }
    }
    assert table[..|table|] == table;
  }

  function Count(marks: seq<bool>): nat {
    if marks == [] then 0 else Count(marks[..|marks| - 1]) + if marks[|marks| - 1] then 1 else 0
  }

  ghost function Marked(marks: seq<bool>): set<int> {
    set k | 0 <= k < |marks| && marks[k]
  }

  lemma {:induction false} CountIsCardinality(marks: seq<bool>)
    ensures |Marked(marks)| == Count(marks)
    decreases |marks|
  {
    if marks != [] {
      var n := |marks| - 1;
      CountIsCardinality(marks[..n]);
      assert Marked(marks) == if marks[n] then Marked(marks[..n]) + {n} else Marked(marks[..n]);
    }
  }

  lemma SubsetIsSmaller(a: set<int>, b: set<int>)
    requires a <= b
    ensures |a| <= |b|
  {
    assert b == a + (b - a);
  }

  /** The rows that are final. */
  ghost function Final(after: seq<Tx>): set<int> {
    set k | 0 <= k < |after| && (after[k].row.status.LogCommitted? || after[k].row.status.LogRolledBack?)
  }

  /** The rows none of whose own calls fails and all of whose participants are known. */
  ghost function Sure(before: seq<Tx>, quiet: seq<bool>, registry: set<Name>): set<int>
    requires |quiet| == |before|
  {
    set k | 0 <= k < |before| && quiet[k] && forall p | p in before[k].row.participants :: p in registry
  }

  /** What the rows went through: each treated, and the recovered ones counted. */
  ghost predicate Pass(before: seq<Tx>, after: seq<Tx>, quiet: seq<bool>, registry: set<Name>, counted: seq<bool>) {
    && |before| == |after| == |quiet| == |counted|
    && forall k | 0 <= k < |before| :: Treated(before[k], after[k], registry, quiet[k], counted[k])
  }

  /** The count of recovered rows is at least the number of rows sure to be resolved and at most the
      number of final rows, and it is both when no call fails. */
  lemma CountsAreRight(before: seq<Tx>, after: seq<Tx>, quiet: seq<bool>, registry: set<Name>, counted: seq<bool>)
    requires Pass(before, after, quiet, registry, counted)
    ensures |Sure(before, quiet, registry)| <= Count(counted) <= |Final(after)|
    ensures (forall k | 0 <= k < |quiet| :: quiet[k]) ==> Sure(before, quiet, registry) == Final(after)
    ensures Count(counted) == |counted| ==> forall k | 0 <= k < |after| :: !Recoverable(after[k].row)
  {
    hide Treated, Count;
    forall k | 0 <= k < |before|
      ensures k in Sure(before, quiet, registry) ==> counted[k]
      ensures counted[k] ==> k in Final(after) && !Recoverable(after[k].row)
      ensures quiet[k] && k in Final(after) ==> k in Sure(before, quiet, registry)
    {
      TreatedMeans(before[k], after[k], registry, quiet[k], counted[k]);
    }
    CountIsCardinality(counted);
    SubsetIsSmaller(Sure(before, quiet, registry), Marked(counted));
    SubsetIsSmaller(Marked(counted), Final(after));
    if Count(counted) == |counted| {
      AllCounted(counted);
    }
  }

  lemma TreatedMeans(before: Tx, after: Tx, registry: set<Name>, calm: bool, counted: bool)
    requires Treated(before, after, registry, calm, counted)
    ensures counted ==> after.row.status.LogCommitted? || after.row.status.LogRolledBack?
    ensures counted ==> !Recoverable(after.row)
    ensures calm && (forall p | p in before.row.participants :: p in registry) ==> counted
    ensures calm && (after.row.status.LogCommitted? || after.row.status.LogRolledBack?) ==>
              forall p | p in before.row.participants :: p in registry
  {
    hide Resolved;
  }

  lemma {:induction false} AllCounted(marks: seq<bool>)
    requires Count(marks) == |marks|
    ensures forall k | 0 <= k < |marks| :: marks[k]
    decreases |marks|
  {
    if marks != [] {
      CountAtMost(marks[..|marks| - 1]);
      AllCounted(marks[..|marks| - 1]);
    }
  }

  lemma {:induction false} CountAtMost(marks: seq<bool>)
    ensures Count(marks) <= |marks|
    decreases |marks|
  {
    if marks != [] {
      CountAtMost(marks[..|marks| - 1]);
    }
  }

  /** The loop of `recover_locked` over the selected rows.  `calm` are the rows none of whose own calls
      and log writes fails; `counted` tells which rows are reported as recovered. */
  method RecoverRows(rows: seq<Transaction>, registry: set<Name>, calm: set<Transaction>)
    returns (report: Report, ghost counted: seq<bool>)
    requires AllDistinct(rows)
    requires forall k | 0 <= k < |rows| :: rows[k].Valid() && rows[k].pc == Idle && Recoverable(rows[k].row)
    modifies rows
    ensures forall k | 0 <= k < |rows| ::
              rows[k].Valid() && rows[k].pc == Idle && old(rows[k].trace) <= rows[k].trace
    ensures forall k | 0 <= k < |rows| :: rows[k].since == old(rows[k].since)
    ensures |counted| == |rows| && report.recovered == Count(counted) && report.failed == |rows| - report.recovered
    ensures forall k | 0 <= k < |rows| ::
              Treated(old(rows[k].Now()), rows[k].Now(), registry, rows[k] in calm, counted[k])
  {
    hide IsTrace, Driven, TxInv, Treated, Recoverable, Unregistered, Count;
    report, counted := Report(0, 0), [];
    CountNone();
    for i := 0 to |rows|
      invariant forall k | 0 <= k < |rows| ::
                  rows[k].Valid() && rows[k].pc == Idle && old(rows[k].trace) <= rows[k].trace
      invariant forall k | 0 <= k < |rows| :: rows[k].since == old(rows[k].since)
      invariant forall k | i <= k < |rows| :: rows[k].Now() == old(rows[k].Now())
      invariant |counted| == i && report.recovered == Count(counted) && report.failed == i - report.recovered
      invariant forall k | 0 <= k < i ::
                  Treated(old(rows[k].Now()), rows[k].Now(), registry, rows[k] in calm, counted[k])
    {
      var ok := rows[i].RecoverRow(registry, rows[i] in calm);
      CountOne(counted, ok);
      if ok {
        report := report.(recovered := report.recovered + 1);
      } else {
        report := report.(failed := report.failed + 1);
      }
      counted := counted + [ok];
    }
  }

  lemma CountNone()
    ensures Count([]) == 0
  {
  }

  lemma CountOne(marks: seq<bool>, mark: bool)
    ensures Count(marks + [mark]) == Count(marks) + if mark then 1 else 0
  {
    assert (marks + [mark])[..|marks|] == marks;
  }

  ghost function States(rows: seq<Transaction>): seq<Tx>
    reads rows
  {
    seq(|rows|, k requires 0 <= k < |rows| reads rows => rows[k].Now())
  }

  ghost function Quiet(rows: seq<Transaction>, calm: set<Transaction>): seq<bool> {
    seq(|rows|, k requires 0 <= k < |rows| => rows[k] in calm)
  }

  /** `recover_locked`: every selected row counts once.  A row either keeps its state or gets the
      outcome its log calls for in every branch; rows not selected are untouched.  Rows do not depend
      on each other: one whose own calls do not fail is resolved, unless a participant is not
      registered, whatever happens to the others.  The number reported as recovered lies between that of
      the rows sure to be resolved and that of the rows now final, which are the same when no call fails. */
  method RecoverLocked(table: seq<Transaction>, registry: set<Name>, readable: bool, calm: set<Transaction>)
    returns (r: Result<Report>, ghost rows: seq<Transaction>, ghost before: seq<Tx>, ghost counted: seq<bool>)
    requires AllDistinct(table) && forall t | t in table :: t.Valid() && t.pc == Idle
    modifies table
    ensures forall t | t in table :: t.Valid() && t.pc == Idle && old(t.trace) <= t.trace && t.since == old(t.since)
    ensures AllDistinct(rows) && forall t :: t in rows <==> t in table && Recoverable(old(t.row))
    ensures forall t | t in table && t !in rows :: t.Now() == old(t.Now())
    ensures |before| == |rows| && forall k | 0 <= k < |rows| :: rows[k] in table && before[k] == old(rows[k].Now())
    ensures r.Ok? <==> readable
    ensures r.Err? ==> forall t | t in table :: t.Now() == old(t.Now())
    ensures r.Ok? ==> Pass(before, States(rows), Quiet(rows, calm), registry, counted)
    ensures r.Ok? ==> r.value.recovered == Count(counted) && r.value.failed == |rows| - Count(counted)
    ensures r.Ok? ==> |Sure(before, Quiet(rows, calm), registry)| <= r.value.recovered <= |Final(States(rows))|
    ensures r.Ok? && (forall t | t in rows :: t in calm) ==>
              Sure(before, Quiet(rows, calm), registry) == Final(States(rows))
  {
    hide IsTrace, Driven, TxInv, Treated, Recoverable, Unregistered, Count;
    var found := RecoverableLogs(table);
    rows, before, counted := found, States(found), [];
    assert forall k | 0 <= k < |found| :: found[k] in found;
    if !readable {
      return Err(DatabaseFailed), rows, before, counted;
    }
    var report;
    report, counted := RecoverRows(found, registry, calm);
    hide Sure, Final;
    CountsAreRight(before, States(rows), Quiet(rows, calm), registry, counted);
    return Ok(report), rows, before, counted;
  }

  lemma FirstMember(rows: seq<Transaction>)
    ensures rows != [] ==> rows[0] in rows
  {
  }

  /** Recovery converges: a pass without call failures over registered participants resolves every
      row, so the next pass scans nothing, reports nothing and changes nothing, whatever fails then. */
  method RecoverConverges(table: seq<Transaction>, registry: set<Name>)
    returns (first: Result<Report>, second: Result<Report>, ghost between: seq<Tx>, ghost again: seq<Transaction>)
    requires AllDistinct(table) && forall t | t in table :: t.Valid() && t.pc == Idle
    requires forall t, p | t in table && p in t.row.participants :: p in registry
    modifies table
    ensures first.Ok? && first.value.failed == 0 && again == [] && second == Ok(Report(0, 0))
    ensures |between| == |table| && forall k | 0 <= k < |table| :: table[k].Now() == between[k]
    ensures forall t | t in table :: t.Valid() && (t.row.status.LogCommitted? || t.row.status.LogRolledBack?)
    ensures forall t | t in table && Recoverable(old(t.row)) :: Resolved(old(t.row), t.Now())
  {
    hide IsTrace, Driven, TxInv, FullyCommitted, FullySettled, Count, Pass, Sure, Final;
    ghost var rows, before, counted;
    first, rows, before, counted := RecoverLocked(table, registry, true, set t | t in table);
    CalmPass(before, States(rows), Quiet(rows, set t | t in table), registry, counted);
    assert forall t | t in table :: !Recoverable(t.row) by {
      forall t | t in table
        ensures !Recoverable(t.row)
      {
        if t in rows {
          var k :| 0 <= k < |rows| && rows[k] == t;
          assert States(rows)[k] == t.Now();
        }
      }
    }
    assert forall t | t in table && Recoverable(old(t.row)) :: Resolved(old(t.row), t.Now()) by {
      forall t | t in table && Recoverable(old(t.row))
        ensures Resolved(old(t.row), t.Now())
      {
        var k :| 0 <= k < |rows| && rows[k] == t;
        assert before[k] == old(t.Now()) && States(rows)[k] == t.Now();
      }
    }
    between := States(table);
    second, again, before, counted := RecoverLocked(table, registry, true, {});
    FirstMember(again);
    CountNothing(before, States(again), Quiet(again, {}), registry, counted);
  }

  lemma CountNothing(before: seq<Tx>, after: seq<Tx>, quiet: seq<bool>, registry: set<Name>, counted: seq<bool>)
    requires Pass(before, after, quiet, registry, counted) && before == []
    ensures Count(counted) == 0
  {
  }

  /** A pass in which nothing fails resolves and counts every row with registered participants. */
  lemma CalmPass(before: seq<Tx>, after: seq<Tx>, quiet: seq<bool>, registry: set<Name>, counted: seq<bool>)
    requires Pass(before, after, quiet, registry, counted) && forall k | 0 <= k < |quiet| :: quiet[k]
    requires forall k | 0 <= k < |before| :: Recoverable(before[k].row)
    requires forall k, p | 0 <= k < |before| && p in before[k].row.participants :: p in registry
    ensures Count(counted) == |before|
    ensures forall k | 0 <= k < |after| :: !Recoverable(after[k].row) && Resolved(before[k].row, after[k])
  {
    hide Resolved, Count;
    forall k | 0 <= k < |before|
      ensures counted[k] && !Recoverable(after[k].row) && Resolved(before[k].row, after[k])
    {
      assert Treated(before[k], after[k], registry, quiet[k], counted[k]);
      assert !Unregistered(before[k].row, registry);
    }
    CountAll(counted);
  }

  lemma {:induction false} CountAll(marks: seq<bool>)
    requires forall k | 0 <= k < |marks| :: marks[k]
    ensures Count(marks) == |marks|
    decreases |marks|
  {
    if marks != [] {
      CountAll(marks[..|marks| - 1]);
    }
  }
}
