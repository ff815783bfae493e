/** The sqlx participant: one pinned connection per transaction, MySQL or PostgreSQL behind it.  A
    connection that fails is gone, and an unprepared branch goes with it; a statement the database refuses
    leaves both alone.  Each command is shown to be one the protocol allows. */
module XaParticipant {
  import opened TwoPhaseProtocol
  import opened TwoPhaseTheorems
  import opened TwoPhaseCleanup

  datatype Dialect = MySql | Postgres

  /** A connection held for one transaction: without a transaction, inside one, inside a PostgreSQL block in
      which a statement has failed, or broken. */
  datatype Session = Free | Working | FailedBlock | Dead

  datatype Pinned = Pinned(session: Session, prepared: bool)

  datatype Statement = Begin | End | Prepare | CommitPrepared | RollbackPrepared | RollbackWork

  datatype Reply = Done | NotFound | Refused | Lost

  datatype Effect = Effect(session: Session, branch: Branch, reply: Reply)

  // ---- the databases ----------------------------------------------------------------------------------------

  /** MySQL's XA statements on a live connection, as its manual gives the XA states.  RollbackPrepared
      stands for XA ROLLBACK, which also ends an idle branch of its own connection. */
  function MySqlAnswer(statement: Statement, session: Session, branch: Branch): Effect {
    var refused := Effect(session, branch, if Unknown(branch) then NotFound else Refused);
    match statement
    case Begin => if Unknown(branch) then Effect(Working, Active, Done) else refused
    case End => if session.Working? && branch.Active? then Effect(Working, Ended, Done) else refused
    case Prepare => if session.Working? && branch.Ended? then Effect(Free, Prepared, Done) else refused
    case CommitPrepared => if branch.Prepared? then Effect(Free, Committed, Done) else refused
    case RollbackPrepared =>
      if branch.Prepared? || (session.Working? && branch.Ended?) then Effect(Free, RolledBack, Done) else refused
    case RollbackWork => refused
  }

  /** PostgreSQL's: PREPARE TRANSACTION outside a block, or in a failed one, does not prepare anything and
      still is not an error. */
  function PostgresAnswer(statement: Statement, session: Session, branch: Branch): Effect {
    match statement
    case Begin => Effect(Working, Active, Done)
    case End => Effect(session, branch, Done)
    case Prepare =>
      if session.Working? then Effect(Free, Prepared, Done)
      else if session.FailedBlock? then Effect(Free, RolledBack, Done)
      else Effect(session, branch, Done)
    case CommitPrepared =>
      if !session.Free? then Effect(session, branch, Refused)
      else if branch.Prepared? then Effect(Free, Committed, Done)
      else Effect(session, branch, NotFound)
    case RollbackPrepared =>
      if !session.Free? then Effect(session, branch, Refused)
      else if branch.Prepared? then Effect(Free, RolledBack, Done)
      else Effect(session, branch, NotFound)
    case RollbackWork =>
      if session.Free? then Effect(session, branch, Done) else Effect(Free, RolledBack, Done)
  }

  function Answer(dialect: Dialect, statement: Statement, session: Session, branch: Branch): Effect {
    if dialect.MySql? then MySqlAnswer(statement, session, branch) else PostgresAnswer(statement, session, branch)
  }

  /** When the connection breaks, the branch loses what was not prepared. */
  function Orphaned(branch: Branch): Branch {
    if Open(branch) then RolledBack else branch
  }

  /** What one statement may do: be answered, or be lost with its connection before or after its effect. */
  predicate Executes(dialect: Dialect, statement: Statement, session: Session, branch: Branch, effect: Effect) {
    if session.Dead? then effect == Effect(Dead, branch, Lost)
    else
      var answer := Answer(dialect, statement, session, branch);
      || effect == answer
      || effect == Effect(Dead, Orphaned(branch), Lost)
      || effect == Effect(Dead, Orphaned(answer.branch), Lost)
  }

  /** A pinned connection is where its branch is: inside the transaction exactly while the branch is
      unprepared. */
  ghost predicate Consistent(dialect: Dialect, pinned: Pinned, branch: Branch) {
    && !branch.Absent?
    && match pinned.session
       case Working => Open(branch) && !pinned.prepared
       case FailedBlock => Open(branch) && !pinned.prepared && dialect.Postgres?
       case Free => !Open(branch) && pinned.prepared
       case Dead => !Open(branch)
  }

  /** PREPARE TRANSACTION would not be refused and yet prepare nothing. */
  predicate Hollow(dialect: Dialect, session: Session) {
    dialect.Postgres? && (session.FailedBlock? || session.Free?)
  }

  function RollbackStatement(dialect: Dialect, active: bool): Statement {
    if dialect.Postgres? && active then RollbackWork else RollbackPrepared
  }

  lemma EndServes(pinned: Pinned, branch: Branch, effect: Effect)
    requires EndsOn(pinned, branch, effect)
    ensures Consistent(MySql, pinned.(session := effect.session), effect.branch)
    ensures Serves(XaEnd, branch, effect.branch, effect.reply.Done?)
    ensures !effect.branch.Active?
    ensures !pinned.session.Dead? && effect == MySqlAnswer(End, pinned.session, branch) ==>
              && (effect.reply.Done? <==> branch.Active?)
              && effect.branch == (if branch.Active? then Ended else branch)
              && !effect.session.Dead?
  {
  }

  lemma PrepareServes(dialect: Dialect, pinned: Pinned, branch: Branch, effect: Effect)
    requires Consistent(dialect, pinned, branch) && Executes(dialect, Prepare, pinned.session, branch, effect)
    ensures Consistent(dialect, Pinned(effect.session, pinned.prepared || effect.reply.Done?), effect.branch)
    ensures Serves(XaPrepare, branch, effect.branch, effect.reply.Done?) <==>
              !Hollow(dialect, pinned.session) || !effect.reply.Done?
    ensures effect.reply.Done? && Hollow(dialect, pinned.session) && Open(branch) ==> effect.branch.RolledBack?
    ensures !pinned.session.Dead? && effect == Answer(dialect, Prepare, pinned.session, branch) ==>
              && (effect.reply.Done? <==> dialect.Postgres? || branch.Ended?)
              && (effect.reply.Done? && Open(branch) && !Hollow(dialect, pinned.session) ==>
                    ServesCalm(XaPrepare, branch, effect.branch, true))
              && (!effect.reply.Done? ==> effect.branch == branch)
  {
  }

  /** A connection fit for the last command: the pinned one, or a fresh one from the pool. */
  ghost predicate Fit(dialect: Dialect, pinned: Pinned, branch: Branch) {
    Consistent(dialect, pinned, branch) || (pinned == Pinned(Free, true) && !Open(branch))
  }

  /** What the caller is told: an unknown xid counts as success. */
  predicate Accepted(effect: Effect) {
    effect.reply.Done? || effect.reply.NotFound?
  }

  /** COMMIT on any connection.  An open branch is refused and stays open unless its connection breaks. */
  lemma CommitServes(dialect: Dialect, pinned: Pinned, branch: Branch, effect: Effect)
    requires Fit(dialect, pinned, branch) && Executes(dialect, CommitPrepared, pinned.session, branch, effect)
    ensures Serves(XaCommit, branch, effect.branch, Accepted(effect)) || (Open(branch) && !Accepted(effect))
    ensures Open(branch) ==> effect.branch == (if effect.reply.Lost? then RolledBack else branch)
    ensures Open(effect.branch) ==> Open(branch)
    ensures !Open(branch) && !pinned.session.Dead? ==>
            effect == Answer(dialect, CommitPrepared, pinned.session, branch) ==>
            ServesCalm(XaCommit, branch, effect.branch, Accepted(effect))
  {
  }

  /** ROLLBACK in the form the pin calls for.  It leaves a branch open exactly when MySQL refuses it for
      a branch that is still active. */
  lemma RollbackServes(dialect: Dialect, pinned: Pinned, branch: Branch, effect: Effect)
    requires RollsBackOn(dialect, pinned, branch, effect)
    ensures Serves(XaRollback, branch, effect.branch, Accepted(effect))
    ensures Open(effect.branch) <==> dialect.MySql? && branch.Active? && !effect.reply.Lost?
    ensures Open(effect.branch) ==> !Accepted(effect) && effect.branch == branch
    ensures effect == Answer(dialect, RollbackStatement(dialect, !pinned.prepared), pinned.session, branch) ==>
              !effect.reply.Lost?
    ensures !pinned.session.Dead? && !(dialect.MySql? && branch.Active?) ==>
            effect == Answer(dialect, RollbackStatement(dialect, !pinned.prepared), pinned.session, branch) ==>
            ServesCalm(XaRollback, branch, effect.branch, Accepted(effect))
  {
  }

  ghost predicate RollsBackOn(dialect: Dialect, pinned: Pinned, branch: Branch, effect: Effect) {
    && Fit(dialect, pinned, branch)
    && Executes(dialect, RollbackStatement(dialect, !pinned.prepared), pinned.session, branch, effect)
  }

  ghost predicate EndsOn(pinned: Pinned, branch: Branch, effect: Effect) {
    Consistent(MySql, pinned, branch) && Executes(MySql, End, pinned.session, branch, effect)
  }

  /** Everything `xa_end` may do to a branch: nothing is sent to PostgreSQL or without a pin. */
  ghost predicate Ends(dialect: Dialect, before: Branch, after: Branch) {
    || (after == before && (dialect.Postgres? || !Open(before)))
    || exists pinned, effect :: dialect.MySql? && EndsOn(pinned, before, effect) && after == effect.branch
  }

  /** Everything `xa_rollback` may do to a branch: nothing if there is no connection to be had. */
  ghost predicate RollsBack(dialect: Dialect, before: Branch, after: Branch) {
    || (after == before && !Open(before))
    || exists pinned, effect :: RollsBackOn(dialect, pinned, before, effect) && after == effect.branch
  }

  lemma EndsMeans(dialect: Dialect, before: Branch, after: Branch)
    requires Ends(dialect, before, after)
    ensures dialect.MySql? ==> !after.Active?
  {
    if pinned, effect :| dialect.MySql? && EndsOn(pinned, before, effect) && after == effect.branch {
      EndServes(pinned, before, effect);
    }
  }

  lemma RollsBackMeans(dialect: Dialect, before: Branch, after: Branch)
    requires RollsBack(dialect, before, after)
    ensures Open(after) ==> dialect.MySql? && before.Active?
  {
    if pinned, effect :| RollsBackOn(dialect, pinned, before, effect) && after == effect.branch {
      RollbackServes(dialect, pinned, before, effect);
    }
  }

  function BranchAt(branches: map<Xid, Branch>, x: Xid): Branch {
    if x in branches then branches[x] else Absent
  }

  /** Pins agree with branches, and no unprepared branch is without its pinned connection. */
  ghost predicate ValidState(dialect: Dialect, conns: map<Xid, Pinned>, branches: map<Xid, Branch>) {
    && (forall x | x in conns :: Consistent(dialect, conns[x], BranchAt(branches, x)))
    && (forall x | x in branches :: Open(branches[x]) ==> x in conns)
  }

  lemma PinKeepsValid(dialect: Dialect, conns: map<Xid, Pinned>, branches: map<Xid, Branch>, x: Xid, pinned: Pinned,
      b: Branch)
    requires ValidState(dialect, conns, branches) && Consistent(dialect, pinned, b)
    ensures ValidState(dialect, conns[x := pinned], branches[x := b])
  {
    hide Consistent;
  }

  /** Giving up a pin leaves the state valid exactly if the branch is not open. */
  lemma UnpinKeepsValid(dialect: Dialect, conns: map<Xid, Pinned>, branches: map<Xid, Branch>, x: Xid, b: Branch)
    requires ValidState(dialect, conns, branches)
    ensures ValidState(dialect, conns - {x}, branches[x := b]) <==> !Open(b)
  {
    hide Consistent;
    assert branches[x := b][x] == b;
  }

  lemma PinFits(dialect: Dialect, conns: map<Xid, Pinned>, branches: map<Xid, Branch>, x: Xid)
    requires ValidState(dialect, conns, branches)
    ensures Fit(dialect, if x in conns then conns[x] else Pinned(Free, true), BranchAt(branches, x))
    ensures x in conns ==> Consistent(dialect, conns[x], BranchAt(branches, x))
    ensures x !in conns ==> !Open(BranchAt(branches, x))
  {
    hide Consistent;
  }

  lemma NothingServes(cmd: Command, b: Branch)
    ensures Serves(cmd, b, b, false)
  {
  }

  // ---- the participant --------------------------------------------------------------------------------------

  class Participant {
    const dialect: Dialect
    var conns: map<Xid, Pinned>
    var branches: map<Xid, Branch>

    /** A new process finds only branches that outlived their connections. */
    constructor (dialect: Dialect, branches: map<Xid, Branch>)
      requires forall x | x in branches :: !Open(branches[x])
      ensures Valid() && this.dialect == dialect && this.branches == branches && conns == map[]
    {
      this.dialect := dialect;
      this.branches := branches;
      conns := map[];
    }

    function BranchOf(x: Xid): Branch
      reads this
    {
      BranchAt(branches, x)
    }

    ghost predicate Valid()
      reads this
    {
      ValidState(dialect, conns, branches)
    }

    twostate predicate OnlyTouches(x: Xid)
      reads this
    {
      && (forall y | y != x :: BranchOf(y) == old(BranchOf(y)))
      && (forall y | y != x :: y in conns <==> y in old(conns))
      && (forall y | y != x && y in conns :: conns[y] == old(conns)[y])
    }

    /** A connection of this transaction is known to be broken. */
    ghost predicate Broken(x: Xid)
      reads this
    {
      x in conns && conns[x].session.Dead?
    }

    method Send(x: Xid, statement: Statement, session: Session, calm: bool) returns (effect: Effect)
      modifies this`branches
      ensures Executes(dialect, statement, session, old(BranchOf(x)), effect)
      ensures calm && !session.Dead? ==> effect == Answer(dialect, statement, session, old(BranchOf(x)))
      ensures branches == old(branches)[x := effect.branch]
    {
      hide Answer;
      var b := BranchOf(x);
      ghost var sure := if session.Dead? then Effect(Dead, b, Lost) else Answer(dialect, statement, session, b);
      assert Executes(dialect, statement, session, b, sure);
      effect :| Executes(dialect, statement, session, b, effect)
             && (calm && !session.Dead? ==> effect == Answer(dialect, statement, session, b));
      branches := branches[x := effect.branch];
    }

    /** `acquire`: the pool may be exhausted or closed; a connection it hands out is idle. */
    method Acquire(calm: bool) returns (r: bool)
      ensures calm ==> r
    {
      r :| calm ==> r;
    }

    /** `xa_start`.  It is a START the protocol allows unless the id of a finished transaction is used
        again: the server has forgotten it and starts a new branch.  MySQL refuses the id of a prepared
        one; PostgreSQL, which learns ids only when preparing, would start a second transaction. */
    method XaStart(x: Xid, calm: bool) returns (ok: bool)
      requires Valid() && (dialect.Postgres? && BranchOf(x).Prepared? ==> x in conns)
      modifies this`conns, this`branches
      ensures Valid() && OnlyTouches(x)
      ensures Serves(TwoPhaseProtocol.XaStart, old(BranchOf(x)), BranchOf(x), ok) <==>
              x in old(conns) || old(BranchOf(x)).Absent? || (BranchOf(x) == old(BranchOf(x)) && !ok)
      ensures ok <==> x in conns
      ensures calm && (x in old(conns) || !old(BranchOf(x)).Prepared?) ==> ok
    {
      hide ValidState;
      PinFits(dialect, conns, branches, x);
      if x in conns {
        return true;
      }
      ghost var conns0, branches0 := conns, branches;
      var acquired := Acquire(calm);
      if !acquired {
        return false;
      }
      var effect := Send(x, Begin, Free, calm);
      if !effect.reply.Done? {
        UnpinKeepsValid(dialect, conns0, branches0, x, effect.branch);
        assert conns0 - {x} == conns;
        return false;
      }
      PinKeepsValid(dialect, conns0, branches0, x, Pinned(effect.session, false), effect.branch);
      conns := conns[x := Pinned(effect.session, false)];
      ok := true;
    }

    /** `xa_end`.  On PostgreSQL nothing is sent. */
    method XaEnd(x: Xid, calm: bool) returns (ok: bool)
      requires Valid()
      modifies this`conns, this`branches
      ensures Valid() && OnlyTouches(x)
      ensures Ends(dialect, old(BranchOf(x)), BranchOf(x))
      ensures Serves(TwoPhaseProtocol.XaEnd, old(BranchOf(x)), BranchOf(x), ok)
      ensures ok ==> x in conns
      ensures dialect.MySql? ==> !BranchOf(x).Active?
      ensures old(conns).Keys == conns.Keys
      ensures calm && !old(Broken(x)) ==> !Broken(x)
      ensures calm && x in old(conns) && !old(Broken(x)) ==>
                && (ok <==> dialect.Postgres? || old(BranchOf(x)).Active?)
                && (dialect.MySql? && ok ==> BranchOf(x).Ended?)
                && (!ok ==> BranchOf(x) == old(BranchOf(x)))
    {
      hide ValidState, Consistent, Executes;
      PinFits(dialect, conns, branches, x);
      if x !in conns {
        return false;
      }
      if dialect.Postgres? {
        return true;
      }
      ghost var conns0, branches0 := conns, branches;
      var effect := Send(x, End, conns[x].session, calm);
      assert EndsOn(conns[x], old(BranchOf(x)), effect);
      EndServes(conns[x], old(BranchOf(x)), effect);
      PinKeepsValid(dialect, conns0, branches0, x, conns[x].(session := effect.session), effect.branch);
      conns := conns[x := conns[x].(session := effect.session)];
      ok := effect.reply.Done?;
    }

    ghost predicate HollowPrepare(x: Xid)
      reads this
    {
      x in conns && Hollow(dialect, conns[x].session)
    }

    /** `xa_prepare`.  It is a prepare the protocol allows unless it succeeds on a PostgreSQL connection
        whose block has failed or is over; then it reports a promise the server did not give. */
    method XaPrepare(x: Xid, calm: bool) returns (ok: bool)
      requires Valid()
      modifies this`conns, this`branches
      ensures Valid() && OnlyTouches(x)
      ensures Serves(TwoPhaseProtocol.XaPrepare, old(BranchOf(x)), BranchOf(x), ok) <==> !old(HollowPrepare(x)) || !ok
      ensures ok && old(HollowPrepare(x)) && old(Open(BranchOf(x))) ==> BranchOf(x).RolledBack?
      ensures ok ==> x in conns && conns[x].prepared
      ensures old(conns).Keys == conns.Keys
      ensures calm && x in old(conns) && !old(Broken(x)) ==>
                && (ok <==> dialect.Postgres? || old(BranchOf(x)).Ended?)
                && (ok && old(Open(BranchOf(x))) && !old(HollowPrepare(x)) ==>
                      ServesCalm(TwoPhaseProtocol.XaPrepare, old(BranchOf(x)), BranchOf(x), true))
                && (!ok ==> BranchOf(x) == old(BranchOf(x)))
    {
      hide ValidState, Consistent, Executes, Answer, Hollow;
      PinFits(dialect, conns, branches, x);
      if x !in conns {
        return false;
      }
      ghost var conns0, branches0 := conns, branches;
      var effect := Send(x, Prepare, conns[x].session, calm);
      PrepareServes(dialect, conns[x], old(BranchOf(x)), effect);
      PinKeepsValid(dialect, conns0, branches0, x, Pinned(effect.session, conns[x].prepared || effect.reply.Done?),
          effect.branch);
      ok := effect.reply.Done?;
      conns := conns[x := Pinned(effect.session, conns[x].prepared || ok)];
    }

    /** `xa_commit`.  The pin goes whatever happens, so a broken connection costs one attempt, and an
        unprepared branch, which is refused, is left without its pin unless its connection broke. */
    method XaCommit(x: Xid, calm: bool) returns (ok: bool)
      requires Valid()
      modifies this`conns, this`branches
      ensures OnlyTouches(x) && x !in conns
      ensures Valid() <==> !Open(BranchOf(x))
      ensures Serves(TwoPhaseProtocol.XaCommit, old(BranchOf(x)), BranchOf(x), ok) || (old(Open(BranchOf(x))) && !ok)
      ensures !old(Open(BranchOf(x))) ==> !Open(BranchOf(x))
      ensures old(Open(BranchOf(x))) ==> BranchOf(x) == old(BranchOf(x)) || BranchOf(x).RolledBack?
      ensures calm && !old(Broken(x)) && !old(Open(BranchOf(x))) ==>
                ServesCalm(TwoPhaseProtocol.XaCommit, old(BranchOf(x)), BranchOf(x), ok)
    {
      hide ValidState, Consistent, Executes, Answer, ServesCalm, Serves;
      PinFits(dialect, conns, branches, x);
      ghost var conns0, branches0 := conns, branches;
      var pinned := Pinned(Free, true);
      if x in conns {
        pinned := conns[x];
        conns := conns - {x};
      } else {
        var acquired := Acquire(calm);
        if !acquired {
          NothingServes(TwoPhaseProtocol.XaCommit, BranchOf(x));
          return false;
        }
      }
      var effect := Send(x, CommitPrepared, pinned.session, calm);
      CommitServes(dialect, pinned, old(BranchOf(x)), effect);
      UnpinKeepsValid(dialect, conns0, branches0, x, effect.branch);
      assert conns0 - {x} == conns;
      ok := Accepted(effect);
    }

    /** `xa_rollback`.  The pin goes whatever happens.  MySQL refuses it for a branch that is still
        active, which is then left without its pin; END comes first for that reason. */
    method XaRollback(x: Xid, calm: bool) returns (ok: bool)
      requires Valid()
      modifies this`conns, this`branches
      ensures OnlyTouches(x) && x !in conns
      ensures Valid() <==> !Open(BranchOf(x))
      ensures Open(BranchOf(x)) ==> dialect.MySql? && old(BranchOf(x)).Active? && !ok
      ensures calm && dialect.MySql? && old(BranchOf(x)).Active? ==> BranchOf(x).Active?
      ensures RollsBack(dialect, old(BranchOf(x)), BranchOf(x))
      ensures Serves(TwoPhaseProtocol.XaRollback, old(BranchOf(x)), BranchOf(x), ok)
      ensures calm && !old(Broken(x)) && !(dialect.MySql? && old(BranchOf(x)).Active?) ==>
                ServesCalm(TwoPhaseProtocol.XaRollback, old(BranchOf(x)), BranchOf(x), ok)
    {
      hide ValidState, Executes, Answer, ServesCalm, RollbackStatement, Serves;
      PinFits(dialect, conns, branches, x);
      ghost var conns0, branches0 := conns, branches;
      var pinned := Pinned(Free, true);
      if x in conns {
        pinned := conns[x];
        conns := conns - {x};
      } else {
        var acquired := Acquire(calm);
        if !acquired {
          NothingServes(TwoPhaseProtocol.XaRollback, BranchOf(x));
          return false;
        }
      }
      var effect := Send(x, RollbackStatement(dialect, !pinned.prepared), pinned.session, calm);
      assert RollsBackOn(dialect, pinned, old(BranchOf(x)), effect);
      RollbackServes(dialect, pinned, old(BranchOf(x)), effect);
      UnpinKeepsValid(dialect, conns0, branches0, x, effect.branch);
      assert conns0 - {x} == conns;
      ok := Accepted(effect);
    }

    /** END, its result ignored, and ROLLBACK: how the coordinator undoes a branch.  In either dialect and
        whatever fails, no unprepared work is left behind, and success means that nothing is left at all. */
    method EndAndRollback(x: Xid, calm: bool) returns (ok: bool)
      requires Valid()
      modifies this`conns, this`branches
      ensures Valid() && OnlyTouches(x)
      ensures !Open(BranchOf(x)) && x !in conns
      ensures old(Unknown(BranchOf(x))) ==> BranchOf(x) == old(BranchOf(x))
      ensures ok && !old(Unknown(BranchOf(x))) ==> BranchOf(x).RolledBack?
      ensures calm && !old(Broken(x)) ==> ok
    {
      hide ValidState;
      var _ := XaEnd(x, calm);
      ok := XaRollback(x, calm);
    }

    /** `execute`: a statement of the caller on the pinned connection, `rejected` if the database refuses
        it.  A refusal leaves the connection alive; then PostgreSQL has failed the whole block. */
    method RunStatement(x: Xid, rejected: bool, calm: bool) returns (ok: bool)
      requires Valid()
      modifies this`conns, this`branches
      ensures Valid() && OnlyTouches(x) && conns.Keys == old(conns).Keys
      ensures x !in conns || rejected ==> !ok
      ensures BranchOf(x) == old(BranchOf(x)) || (old(Open(BranchOf(x))) && BranchOf(x).RolledBack?)
      ensures dialect.Postgres? && !ok && Open(BranchOf(x)) ==> HollowPrepare(x)
      ensures calm && x in conns && !old(Broken(x)) ==>
                && (ok <==> !rejected && !old(conns[x].session.FailedBlock?))
                && BranchOf(x) == old(BranchOf(x))
                && (ok ==> conns == old(conns))
    {
      if x !in conns || conns[x].session.Dead? {
        return false;
      }
      var lost: bool :| calm ==> !lost;
      ok := !lost && !rejected && !conns[x].session.FailedBlock?;
      if lost {
        branches := branches[x := Orphaned(BranchOf(x))];
        conns := conns[x := conns[x].(session := Dead)];
      } else if !ok && dialect.Postgres? && conns[x].session.Working? {
        conns := conns[x := conns[x].(session := FailedBlock)];
      }
    }

    /** `xa_recover`: exactly the prepared transactions. */
    method XaRecover(calm: bool) returns (ok: bool, xids: set<Xid>)
      ensures ok ==> forall x :: x in xids <==> BranchOf(x).Prepared?
      ensures calm ==> ok
    {
      ok := Acquire(calm);
      xids := set x | x in branches && branches[x].Prepared?;
    }
  }

  // ---- what follows for a transaction -----------------------------------------------------------------------

  /** `begin` and the first half of `commit` with two PostgreSQL participants. */
  lemma BothStarted(p: Name, q: Name) returns (trace: seq<Tx>)
    requires p != q
    ensures trace != [] && IsTrace(trace)
    ensures trace[|trace| - 1] == Tx(Row(LogStarted, [p, q], Undecided), map[p := Active, q := Active], CommitCheck)
  {
    hide IsTrace, TxNext;
    var row := Row(LogStarted, [p, q], Undecided);
    var both := map[p := Active, q := Active];
    trace := Inserted([p, q]);
    trace := Act(trace, Tx(row, map[p := Active], Starting(1)));
    assert map[p := Active][q := Active] == both;
    trace := Act(trace, Tx(row, both, Held));
    trace := Act(trace, Tx(row, both, CommitCheck));
  }

  /** A successful END of an open branch, as PostgreSQL gives it without being asked. */
  lemma EndStep(row: Row, branches: map<Name, Branch>, i: nat)
    requires i < |row.participants| && row.participants[i] in branches && Open(branches[row.participants[i]])
    ensures Acts(Tx(row, branches, Ending(i)),
                 Tx(row, branches, if i + 1 < |row.participants| then Ending(i + 1) else Preparing(0)))
  {
    var p := row.participants[i];
    assert branches[p := branches[p]] == branches;
  }

  lemma PrepareStep(row: Row, branches: map<Name, Branch>, i: nat)
    requires i + 1 < |row.participants| && Open(At(branches, row.participants[i]))
    ensures Acts(Tx(row, branches, Preparing(i)), Tx(row, branches[row.participants[i] := Prepared], Preparing(i + 1)))
  {
  }

  lemma CheckStep(row: Row, branches: map<Name, Branch>)
    requires row.status.LogStarted?
    ensures Acts(Tx(row, branches, CommitCheck), Tx(row, branches, Ending(0)))
  {
  }

  /** Up to the PREPARE of the second. */
  lemma HalfPrepared(p: Name, q: Name) returns (trace: seq<Tx>)
    requires p != q
    ensures trace != [] && IsTrace(trace)
    ensures trace[|trace| - 1] ==
              Tx(Row(LogStarted, [p, q], Undecided), map[p := Active, q := Active][p := Prepared], Preparing(1))
  {
    hide IsTrace, TxNext, Acts, Chooses;
    var row := Row(LogStarted, [p, q], Undecided);
    var both := map[p := Active, q := Active];
    trace := BothStarted(p, q);
    CheckStep(row, both);
    trace := Act(trace, Tx(row, both, Ending(0)));
    EndStep(row, both, 0);
    trace := Act(trace, Tx(row, both, Ending(1)));
    EndStep(row, both, 1);
    trace := Act(trace, Tx(row, both, Preparing(0)));
    PrepareStep(row, both, 0);
    trace := Act(trace, Tx(row, both[p := Prepared], Preparing(1)));
  }

  /** Why a hollow prepare matters.  After a run of `commit` up to its last PREPARE, PostgreSQL answers
      that PREPARE in a failed block by rolling back without an error; `commit` takes it for a promise.
      Every later step is allowed by the protocol, the unknown-xid rule hides the loss, and a committed
      row is left over a split outcome. */
  lemma HollowPrepareSplits(p: Name, q: Name) returns (trace: seq<Tx>, steps: seq<Tx>)
    requires p != q
    ensures IsTrace(trace)
    ensures var before := trace[|trace| - 1];
            && Pending(before.row, before.pc) == Call(XaPrepare, q, WritePrepared, WriteRollingBack)
            && |steps| == 6
            && Answer(Postgres, Prepare, FailedBlock, At(before.branches, q)) ==
                Effect(Free, At(steps[0].branches, q), Done)
            && steps[0] == Tx(before.row, before.branches[q := At(steps[0].branches, q)], WritePrepared)
    ensures forall k | 0 <= k < 5 :: Acts(steps[k], steps[k + 1])
    ensures Answer(Postgres, CommitPrepared, Free, At(steps[3].branches, q)).reply.NotFound?
    ensures var end := steps[5];
            end.row.status.LogCommitted? && At(end.branches, p).Committed? && At(end.branches, q).RolledBack?
  {
    trace := HalfPrepared(p, q);
    hide IsTrace;
    var before := trace[|trace| - 1];
    steps := SplitSteps(p, q, before);
  }

  lemma SplitSteps(p: Name, q: Name, before: Tx) returns (steps: seq<Tx>)
    requires p != q
    requires before ==
               Tx(Row(LogStarted, [p, q], Undecided), map[p := Active, q := Active][p := Prepared], Preparing(1))
    ensures |steps| == 6 && steps[0] == Tx(before.row, before.branches[q := RolledBack], WritePrepared)
    ensures forall k | 0 <= k < 5 :: Acts(steps[k], steps[k + 1])
    ensures At(steps[3].branches, q).RolledBack?
    ensures var end := steps[5];
            end.row.status.LogCommitted? && At(end.branches, p).Committed? && At(end.branches, q).RolledBack?
  {
    var row := before.row;
    var prepared, committing := row.(status := LogPrepared), row.(status := LogCommitting, decision := Commit);
    var promised := before.branches[q := RolledBack];
    var done := promised[p := Committed];
    assert done == done[q := RolledBack];
    steps := [
      Tx(row, promised, WritePrepared),
      Tx(prepared, promised, WriteCommitting),
      Tx(committing, promised, Committing(0)),
      Tx(committing, done, Committing(1)),
      Tx(committing, done, WriteCommitted),
      Tx(row.(status := LogCommitted, decision := Commit), done, Idle)];
  }

  /** The cleanup calls of `begin` do what a participant of that dialect does. */
  ghost predicate SqlxStep(dialects: map<Name, Dialect>, t: Tx, t': Tx) {
    (t.pc.CleanEnd? || t.pc.CleanRollback?) && t.pc.i < |t.row.participants| ==>
      t.row.participants[t.pc.i] in dialects ==>
      var p := t.row.participants[t.pc.i];
      && (t.pc.CleanEnd? && t'.pc.CleanRollback? ==> Ends(dialects[p], At(t.branches, p), At(t'.branches, p)))
      && (CleansUp(t, t') ==> RollsBack(dialects[p], At(t.branches, p), At(t'.branches, p)))
  }

  /** Every participant is a sqlx participant, of either dialect. */
  ghost predicate SqlxTrace(dialects: map<Name, Dialect>, trace: seq<Tx>) {
    && IsTrace(trace)
    && (forall p | p in trace[0].row.participants :: p in dialects)
    && forall k | 0 < k < |trace| :: SqlxStep(dialects, trace[k - 1], trace[k])
  }

  /** Between END and ROLLBACK of the cleanup a MySQL branch is not active. */
  ghost predicate EndedFirst(dialects: map<Name, Dialect>, t: Tx) {
    t.pc.CleanRollback? && t.pc.i < |t.row.participants| && t.row.participants[t.pc.i] in dialects ==>
      dialects[t.row.participants[t.pc.i]].MySql? ==> !At(t.branches, t.row.participants[t.pc.i]).Active?
  }

  lemma StepEndsFirst(dialects: map<Name, Dialect>, t: Tx, t': Tx)
    requires TxInv(t) && TxNext(t, t') && SqlxStep(dialects, t, t') && EndedFirst(dialects, t)
    requires forall p | p in t.row.participants :: p in dialects
    ensures EndedFirst(dialects, t')
  {
    hide TxInv, Serves, Ends, RollsBack;
    if t'.pc.CleanRollback? {
      EntersCleanRollback(t, t');
      if t.pc.CleanEnd? && t.pc.i < |t.row.participants| {
        var p := t.row.participants[t.pc.i];
        EndsMeans(dialects[p], At(t.branches, p), At(t'.branches, p));
      }
    }
  }

  /** The cleanup ROLLBACK is only reached from the cleanup END. */
  lemma EntersCleanRollback(t: Tx, t': Tx)
    requires TxNext(t, t') && t'.pc.CleanRollback?
    ensures t'.row == t.row
    ensures (t.pc.CleanEnd? && t'.pc.i == t.pc.i) || t'.pc == t.pc
    ensures t'.pc == t.pc ==> forall p :: At(t'.branches, p).Active? ==> At(t.branches, p).Active?
  {
    hide Serves;
  }

  lemma {:induction false} EndedFirstThroughout(dialects: map<Name, Dialect>, trace: seq<Tx>, m: nat)
    requires SqlxTrace(dialects, trace) && m < |trace|
    ensures EndedFirst(dialects, trace[m]) && trace[m].row.participants == trace[0].row.participants
  {
    hide TxInv, TxNext, SqlxStep, Later;
    if m > 0 {
      EndedFirstThroughout(dialects, trace, m - 1);
      TxInvHoldsThroughout(trace, m - 1);
      StepEndsFirst(dialects, trace[m - 1], trace[m]);
      SameParticipants(trace, m);
    }
  }

  lemma SameParticipants(trace: seq<Tx>, m: nat)
    requires IsTrace(trace) && m < |trace|
    ensures trace[m].row.participants == trace[0].row.participants
  {
    hide IsTrace;
    TraceGoesForward(trace, 0, m);
  }

  /** With sqlx participants a rolled-back row is the whole truth: the ignored cleanup may fail, but it
      leaves nothing open, so no branch of the transaction has work left. */
  lemma SqlxRolledBackIsComplete(dialects: map<Name, Dialect>, trace: seq<Tx>, m: nat, p: Name)
    requires SqlxTrace(dialects, trace) && m < |trace|
    requires trace[m].row.status.LogRolledBack? && p in trace[m].row.participants
    ensures At(trace[m].branches, p).Absent? || At(trace[m].branches, p).RolledBack?
  {
    hide TxInv, TxNext, RollsBack, Ends;
    forall j | j <= m
      ensures !StepLeavesOpen(trace, j, p)
    {
      if StepLeavesOpen(trace, j, p) {
        EndedFirstThroughout(dialects, trace, j - 1);
        var t, t' := trace[j - 1], trace[j];
        assert SqlxStep(dialects, t, t');
        RollsBackMeans(dialects[p], At(t.branches, p), At(t'.branches, p));
      }
    }
    RolledBackIsComplete(trace, m, p);
  }
}
