/** A pooled SQL Server connection.  The driver has no transaction object: an open transaction is
    state of the session, `in_transaction` is the client's note of it, and `recycle` cleans a
    connection before it is handed out again.  `Session` is the connection as the code sees and
    drives it; `Sys` follows it through the hands of any number of borrowers. */
module MssqlPool {
  import opened Basics

  /** `open` is the server's side: the borrower whose transaction is open. */
  datatype Conn = Conn(inTransaction: bool, open: Option<nat>)

  /** What became of a statement batch: it ran, or the connection is no longer usable. */
  datatype Outcome = Ran | Lost

  predicate ProbeDue(idle: nat, threshold: nat) {
    idle >= threshold
  }

  /** `recycle`: roll back a noted transaction, then probe if the connection idled long enough; the
      probe rolls back whatever the server still has open.  None discards the connection. */
  function Recycled(c: Conn, due: bool, rollback: Outcome, probe: Outcome): Option<Conn> {
    if c.inTransaction && rollback.Lost? then None
    else
      var clean := if c.inTransaction then Conn(false, None) else c;
      if !due then Some(clean)
      else if probe.Lost? then None
      else Some(clean.(open := None))
  }

  /** `transaction`: an accepted begin opens the borrower's transaction and is noted. */
  function Begun(c: Conn, borrower: nat, accepted: bool): Conn {
    if accepted then Conn(true, Some(borrower)) else c
  }

  /** `commit` and `rollback`: only success clears the note; a failed one may have ended the transaction. */
  function Finished(c: Conn, ok: bool, ended: bool): Conn {
    Conn(c.inTransaction && !ok, if ok || ended then None else c.open)
  }

  class Session {
    var inTransaction: bool
    var open: Option<nat>

    constructor ()
      ensures View() == Conn(false, None)
    {
      inTransaction := false;
      open := None;
    }

    function View(): Conn
      reads this
    {
      Conn(inTransaction, open)
    }

    /** `IF @@TRANCOUNT > 0 ROLLBACK`, alone or as the first half of the probe. */
    method RollbackIfOpen(outcome: Outcome) returns (ok: bool)
      modifies this
      ensures ok == outcome.Ran?
      ensures View() == if ok then old(View()).(open := None) else old(View())
    {
      ok := outcome.Ran?;
      if ok {
        open := None;
      }
    }

    method Recycle(due: bool, rollback: Outcome, probe: Outcome) returns (ok: bool)
      modifies this
      ensures ok == Recycled(old(View()), due, rollback, probe).Some?
      ensures ok ==> View() == Recycled(old(View()), due, rollback, probe).value
    {
      if inTransaction {
        var rolledBack := RollbackIfOpen(rollback);
        if !rolledBack {
          return false;
        }
        inTransaction := false;
      }
      if !due {
        return true;
      }
      ok := RollbackIfOpen(probe);
    }

    /** The note is taken after a successful begin, with no await in between. */
    method Begin(borrower: nat, accepted: bool)
      modifies this
      ensures View() == Begun(old(View()), borrower, accepted)
    {
      if accepted {
        open := Some(borrower);
        inTransaction := true;
      }
    }

    method Finish(ok: bool, ended: bool)
      modifies this
      ensures View() == Finished(old(View()), ok, ended)
    {
      if ok || ended {
        open := None;
      }
      if ok {
        inTransaction := false;
      }
    }
  }

  // ---- runs -----------------------------------------------------------------------------------------------

  datatype Holder = InPool | Plain(b: nat) | Transacting(b: nat) | Discarded

  /** A statement as it ran: by whom, and inside whose transaction. */
  datatype Trace = Trace(borrower: nat, within: Option<nat>)

  datatype Sys = Sys(conn: Conn, holder: Holder, next: nat, statements: seq<Trace>)

  datatype Event =
    | Get(idle: nat, rollback: Outcome, probe: Outcome)
    | BeginOk | BeginRefused
    | OpenUnnoted                     // begin took effect but was cancelled, or raw BEGIN TRAN was sent
    | Statement
    | Finish(ok: bool, ended: bool)
    | ServerEnds                      // the server ends the transaction by itself
    | Drop

  function Init(): Sys {
    Sys(Conn(false, None), Plain(0), 1, [])
  }

  predicate Held(s: Sys) {
    s.holder.Plain? || s.holder.Transacting?
  }

  predicate Allowed(s: Sys, e: Event) {
    match e
    case Get(_, _, _) => s.holder.InPool?
    case BeginOk => s.holder.Plain?
    case BeginRefused => s.holder.Plain?
    case OpenUnnoted => s.holder.Plain?
    case Statement => Held(s)
    case Finish(_, _) => s.holder.Transacting?
    case ServerEnds => Held(s)
    case Drop => Held(s)
  }

  function Apply(threshold: nat, s: Sys, e: Event): Sys
    requires Allowed(s, e)
  {
    match e
    case Get(idle, rollback, probe) =>
      var r := Recycled(s.conn, ProbeDue(idle, threshold), rollback, probe);
      if r.None? then s.(holder := Discarded) else s.(conn := r.value, holder := Plain(s.next), next := s.next + 1)
    case BeginOk => s.(conn := Begun(s.conn, s.holder.b, true), holder := Transacting(s.holder.b))
    case BeginRefused => s.(conn := Begun(s.conn, s.holder.b, false), holder := InPool)
    case OpenUnnoted => s.(conn := s.conn.(open := Some(s.holder.b)), holder := InPool)
    case Statement => s.(statements := s.statements + [Trace(s.holder.b, s.conn.open)])
    case Finish(ok, ended) => s.(conn := Finished(s.conn, ok, ended))
    case ServerEnds => s.(conn := s.conn.(open := None))
    case Drop => s.(holder := InPool)
  }

  ghost predicate IsRun(threshold: nat, run: seq<Sys>, events: seq<Event>) {
    && |run| == |events| + 1
    && run[0] == Init()
    && forall k | 0 <= k < |events| :: Allowed(run[k], events[k]) && run[k + 1] == Apply(threshold, run[k], events[k])
  }

  /** Every statement ran outside any transaction or inside one of its own borrower. */
  ghost predicate NoIntrusion(statements: seq<Trace>) {
    forall i | 0 <= i < |statements| ::
        statements[i].within.None? || statements[i].within.value == statements[i].borrower
  }

  ghost predicate Clean(s: Sys) {
    && (Held(s) && s.conn.open.Some? ==> s.conn.open.value == s.holder.b)
    && NoIntrusion(s.statements)
  }

  /** An open transaction is noted, and belongs to whoever holds the connection. */
  ghost predicate Noted(s: Sys) {
    Clean(s) && (s.conn.open.Some? ==> s.conn.inTransaction)
  }

  lemma {:induction false} NotedThroughout(threshold: nat, run: seq<Sys>, events: seq<Event>, k: nat)
    requires IsRun(threshold, run, events) && k < |run|
    requires forall i | 0 <= i < |events| :: !events[i].OpenUnnoted?
    ensures Noted(run[k])
  {
    if k > 0 {
      NotedThroughout(threshold, run, events, k - 1);
      assert run[k - 1 + 1] == Apply(threshold, run[k - 1], events[k - 1]);
    }
  }

  /** If begin either takes effect and is noted or takes no effect, then in every interleaving an open
      transaction is noted, and no borrower's statement runs inside another borrower's transaction. */
  lemma PoolIsClean(threshold: nat, run: seq<Sys>, events: seq<Event>, k: nat)
    requires IsRun(threshold, run, events) && k < |run|
    requires forall i | 0 <= i < |events| :: !events[i].OpenUnnoted?
    ensures run[k].conn.open.Some? ==> run[k].conn.inTransaction
    ensures NoIntrusion(run[k].statements)
  {
    NotedThroughout(threshold, run, events, k);
  }

  lemma {:induction false} AlwaysProbedThroughout(run: seq<Sys>, events: seq<Event>, k: nat)
    requires IsRun(0, run, events) && k < |run|
    ensures Clean(run[k])
  {
    if k > 0 {
      AlwaysProbedThroughout(run, events, k - 1);
      assert run[k - 1 + 1] == Apply(0, run[k - 1], events[k - 1]);
    }
  }

  /** A recycled connection is free of transactions exactly when there was none, it was noted, or the
      probe was due. */
  lemma RecycleCleansIff(c: Conn, due: bool, rollback: Outcome, probe: Outcome)
    requires Recycled(c, due, rollback, probe).Some?
    ensures Recycled(c, due, rollback, probe).value.open.None? <==> c.open.None? || c.inTransaction || due
    ensures !Recycled(c, due, rollback, probe).value.inTransaction
  {
  }

  /** It is discarded exactly when a rollback or probe that was called for did not run. */
  lemma RecycleDiscardsIff(c: Conn, due: bool, rollback: Outcome, probe: Outcome)
    ensures Recycled(c, due, rollback, probe).None? <==> (c.inTransaction && rollback.Lost?) || (due && probe.Lost?)
  {
  }

  /** What the next borrower gets: a connection idle for at least the threshold, or with a noted
      transaction, is free of transactions if it is kept at all; any other is handed out untouched. */
  lemma NextBorrowerGets(threshold: nat, s: Sys, idle: nat, rollback: Outcome, probe: Outcome)
    requires s.holder.InPool?
    ensures var s' := Apply(threshold, s, Get(idle, rollback, probe));
            && (s'.holder == Plain(s.next) || s'.holder.Discarded?)
            && (s'.holder.Discarded? <==>
                (s.conn.inTransaction && rollback.Lost?) || (threshold <= idle && probe.Lost?))
            && (!s'.holder.Discarded? && (s.conn.inTransaction || threshold <= idle) ==> s'.conn == Conn(false, None))
            && (!s.conn.inTransaction && idle < threshold ==> s'.conn == s.conn)
  {
  }

  /** A transaction that ends well leaves nothing to clean; one that ends badly stays noted. */
  lemma FinishedCleanlyIff(c: Conn, borrower: nat, ok: bool, ended: bool)
    ensures Finished(Begun(c, borrower, true), ok, ended) == Conn(false, None) <==> ok
    ensures !ok ==> Finished(Begun(c, borrower, true), ok, ended).inTransaction
  {
  }

  /** The run in which a begin takes effect unnoted and the next borrower is not probed. */
  function Intrusion(): seq<Event> {
    [OpenUnnoted, Get(0, Ran, Ran), Statement]
  }

  /** Without the assumption on begin, cleanliness of every run is exactly a zero idle threshold: with
      any positive one a connection reused at once carries the open transaction over. */
  lemma CleanWhateverHappensIff(threshold: nat)
    ensures threshold == 0 <==>
            forall run: seq<Sys>, events: seq<Event> | IsRun(threshold, run, events) ::
                NoIntrusion(run[|run| - 1].statements)
  {
    if threshold == 0 {
      forall run: seq<Sys>, events: seq<Event> | IsRun(threshold, run, events)
        ensures NoIntrusion(run[|run| - 1].statements)
      {
        AlwaysProbedThroughout(run, events, |run| - 1);
      }
    } else {
      var s0 := Init();
      var s1 := Apply(threshold, s0, OpenUnnoted);
      var s2 := Apply(threshold, s1, Get(0, Ran, Ran));
      var s3 := Apply(threshold, s2, Statement);
      var run := [s0, s1, s2, s3];
      assert s3.statements == [Trace(1, Some(0))];
      assert !NoIntrusion(s3.statements) by { assert s3.statements[0].within == Some(0); }
      assert IsRun(threshold, run, Intrusion());
      assert run[|run| - 1] == s3;
    }
  }
}
