/** MyCustomers.Infrastructure.Persistence/EfCoreUnitOfWork.cs: the unit of
    work over one context, holding at most one open database transaction.
    The transaction is modelled by what the database does with it: it
    remembers the rows as they were when it began, a commit keeps what was
    written since, and a rollback (or disposing it uncommitted) brings the
    remembered rows back. */
module UnitOfWork {
  import opened Wrappers
  import opened DbContext

  /** An open transaction and the rows it would restore. */
  datatype Transaction<E> = Transaction(snapshot: map<int, E>)

  /** The context and the current transaction, if any. A single optional
      field: two transactions can never be open at once. */
  datatype Uow<E> = Uow(ctx: Context<E>, current: Option<Transaction<E>>)

  /** A new unit of work: no transaction. */
  function New<E>(ctx: Context<E>): (u: Uow<E>)
    ensures u.ctx == ctx && u.current.None?
  {
    Uow(ctx, None)
  }

  /** `SaveChangesAsync`: the context saves; the transaction state is not
      touched. A rejected save changes nothing. */
  function SaveChanges<E>(u: Uow<E>): (r: (Uow<E>, SaveOutcome<E>))
    ensures r.0.current == u.current
    ensures r.1.Rejected? <==> exists k :: k in u.ctx.tracked && Conflicts(u.ctx, k)
    ensures r.1.Rejected? ==> r.0 == u
    ensures r.1.Saved? ==> r.0.ctx == r.1.ctx && Clean(r.0.ctx)
  {
    var o := DbContext.SaveChanges(u.ctx);
    if o.Saved? then (u.(ctx := o.ctx), o) else (u, o)
  }

  /** `BeginTransactionAsync`: opens a transaction unless one is open. */
  function Begin<E>(u: Uow<E>): (r: Uow<E>)
    ensures r.current.Some?
    ensures r.ctx == u.ctx
    ensures u.current.Some? ==> r == u
    ensures u.current.None? ==> r.current.value.snapshot == u.ctx.rows
  {
    if u.current.Some? then u else u.(current := Some(Transaction(u.ctx.rows)))
  }

  /** `CommitTransactionAsync`: makes the writes since `Begin` permanent
      and closes the transaction; without one, nothing happens. */
  function Commit<E>(u: Uow<E>): (r: Uow<E>)
    ensures r.current.None?
    ensures r.ctx == u.ctx
  {
    u.(current := None)
  }

  /** `RollbackTransactionAsync`: restores the rows of when the transaction
      began and closes it; without one, nothing happens. The change tracker
      is not reset. */
  function Rollback<E>(u: Uow<E>): (r: Uow<E>)
    ensures r.current.None?
    ensures u.current.None? ==> r == u
    ensures u.current.Some? ==> r.ctx.rows == u.current.value.snapshot
    ensures r.ctx.tracked == u.ctx.tracked
  {
    match u.current
    case None => u
    case Some(t) => Uow(u.ctx.(rows := t.snapshot), None)
  }

  /** `Dispose` / `DisposeAsync`: drops the transaction without committing
      it, so the database discards its writes. */
  function Dispose<E>(u: Uow<E>): (r: Uow<E>)
    ensures r.current.None?
    ensures u.current.None? ==> r == u
    ensures u.current.Some? ==> r.ctx.rows == u.current.value.snapshot
  {
    if u.current.Some? then Uow(u.ctx.(rows := u.current.value.snapshot), None) else u
  }

  /** Disposing is rolling back: neither commits. */
  lemma DisposeIsRollback<E>(u: Uow<E>)
    ensures Dispose(u) == Rollback(u)
  {
  }

  /** Begin, commit and rollback are idempotent: the second call finds the
      state it needs already in place and does nothing. */
  lemma TransactionCallsIdempotent<E>(u: Uow<E>)
    ensures Begin(Begin(u)) == Begin(u)
    ensures Commit(Commit(u)) == Commit(u)
    ensures Rollback(Rollback(u)) == Rollback(u)
    ensures Dispose(Dispose(u)) == Dispose(u)
  {
  }

  /** Beginning, saving and committing keeps what the save wrote. */
  lemma CommitKeepsSavedRows<E>(u: Uow<E>)
    requires u.current.None?
    requires DbContext.SaveChanges(u.ctx).Saved?
    ensures Commit(SaveChanges(Begin(u)).0).ctx.rows == DbContext.SaveChanges(u.ctx).ctx.rows
  {
  }

  /** Beginning, saving and rolling back leaves the rows as they were. */
  lemma RollbackUndoesSave<E>(u: Uow<E>)
    requires u.current.None?
    ensures Rollback(SaveChanges(Begin(u)).0).ctx.rows == u.ctx.rows
    ensures Dispose(SaveChanges(Begin(u)).0).ctx.rows == u.ctx.rows
  {
  }

  /** The operations an application performs on a unit of work. */
  datatype Op = Save | BeginOp | CommitOp | RollbackOp | DisposeOp

  /** Reference definition of whether a transaction is open after `ops`,
      read from the end: the last transaction call decides; saves do not
      count; with none, it is as it was. */
  function OpenAfter(open0: bool, ops: seq<Op>): bool {
    if |ops| == 0 then open0
    else match ops[|ops| - 1]
      case Save => OpenAfter(open0, ops[..|ops| - 1])
      case BeginOp => true
      case CommitOp => false
      case RollbackOp => false
      case DisposeOp => false
  }

  /** Performs `ops` in order and stops at the first save the database
      rejects (the exception ends the request). `done` is the number of
      operations performed; the transaction is open exactly when the
      reference definition says so. */
  method Run<E>(u: Uow<E>, ops: seq<Op>) returns (r: Uow<E>, done: nat)
    ensures done <= |ops|
    ensures r.current.Some? <==> OpenAfter(u.current.Some?, ops[..done])
    ensures done < |ops| ==> ops[done] == Save && DbContext.SaveChanges(r.ctx).Rejected?
    ensures (forall j :: 0 <= j < done ==> ops[j] == Save) ==> r.current == u.current
  {
    r := u;
    done := 0;
    while done < |ops|
      invariant done <= |ops|
      invariant r.current.Some? <==> OpenAfter(u.current.Some?, ops[..done])
      invariant (forall j :: 0 <= j < done ==> ops[j] == Save) ==> r.current == u.current
    {
      assert ops[..done + 1][..done] == ops[..done];
      match ops[done] {
        case Save =>
          var (next, o) := SaveChanges(r);
          if o.Rejected? { return; }
          r := next;
        case BeginOp => r := Begin(r);
        case CommitOp => r := Commit(r);
        case RollbackOp => r := Rollback(r);
        case DisposeOp => r := Dispose(r);
      }
      done := done + 1;
    }
  }
}
