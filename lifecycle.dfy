/**
 * The audit envelope every soft-deletable row carries (`BaseLog`), the
 * timestamping done by its `save`, and the two state transitions that
 * `delete` and `restore` apply before saving.
 */
module Lifecycle {
  import opened Wrappers
  import opened Values

  /** `created_at`, `updated_at`, `is_deleted`, `deleted_at`; timestamps are
      ticks of an integer clock. */
  datatype Envelope = Envelope(
    createdAt: Option<int>,
    updatedAt: Option<int>,
    isDeleted: bool,
    deletedAt: Option<int>)

  /** A persisted row: its envelope, the optional owner reference that the
      owner scope filters on, and the remaining columns by name. */
  datatype Record = Record(env: Envelope, owner: Option<int>, attrs: map<string, Value>)

  /** The envelope invariant: a row is flagged deleted exactly when it
      carries a deletion time. */
  predicate Consistent(e: Envelope) {
    e.isDeleted <==> e.deletedAt.Some?
  }

  /** The column defaults of a newly built instance. */
  function NewEnvelope(): (e: Envelope)
    ensures !e.isDeleted && Consistent(e)
    ensures e.createdAt.None? && e.updatedAt.None?
  {
    Envelope(None, None, false, None)
  }

  /** `BaseLog.save`: `adding` is whether the instance has never been
      persisted. */
  function Stamp(e: Envelope, adding: bool, now: int): (r: Envelope)
    ensures r.updatedAt == Some(now) && r.createdAt.Some?
    ensures adding || e.createdAt.None? ==> r.createdAt == Some(now)
    ensures !adding && e.createdAt.Some? ==> r.createdAt == e.createdAt
    ensures r.(createdAt := e.createdAt, updatedAt := e.updatedAt) == e
  {
    e.(createdAt := if adding || e.createdAt.None? then Some(now) else e.createdAt,
       updatedAt := Some(now))
  }

  /** Once a row has been saved, later saves keep its creation time and move
      only its update time. */
  lemma SaveKeepsCreationTime(e: Envelope, adding: bool, t1: int, t2: int)
    ensures Stamp(Stamp(e, adding, t1), false, t2).createdAt == Stamp(e, adding, t1).createdAt
    ensures Stamp(Stamp(e, adding, t1), false, t2).updatedAt == Some(t2)
  {
  }

  /** The two soft-delete transitions. */
  datatype Op = DeleteOp | RestoreOp

  /** The field writes `delete` and `restore` make before they save. */
  function Mark(op: Op, e: Envelope, now: int): (r: Envelope)
    ensures Consistent(r)
    ensures r.isDeleted == op.DeleteOp?
    ensures op.DeleteOp? ==> r.deletedAt == Some(now)
    ensures r.createdAt == e.createdAt && r.updatedAt == e.updatedAt
  {
    match op
    case DeleteOp => e.(isDeleted := true, deletedAt := Some(now))
    case RestoreOp => e.(isDeleted := false, deletedAt := None)
  }

  /** What `delete()` / `restore()` write on an instance loaded from its row:
      mark, then save with `adding` false. */
  function Transition(op: Op, e: Envelope, now: int): (r: Envelope)
    ensures Consistent(r)
    ensures r.isDeleted == op.DeleteOp?
    ensures r.updatedAt == Some(now) && r.createdAt.Some?
    ensures e.createdAt.Some? ==> r.createdAt == e.createdAt
  {
    Stamp(Mark(op, e, now), false, now)
  }

  /** Applying a transition twice at the same instant is the same as once:
      an instance that is deleted again re-stamps to the same envelope. */
  lemma TransitionIdempotent(op: Op, e: Envelope, now: int)
    ensures Transition(op, Transition(op, e, now), now) == Transition(op, e, now)
  {
  }

  /** A delete followed by a restore leaves the row active, with no deletion
      time, its creation time kept (or set by the delete's save) and its
      update time that of the restore. */
  lemma DeleteThenRestore(e: Envelope, t1: int, t2: int)
    ensures var r := Transition(RestoreOp, Transition(DeleteOp, e, t1), t2);
      && !r.isDeleted && r.deletedAt.None?
      && r.createdAt == (if e.createdAt.Some? then e.createdAt else Some(t1))
      && r.updatedAt == Some(t2)
  {
  }
}
