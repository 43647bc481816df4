/**
 * `CustomUser`: the user model. It carries the audit envelope of `BaseLog`
 * and its own soft delete and restore, but no watched fields, no snapshot
 * and no history, and it declares no related objects.
 */
module Users {
  import opened Wrappers
  import opened Values
  import opened Lifecycle
  import opened Scopes
  import opened Cascade
  import opened Tables

  class User {
    const id: int
    var env: Envelope
    /** The account columns (username, email, password hash, ...). */
    var attrs: map<string, Value>
    /** `_state.adding`. */
    var adding: bool

    constructor (id: int, env: Envelope, attrs: map<string, Value>, adding: bool)
      ensures this.id == id && this.env == env && this.attrs == attrs && this.adding == adding
    {
      this.id := id;
      this.env := env;
      this.attrs := attrs;
      this.adding := adding;
    }

    /** The user's row; users have no owner column. */
    function AsRecord(): (r: Record)
      reads this
    {
      Record(env, None, attrs)
    }

    /** The inherited `BaseLog.save`. */
    method Save(table: Table, now: int)
      modifies this, table
      ensures env == Stamp(old(env), old(adding), now) && !adding && attrs == old(attrs)
      ensures table.rows == old(table.rows)[id := AsRecord()]
    {
      env := Stamp(env, adding, now);
      table.rows := table.rows[id := Record(env, None, attrs)];
      adding := false;
    }

    /** `get_related_objects()`: a user declares none. */
    function GetRelatedObjects(): (objs: seq<int>)
      ensures |objs| == 0
    {
      []
    }

    /** The `after_delete` hook; it changes nothing. */
    method AfterDelete()
      ensures unchanged(this)
    {
    }

    /** The `after_restore` hook; it changes nothing. */
    method AfterRestore()
      ensures unchanged(this)
    {
    }

    /** `delete_related_objects()`: the loop over no related objects leaves
        the table as it was. */
    method DeleteRelatedObjects(table: Table, now: int)
      requires table.Valid()
      modifies table
      ensures table.rows == old(table.rows)
    {
      table.DeleteEach(GetRelatedObjects(), 0, now);
    }

    /** `restore_related_objects()`: likewise a loop over nothing. */
    method RestoreRelatedObjects(table: Table, now: int)
      requires table.Valid()
      modifies table
      ensures table.rows == old(table.rows)
    {
      table.RestoreEach(GetRelatedObjects(), 0, now);
    }

    /** `CustomUser.delete`: flag, save, hook, then the (empty) cascade, with
        the `cascade` argument forced to true. Only the user's own row is
        written, and nothing is recorded in any history. */
    method Delete(table: Table, now: int)
      requires table.Valid()
      modifies this, table
      ensures env == Stamp(Mark(DeleteOp, old(env), now), old(adding), now) && !adding && attrs == old(attrs)
      ensures env.isDeleted && env.deletedAt == Some(now)
      ensures table.rows == old(table.rows)[id := AsRecord()]
    {
      env := env.(isDeleted := true, deletedAt := Some(now));
      Save(table, now);
      AfterDelete();
      DeleteRelatedObjects(table, now);
    }

    /** `CustomUser.restore`: unflag, save, hook, then the (empty) cascade. */
    method Restore(table: Table, now: int)
      requires table.Valid()
      modifies this, table
      ensures env == Stamp(Mark(RestoreOp, old(env), now), old(adding), now) && !adding && attrs == old(attrs)
      ensures !env.isDeleted && env.deletedAt.None?
      ensures table.rows == old(table.rows)[id := AsRecord()]
    {
      env := env.(isDeleted := false, deletedAt := None);
      Save(table, now);
      AfterRestore();
      RestoreRelatedObjects(table, now);
    }

    /** `CustomUser.hard_delete`: the row is physically removed. */
    method HardDelete(table: Table)
      modifies table
      ensures table.rows == old(table.rows) - {id}
    {
      table.rows := table.rows - {id};
    }
  }

  /** The row a user's `delete()` or `restore()` writes when the user was
      loaded from the table (not `adding`, same envelope and columns). */
  function Saved(op: Op, rows: Rows, id: int, now: int): (r: Rows)
    requires id in rows
    ensures r.Keys == rows.Keys
    ensures r[id].env.isDeleted == op.DeleteOp? && Consistent(r[id].env)
    ensures r[id].attrs == rows[id].attrs && r[id].env.updatedAt == Some(now)
    ensures forall k :: k in rows && k != id ==> r[k] == rows[k]
  {
    rows[id := rows[id].(env := Stamp(Mark(op, rows[id].env, now), false, now))]
  }

  /** A user's delete or restore is the generic cascade from the user's row
      over a graph with no related objects: it touches that row only. */
  lemma UserCascadeIsLeaf(op: Op, rows: Rows, id: int, now: int)
    requires id in rows
    ensures Saved(op, rows, id, now) == CascadeOne(op, rows, map[], map[], id, now) == Touch(op, rows, {id}, now)
  {
    LeafCascade(op, rows, map[], map[], id, now);
  }

  /** The user deletion tests: after `delete()` the user is in the deleted
      view and not the active one; after `restore()` it is back in the active
      view and not the deleted one; every other user row is unchanged
      throughout and the user's creation time is kept. */
  lemma UserDeleteThenRestore(rows: Rows, id: int, t1: int, t2: int)
    requires id in rows
    ensures var deleted := Saved(DeleteOp, rows, id, t1);
      var restored := Saved(RestoreOp, deleted, id, t2);
      && id in Deleted(deleted) && id !in Active(deleted)
      && id in Active(restored) && id !in Deleted(restored)
      && restored[id].env.deletedAt.None? && restored[id].attrs == rows[id].attrs
      && (rows[id].env.createdAt.Some? ==> restored[id].env.createdAt == rows[id].env.createdAt)
      && (forall k :: k in rows && k != id ==> deleted[k] == rows[k] && restored[k] == rows[k])
  {
    var deleted := Saved(DeleteOp, rows, id, t1);
    ScopesPartition(deleted);
    ScopesPartition(Saved(RestoreOp, deleted, id, t2));
  }
}
