/**
 * An instance of a concrete `BaseModel` subclass: its audit envelope and
 * columns in memory, the shadow snapshot of its watched fields, and the
 * operations that save it, soft-delete or restore it with their cascades,
 * remove it, and record its history.
 */
module BaseModels {
  import opened Wrappers
  import opened Values
  import opened Lifecycle
  import opened Scopes
  import opened Cascade
  import opened Tables
  import opened ChangeTracking
  import opened History

  class Entity {
    /** The primary key of the instance's row. */
    const id: int
    /** The content type of the concrete model, used in generic associations. */
    const typeTag: string
    /** `_fields_to_watch()` of the concrete model. */
    const watched: seq<string>
    var env: Envelope
    var owner: Option<int>
    var attrs: map<string, Value>
    /** The `__{field}` shadow attributes written at construction. */
    var shadow: map<string, Value>
    /** `_state.adding`: the instance has not been saved yet. */
    var adding: bool

    ghost predicate Valid()
      reads this
    {
      Covers(watched, attrs) && Covers(watched, shadow)
    }

    /** The row a save of this instance writes. */
    function AsRecord(): (r: Record)
      reads this
    {
      Record(env, owner, attrs)
    }

    /** `BaseModel.__init__`: the fields are set, then each watched field's
        current value is copied to its shadow attribute. */
    constructor (id: int, typeTag: string, watched: seq<string>, env: Envelope, owner: Option<int>,
                 attrs: map<string, Value>, adding: bool)
      requires Covers(watched, attrs)
      ensures Valid()
      ensures this.id == id && this.typeTag == typeTag && this.watched == watched
      ensures this.env == env && this.owner == owner && this.attrs == attrs && this.adding == adding
      ensures shadow == Snapshot(watched, attrs)
    {
      this.id := id;
      this.typeTag := typeTag;
      this.watched := watched;
      this.env := env;
      this.owner := owner;
      this.attrs := attrs;
      this.adding := adding;
      var snap: map<string, Value> := map[];
      for i := 0 to |watched|
        invariant Covers(watched[..i], attrs)
        invariant snap == Snapshot(watched[..i], attrs)
      {
        assert watched[..i + 1] == watched[..i] + [watched[i]];
        snap := snap[watched[i] := attrs[watched[i]]];
      }
      assert watched[..|watched|] == watched;
      this.shadow := snap;
    }

    /** Assigning an attribute; the snapshot is left as it was. */
    method SetField(name: string, v: Value)
      requires Valid()
      modifies this
      ensures Valid()
      ensures attrs == old(attrs)[name := v]
      ensures env == old(env) && owner == old(owner) && shadow == old(shadow) && adding == old(adding)
    {
      attrs := attrs[name := v];
    }

    /** `BaseLog.save`: stamp the timestamps, then persist the instance. The
        shadow snapshot is not refreshed. */
    method Save(table: Table, now: int)
      modifies this, table
      ensures env == Stamp(old(env), old(adding), now) && !adding
      ensures owner == old(owner) && attrs == old(attrs) && shadow == old(shadow)
      ensures table.rows == old(table.rows)[id := AsRecord()]
    {
      env := Stamp(env, adding, now);
      table.rows := table.rows[id := Record(env, owner, attrs)];
      adding := false;
    }

    /** `get_related_objects()`: the related rows declared for this one, each
        strictly lower in the table's acyclicity rank, so the cascade ends. */
    function GetRelatedObjects(table: Table): (objs: seq<int>)
      requires table.Valid()
      ensures forall i :: 0 <= i < |objs| ==> RankOf(table.rank, objs[i]) < RankOf(table.rank, id)
    {
      var objs := Children(table.related, id);
      forall i | 0 <= i < |objs|
        ensures RankOf(table.rank, objs[i]) < RankOf(table.rank, id)
      {
        ChildRank(table.related, table.rank, id, i);
      }
      objs
    }

    /** The `after_delete` hook; by default it changes nothing. */
    method AfterDelete()
      ensures unchanged(this)
    {
    }

    /** The `after_restore` hook; by default it changes nothing. */
    method AfterRestore()
      ensures unchanged(this)
    {
    }

    /** `BaseModel.delete`: flag, save, hook, then cascade to the related
        objects; the `cascade` argument is overwritten with true, so the
        cascade always runs. */
    method Delete(table: Table, now: int)
      requires table.Valid()
      modifies this, table
      ensures env == Stamp(Mark(DeleteOp, old(env), now), old(adding), now) && !adding
      ensures env.isDeleted && env.deletedAt == Some(now)
      ensures owner == old(owner) && attrs == old(attrs) && shadow == old(shadow)
      ensures table.rows == CascadeList(DeleteOp, old(table.rows)[id := AsRecord()], table.related, table.rank,
                                        GetRelatedObjects(table), now)
    {
      env := env.(isDeleted := true, deletedAt := Some(now));
      Save(table, now);
      AfterDelete();
      DeleteRelatedObjects(table, now);
    }

    /** `delete_related_objects()`: `delete()` on each related object in order. */
    method DeleteRelatedObjects(table: Table, now: int)
      requires table.Valid()
      modifies table
      ensures table.rows == CascadeList(DeleteOp, old(table.rows), table.related, table.rank, GetRelatedObjects(table), now)
    {
      table.DeleteEach(GetRelatedObjects(table), RankOf(table.rank, id), now);
    }

    /** `BaseModel.restore`: unflag, save, hook, then cascade to the related
        objects; the `cascade` argument is overwritten with true. */
    method Restore(table: Table, now: int)
      requires table.Valid()
      modifies this, table
      ensures env == Stamp(Mark(RestoreOp, old(env), now), old(adding), now) && !adding
      ensures !env.isDeleted && env.deletedAt.None?
      ensures owner == old(owner) && attrs == old(attrs) && shadow == old(shadow)
      ensures table.rows == CascadeList(RestoreOp, old(table.rows)[id := AsRecord()], table.related, table.rank,
                                        GetRelatedObjects(table), now)
    {
      env := env.(isDeleted := false, deletedAt := None);
      Save(table, now);
      AfterRestore();
      RestoreRelatedObjects(table, now);
    }

    /** `restore_related_objects()`: `restore()` on each related object in order. */
    method RestoreRelatedObjects(table: Table, now: int)
      requires table.Valid()
      modifies table
      ensures table.rows == CascadeList(RestoreOp, old(table.rows), table.related, table.rank, GetRelatedObjects(table), now)
    {
      table.RestoreEach(GetRelatedObjects(table), RankOf(table.rank, id), now);
    }

    /** `hard_delete`: the row is physically removed; no flag, no hook, no
        cascade through related objects, no history. */
    method HardDelete(table: Table)
      modifies table
      ensures table.rows == old(table.rows) - {id}
    {
      table.rows := table.rows - {id};
    }

    /** `_historic_message()`: empty exactly when every watched field still
        has its snapshot value. */
    function HistoricMessage(): (m: string)
      reads this
      requires Valid()
      ensures m == "" <==> forall f :: f in watched ==> shadow[f] == attrs[f]
    {
      Message(watched, shadow, attrs)
    }

    /** `content_object=self`: the generic association to this instance. */
    function Subject(): (s: GenericRef)
      ensures s.contentType == Some(typeTag) && s.objectId == Some(id)
    {
      GenericRef(Some(typeTag), Some(id))
    }

    /** `create_historic`: the description is the actor prefix followed by
        the diff message, and since the prefix is never empty, exactly one
        history row attached to this instance is appended on every call. */
    method CreateHistoric(history: HistoryTable, req: Option<Request>, now: int)
      requires Valid()
      modifies history
      ensures var actor := ResolveActor(req);
        history.entries == old(history.entries) + [
          Historic(Stamp(NewEnvelope(), true, now), if actor.Some? then Some(actor.value.id) else None,
                   Description(actor, HistoricMessage()), Subject())]
    {
      var message := "";
      var user := ResolveActor(req);
      if user.Some? {
        message := message + "User " + user.value.name + " changed: ";
      } else {
        message := message + AnonymousPrefix;
      }
      assert message == Prefix(user);
      message := message + HistoricMessage();
      assert message == Description(user, HistoricMessage());
      if message != "" {
        history.Create(if user.Some? then Some(user.value.id) else None, message, Subject(), now);
      }
    }
  }

  /** An instance that mirrors its saved row (not `adding`, same envelope,
      owner and columns) cascades exactly as the row does: what `delete()`
      or `restore()` on the instance leaves in the table is the cascade from
      its row, which touches every row reachable from it and nothing else. */
  lemma InstanceCascadeIsRowCascade(op: Op, rows: Rows, related: map<int, seq<int>>, rank: map<int, nat>,
                                    id: int, rec: Record, now: int)
    requires Ranked(related, rank) && id in rows && rows[id] == rec
    ensures var saved := rows[id := Record(Stamp(Mark(op, rec.env, now), false, now), rec.owner, rec.attrs)];
      CascadeList(op, saved, related, rank, Children(related, id), now) == CascadeOne(op, rows, related, rank, id, now)
      == Touch(op, rows, Reach(rows.Keys, related, rank, id), now)
  {
    var saved := rows[id := Apply(op, rows[id], now)];
    CascadeChildrenIsList(op, saved, related, rank, id, |Children(related, id)|, now);
    assert Children(related, id)[..|Children(related, id)|] == Children(related, id);
    CascadeOneIsTouch(op, rows, related, rank, id, now);
  }
}
