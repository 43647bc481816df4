/**
 * A table of soft-deletable rows as the ORM persists them, with the
 * operations that load rows and change them in place: the cascade helpers
 * of `BaseModel` run on loaded instances, and the bulk queryset operations
 * of `SoftDeleteQuerySet` and `DeletedQuerySet`.
 */
module Tables {
  import opened Wrappers
  import opened Lifecycle
  import opened Scopes
  import opened Cascade

  /** A non-empty set has a member to pick. */
  lemma NonEmptyHasMember(s: set<int>)
    requires s != {}
    ensures exists x :: x in s
  {
    if forall x :: x !in s {
      assert false;
    }
  }

  /** Moving one picked row from the rows still to visit to the visited
      order keeps the two disjoint and their sizes adding up. */
  lemma VisitOne(objs: set<int>, todo: set<int>, order: seq<int>, k: int)
    requires todo + (set i | i in order) == objs && todo !! (set i | i in order)
    requires |order| + |todo| == |objs| && k in todo
    ensures (todo - {k}) + (set i | i in order + [k]) == objs
    ensures (todo - {k}) !! (set i | i in order + [k])
    ensures |order + [k]| + |todo - {k}| == |objs|
  {
    assert (set i | i in order + [k]) == (set i | i in order) + {k};
  }

  class Table {
    /** The persisted rows by primary key. */
    var rows: Rows
    /** `get_related_objects()` of each row, as ids in declaration order. */
    const related: map<int, seq<int>>
    /** A witness that the related-object graph is acyclic. */
    ghost const rank: map<int, nat>

    ghost predicate Valid() {
      Ranked(related, rank)
    }

    constructor (rows: Rows, related: map<int, seq<int>>, ghost rank: map<int, nat>)
      requires Ranked(related, rank)
      ensures Valid()
      ensures this.rows == rows && this.related == related && this.rank == rank
    {
      this.rows := rows;
      this.related := related;
      this.rank := rank;
    }

    /** `obj.delete()` on the instance loaded from row `id`: flag it, save
        it, run the (empty) `after_delete` hook, then delete its related
        objects; the `cascade` argument is overwritten with true. */
    method DeleteLoaded(id: int, now: int)
      requires Valid()
      modifies this
      ensures rows == CascadeOne(DeleteOp, old(rows), related, rank, id, now)
      decreases RankOf(rank, id), 1
    {
      if id in rows {
        var obj := rows[id];
        var env := obj.env.(isDeleted := true, deletedAt := Some(now));
        env := Stamp(env, false, now);
        rows := rows[id := obj.(env := env)];
        ghost var saved := rows;
        forall i | 0 <= i < |Children(related, id)|
          ensures RankOf(rank, Children(related, id)[i]) < RankOf(rank, id)
        {
          ChildRank(related, rank, id, i);
        }
        DeleteEach(Children(related, id), RankOf(rank, id), now);
        CascadeChildrenIsList(DeleteOp, saved, related, rank, id, |Children(related, id)|, now);
        assert Children(related, id)[..|Children(related, id)|] == Children(related, id);
      }
    }

    /** `delete_related_objects()`: `delete()` on each id in order. `bound`
        exceeds the rank of every id, which makes the recursion terminate. */
    method DeleteEach(ids: seq<int>, ghost bound: nat, now: int)
      requires Valid()
      requires forall i :: 0 <= i < |ids| ==> RankOf(rank, ids[i]) < bound
      modifies this
      ensures rows == CascadeList(DeleteOp, old(rows), related, rank, ids, now)
      decreases bound, 0
    {
      for i := 0 to |ids|
        invariant rows == CascadeList(DeleteOp, old(rows), related, rank, ids[..i], now)
      {
        DeleteLoaded(ids[i], now);
        assert ids[..i + 1][..i] == ids[..i];
      }
      assert ids[..|ids|] == ids;
    }

    /** `obj.restore()` on the instance loaded from row `id`: unflag it,
        save it, run the (empty) `after_restore` hook, then restore its
        related objects. */
    method RestoreLoaded(id: int, now: int)
      requires Valid()
      modifies this
      ensures rows == CascadeOne(RestoreOp, old(rows), related, rank, id, now)
      decreases RankOf(rank, id), 1
    {
      if id in rows {
        var obj := rows[id];
        var env := obj.env.(isDeleted := false, deletedAt := None);
        env := Stamp(env, false, now);
        rows := rows[id := obj.(env := env)];
        ghost var saved := rows;
        forall i | 0 <= i < |Children(related, id)|
          ensures RankOf(rank, Children(related, id)[i]) < RankOf(rank, id)
        {
          ChildRank(related, rank, id, i);
        }
        RestoreEach(Children(related, id), RankOf(rank, id), now);
        CascadeChildrenIsList(RestoreOp, saved, related, rank, id, |Children(related, id)|, now);
        assert Children(related, id)[..|Children(related, id)|] == Children(related, id);
      }
    }

    /** `restore_related_objects()`: `restore()` on each id in order. */
    method RestoreEach(ids: seq<int>, ghost bound: nat, now: int)
      requires Valid()
      requires forall i :: 0 <= i < |ids| ==> RankOf(rank, ids[i]) < bound
      modifies this
      ensures rows == CascadeList(RestoreOp, old(rows), related, rank, ids, now)
      decreases bound, 0
    {
      for i := 0 to |ids|
        invariant rows == CascadeList(RestoreOp, old(rows), related, rank, ids[..i], now)
      {
        RestoreLoaded(ids[i], now);
        assert ids[..i + 1][..i] == ids[..i];
      }
      assert ids[..|ids|] == ids;
    }

    /** `SoftDeleteQuerySet.delete` on `objects.filter(sel)`: the queryset
        is evaluated once, each of its rows is deleted one by one (in an
        order the database chooses), and a final bulk update re-applies the
        filter. Every row reached from a selected row ends deleted, and no
        active row matches the filter afterwards. */
    method DeleteWhere(sel: Record -> bool, now: int)
      requires Valid()
      modifies this
      ensures rows == Touch(DeleteOp, old(rows), Descendants(old(rows).Keys, related, rank, ActiveWhere(old(rows), sel)), now)
      ensures ActiveWhere(rows, sel) == {}
    {
      ghost var rows0 := rows;
      var objs := ActiveWhere(rows, sel);
      ghost var order := DeleteEachOf(objs, now);
      QuerySetDeleteOutcome(rows0, related, rank, order, sel, now);
      rows := MarkedDeletedWhere(rows, sel, now);
    }

    /** The per-object pass of `SoftDeleteQuerySet.delete`: `delete()` on
        each row of an evaluated queryset, in an order the database chooses,
        which is returned. */
    method DeleteEachOf(objs: set<int>, now: int) returns (ghost order: seq<int>)
      requires Valid()
      modifies this
      ensures (set i | i in order) == objs && |order| == |objs|
      ensures rows == CascadeList(DeleteOp, old(rows), related, rank, order, now)
    {
      var todo := objs;
      order := [];
      while todo != {}
        invariant rows == CascadeList(DeleteOp, old(rows), related, rank, order, now)
        invariant todo + (set i | i in order) == objs
        invariant todo !! (set i | i in order)
        invariant |order| + |todo| == |objs|
        decreases todo
      {
        NonEmptyHasMember(todo);
        var k :| k in todo;
        DeleteLoaded(k, now);
        assert (order + [k])[..|order|] == order;
        VisitOne(objs, todo, order, k);
        order := order + [k];
        todo := todo - {k};
      }
    }

    /** `SoftDeleteQuerySet.hard_delete` on `objects.filter(sel)`: the
        selected active rows are physically removed. */
    method HardDeleteWhere(sel: Record -> bool)
      requires Valid()
      modifies this
      ensures rows == HardDeletedWhere(old(rows), sel)
    {
      rows := HardDeletedWhere(rows, sel);
    }

    /** `DeletedQuerySet.restore(sel)` on a queryset of `deleted_objects`
        (such as `deleted_objects.all().restore(sel)`; the manager itself
        has no `restore`): one bulk update of the selected deleted rows. */
    method RestoreWhere(sel: Record -> bool)
      requires Valid()
      modifies this
      ensures rows == RestoredWhere(old(rows), sel)
    {
      rows := RestoredWhere(rows, sel);
    }
  }
}
