/**
 * The named views over a table that the managers expose (`objects`,
 * `deleted_objects`, `global_objects`, `get_owner_queryset`) and the bulk
 * updates the querysets run, all as functions of the table's rows keyed by
 * primary key. A queryset filter (Django's `*args, **kwargs`) is a predicate
 * on rows.
 */
module Scopes {
  import opened Wrappers
  import opened Lifecycle

  type Rows = map<int, Record>

  /** `BaseManager.get_queryset`: rows not flagged deleted. */
  function Active(rows: Rows): (r: Rows)
    ensures r.Keys <= rows.Keys
    ensures forall k :: k in r ==> r[k] == rows[k] && !r[k].env.isDeleted
    ensures forall k :: k in rows && !rows[k].env.isDeleted ==> k in r
  {
    map k | k in rows && !rows[k].env.isDeleted :: rows[k]
  }

  /** `DeletedManager.get_queryset`: rows flagged deleted. */
  function Deleted(rows: Rows): (r: Rows)
    ensures r.Keys <= rows.Keys
    ensures forall k :: k in r ==> r[k] == rows[k] && r[k].env.isDeleted
    ensures forall k :: k in rows && rows[k].env.isDeleted ==> k in r
  {
    map k | k in rows && rows[k].env.isDeleted :: rows[k]
  }

  /** `GlobalManager`: the plain manager, every row. */
  function Global(rows: Rows): (r: Rows)
    ensures r.Keys == Active(rows).Keys + Deleted(rows).Keys
    ensures forall k :: k in r ==> r[k] == rows[k]
  {
    rows
  }

  /** `BaseManager.get_owner_queryset`: it filters the unfiltered base
      queryset, so soft-deleted rows of the owner are included. */
  function OwnedBy(rows: Rows, user: int): (r: Rows)
    ensures r.Keys <= rows.Keys
    ensures forall k :: k in r ==> r[k] == rows[k] && r[k].owner == Some(user)
    ensures forall k :: k in rows && rows[k].owner == Some(user) ==> k in r
  {
    map k | k in rows && rows[k].owner == Some(user) :: rows[k]
  }

  /** Every row is in exactly one of the active and deleted views, and the
      global view holds them all. */
  lemma ScopesPartition(rows: Rows)
    ensures Active(rows).Keys !! Deleted(rows).Keys
    ensures Active(rows).Keys + Deleted(rows).Keys == Global(rows).Keys
  {
    forall k | k in rows
      ensures k in Active(rows) || k in Deleted(rows)
    {
      if rows[k].env.isDeleted {
        assert k in Deleted(rows);
      } else {
        assert k in Active(rows);
      }
    }
  }

  /** A row inserted with the column defaults is in the active view and not
      in the deleted view. */
  lemma NewRowIsActive(rows: Rows, id: int, owner: Option<int>, attrs: map<string, Values.Value>, adding: bool, now: int)
    ensures var rows' := rows[id := Record(Stamp(NewEnvelope(), adding, now), owner, attrs)];
      id in Active(rows') && id !in Deleted(rows')
  {
  }

  /** The owner view is the owner's active rows together with the owner's
      deleted rows. */
  lemma OwnedByIgnoresDeletion(rows: Rows, user: int)
    ensures OwnedBy(rows, user).Keys == OwnedBy(Active(rows), user).Keys + OwnedBy(Deleted(rows), user).Keys
  {
    forall k | k in OwnedBy(rows, user)
      ensures k in OwnedBy(Active(rows), user) || k in OwnedBy(Deleted(rows), user)
    {
      if rows[k].env.isDeleted {
        assert k in Deleted(rows);
      } else {
        assert k in Active(rows);
      }
    }
  }

  /** A soft-deleted row is still listed for its owner, although the active
      view no longer shows it. */
  lemma OwnedByShowsDeletedRow(rows: Rows, user: int, k: int)
    requires k in rows && rows[k].owner == Some(user) && rows[k].env.isDeleted
    ensures k in OwnedBy(rows, user) && k !in Active(rows)
  {
  }

  /** The rows `DeletedQuerySet.restore(filter)` updates. */
  predicate RestoreMatch(r: Record, sel: Record -> bool) {
    r.env.isDeleted && sel(r)
  }

  /** `DeletedQuerySet.restore`: one UPDATE setting `is_deleted = False,
      deleted_at = None` on the deleted rows the filter selects; nothing is
      saved, so no timestamp moves, no hook runs and nothing cascades. */
  function RestoredWhere(rows: Rows, sel: Record -> bool): (r: Rows)
    ensures r.Keys == rows.Keys
  {
    map k | k in rows ::
      if RestoreMatch(rows[k], sel)
      then rows[k].(env := rows[k].env.(isDeleted := false, deletedAt := None))
      else rows[k]
  }

  /** After a bulk restore the active view has gained exactly the selected
      deleted rows, the deleted view has lost exactly them, the restored rows
      are consistent and keep their timestamps, and every other row is
      unchanged. */
  lemma BulkRestoreEffect(rows: Rows, sel: Record -> bool)
    ensures var r := RestoredWhere(rows, sel);
      var matched := set k | k in rows && RestoreMatch(rows[k], sel);
      && Active(r).Keys == Active(rows).Keys + matched
      && Deleted(r).Keys == Deleted(rows).Keys - matched
      && (forall k :: k in matched ==>
            Consistent(r[k].env) && r[k].env.createdAt == rows[k].env.createdAt
            && r[k].env.updatedAt == rows[k].env.updatedAt
            && r[k].owner == rows[k].owner && r[k].attrs == rows[k].attrs)
      && (forall k :: k in rows && k !in matched ==> r[k] == rows[k])
  {
    var r := RestoredWhere(rows, sel);
    var matched := set k | k in rows && RestoreMatch(rows[k], sel);
    forall k | k in rows
      ensures k in Active(r) <==> k in Active(rows) || k in matched
      ensures k in Deleted(r) <==> k in Deleted(rows) && k !in matched
    {
      if RestoreMatch(rows[k], sel) {
        assert !r[k].env.isDeleted;
      } else {
        assert r[k] == rows[k];
      }
    }
  }

  /** The rows of the active view that a filter selects: what a
      `SoftDeleteQuerySet` from `objects.filter(...)` iterates over. */
  function ActiveWhere(rows: Rows, sel: Record -> bool): (r: set<int>)
    ensures r <= Active(rows).Keys
    ensures forall k :: k in r ==> sel(rows[k])
    ensures forall k :: k in rows && !rows[k].env.isDeleted && sel(rows[k]) ==> k in r
  {
    set k | k in rows && !rows[k].env.isDeleted && sel(rows[k])
  }

  /** The final `update(is_deleted=True, deleted_at=now())` of
      `SoftDeleteQuerySet.delete`, re-applying the queryset's filter. */
  function MarkedDeletedWhere(rows: Rows, sel: Record -> bool, now: int): (r: Rows)
    ensures r.Keys == rows.Keys
  {
    map k | k in rows ::
      if !rows[k].env.isDeleted && sel(rows[k])
      then rows[k].(env := rows[k].env.(isDeleted := true, deletedAt := Some(now)))
      else rows[k]
  }

  /** When no active row matches the filter, the final update writes nothing. */
  lemma MarkedDeletedWhereNoMatch(rows: Rows, sel: Record -> bool, now: int)
    requires forall k :: k in rows && !rows[k].env.isDeleted ==> !sel(rows[k])
    ensures MarkedDeletedWhere(rows, sel, now) == rows
  {
    var r := MarkedDeletedWhere(rows, sel, now);
    forall k | k in rows
      ensures r[k] == rows[k]
    {
    }
  }

  /** `SoftDeleteQuerySet.hard_delete`: the rows of the active view that the
      filter selects are physically removed. */
  function HardDeletedWhere(rows: Rows, sel: Record -> bool): (r: Rows)
    ensures forall k :: k in r <==> k in rows && (rows[k].env.isDeleted || !sel(rows[k]))
    ensures forall k :: k in r ==> r[k] == rows[k]
  {
    map k | k in rows && !(!rows[k].env.isDeleted && sel(rows[k])) :: rows[k]
  }
}
