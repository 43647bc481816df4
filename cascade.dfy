/**
 * The depth-first cascade of `delete` / `restore` through
 * `get_related_objects()`, as functions of a table's rows. Each related id is
 * handled as the source handles a related object: the row is loaded, marked,
 * saved, and its own related objects are visited in their declared order. A
 * related id without a row is skipped (a related-object query returns only
 * existing rows).
 *
 * The code has no cycle detection, so cascades are only defined over
 * related-object graphs with a rank that strictly decreases from each object
 * to its related objects.
 */
module Cascade {
  import opened Wrappers
  import opened Lifecycle
  import opened Scopes

  /** `get_related_objects()` of the row `id`, in declaration order; the
      default is the empty list. */
  function Children(related: map<int, seq<int>>, id: int): (ids: seq<int>) {
    if id in related then related[id] else []
  }

  /** The rank of a row in the acyclicity witness, 0 when it has none. */
  function RankOf(rank: map<int, nat>, id: int): (n: nat) {
    if id in rank then rank[id] else 0
  }

  /** `rank` witnesses that the related-object graph has no cycle. */
  ghost predicate Ranked(related: map<int, seq<int>>, rank: map<int, nat>) {
    forall p, i :: p in related && 0 <= i < |related[p]| ==> RankOf(rank, related[p][i]) < RankOf(rank, p)
  }

  lemma ChildRank(related: map<int, seq<int>>, rank: map<int, nat>, id: int, i: int)
    requires Ranked(related, rank) && 0 <= i < |Children(related, id)|
    ensures RankOf(rank, Children(related, id)[i]) < RankOf(rank, id)
  {
  }

  /** The row as its loaded instance's `delete()` / `restore()` saves it. */
  function Apply(op: Op, r: Record, now: int): (saved: Record) {
    r.(env := Transition(op, r.env, now))
  }

  /** `obj.delete()` / `obj.restore()` on the instance loaded from row `id`. */
  ghost function CascadeOne(op: Op, rows: Rows, related: map<int, seq<int>>, rank: map<int, nat>, id: int, now: int): (r: Rows)
    requires Ranked(related, rank)
    ensures r.Keys == rows.Keys
    decreases RankOf(rank, id), |Children(related, id)| + 1
  {
    if id !in rows then rows
    else CascadeChildren(op, rows[id := Apply(op, rows[id], now)], related, rank, id, |Children(related, id)|, now)
  }

  /** `delete_related_objects()` / `restore_related_objects()` of row `id`,
      after its first `k` related objects. */
  ghost function CascadeChildren(op: Op, rows: Rows, related: map<int, seq<int>>, rank: map<int, nat>, id: int, k: nat, now: int): (r: Rows)
    requires Ranked(related, rank) && k <= |Children(related, id)|
    ensures r.Keys == rows.Keys
    decreases RankOf(rank, id), k
  {
    if k == 0 then rows
    else
      ChildRank(related, rank, id, k - 1);
      CascadeOne(op, CascadeChildren(op, rows, related, rank, id, k - 1, now), related, rank, Children(related, id)[k - 1], now)
  }

  /** The operation applied to each id of a list in turn. */
  ghost function CascadeList(op: Op, rows: Rows, related: map<int, seq<int>>, rank: map<int, nat>, ids: seq<int>, now: int): (r: Rows)
    requires Ranked(related, rank)
    ensures r.Keys == rows.Keys
    decreases |ids|
  {
    if ids == [] then rows
    else CascadeOne(op, CascadeList(op, rows, related, rank, ids[..|ids| - 1], now), related, rank, ids[|ids| - 1], now)
  }

  /** The ids a cascade from `id` visits: `id` itself when it has a row, and
      everything reachable from it through related objects that have rows. */
  ghost function Reach(keys: set<int>, related: map<int, seq<int>>, rank: map<int, nat>, id: int): (r: set<int>)
    requires Ranked(related, rank)
    ensures r <= keys
    decreases RankOf(rank, id), |Children(related, id)| + 1
  {
    if id !in keys then {}
    else {id} + ReachChildren(keys, related, rank, id, |Children(related, id)|)
  }

  ghost function ReachChildren(keys: set<int>, related: map<int, seq<int>>, rank: map<int, nat>, id: int, k: nat): (r: set<int>)
    requires Ranked(related, rank) && k <= |Children(related, id)|
    ensures r <= keys
    decreases RankOf(rank, id), k
  {
    if k == 0 then {}
    else
      ChildRank(related, rank, id, k - 1);
      ReachChildren(keys, related, rank, id, k - 1) + Reach(keys, related, rank, Children(related, id)[k - 1])
  }

  ghost function ReachList(keys: set<int>, related: map<int, seq<int>>, rank: map<int, nat>, ids: seq<int>): (r: set<int>)
    requires Ranked(related, rank)
    ensures r <= keys
    decreases |ids|
  {
    if ids == [] then {}
    else ReachList(keys, related, rank, ids[..|ids| - 1]) + Reach(keys, related, rank, ids[|ids| - 1])
  }

  /** Everything reachable from a set of starting rows. */
  ghost function Descendants(keys: set<int>, related: map<int, seq<int>>, rank: map<int, nat>, s: set<int>): (d: set<int>)
    requires Ranked(related, rank)
  {
    set k | k in keys && exists j :: j in s && k in Reach(keys, related, rank, j)
  }

  /** The reference definition of a cascade's outcome: the rows of `s`
      transitioned, every other row as it was. */
  ghost function Touch(op: Op, rows: Rows, s: set<int>, now: int): (r: Rows)
    ensures r.Keys == rows.Keys
  {
    map k | k in rows :: if k in s then Apply(op, rows[k], now) else rows[k]
  }

  lemma TouchNothing(op: Op, rows: Rows, now: int)
    ensures Touch(op, rows, {}, now) == rows
  {
    var r := Touch(op, rows, {}, now);
    forall k | k in rows
      ensures r[k] == rows[k]
    {
    }
  }

  /** Touching `a` and then `b` at one instant is touching `a + b`, because
      a transition applied twice at one instant is applied once. */
  lemma TouchTwice(op: Op, rows: Rows, a: set<int>, b: set<int>, now: int)
    ensures Touch(op, Touch(op, rows, a, now), b, now) == Touch(op, rows, a + b, now)
  {
    var left := Touch(op, Touch(op, rows, a, now), b, now);
    var right := Touch(op, rows, a + b, now);
    forall k | k in rows
      ensures left[k] == right[k]
    {
      if k in a && k in b {
        TransitionIdempotent(op, rows[k].env, now);
      }
    }
  }

  /** The cascade from one row transitions exactly the rows it reaches. */
  lemma {:induction false} CascadeOneIsTouch(op: Op, rows: Rows, related: map<int, seq<int>>, rank: map<int, nat>, id: int, now: int)
    requires Ranked(related, rank)
    ensures CascadeOne(op, rows, related, rank, id, now) == Touch(op, rows, Reach(rows.Keys, related, rank, id), now)
    decreases RankOf(rank, id), |Children(related, id)| + 1
  {
    if id in rows {
      var n := |Children(related, id)|;
      var rows1 := rows[id := Apply(op, rows[id], now)];
      assert rows1 == Touch(op, rows, {id}, now);
      CascadeChildrenIsTouch(op, rows1, related, rank, id, n, now);
      TouchTwice(op, rows, {id}, ReachChildren(rows.Keys, related, rank, id, n), now);
    } else {
      TouchNothing(op, rows, now);
    }
  }

  lemma {:induction false} CascadeChildrenIsTouch(op: Op, rows: Rows, related: map<int, seq<int>>, rank: map<int, nat>, id: int, k: nat, now: int)
    requires Ranked(related, rank) && k <= |Children(related, id)|
    ensures CascadeChildren(op, rows, related, rank, id, k, now) == Touch(op, rows, ReachChildren(rows.Keys, related, rank, id, k), now)
    decreases RankOf(rank, id), k
  {
    if k == 0 {
      TouchNothing(op, rows, now);
    } else {
      var c := Children(related, id)[k - 1];
      ChildRank(related, rank, id, k - 1);
      CascadeChildrenIsTouch(op, rows, related, rank, id, k - 1, now);
      var mid := CascadeChildren(op, rows, related, rank, id, k - 1, now);
      CascadeOneIsTouch(op, mid, related, rank, c, now);
      TouchTwice(op, rows, ReachChildren(rows.Keys, related, rank, id, k - 1), Reach(rows.Keys, related, rank, c), now);
    }
  }

  lemma {:induction false} CascadeListIsTouch(op: Op, rows: Rows, related: map<int, seq<int>>, rank: map<int, nat>, ids: seq<int>, now: int)
    requires Ranked(related, rank)
    ensures CascadeList(op, rows, related, rank, ids, now) == Touch(op, rows, ReachList(rows.Keys, related, rank, ids), now)
    decreases |ids|
  {
    if ids == [] {
      TouchNothing(op, rows, now);
    } else {
      var init := ids[..|ids| - 1];
      CascadeListIsTouch(op, rows, related, rank, init, now);
      var mid := CascadeList(op, rows, related, rank, init, now);
      CascadeOneIsTouch(op, mid, related, rank, ids[|ids| - 1], now);
      TouchTwice(op, rows, ReachList(rows.Keys, related, rank, init), Reach(rows.Keys, related, rank, ids[|ids| - 1]), now);
    }
  }

  /** Visiting the first `k` related objects one by one is the list cascade
      over that prefix of `get_related_objects()`. */
  lemma {:induction false} CascadeChildrenIsList(op: Op, rows: Rows, related: map<int, seq<int>>, rank: map<int, nat>, id: int, k: nat, now: int)
    requires Ranked(related, rank) && k <= |Children(related, id)|
    ensures CascadeChildren(op, rows, related, rank, id, k, now) == CascadeList(op, rows, related, rank, Children(related, id)[..k], now)
  {
    if k > 0 {
      CascadeChildrenIsList(op, rows, related, rank, id, k - 1, now);
      assert Children(related, id)[..k][..k - 1] == Children(related, id)[..k - 1];
    }
  }

  /** A row with a row of its own is reached from itself. */
  lemma ReachSelf(keys: set<int>, related: map<int, seq<int>>, rank: map<int, nat>, id: int)
    requires Ranked(related, rank) && id in keys
    ensures id in Reach(keys, related, rank, id)
  {
  }

  lemma {:induction false} ReachChildrenCovers(keys: set<int>, related: map<int, seq<int>>, rank: map<int, nat>, id: int, k: nat, j: nat)
    requires Ranked(related, rank) && j < k <= |Children(related, id)|
    ensures Reach(keys, related, rank, Children(related, id)[j]) <= ReachChildren(keys, related, rank, id, k)
  {
    ChildRank(related, rank, id, k - 1);
    if j < k - 1 {
      ReachChildrenCovers(keys, related, rank, id, k - 1, j);
    }
  }

  /** The cascade from a row reaches each of its own related objects that
      has a row. */
  lemma ReachChild(keys: set<int>, related: map<int, seq<int>>, rank: map<int, nat>, id: int, j: nat)
    requires Ranked(related, rank) && id in keys && j < |Children(related, id)|
    requires Children(related, id)[j] in keys
    ensures Children(related, id)[j] in Reach(keys, related, rank, id)
  {
    var c := Children(related, id)[j];
    ChildRank(related, rank, id, j);
    ReachSelf(keys, related, rank, c);
    ReachChildrenCovers(keys, related, rank, id, |Children(related, id)|, j);
  }

  /** Whatever the cascade from a row reaches, it reaches everything the
      cascade from that row would. */
  lemma {:induction false} ReachTransitive(keys: set<int>, related: map<int, seq<int>>, rank: map<int, nat>, id: int, k: int)
    requires Ranked(related, rank) && k in Reach(keys, related, rank, id)
    ensures Reach(keys, related, rank, k) <= Reach(keys, related, rank, id)
    decreases RankOf(rank, id), |Children(related, id)| + 1
  {
    if k != id {
      ReachChildrenTransitive(keys, related, rank, id, |Children(related, id)|, k);
    }
  }

  lemma {:induction false} ReachChildrenTransitive(keys: set<int>, related: map<int, seq<int>>, rank: map<int, nat>, id: int, n: nat, k: int)
    requires Ranked(related, rank) && n <= |Children(related, id)|
    requires k in ReachChildren(keys, related, rank, id, n)
    ensures Reach(keys, related, rank, k) <= ReachChildren(keys, related, rank, id, n)
    decreases RankOf(rank, id), n
  {
    ChildRank(related, rank, id, n - 1);
    if k in ReachChildren(keys, related, rank, id, n - 1) {
      ReachChildrenTransitive(keys, related, rank, id, n - 1, k);
    } else {
      ReachTransitive(keys, related, rank, Children(related, id)[n - 1], k);
    }
  }

  /** The reached rows are closed under related objects: a related object,
      with a row, of any reached row is reached too. */
  lemma ReachRelated(keys: set<int>, related: map<int, seq<int>>, rank: map<int, nat>, id: int, k: int, j: nat)
    requires Ranked(related, rank) && k in Reach(keys, related, rank, id)
    requires j < |Children(related, k)| && Children(related, k)[j] in keys
    ensures Children(related, k)[j] in Reach(keys, related, rank, id)
  {
    ReachChild(keys, related, rank, k, j);
    ReachTransitive(keys, related, rank, id, k);
  }

  lemma {:induction false} ReachListIsDescendants(keys: set<int>, related: map<int, seq<int>>, rank: map<int, nat>, ids: seq<int>)
    requires Ranked(related, rank)
    ensures ReachList(keys, related, rank, ids) == Descendants(keys, related, rank, set i | i in ids)
  {
    if ids != [] {
      var init, last := ids[..|ids| - 1], ids[|ids| - 1];
      ReachListIsDescendants(keys, related, rank, init);
      assert (set i | i in ids) == (set i | i in init) + {last} by {
        assert ids == init + [last];
      }
      var left := ReachList(keys, related, rank, ids);
      var right := Descendants(keys, related, rank, set i | i in ids);
      forall k | k in right
        ensures k in left
      {
        var j :| j in ids && k in Reach(keys, related, rank, j);
        if j != last {
          assert j in init;
        }
      }
    }
  }

  /** A set of rows lies inside everything reachable from it. */
  lemma DescendantsCoverStart(keys: set<int>, related: map<int, seq<int>>, rank: map<int, nat>, s: set<int>)
    requires Ranked(related, rank) && s <= keys
    ensures s <= Descendants(keys, related, rank, s)
  {
    forall k | k in s
      ensures k in Descendants(keys, related, rank, s)
    {
      ReachSelf(keys, related, rank, k);
    }
  }

  /** A row with no related objects cascades to itself alone: the result is
      that row's own transition and no other row changes. */
  lemma LeafCascade(op: Op, rows: Rows, related: map<int, seq<int>>, rank: map<int, nat>, id: int, now: int)
    requires Ranked(related, rank) && id in rows && Children(related, id) == []
    ensures CascadeOne(op, rows, related, rank, id, now) == rows[id := Apply(op, rows[id], now)]
            == Touch(op, rows, {id}, now)
  {
  }

  /** Deleting a row soft-deletes exactly the rows the cascade reaches, all
      at the same instant, and leaves every other row as it was. */
  lemma CascadeDeleteEffect(rows: Rows, related: map<int, seq<int>>, rank: map<int, nat>, id: int, now: int)
    requires Ranked(related, rank)
    ensures var r := CascadeOne(DeleteOp, rows, related, rank, id, now);
      var reached := Reach(rows.Keys, related, rank, id);
      && (id in rows ==> id in reached)
      && (forall k :: k in reached ==>
            k in Deleted(r) && r[k].env.deletedAt == Some(now) && r[k].env.updatedAt == Some(now)
            && r[k].owner == rows[k].owner && r[k].attrs == rows[k].attrs)
      && (forall k :: k in rows && k !in reached ==> r[k] == rows[k])
  {
    CascadeOneIsTouch(DeleteOp, rows, related, rank, id, now);
    if id in rows {
      ReachSelf(rows.Keys, related, rank, id);
    }
  }

  /** A parent and a related child are both deleted by deleting the parent,
      and both active again after restoring it. */
  lemma CascadeReachesRelated(rows: Rows, related: map<int, seq<int>>, rank: map<int, nat>, parent: int, j: nat, t1: int, t2: int)
    requires Ranked(related, rank) && parent in rows
    requires j < |Children(related, parent)| && Children(related, parent)[j] in rows
    ensures var child := Children(related, parent)[j];
      var deleted := CascadeOne(DeleteOp, rows, related, rank, parent, t1);
      var restored := CascadeOne(RestoreOp, deleted, related, rank, parent, t2);
      && parent in Deleted(deleted) && child in Deleted(deleted)
      && parent in Active(restored) && child in Active(restored)
  {
    var deleted := CascadeOne(DeleteOp, rows, related, rank, parent, t1);
    ReachSelf(rows.Keys, related, rank, parent);
    ReachChild(rows.Keys, related, rank, parent, j);
    CascadeOneIsTouch(DeleteOp, rows, related, rank, parent, t1);
    CascadeOneIsTouch(RestoreOp, deleted, related, rank, parent, t2);
  }

  /** Delete then restore of a row: every reached row is back in the active
      view with no deletion time and its columns intact, and no other row
      has changed. */
  lemma CascadeDeleteThenRestore(rows: Rows, related: map<int, seq<int>>, rank: map<int, nat>, id: int, t1: int, t2: int)
    requires Ranked(related, rank)
    ensures var restored := CascadeOne(RestoreOp, CascadeOne(DeleteOp, rows, related, rank, id, t1), related, rank, id, t2);
      var reached := Reach(rows.Keys, related, rank, id);
      && restored.Keys == rows.Keys
      && (id in rows ==> id in Active(restored) && id !in Deleted(restored))
      && (forall k :: k in reached ==>
            k in Active(restored) && restored[k].env.deletedAt.None?
            && restored[k].env.updatedAt == Some(t2)
            && restored[k].owner == rows[k].owner && restored[k].attrs == rows[k].attrs)
      && (forall k :: k in rows && k !in reached ==> restored[k] == rows[k])
  {
    var deleted := CascadeOne(DeleteOp, rows, related, rank, id, t1);
    CascadeOneIsTouch(DeleteOp, rows, related, rank, id, t1);
    CascadeOneIsTouch(RestoreOp, deleted, related, rank, id, t2);
    if id in rows {
      ReachSelf(rows.Keys, related, rank, id);
    }
  }

  /** What `SoftDeleteQuerySet.delete` leaves after its per-object pass over
      the selected rows: every row the pass reaches is deleted, so no active
      row matches the filter any more and the final bulk update writes
      nothing. */
  lemma QuerySetDeleteFinalUpdateIsNoOp(rows: Rows, related: map<int, seq<int>>, rank: map<int, nat>, sel: Record -> bool, now: int)
    requires Ranked(related, rank)
    ensures var r := Touch(DeleteOp, rows, Descendants(rows.Keys, related, rank, ActiveWhere(rows, sel)), now);
      && (forall k :: k in ActiveWhere(rows, sel) ==> k in Deleted(r))
      && ActiveWhere(r, sel) == {}
      && MarkedDeletedWhere(r, sel, now) == r
  {
    var s := ActiveWhere(rows, sel);
    var r := Touch(DeleteOp, rows, Descendants(rows.Keys, related, rank, s), now);
    DescendantsCoverStart(rows.Keys, related, rank, s);
    assert forall k :: k in r && !r[k].env.isDeleted ==> !sel(r[k]);
    MarkedDeletedWhereNoMatch(r, sel, now);
  }

  /** The per-object pass of `SoftDeleteQuerySet.delete`, in whatever order
      it visits the selected rows, followed by its final bulk update, is the
      transition of everything reachable from the selected rows. */
  lemma QuerySetDeleteOutcome(rows: Rows, related: map<int, seq<int>>, rank: map<int, nat>, order: seq<int>, sel: Record -> bool, now: int)
    requires Ranked(related, rank)
    requires (set i | i in order) == ActiveWhere(rows, sel)
    ensures var r := MarkedDeletedWhere(CascadeList(DeleteOp, rows, related, rank, order, now), sel, now);
      && r == Touch(DeleteOp, rows, Descendants(rows.Keys, related, rank, ActiveWhere(rows, sel)), now)
      && ActiveWhere(r, sel) == {}
  {
    CascadeListIsTouch(DeleteOp, rows, related, rank, order, now);
    ReachListIsDescendants(rows.Keys, related, rank, order);
    QuerySetDeleteFinalUpdateIsNoOp(rows, related, rank, sel, now);
  }
}
