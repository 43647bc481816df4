/**
 * The change tracker of `BaseModel`: the shadow snapshot of the watched
 * fields taken when an instance is built, and the diff message
 * `_historic_message` computes against it.
 */
module ChangeTracking {
  import opened Values

  /** Every watched name is an attribute (reading it does not fail). */
  predicate Covers(watched: seq<string>, m: map<string, Value>) {
    forall f :: f in watched ==> f in m
  }

  /** The shadow values `__init__` stores, one per watched name. */
  function Snapshot(watched: seq<string>, attrs: map<string, Value>): (snap: map<string, Value>)
    requires Covers(watched, attrs)
    ensures Covers(watched, snap)
    ensures forall f :: f in snap <==> f in watched
    ensures forall f :: f in snap ==> snap[f] == attrs[f]
  {
    map f | f in watched :: attrs[f]
  }

  /** One clause of the message: `"{field} {old} -> {new}"`. */
  function Clause(field: string, before: Value, after: Value): (c: string)
    ensures |c| > |field|
  {
    field + " " + Render(before) + " -> " + Render(after)
  }

  /** The watched names whose current value differs from the snapshot, in
      watched-list order. */
  function Changed(watched: seq<string>, shadow: map<string, Value>, current: map<string, Value>): (r: seq<string>)
    requires Covers(watched, shadow) && Covers(watched, current)
    ensures |r| <= |watched|
    ensures forall f :: f in r <==> f in watched && shadow[f] != current[f]
  {
    if watched == [] then []
    else
      var f := watched[0];
      (if current[f] != shadow[f] then [f] else []) + Changed(watched[1..], shadow, current)
  }

  /** The `changes` list `_historic_message` accumulates. */
  function Clauses(watched: seq<string>, shadow: map<string, Value>, current: map<string, Value>): (r: seq<string>)
    requires Covers(watched, shadow) && Covers(watched, current)
    ensures forall i :: 0 <= i < |r| ==> r[i] != ""
  {
    if watched == [] then []
    else
      var f := watched[0];
      (if current[f] != shadow[f] then [Clause(f, shadow[f], current[f])] else [])
        + Clauses(watched[1..], shadow, current)
  }

  /** Python's `sep.join(parts)`. */
  function Join(sep: string, parts: seq<string>): (r: string)
    ensures parts == [] ==> r == ""
    ensures (forall i :: 0 <= i < |parts| ==> parts[i] != "") ==> (r == "" <==> parts == [])
  {
    if parts == [] then ""
    else if |parts| == 1 then parts[0]
    else parts[0] + sep + Join(sep, parts[1..])
  }

  /** `_historic_message`: the clauses joined by single spaces; it is empty
      exactly when no watched field changed. */
  function Message(watched: seq<string>, shadow: map<string, Value>, current: map<string, Value>): (m: string)
    requires Covers(watched, shadow) && Covers(watched, current)
    ensures m == "" <==> forall f :: f in watched ==> shadow[f] == current[f]
  {
    ClausesOfChanged(watched, shadow, current);
    Join(" ", Clauses(watched, shadow, current))
  }

  /** The message is the clauses joined by single spaces. */
  lemma MessageIsJoin(watched: seq<string>, shadow: map<string, Value>, current: map<string, Value>)
    requires Covers(watched, shadow) && Covers(watched, current)
    ensures Message(watched, shadow, current) == Join(" ", Clauses(watched, shadow, current))
  {
  }

  /** There is one clause per changed watched field, and the i-th clause
      describes the i-th changed field with its old and new values. */
  lemma {:induction false} ClausesOfChanged(watched: seq<string>, shadow: map<string, Value>, current: map<string, Value>)
    requires Covers(watched, shadow) && Covers(watched, current)
    ensures var cs := Clauses(watched, shadow, current);
      var fs := Changed(watched, shadow, current);
      && |cs| == |fs|
      && forall i :: 0 <= i < |cs| ==> cs[i] == Clause(fs[i], shadow[fs[i]], current[fs[i]])
  {
    if watched != [] {
      ClausesOfChanged(watched[1..], shadow, current);
    }
  }

  /** Every part of a covered list is covered. */
  lemma CoversParts(a: seq<string>, b: seq<string>, m: map<string, Value>)
    requires Covers(a + b, m)
    ensures Covers(a, m) && Covers(b, m)
  {
    assert forall f :: f in a ==> f in a + b;
    assert forall f :: f in b ==> f in a + b;
  }

  /** Clauses follow watched-list order: the clauses of an earlier part of
      the list all come before those of a later part. */
  lemma {:induction false} ClausesInWatchedOrder(a: seq<string>, b: seq<string>, shadow: map<string, Value>, current: map<string, Value>)
    requires Covers(a + b, shadow) && Covers(a + b, current)
    ensures Covers(a, shadow) && Covers(a, current) && Covers(b, shadow) && Covers(b, current)
    ensures Clauses(a + b, shadow, current) == Clauses(a, shadow, current) + Clauses(b, shadow, current)
  {
    CoversParts(a, b, shadow);
    CoversParts(a, b, current);
    if a != [] {
      assert (a + b)[0] == a[0] && (a + b)[1..] == a[1..] + b;
      ClausesInWatchedOrder(a[1..], b, shadow, current);
    } else {
      assert a + b == b;
    }
  }

  /** Right after construction nothing has changed: the message is empty. */
  lemma FreshSnapshotHasNoChanges(watched: seq<string>, attrs: map<string, Value>)
    requires Covers(watched, attrs)
    ensures Message(watched, Snapshot(watched, attrs), attrs) == ""
  {
  }

  lemma {:induction false} NoChangeNoClauses(watched: seq<string>, shadow: map<string, Value>, current: map<string, Value>)
    requires Covers(watched, shadow) && Covers(watched, current)
    requires forall f :: f in watched ==> shadow[f] == current[f]
    ensures Clauses(watched, shadow, current) == []
  {
    if watched != [] {
      NoChangeNoClauses(watched[1..], shadow, current);
    }
  }

  /** When a single watched field (listed once) changed, the message is
      exactly its clause. */
  lemma {:induction false} SingleChangeMessage(watched: seq<string>, shadow: map<string, Value>, current: map<string, Value>, field: string)
    requires Covers(watched, shadow) && Covers(watched, current)
    requires multiset(watched)[field] == 1
    requires shadow[field] != current[field]
    requires forall f :: f in watched && f != field ==> shadow[f] == current[f]
    ensures Clauses(watched, shadow, current) == [Clause(field, shadow[field], current[field])]
    ensures Message(watched, shadow, current) == Clause(field, shadow[field], current[field])
  {
    assert watched == [watched[0]] + watched[1..];
    assert multiset(watched) == multiset{watched[0]} + multiset(watched[1..]);
    if watched[0] == field {
      assert field !in watched[1..];
      NoChangeNoClauses(watched[1..], shadow, current);
    } else {
      SingleChangeMessage(watched[1..], shadow, current, field);
    }
  }
}
