/**
 * `FakeModelTest`, the concrete model the repository's own tests use: one
 * one-character column defaulting to "A" and a nullable foreign key to
 * itself, both watched (the key as its raw id column).
 */
module FakeModels {
  import opened Wrappers
  import opened Values
  import opened Lifecycle
  import opened Scopes
  import opened Cascade
  import opened ChangeTracking
  import opened History

  /** `FakeModelTest._fields_to_watch()`: the column and the raw id column
      of the foreign key (not the key's related object), each once. */
  function FakeWatched(): (w: seq<string>)
    ensures |w| == 2 && "test_fk_id" in w && "test_fk" !in w
    ensures forall i, j :: 0 <= i < j < |w| ==> w[i] != w[j]
  {
    ["test", "test_fk_id"]
  }

  /** The attributes of `FakeModelTest.objects.create()` with no arguments. */
  function FakeDefaults(): (m: map<string, Value>)
    ensures Covers(FakeWatched(), m)
  {
    map["test" := Str("A"), "test_fk_id" := Null]
  }

  /** The instance after `obj.test = "B"` and `obj.test_fk_id = 7`. */
  function FakeEdited(): (m: map<string, Value>)
    ensures Covers(FakeWatched(), m)
  {
    FakeDefaults()["test" := Str("B")]["test_fk_id" := Int(7)]
  }

  /** Both watched fields changed, so there is one clause for each, in
      watched order. */
  lemma FakeModelEditClauses()
    ensures Clauses(FakeWatched(), Snapshot(FakeWatched(), FakeDefaults()), FakeEdited())
            == ["test A -> B", "test_fk_id None -> 7"]
  {
    var shadow := Snapshot(FakeWatched(), FakeDefaults());
    var current := FakeEdited();
    assert shadow["test"] == Str("A") && shadow["test_fk_id"] == Null;
    assert Render(Int(7)) == "7";
    assert Clause("test", Str("A"), Str("B")) == "test A -> B";
    assert Clause("test_fk_id", Null, Int(7)) == "test_fk_id None -> 7";
    assert FakeWatched()[1..] == ["test_fk_id"];
    assert Clauses(["test_fk_id"], shadow, current) == ["test_fk_id None -> 7"];
  }

  /** Editing both watched fields of a fresh instance and recording it
      anonymously: the foreign key is reported by its raw id, `None` before. */
  lemma FakeModelEditHistory()
    ensures var message := Message(FakeWatched(), Snapshot(FakeWatched(), FakeDefaults()), FakeEdited());
      && message == "test A -> B test_fk_id None -> 7"
      && Description(None, message) == AnonymousPrefix + "test A -> B test_fk_id None -> 7"
  {
    var shadow := Snapshot(FakeWatched(), FakeDefaults());
    MessageIsJoin(FakeWatched(), shadow, FakeEdited());
    FakeModelEditClauses();
    FakeModelEditJoin();
  }

  /** The two clauses joined by a single space. */
  lemma FakeModelEditJoin()
    ensures Join(" ", ["test A -> B", "test_fk_id None -> 7"]) == "test A -> B test_fk_id None -> 7"
  {
    var parts := ["test A -> B", "test_fk_id None -> 7"];
    assert parts[1..] == ["test_fk_id None -> 7"];
    assert Join(" ", parts[1..]) == "test_fk_id None -> 7";
  }

  /** An unedited instance records only the actor prefix. */
  lemma FakeModelUneditedHistory(actor: Option<Actor>)
    ensures Description(actor, Message(FakeWatched(), Snapshot(FakeWatched(), FakeDefaults()), FakeDefaults())) == Prefix(actor)
  {
    FreshSnapshotHasNoChanges(FakeWatched(), FakeDefaults());
  }

  /** The deletion tests: a created row (no related objects are declared) is
      in the deleted view and not the active one after `delete()`, and back
      in the active view after `restore()`. */
  lemma FakeModelDeleteRestore(id: int, t0: int, t1: int, t2: int)
    ensures var created := map[id := Record(Stamp(NewEnvelope(), true, t0), None, FakeDefaults())];
      var deleted := CascadeOne(DeleteOp, created, map[], map[], id, t1);
      var restored := CascadeOne(RestoreOp, deleted, map[], map[], id, t2);
      && Active(deleted).Keys == {} && Deleted(deleted).Keys == {id}
      && Active(restored).Keys == {id} && Deleted(restored).Keys == {}
  {
    var created := map[id := Record(Stamp(NewEnvelope(), true, t0), None, FakeDefaults())];
    var deleted := CascadeOne(DeleteOp, created, map[], map[], id, t1);
    LeafCascade(DeleteOp, created, map[], map[], id, t1);
    LeafCascade(RestoreOp, deleted, map[], map[], id, t2);
  }
}
