# Soft delete and audit history, modelled in Dafny

This project models the soft-delete and audit layer of a Django backend. Two files make up that layer:

- `backend/base/models.py`: the `BaseLog` audit envelope, the `BaseModel` base class, its managers and querysets, and the `AddressBR`, `Historic` and `FakeModelTest` models.
- `backend/user/models.py`: the `CustomUser` model.

The layer works as follows:

- Rows are never removed by an ordinary `delete()`. Instead they are flagged `is_deleted` and stamped with `deleted_at`.
- `restore()` clears the flag again.
- Both `delete()` and `restore()` cascade to the objects that `get_related_objects()` returns.
- The managers expose an active view, a deleted view, a global view and an owner view.
- Every instance keeps a snapshot of its watched fields. `create_historic` turns the difference from that snapshot into a `Historic` row. The row is attached to the instance through a generic (content type, object id) association.

## Modules

| file | module | what it holds |
|---|---|---|
| `wrappers.dfy` | `Wrappers` | `Option` |
| `values.dfy` | `Values` | Attribute values (`None`, text, integers, booleans) and how they are rendered in history messages |
| `lifecycle.dfy` | `Lifecycle` | The audit envelope (`created_at`, `updated_at`, `is_deleted`, `deleted_at`), the row record, `BaseLog.save` as `Stamp`, and the delete and restore flag changes |
| `scopes.dfy` | `Scopes` | The manager views and the bulk updates of the querysets, as functions of a table's rows |
| `cascade.dfy` | `Cascade` | The related-object graph (acyclic through a rank witness), the cascade as a specification function, and its characterisation as "transition every reachable row" |
| `tables.dfy` | `Tables` | `class Table`: the persisted rows, updated in place by the per-object cascade and the queryset operations |
| `tracking.dfy` | `ChangeTracking` | The shadow snapshot and `_historic_message` |
| `history.dfy` | `History` | Actor resolution, the history description, the `Historic` row and `class HistoryTable` |
| `entity.dfy` | `BaseModels` | `class Entity`: a `BaseModel` instance, with save, delete, restore, hard delete and `create_historic` |
| `address.dfy` | `Addresses` | `AddressBR`, `full_address` and `as_dict` |
| `fake_model.dfy` | `FakeModels` | `FakeModelTest` and the scenarios of the repository's tests |
| `users.dfy` | `Users` | `class User`: `CustomUser` |

A clock reading is an integer parameter `now`. All `now()` calls made during one `delete()`, `restore()` or `save()` read the same instant.

An instance in memory (`Entity`, `User`) and its persisted row (`Table.rows[id]`) are kept separate, as in the ORM.

The related objects a cascade visits are modelled as freshly loaded rows. In the code, `get_related_objects()` and `self.all()` return instances loaded before the loop. By the time one of them is deleted, a sibling's cascade may already have saved its row, so the instance can be stale. Fresh loading gives the same result only because applying a transition twice at one instant equals applying it once (`Lifecycle.TransitionIdempotent`).

Two behaviours of the code are easy to misread:

- **Owner view:** `get_owner_queryset` filters the unfiltered base queryset. It therefore lists every row of the owner, soft-deleted ones included (`Scopes.OwnedBy`, `Scopes.OwnedByShowsDeletedRow`), unlike the `objects` view it sits beside.
- **History rows:** `create_historic` tests the whole description, prefix included, so its `if message:` guard always passes. A history row is appended even when no watched field changed (`BaseModels.Entity.CreateHistoric`, `FakeModels.FakeModelUneditedHistory`). The guard never skips the creation.

## Model

| member | source | states |
|---|---|---|
| Values.IntToStringRoundTrip | backend/base/models.py:96 | The decimal rendering of an integer id parses back to the same integer, so the rendering is injective |
| Values.Render | backend/base/models.py:96 | `None` renders as `"None"`, a string as itself, an integer with a leading minus exactly when negative, a boolean as `"True"`/`"False"` |
| Values.RenderForeignKey | backend/base/models.py:96 | A null foreign key renders as `None`; two integer ids render alike exactly when they are equal |
| Lifecycle.NewEnvelope | backend/base/models.py:52-56 | A fresh row is not deleted, has no deletion time and has no timestamps yet |
| Lifecycle.Stamp | backend/base/models.py:61-65 | `updated_at` becomes now. `created_at` becomes now when adding or when it was null, and is kept otherwise. Nothing else changes |
| Lifecycle.SaveKeepsCreationTime | backend/base/models.py:61-65 | A later save of a saved row keeps its creation time and moves `updated_at` to the later instant |
| Lifecycle.Mark | backend/base/models.py:114-117 | Delete sets the flag and `deleted_at = now`; restore clears the flag and `deleted_at`; the result is consistent and the timestamps are untouched |
| Lifecycle.Transition | backend/base/models.py:114-130 | Flag change followed by save: consistent, flagged exactly for delete, `updated_at = now`, creation time kept when set |
| Lifecycle.TransitionIdempotent | backend/base/models.py:114-130 | Applying the same transition twice at one instant equals applying it once |
| Lifecycle.DeleteThenRestore | backend/base/models.py:114-130 | Delete then restore of one row leaves it active with no deletion time and its creation time kept |
| Scopes.Active | backend/base/models.py:44-45 | `objects` holds exactly the rows not flagged deleted, unchanged |
| Scopes.Deleted | backend/base/models.py:34-36 | `deleted_objects` holds exactly the rows flagged deleted, unchanged |
| Scopes.Global | backend/base/models.py:48-49 | `global_objects` holds every row unchanged: the active rows and the deleted rows together |
| Scopes.OwnedBy | backend/base/models.py:40-42 | The owner view holds exactly the rows whose owner is the user, unchanged, whatever their deletion flag |
| Scopes.ScopesPartition | backend/base/models.py:34-49 | The active and deleted views are disjoint and together make up the global view |
| Scopes.NewRowIsActive | backend/base/models.py:55-56 | A newly saved row is in the active view and not in the deleted view |
| Scopes.OwnedByIgnoresDeletion | backend/base/models.py:40-42 | The owner view is the union of the owner's active and deleted rows |
| Scopes.OwnedByShowsDeletedRow | backend/base/models.py:40-42 | Every soft-deleted row of the user is in the owner view, though not in the active view |
| Scopes.RestoredWhere | backend/base/models.py:28-31 | The bulk restore keeps the set of rows |
| Scopes.BulkRestoreEffect | backend/base/models.py:28-31 | Exactly the deleted rows matching the filter move to the active view, with no deletion time and their timestamps, owner and columns kept; every other row is unchanged |
| Scopes.ActiveWhere | backend/base/models.py:20 | The rows a queryset delete visits are exactly the active rows its filter selects |
| Scopes.MarkedDeletedWhere | backend/base/models.py:22 | The final bulk update of a queryset delete keeps the set of rows |
| Scopes.MarkedDeletedWhereNoMatch | backend/base/models.py:22 | When no active row matches, the final bulk update changes nothing |
| Scopes.HardDeletedWhere | backend/base/models.py:24-25 | A queryset hard delete removes exactly the active matching rows and leaves the others unchanged |
| Cascade.CascadeOne | backend/base/models.py:114-121 | A cascade keeps the set of rows (it only flags) |
| Cascade.CascadeChildren | backend/base/models.py:138-140 | The loop over the first k related objects keeps the set of rows |
| Cascade.CascadeList | backend/base/models.py:20-21 | Cascading from a list of objects in order keeps the set of rows |
| Cascade.Reach | backend/base/models.py:135-140 | The rows a cascade reaches are rows of the table |
| Cascade.CascadeOneIsTouch | backend/base/models.py:114-121 | The cascade from a row transitions exactly the rows reachable from it through related objects, and no other row |
| Cascade.CascadeChildrenIsTouch | backend/base/models.py:138-140 | The loop over related objects transitions exactly the rows reachable from them |
| Cascade.CascadeListIsTouch | backend/base/models.py:20-21 | Cascading from a list transitions exactly the rows reachable from its elements |
| Cascade.CascadeChildrenIsList | backend/base/models.py:138-144 | The related-object loop is the list cascade over `get_related_objects()` in order |
| Cascade.ReachChild | backend/base/models.py:138-140 | Each related object, with a row, of the starting row is reached |
| Cascade.ReachTransitive | backend/base/models.py:138-144 | Every row the cascade from a reached row would reach is reached as well |
| Cascade.ReachRelated | backend/base/models.py:135-140 | The reached rows are closed under related objects: a related object, with a row, of any reached row is reached |
| Cascade.ReachListIsDescendants | backend/base/models.py:19-21 | What a list cascade reaches depends only on the set of starting rows, not their order or repetition |
| Cascade.LeafCascade | backend/base/models.py:135-136 | In any graph, a row with no related objects cascades to itself alone: its own transition, no other row changed |
| Cascade.CascadeDeleteEffect | backend/base/models.py:114-121 | Delete flags every reached row as deleted at now with `updated_at = now`, keeps their owner and columns, and leaves the other rows unchanged |
| Cascade.CascadeReachesRelated | backend/base/models.py:114-130 | Deleting a parent deletes a related child; restoring the parent makes both active again |
| Cascade.CascadeDeleteThenRestore | backend/base/models.py:114-130 | Delete then restore puts every reached row back in the active view with no deletion time and its columns intact; the other rows are unchanged |
| Cascade.QuerySetDeleteFinalUpdateIsNoOp | backend/base/models.py:16-22 | After the per-object pass every selected row is deleted, no active row matches, and the final update writes nothing |
| Cascade.QuerySetDeleteOutcome | backend/base/models.py:16-22 | In any visiting order, queryset delete transitions exactly the rows reachable from the selected active rows |
| Tables.Table.DeleteLoaded | backend/base/models.py:114-121 | Deleting a loaded row updates the table to the cascade from that row |
| Tables.Table.DeleteEach | backend/base/models.py:138-140 | Deleting each related object in order updates the table to the list cascade |
| Tables.Table.RestoreLoaded | backend/base/models.py:123-130 | Restoring a loaded row updates the table to the restore cascade from that row |
| Tables.Table.RestoreEach | backend/base/models.py:142-144 | Restoring each related object in order updates the table to the list cascade |
| Tables.Table.DeleteEachOf | backend/base/models.py:19-21 | The per-object pass visits each selected row once, in some order, and leaves the list cascade over that order |
| Tables.Table.DeleteWhere | backend/base/models.py:16-22 | Queryset delete transitions exactly the rows reachable from the selected active rows, after which no active row matches |
| Tables.Table.HardDeleteWhere | backend/base/models.py:24-25 | Queryset hard delete leaves the active matching rows removed |
| Tables.Table.RestoreWhere | backend/base/models.py:28-31 | The deleted queryset's restore updates the table to the bulk restore |
| ChangeTracking.Snapshot | backend/base/models.py:77-80 | The snapshot holds exactly the watched names, each with its value at construction |
| ChangeTracking.Clause | backend/base/models.py:96 | A clause is longer than the field name it starts with |
| ChangeTracking.Changed | backend/base/models.py:92-95 | A name is listed exactly when it is watched and its value differs from the snapshot |
| ChangeTracking.Clauses | backend/base/models.py:91-96 | No clause is empty |
| ChangeTracking.Join | backend/base/models.py:97 | Joining non-empty parts gives `""` exactly when there are no parts |
| ChangeTracking.Message | backend/base/models.py:90-97 | The message is `""` exactly when no watched field changed |
| ChangeTracking.ClausesOfChanged | backend/base/models.py:90-97 | There is one clause per changed watched field, and the i-th clause is `"{field} {old} -> {new}"` for the i-th changed field |
| ChangeTracking.ClausesInWatchedOrder | backend/base/models.py:92-96 | Clauses follow watched-list order: the clauses of `a + b` are those of `a` followed by those of `b` |
| ChangeTracking.FreshSnapshotHasNoChanges | backend/base/models.py:77-97 | Right after construction the message is empty |
| ChangeTracking.NoChangeNoClauses | backend/base/models.py:90-97 | With no changed field there are no clauses |
| ChangeTracking.SingleChangeMessage | backend/base/models.py:90-97 | With one changed field watched once, the message is that one clause |
| History.ResolveActor | backend/base/models.py:101 | The actor is the request's user exactly when the request and its user exist and the user is not anonymous; otherwise it is null |
| History.Prefix | backend/base/models.py:102-105 | The prefix is never empty, and it is `"Anonymous user changed: "` without an actor |
| History.Description | backend/base/models.py:100-106 | The description is the prefix followed by the diff message, so it is longer than the message |
| History.HistoryTable.Create | backend/base/models.py:243-252 | Creating a history row appends exactly one freshly stamped row with the given actor, description and subject |
| BaseModels.Entity.constructor | backend/base/models.py:77-80 | The shadow attributes are the snapshot of the watched fields |
| BaseModels.Entity.SetField | backend/base/models.py:93-95 | Assigning an attribute changes the current value the diff reads, and leaves the snapshot, the envelope and the owner as they were |
| BaseModels.Entity.Save | backend/base/models.py:61-65 | The instance is stamped and written to its row, the snapshot is not refreshed, and no other row changes |
| BaseModels.Entity.GetRelatedObjects | backend/base/models.py:135-136 | The related objects of an instance are strictly below it in the acyclicity rank, so the cascade ends |
| BaseModels.Entity.AfterDelete | backend/base/models.py:146-147 | The default `after_delete` hook changes nothing |
| BaseModels.Entity.AfterRestore | backend/base/models.py:149-150 | The default `after_restore` hook changes nothing |
| BaseModels.Entity.Delete | backend/base/models.py:114-121 | The instance is flagged deleted at now and saved, then the table is the list cascade over its related objects from the saved row |
| BaseModels.Entity.DeleteRelatedObjects | backend/base/models.py:138-140 | The table becomes the list cascade over `get_related_objects()` |
| BaseModels.Entity.Restore | backend/base/models.py:123-130 | The instance is unflagged and saved, then the table is the restore cascade over its related objects |
| BaseModels.Entity.RestoreRelatedObjects | backend/base/models.py:142-144 | The table becomes the restore list cascade over `get_related_objects()` |
| BaseModels.Entity.HardDelete | backend/base/models.py:132-133 | The row is removed with no flag, hook or cascade |
| BaseModels.Entity.HistoricMessage | backend/base/models.py:90-97 | The instance's diff is empty exactly when every watched field still has its snapshot value |
| BaseModels.Entity.Subject | backend/base/models.py:109 | The history row's association points at this instance's content type and primary key |
| BaseModels.Entity.CreateHistoric | backend/base/models.py:99-112 | Every call appends exactly one history row: freshly stamped, with the resolved actor, the prefix plus the diff, and attached to this instance |
| BaseModels.InstanceCascadeIsRowCascade | backend/base/models.py:114-130 | An instance that mirrors its row cascades exactly as its row does, transitioning every row reachable from it |
| Addresses.WatchedFields | backend/base/models.py:203-208 | An address watches its eleven text columns |
| Addresses.WatchedFieldsDistinct | backend/base/models.py:203-208 | No column is watched twice |
| Addresses.FullAddress | backend/base/models.py:210-225 | The result is `""` exactly when the six address-line fields are all null or empty; it starts with logradouro when that is set and ends with `" (complemento)"` when that is set |
| Addresses.FullAddressReadsAddressLine | backend/base/models.py:210-225 | The rendering depends only on the truthy values of logradouro, numero, bairro, localidade, uf and complemento |
| Addresses.FullAddressAllParts | backend/base/models.py:210-225 | A full address line is `l, n, b, c - u (k)` |
| Addresses.AsDict | backend/base/models.py:227-240 | The keys are exactly the watched field names |
| Addresses.AsDictDeterminesColumns | backend/base/models.py:227-240 | Two addresses have equal dictionaries exactly when all eleven columns agree |
| Addresses.AsDictAddressLine | backend/base/models.py:227-234 | Equal dictionaries agree on the cep and the six address-line columns |
| Addresses.AsDictRegistration | backend/base/models.py:235-239 | Equal dictionaries agree on the registration columns, complemento and observacao |
| Addresses.Attrs | backend/base/models.py:203-208 | Every watched field of an address is an attribute, with its column's value |
| Addresses.AddressMessageEmptyIff | backend/base/models.py:203-208 | An edited address has an empty diff exactly when none of its eleven columns changed |
| FakeModels.FakeWatched | backend/base/models.py:278-279 | The fake model watches two distinct names, its column and the raw id column of its foreign key |
| FakeModels.FakeDefaults | backend/base/models.py:265-269 | A default instance has both watched attributes |
| FakeModels.FakeModelEditClauses | backend/base/models.py:278-279 | Editing both fields gives one clause each, in watched order, with the foreign key as its raw id |
| FakeModels.FakeModelEditHistory | backend/base/models.py:278-279 | The message is `test A -> B test_fk_id None -> 7` and the anonymous description prefixes it |
| FakeModels.FakeModelUneditedHistory | backend/base/models.py:99-107 | With no change, the description is the prefix alone (and a row is still created) |
| FakeModels.FakeModelDeleteRestore | backend/base/tests.py:10-20 | After delete the row is in the deleted view only; after restore it is in the active view only |
| Users.User.Save | backend/base/models.py:61-65 | The user is stamped and written to its row; no other row changes |
| Users.User.GetRelatedObjects | backend/user/models.py:48-49 | A user has no related objects |
| Users.User.DeleteRelatedObjects | backend/user/models.py:51-53 | The cascade over a user's related objects leaves the table unchanged |
| Users.User.RestoreRelatedObjects | backend/user/models.py:55-57 | The restore cascade over a user's related objects leaves the table unchanged |
| Users.User.AfterDelete | backend/user/models.py:59-60 | The user's `after_delete` hook changes nothing |
| Users.User.AfterRestore | backend/user/models.py:62-63 | The user's `after_restore` hook changes nothing |
| Users.User.Delete | backend/user/models.py:25-33 | The user is flagged deleted at now and saved; only its own row is written and no history is touched |
| Users.User.Restore | backend/user/models.py:35-43 | The user is unflagged and saved; only its own row is written |
| Users.User.HardDelete | backend/user/models.py:45-46 | The user row is removed |
| Users.Saved | backend/user/models.py:25-43 | A loaded user's delete or restore sets the flag consistently, stamps `updated_at`, keeps the columns and changes no other row |
| Users.UserCascadeIsLeaf | backend/user/models.py:48-57 | A user's delete or restore is the generic cascade over a graph with no related objects: only the user's row is touched |
| Users.UserDeleteThenRestore | backend/user/tests.py:22-32 | After delete the user is in the deleted view only; after restore it is in the active view only, with its creation time kept and every other user unchanged |

## Left out

- SQL, the ORM's `Model.save` internals and the `_state.adding` mechanics: persistence is a map from primary key to row, plus an "adding" flag on each instance.
- The ORM's own collector on `hard_delete`: it follows `on_delete=CASCADE` foreign keys and `GenericRelation` historics. `hard_delete` removes the row only.
- The return value of `SoftDeleteQuerySet.delete`, a row count from the ORM: not modelled.
- Content-type lookup and `GenericForeignKey` resolution: an association is an opaque (type tag, object id) pair.
- `gettext`: it is treated as the identity on the English strings.
- `now()`: it is an integer parameter, read once per operation.
- Python `str()` of arbitrary objects: the actor's `str` is its name, and the attribute values have their own rendering (`Values.Render`).
- `cached_property` on `full_address`: it is a pure function of the fields.
- Python equality across types, such as `1 == True`: values of different kinds are never equal here.
- Cyclic related-object graphs: the code would save every row on the cycle and recurse until CPython raises `RecursionError` at its recursion limit, leaving those saves behind. The model excludes such graphs by requiring an acyclicity rank on every table, so it does not describe that partial outcome.
- BaseModels.Entity.constructor: requires every watched name to be an attribute of the instance. In the code a watched name that is not an attribute makes `getattr` raise `AttributeError` in `__init__` (backend/base/models.py:80) and in `_historic_message` (backend/base/models.py:93-94); that error path is not modelled.
- A request object without a `user` attribute: `create_historic` raises `AttributeError` on `req.user` (backend/base/models.py:101). The model's request always carries the attribute, possibly `None`.
- Deletes through the other managers: only `objects` querysets are `SoftDeleteQuerySet`s. `deleted_objects`, `global_objects` and `get_owner_queryset(user)` return plain querysets (backend/base/models.py:28-49), so their `delete()` is Django's physical bulk delete; that path is not modelled.
- The `after_delete` and `after_restore` hooks inside a table cascade: every row a cascade reaches runs them, and the table-level cascade omits the calls because the default hooks change nothing (`BaseModels.Entity.AfterDelete`, `BaseModels.Entity.AfterRestore`); an override with effects is not modelled. Likewise `get_related_objects` is generalised into the table's `related` graph instead of the empty list it returns here.
- The admin, migrations, `base.enums.UFChoices` (`uf` is an optional string) and the unused `logging` and `tokenize` imports are not part of this model.
- The TODO'd soft-delete signals of `CustomUser`: the code does not send them.
- `UserManager`'s user creation: `create_user` and `create_superuser` are outside this layer.
- Manager resolution of the `CustomUser` managers through multiple inheritance: the `get_queryset` of `BaseManager` and `DeletedManager` applies, so users use the same views as `Scopes`.
- Cascade.CascadeOne: skips a related id that has no row. In the code `get_related_objects()` returns instances, and saving an instance whose row is gone would write that row again; the model does not re-insert it.
- Tables.Table.DeleteWhere: filters are predicates of the row itself. A Django lookup can span relations and read another row's envelope, such as `filter(test_fk__is_deleted=True)`. With such a filter, the final `update` can flag rows the per-object pass never visited, with no save, no `updated_at` stamp and no cascade. The model proves that this update writes nothing only for filters on the row itself.
- Tables.Table.DeleteEachOf: `self.all()` is evaluated once, so the order of the per-object pass is unspecified; the model picks an arbitrary order.
- Concurrency: concurrent writers of the same rows are not modelled; every operation runs alone on the table.
