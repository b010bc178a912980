# ORM bookkeeping, modelled in Dafny

This project models the bookkeeping core of the `Model\ORM` module. The module is a small PHP object-relational mapper. An **element** is one row of a table plus the relationships its class declares. The ORM hands elements out through an **identity map** (`objects_cache`: at most one instance per class and id). It batches the reads of child rows through the **children loading cache** (CLC). It keeps **ordering columns** numbered 1..n within each partition ("depending_on" column) when rows are inserted, moved or deleted. The model covers:

- `Element`:
  - relationship declarations (`has`, `belongsTo`, `autoIncrement`, `orderBy`);
  - the constructor, `initChildren`, `load` (row fetch, default filling, parent link), `offsetGet`, `exists`, `getData` and `getDataKeys`;
  - `update` (staging and coercion);
  - `save` (the diff against the stored snapshot, the partition moves, auto-increment values, insert, the once-only `afterSave` guard, the transaction and its rollback);
  - `delete` with `shiftOrder`;
  - `children`/`loadChildren`, `getChildrenData` and `duplicate`.
- `ORM`:
  - `registerChildrenLoading`, `loadChildrenLoadingCache`, `loadFromChildrenLoadingCache` and the `Db_changedTable` handler;
  - `one`, `create` and `all` over the identity map;
  - `stringOrderBy`.
- `ElementsIterator`: the single-pass stream that `all(..., ['stream' => true])` returns.
- `Config`:
  - `makeCache`: parent back-references and the controller map;
  - `cleanUp`: the renumbering pass over ordered tables.

The database is an abstract object, `Database.Db`. Its tables are `map<string, seq<Row>>`, its rows are `map<string, Value>`, and it keeps a schema of table models. It also models snapshot/restore transactions with PHP-style nesting: only the outermost `beginTransaction` takes the snapshot that `rollBack` restores. `select`, `select_all`, `insert`, `update`, `delete`, `MAX` and the `UPDATE ... SET f = f - 1` statement of `shiftOrder` are given their effect on that state. Rows are returned in stored order.

Modules (one per file):

| module | file | models |
|---|---|---|
| `Values` | values.dfy | PHP values, truthiness, `is_numeric`, array keys, `implode`/`explode`, snake case, ordered arrays (`Dict`) |
| `Database` | database.dfy | the abstract database and the queries the ORM issues |
| `Ordering` | ordering.dfy | partitions, dense numbering, and what shifting, inserting, moving and deleting do to it |
| `Relationships` | relationships.dfy | `has`, `belongsTo`, `autoIncrement`, `orderBy` and the shape `init` leaves |
| `ChildrenCache` | children_cache.dfy | the CLC buckets and the `ChildrenLoadingCache` class |
| `ElementData` | element_data.dfy | the array transformations of `update`, `load`, `save`, `delete`, `getChildrenData`, `duplicate` |
| `Elements` | element.dfy | the `Element` class |
| `ElementsStream` | elements_iterator.dfy | the `ElementsIterator` class |
| `IdentityMap` | identity_map.dfy | `one`, `create`, `all`, `stringOrderBy` and the `IdentityMap` class |
| `Config` | config.dfy | `makeCache` and `cleanUp` |

## Model

| member | source | states |
|---|---|---|
| Values.ArrayKeyOfIntString | ORM.php:90-99 | The id `5` and the id `"5"` address the same `objects_cache` slot, and `false` addresses slot 0. |
| Values.ParseIntToString | ORM.php:87-90 | Parsing the string cast of an integer gives the integer back, so an id passed as a numeric string and the integer name the same cache key. |
| Values.SnakeCaseIsLower | Element.php:263 | The snake-cased class name used as a default link field never contains an upper-case letter. |
| Values.SnakeCaseOfLowerName | Element.php:291 | A name that is already lower-case is its own snake case. |
| Values.SplitJoin | ORM.php:189 | Splitting an `implode` result on its separator gives the pieces back when no piece contains the separator. |
| Database.First | ORM.php:74-76 | `select` returns a row exactly when some row matches, and then the first match in stored order. |
| Database.FilterMember | ORM.php:145 | `select_all`, the equality filter, the `IN` filter and `delete` keep exactly the rows that satisfy (or, for `delete`, fail) their condition. |
| Database.FilterWhereSingle | Element.php:516-519 | A where-array with a single column selects the same rows as the equality filter the children loading cache uses. |
| Database.FilterInSingle | ORM.php:237-243 | An `IN` filter over one value selects the same rows as the equality filter. |
| Database.FilterEqOfIn | ORM.php:269-272 | Filtering an `IN` result on one of its values gives the direct equality filter, and on any other value gives nothing. |
| Database.MaxOfIsMax | Element.php:986 | SQL `MAX` bounds every numeric value selected and is one of them. |
| Database.NextValueAbove | Element.php:1013 | `MAX + 1` lies above every value already in the partition, and is at least 1 when they are all non-negative. |
| Database.Db.Insert | Element.php:1019 | `insert` appends the row with the next primary key, MAX(pk)+1, and returns that key. |
| Database.Db.Update | Element.php:990 | `update` applies the changes to exactly the matching rows of that one table. |
| Database.Db.Delete | Element.php:1239 | `delete` drops exactly the matching rows of that one table. |
| Database.Db.ShiftOrder | Element.php:1332-1337 | The shift query decrements the order column of the rows of the partition (or of the whole table) that lie above the old order, and touches no other table. |
| Database.Db.BeginTransaction | Element.php:963 | Only the outermost transaction takes the snapshot. |
| Database.Db.Commit | Element.php:1149 | A commit closes one transaction level and leaves the tables as they are. |
| Database.Db.RollBack | Element.php:1150-1153 | A rollback restores the tables to the outermost snapshot. |
| Ordering.PartitionMember | Element.php:1332-1334 | A partition holds exactly the rows where the `depending_on` column `IS NULL` or equals the parent. |
| Ordering.WhereOf | Element.php:1006-1013 | The where-array built from `depending_on` selects exactly the partition's rows. |
| Ordering.NextOfDense | Element.php:1013 | On a partition numbered 1..n, `MAX + 1` is n + 1. |
| Ordering.ShiftPartition | Element.php:1332-1336 | Shifting the rows of one partition commutes with selecting any partition. |
| Ordering.ShiftOtherPartition | Element.php:1333-1334 | The shift leaves every other partition's rows as they were. |
| Ordering.RemoveShiftDense | Element.php:1328-1340 | Removing the row numbered k from a dense partition and shifting the numbers above k down leaves it numbered 1..n-1. |
| Ordering.DeleteKeepsDense | Element.php:1231-1239 | The shift plus the delete by primary key keep the deleted row's partition dense and leave the other partitions unchanged. |
| Ordering.InsertKeepsDense | Element.php:1003-1019 | Inserting a row numbered `MAX + 1` of its partition keeps that partition dense and leaves the others unchanged. |
| Ordering.MoveKeepsDense | Element.php:980-990 | Closing the gap in the old partition, then moving the row to `MAX + 1` of the new one, leaves both partitions dense. |
| Relationships.Has | Element.php:235-276 | Each option takes its default. An unset `field` becomes the lower-cased name for `single` and the snake-cased class for `multiple`. An unset `table` becomes the target class's table, or the name for the generic element. |
| Relationships.HasResolvedIsFixpoint | Element.php:235-276 | Declaring a resolved relationship again, with every option spelled out, gives it back unchanged. |
| Relationships.DefaultFieldIsLower | Element.php:257-266 | A defaulted link field never contains an upper-case letter. |
| Relationships.BelongsTo | Element.php:284-293 | The parent's link field defaults to the snake-cased parent class. |
| Relationships.MultipleMatchesBelongsTo | Element.php:257-293 | A `multiple` relationship on class C and a `belongsTo(C)` of the child, both without `field`, agree on the link column. |
| Relationships.DepList | Element.php:1006-1009 | The `depending_on` list is empty exactly when the option is unset or falsy, and has one column otherwise. |
| Relationships.InitWellFormed | Element.php:301-318 | The declaration tables never hold a key twice. The last declaration of a name wins. `orderBy` also declares the field as auto-increment with the same partition. |
| ChildrenCache.Register | ORM.php:210-213 | A new id is appended to both `ids` and `hasToLoad`. A known id changes nothing. `ids` stays free of duplicates and results are kept. |
| ChildrenCache.RegisterIn | ORM.php:204-209 | Registering creates the table's bucket map when missing and leaves every other table alone. |
| ChildrenCache.BatchQuery | ORM.php:230-243 | No query when nothing is pending. One pending id gives an equality query, several give an `IN` query. |
| ChildrenCache.BatchSelectsPending | ORM.php:237-243 | Whichever form the batch takes, it selects exactly the rows linked to a pending id. |
| ChildrenCache.SinglePendingUsesEquality | ORM.php:237-238 | For one pending id, the equality query and the `IN` query select the same rows. |
| ChildrenCache.MergeFresh | ORM.php:244-245 | Fetched rows with new, distinct keys are appended to the results in fetch order. |
| ChildrenCache.Reset | ORM.php:31-32 | A reset bucket keeps its ids, drops its results and has every id pending again. |
| ChildrenCache.RegisterConsistent | ORM.php:204-216 | Registering an id keeps the bucket in agreement with the child table. |
| ChildrenCache.ResetConsistent | ORM.php:28-36 | A reset bucket agrees with any table. |
| ChildrenCache.LoadConsistent | ORM.php:226-250 | Loading empties `hasToLoad`, keeps the ids, keeps the earlier results as a prefix, and keeps the bucket in agreement with the table. |
| ChildrenCache.LoadedChildrenAreDirect | ORM.php:261-274 | Once loaded, a registered parent reads exactly the rows of a direct `WHERE field = parent` query, whatever the order of registrations and batches. |
| ChildrenCache.UnregisteredReadsNothing | ORM.php:268-273 | A parent that never registered reads no children. |
| ChildrenCache.ChildrenLoadingCache.RegisterChildrenLoading | ORM.php:204-216 | The buckets become `RegisterIn` of the old buckets, and the call returns true. |
| ChildrenCache.ChildrenLoadingCache.LoadChildrenLoadingCache | ORM.php:226-250 | An unknown bucket gives false and changes nothing. Otherwise that one bucket is loaded from the current table. |
| ChildrenCache.ChildrenLoadingCache.LoadFromChildrenLoadingCache | ORM.php:261-274 | An unknown bucket gives no rows and no change. Otherwise the bucket is loaded and the result holds its cached rows linked to the parent. |
| ChildrenCache.ChildrenLoadingCache.TableChanged | ORM.php:28-36 | Every bucket of the changed table is reset. Other tables' buckets, and unknown tables, are untouched. |
| ElementData.DataKeys | Element.php:1286-1291 | The data keys are the table model's columns minus the primary key, or false without a table model. |
| ElementData.WithoutPrimary | Element.php:177-181 | The data keeps every key except the primary key, with its value. |
| ElementData.Coerce | Element.php:890-891 | An empty string on a nullable column becomes null. Any other value is kept, apart from the date coercion that is left out. |
| ElementData.StagedKeys | Element.php:886-916 | `update` stages exactly the given keys that are data keys, each coerced: never the primary key and never a column the table lacks. |
| ElementData.StagedIdempotent | Element.php:886-916 | Staging the staged values again changes nothing. |
| ElementData.FillDefaultsSpec | Element.php:372-400 | After `load` every column is present. Present keys are never overwritten. A missing column takes the `defaults` setting, else the column default, else null if nullable, else 0 for numeric and `''` for text types. |
| ElementData.FillDefaultsIdempotent | Element.php:373-399 | A second pass of default filling finds nothing to fill. |
| ElementData.DiffSpec | Element.php:973-977 | A staged key goes into `real_save` exactly when it is new to the snapshot, differs from it under `quote`, or is `zkversion`, and it keeps its staged value. |
| ElementData.DiffMerge | Element.php:997 | Merging only the diff into the snapshot agrees, under `quote`, with merging everything staged. |
| ElementData.DiffAfterMerge | Element.php:973-997 | Staging the same values again right after a save diffs to nothing but `zkversion`. |
| ElementData.Dep | Element.php:981 | Only a truthy `depending_on` name counts as a partition column. |
| ElementData.MovesOnlyTouchOrderFields | Element.php:980-988 | The move loop adds only ordering fields to `real_save` and keeps the other entries. When no partition column changes, nothing moves. |
| ElementData.SingleMove | Element.php:981-986 | A move shifts the old partition, keeps the new partition value, and sets the order to `MAX + 1` of the new partition after the shift. |
| ElementData.SaveMoveKeepsDense | Element.php:980-990 | When `save` moves a stored row to another partition of one ordering field, the partition it left and the one it entered stay numbered 1..n. This holds whatever the other ordering fields do, provided the fields are kept apart (`SeparateOrders`). |
| ElementData.MovesAgree | Element.php:980-988 | On the order, partition and primary-key columns of one field, the moves of all the fields in declaration order leave the table and `real_save` as that field's own move would. |
| ElementData.ResaveWritesNothing | Element.php:973-998 | After a save, saving the same keys again from the element's data writes nothing but `zkversion`; this is the corrected save of Findings row 1. |
| ElementData.InsertThenResaveWritesNothing | Element.php:1003-1023 | After an insert, staging and diffing the element's data again finds nothing but `zkversion`; this is the corrected save of Findings row 2. |
| ElementData.AutoIncrementsValues | Element.php:1003-1016 | Each auto-increment value is either the staged value or a number. |
| ElementData.AutoIncrementsKeep | Element.php:1004 | Auto-increment never drops a key, never touches a non-auto-increment key, and never replaces a truthy value. |
| ElementData.AutoIncrementsFill | Element.php:1003-1016 | When the table holds no negative values in those columns, every auto-increment field ends up truthy. |
| ElementData.NewRowKeepsDense | Element.php:1003-1019 | A new row whose auto-increment field is unset gets `MAX + 1` of that field's partition (or of the whole table without `depending_on`), whatever the other fields get. Inserting it keeps every partition of that field that was numbered 1..n so numbered. |
| ElementData.AutoIncrementsAt | Element.php:1003-1016 | Each auto-increment field keeps its staged value until its turn. It then takes `MAX + 1` of its partition in the table before the insert if it was unset or falsy. Its partition columns keep their staged values. |
| ElementData.DeleteOneKeepsDense | Element.php:1231-1239 | After `delete` shifts every ordering field and deletes the row by primary key, each partition of each field that was numbered 1..n is still numbered 1..n. |
| ElementData.ShiftAllAgree | Element.php:1231-1237 | On the order, partition and primary-key columns of one field, the shifts of all the fields leave the table as that field's own shift would. |
| ElementData.WhereFrom | Element.php:1005-1012 | The where-array of an auto-increment field names exactly its `depending_on` columns, with the staged values. |
| ElementData.ChildKeyInjective | Element.php:1181-1187 | Within one child set and id, different fields use different post keys. |
| ElementData.ChildKeyAmbiguous | Element.php:1185 | The `ch-field-child-id` convention collides once a child name contains a dash. |
| ElementData.ChildrenDataRoundTrip | Element.php:1177-1189 | A child form's posted fields read back as the values posted, for every data key. |
| ElementData.UncheckedReadsZero | Element.php:1194-1203 | An unchecked checkbox, absent from the post, reads as 0. |
| ElementData.DuplicateDataSpec | Element.php:1396-1405 | The copy takes `replace` first, then `replaceInDuplicate`, then the original data. It never takes the primary key or an auto-increment field unless a replacement names it. |
| ElementData.DuplicateRenumbers | Element.php:1398-1408 | Without replacements, a copy's auto-increment field is unset, and `save` gives it a fresh truthy number. |
| ElementData.StaleOrderAsWritten | Element.php:980-998 | As written, a move to another partition followed by a plain `save()` writes the stale order back, and the partition is numbered 1, 1. |
| ElementData.StaleOrderFixed | Element.php:980-998 | With the moved order also written into the data, the second save writes nothing and the partition stays dense. |
| ElementData.ResaveAfterInsertAsWritten | Element.php:1018-1023 | As written, saving a just-inserted element again, unchanged, renumbers it past itself, from 1, 2 to 1, 3. |
| ElementData.ResaveAfterInsertFixed | Element.php:1018-1023 | With the snapshot set on insert, the second save finds nothing to write. |
| Elements.FetchSpec | Element.php:344-365 | A plain element exists exactly when it has a table, a non-false id and a row with that id, and it then holds that row as data and snapshot. A pre-loaded element exists exactly when its table is set and its id is a truthy number. A missing element keeps its data. |
| Elements.AutoParent | Element.php:419-435 | A missing parent is linked through the declared field exactly when that field is present and truthy. An existing parent is kept. |
| Elements.InitSlotsSpec | Element.php:111-114 | Every declared relationship gets a slot, existing slots are kept, and new ones hold `false`. |
| Elements.RegisterAllRegisters | Element.php:115-121 | After `initChildren`, every parent id a relationship registers is in its bucket. |
| Elements.CacheAgreesWithDirectQuery | Element.php:511-519 | A parent registered in a bucket that agrees with the table reads from the cache exactly what `select_all(table, [field => p])` returns. |
| Elements.InitChildrenOf | Element.php:111-122 | The loop leaves the slots `InitSlots` describes and the buckets `RegisterAll` describes. |
| Elements.DuplicateStored | Element.php:1404-1408 | The row inserted for a new element holds every truthy staged value of its data as given, coerced. |
| Elements.CreateAndSave | Element.php:1407-1408 | `create(class, ['table' => t])->save(data)` inserts one row into `t`, through the corrected `NewSave` of Findings row 2. The new element exists, and its stored row holds each truthy staged value of `data`. Without a table model it fails and changes nothing. |
| Elements.Element.constructor | Element.php:59-100 | The data, settings and declared shape are those given. It is not loaded, not existing and has no snapshot. Every relationship has a slot and is registered with the cache. A parent is kept only if it is of the declared class. |
| Elements.Element.InitChildren | Element.php:110-123 | Slots as `InitSlots` and buckets as `RegisterAll` describe, from the current data. |
| Elements.Element.AutoLoadParent | Element.php:419-435 | The parent becomes `AutoParent` of the old one. |
| Elements.Element.FillMissing | Element.php:372-400 | The data becomes `FillDefaults` of the old data. |
| Elements.Element.FetchRow | Element.php:344-365 | `exists`, data and snapshot become what `Fetch` reads from the table. |
| Elements.Element.Load | Element.php:334-407 | It runs once. A second call changes nothing. The first sets `exists`, data and snapshot from the fetch, fills defaults, registers children and links the parent. |
| Elements.Element.FinishLoad | Element.php:367-404 | After the fetch: children registered, missing columns filled, parent linked, loaded. |
| Elements.Element.OffsetGet | Element.php:222-225 | Loads, then returns the value or null for an unset key. A loaded element is unchanged. |
| Elements.Element.Exists | Element.php:603-606 | Loads, then returns `exists`. On first load that is the fetch's verdict. |
| Elements.Element.GetData | Element.php:177-181 | The data without the primary key, every other entry kept. |
| Elements.Element.GetDataKeys | Element.php:1277-1292 | The columns of the element's table, or of the child's table or bridge table, minus the primary key. It is false exactly when there is no table model. |
| Elements.Element.UpdateLoaded | Element.php:880-923 | Without a table model it raises and the data is unchanged. Otherwise it returns the staged keys, and the data is the old data overwritten with exactly those. |
| Elements.Element.Update | Element.php:867-924 | Loads, then stages as `UpdateLoaded` states. |
| Elements.Element.ShiftOrderField | Element.php:1328-1340 | False, with nothing changed, for a field that is not an ordering field. Otherwise the table is shifted in the field's partition. |
| Elements.Element.RealSave | Element.php:973-977 | The loop computes exactly `Diff` of the staged values against the snapshot. |
| Elements.Element.MoveOrders | Element.php:980-988 | The loop's table and `real_save` are those `ApplyMoves` describes. |
| Elements.Element.MoveOne | Element.php:981-987 | One ordering field's move, as `MoveStep` describes. |
| Elements.Element.SaveExisting | Element.php:970-999 | Table, data and snapshot become the corrected `ExistingSave` of Findings row 1, which also writes the moved order into the data; the save as written is `ExistingSaveAsWritten`. Nothing else of the element changes. |
| Elements.Element.WriteDiff | Element.php:979-998 | The moves and the update, as the corrected `ExistingSave` of Findings row 1 describes, when the diff is not empty. |
| Elements.Element.SaveNew | Element.php:1000-1028 | The row is inserted with auto-increment values and the returned id, and the element exists. Parent and children are linked from the new data. Following the corrected `NewSave` of Findings row 2, the snapshot is then the inserted row; as written it keeps its old value (`NewSaveAsWritten`). |
| Elements.Element.InsertRow | Element.php:1018-1023 | Table, data and snapshot become the corrected `NewSave` of Findings row 2; the insert as written (`NewSaveAsWritten`) leaves the snapshot as it was. |
| Elements.Element.AutoIncrementFields | Element.php:1003-1016 | The loop computes exactly `AutoIncrements` over the table's rows. |
| Elements.Element.AfterSaveGuard | Element.php:1142-1146 | `afterSave` runs once when the flag is down and never when it is up, however often the hook re-enters `save`. The flag is restored. |
| Elements.Element.SaveLoaded | Element.php:950-1156 | It fails exactly without a table model. The failure of an existing or data-less save rolls the tables back to the outermost snapshot. A success writes, by the corrected `ExistingSave`/`NewSave` of Findings rows 1-2, the diff of an existing row (or inserts a new one), runs `afterSave` once, commits and returns the id. |
| Elements.Element.SaveInTransaction | Element.php:962-1153 | Stage, write (the corrected save of Findings rows 1-2), hook and commit inside a transaction. On the missing-table error it rolls back and leaves the element unchanged. |
| Elements.Element.WriteAndCommit | Element.php:969-1149 | The write (the corrected save of Findings rows 1-2), the guarded hook and the commit, which closes one transaction level. |
| Elements.Element.WriteSaving | Element.php:970-1028 | Existing rows take the diff, new rows the insert, as the corrected `ExistingSave`/`NewSave` of Findings rows 1-2 describe. Only a new row registers its children. |
| Elements.Element.Save | Element.php:950-1156 | Loads, then saves. It fails exactly without a table model, and a success leaves an existing element holding the returned id. |
| Elements.Element.Destroy | Element.php:135-158 | Data and parent cleared, every slot back to `false`, and the element neither loaded nor existing but destroyed. |
| Elements.Element.ShiftOne | Element.php:1231-1237 | One ordering field closes the gap the row leaves in its partition, using the snapshot's order and parent. |
| Elements.Element.ShiftAllOrders | Element.php:1231-1237 | The table becomes `ShiftAll` over the ordering fields. |
| Elements.Element.DeleteLoaded | Element.php:1222-1264 | Nothing is deleted and nothing changes for an element that does not exist. For one whose table the database lacks, the first query raises: the transaction rolls back, and the element is unchanged. Otherwise the siblings are shifted and the row is deleted by primary key inside a transaction. The element is then destroyed. |
| Elements.Element.DeleteRow | Element.php:1228-1255 | The table becomes the shifted table less the element's row. |
| Elements.Element.Delete | Element.php:1222-1226 | Loads, then deletes. A successful delete leaves the element destroyed and not existing. A delete that raises leaves it existing, with no transaction open. |
| Elements.Element.LoadChildrenLoaded | Element.php:458-533 | False, with nothing changed, for an undeclared relationship or one failing the table and field checks. Otherwise that one slot is filled: a link for a single child, a direct query for extra where-conditions, the cache otherwise. |
| Elements.Element.LoadSlot | Element.php:472-531 | The slot and the buckets are those `ChildSlot` and `ChildBuckets` describe. |
| Elements.Element.GetChildren | Element.php:541-552 | Null exactly for an undeclared relationship. A slot already loaded is returned as is, with nothing changed. |
| Elements.Element.WithoutAutoIncrements | Element.php:1398-1402 | The data less every auto-increment field. |
| Elements.Element.Duplicate | Element.php:1392-1436 | A new element of the same class on the same table, saved as a new row through the corrected `NewSave` of Findings row 2. Its stored row holds each truthy staged value of the composed duplicate data. Without a table model nothing is inserted, and the tables roll back to the outermost snapshot. |
| ElementsStream.ElementsIterator.constructor | ElementsIterator.php:23-29 | Cursor 0, `current` null, and no row handed out yet. |
| ElementsStream.ElementsIterator.FetchNext | ElementsIterator.php:71-75 | The next row becomes a new pre-loaded element of the class. With no more rows, `current` becomes `false`. |
| ElementsStream.ElementsIterator.Rewind | ElementsIterator.php:34-36 | Fetches without resetting the cursor, so a second `foreach` does not start over. |
| ElementsStream.ElementsIterator.Next | ElementsIterator.php:57-66 | Destroys the element held, moves the cursor on by one and fetches. |
| ElementsStream.ElementsIterator.IsValid | ElementsIterator.php:80-85 | True exactly when the last fetch did not come back empty. After one rewind, that is while the cursor indexes a row. |
| ElementsStream.ElementsIterator.Key | ElementsIterator.php:50-52 | The number of `next` calls. After one rewind, while an element is held, it indexes the row that element was built from. |
| ElementsStream.ElementsIterator.CurrentElement | ElementsIterator.php:41-43 | An element exactly between the first fetch and the end of the rows. |
| ElementsStream.ElementsIterator.Count | ElementsIterator.php:90-92 | The statement's row count, whatever the cursor. It bounds the rows handed out and equals them once the stream ran out. |
| IdentityMap.ResolvedTable | ORM.php:69-71 | The `table` option when truthy, else the class's static table. |
| IdentityMap.PlanWith | ORM.php:62-105 | A clone is never served from the cache nor cached. A cache hit names a cached key. Without a table, `one` builds an uncached, unloaded element. Only the queries raise on a table the database lacks: the select of a where-array, and the load of an id that is neither false nor cached. |
| IdentityMap.OneByIdFindsRow | ORM.php:86-99 | For a numeric id not served from the cache, `one` builds and loads an element exactly when the table has a row with that id, holding that row; otherwise it returns false without caching. |
| IdentityMap.OneByWhereFindsRow | ORM.php:73-84 | For the corrected `OnePlan` of Findings row 3, `one` returns false exactly when no row matches, and never raises. A built element is pre-loaded with a matching row, and exists exactly when that row's id is a truthy number; as written it never exists (`OneByWhereAsWritten`). |
| IdentityMap.FirstMatching | ORM.php:74-76 | `select` finds nothing exactly when no row matches, and otherwise a matching row of the table. |
| IdentityMap.OneByIdAsWritten | ORM.php:62-95 | As written, `one(element, id)` without a `table` option returns false for every numeric id not cached, whatever the table holds. |
| IdentityMap.OneByIdAsWrittenExample | ORM.php:62-95 | A table holding a row with id 5, which `one` as written still reports missing. |
| IdentityMap.OneByWhereAsWritten | ORM.php:73-84 | As written, the element `one(element, where)` builds reports that it does not exist although its row matches. |
| IdentityMap.CreateBuilds | ORM.php:114-116 | `create` always builds a new, unloaded element with a false id, on a known table or not. It is cached under key 0 unless cloned or tableless. |
| IdentityMap.CreateAsWritten | ORM.php:62-116 | As written, `create(element)` without a `table` option builds an element with no table, whatever the class's static table. That element's `save` then finds no table model and fails. |
| IdentityMap.OneOnUnknownTable | ORM.php:72-100 | On a truthy table the database lacks, `one` raises exactly for a where-array and for an id that is neither false nor served from the cache. A cached id is returned as it is, and a false id builds a new element. |
| IdentityMap.OrderByPieces | ORM.php:185-188 | One piece per declared order field, in declaration order: `dep,field`, or `field` without a truthy `depending_on`. |
| IdentityMap.StringOrderByColumns | ORM.php:183-190 | Reading the ORDER BY string back gives the columns in declaration order, each order field after its `depending_on`. |
| IdentityMap.EffectiveOrderBy | ORM.php:138-143 | The caller's `order_by` when truthy, else the one built from the tree's order fields. |
| IdentityMap.CachePut | ORM.php:98-99 | Caching an element under its own class keeps the identity map coherent: every entry is an element of the class it is filed under, on the same database and children cache. |
| IdentityMap.PiecesJoinColumns | ORM.php:183-190 | Joining the `dep,field` pieces with commas gives the same string as joining the flat column list. |
| IdentityMap.CacheKeyed | ORM.php:151-159 | For each row in turn, the element already filed under the row's key is listed, or a new pre-loaded element built from that row is filed and listed. |
| IdentityMap.ListedCoherent | ORM.php:151-159 | Filing the newly built elements of a listing keeps the identity map coherent. |
| IdentityMap.IdentityMap.One | ORM.php:62-105 | The result and the new cache carry out the corrected `OnePlan` of Findings row 3, made on the state before the call. A cached element is returned as is. A built one is new, holds its row, and is cached under its key unless cloned. Missing gives false. A bad id raises, and so does a query on a table the database lacks. The tables are unchanged. |
| IdentityMap.IdentityMap.OneByWhere | ORM.php:73-84 | `One` for a where-array on a known table, following the corrected `OnePlan` of Findings row 3. |
| IdentityMap.IdentityMap.OneById | ORM.php:86-96 | `One` for a scalar id on a truthy table, following the corrected `OnePlan` of Findings row 3. A bad id raises first, then a cached id is returned, and only then does an unknown table raise. |
| IdentityMap.IdentityMap.BuildById | ORM.php:93-99 | The build half of the corrected `OnePlan` of Findings row 3: a new element for the id, loaded and checked unless the id is false. |
| IdentityMap.IdentityMap.Create | ORM.php:114-116 | A new, unloaded element with a false id on the resolved table, known to the database or not, following the corrected `OnePlan` of Findings row 3. It is cached under 0 unless cloned or tableless. |
| IdentityMap.IdentityMap.All | ORM.php:127-162 | Raises exactly when the resolved table is falsy or unknown to the database. With `stream`, returns an iterator over the matching rows and leaves the cache untouched. Without it, lists the cached element of each row's id, caching a new pre-loaded one per id not cached yet. |
| IdentityMap.IdentityMap.ListRows | ORM.php:150-160 | The listing loop: the cache becomes what `CachesRows` describes, and every newly cached element is built from its row. |
| IdentityMap.CacheRows | ORM.php:151-159 | The elements list, for each row, the element of its id. The map keeps every old entry and adds exactly the new ids, each built from its row. |
| Config.ChildrenOf | Config.php:43 | The children of a named element, present exactly when the element is in the tree. |
| Config.ScanFindsFirst | Config.php:44-54 | The scan's `found` is the first child key naming the element, and `unique` holds exactly while at most one child names it. |
| Config.FindChild | Config.php:44-54 | The loop leaves `found` and `unique` as `ScanOf` describes. |
| Config.BackReferenceSpec | Config.php:42-57 | Only `parent.children` can change. It is written exactly when a parent is declared, is in the tree and has no `children` yet, and exactly one of the parent's children names this element; it then takes that child's key. |
| Config.ResolvedOnShape | Config.php:42-57 | The back-reference depends on the tree only through its names and children, so writes made earlier in the loop do not affect it. |
| Config.BackReference | Config.php:43-57 | One element's entry becomes `Resolved`. |
| Config.ControllerMapSpec | Config.php:59-64 | A controller is in the map exactly when some element declares it. It maps to that element when only one does, and to `false` when two or more do. |
| Config.MakeCache | Config.php:29-71 | Every entry, in order, gets its back-reference as `Resolved` describes, and the controller map is `ControllerMap`. |
| Config.PartitionStrings | Config.php:139-142 | The `implode(',')` of each row's `depending_on` values, row by row. |
| Config.CounterStep | Config.php:136-148 | The counters start at (null, 0), and each row resets on a new truthy partition string and then counts one. |
| Config.NoResetOnFalsy | Config.php:143-148 | An empty (or "0") partition string never resets the count. |
| Config.WholeTableNumbering | Config.php:136-149 | Without a truthy partition string the whole table is numbered 1..N. |
| Config.LastParentIsPrevious | Config.php:143-145 | After a row with a truthy partition string, that string is the last parent. |
| Config.PartitionNumbering | Config.php:136-149 | Over a stream grouped by truthy partition strings, each row gets one more than the number of earlier rows of its partition, so every partition is numbered 1..n. |
| Config.AppliedStep | Config.php:150-154 | Each row issues the update by primary key exactly when its stored order is not loosely equal to the computed one. |
| Config.UpdateById | Config.php:151 | Updating by a primary key the rows tell apart changes exactly the row that has it. |
| Config.PassRenumbers | Config.php:131-155 | On a table whose primary key tells the rows apart, streamed in stored order, the updates leave exactly the renumbered table. |
| Config.RenumberedPartitions | Config.php:150-154 | Renumbering does not change the partition strings when the order column is not a `depending_on` column. |
| Config.SecondPassIsQuiet | Config.php:150-154 | A second pass over the renumbered table finds every order in place, issues no update, and leaves the table as it is. |
| Config.CleanUpEffectSpec | Config.php:120-157 | Elements without a table or a custom order are skipped. Only the renumbered element's table can change: when it exists and its primary key tells the rows apart, it becomes its renumbering. |
| Config.FailureIsFinal | Config.php:131-134 | Once a query has failed, later elements change nothing. |
| Config.RenumberRow | Config.php:139-154 | One row: the counters advance as `CounterAfter` describes, and the table takes that row's update. |
| Config.IssueUpdate | Config.php:150-154 | The update is issued exactly when the stored order is not loosely equal to the computed one. |
| Config.Renumber | Config.php:131-155 | The table becomes the stored rows after the updates of every row of the stream. |
| Config.CleanUpElement | Config.php:121-156 | It fails exactly when an element that needs renumbering names an unknown table. The tables become `CleanUpEffect`. |
| Config.CleanUp | Config.php:112-159 | The tables and the verdict are `CleanUpAll` over the elements in order, stopping at the first failing query. |

## Left out

- File and class discovery: `makeCache` reads `Autoloader::getFilesByType` and writes `elements-tree.php`, and `cleanUp` includes that file. Both passes take the tree as a parameter instead.
- Config.MakeCache: the tree entries come from `getElementTreeData` (Element.php:1299-1309). That method, which only loads and reads fields, is not modelled.
- Config.CleanUp: `cleanUp` reads `order_by` as `{field, custom, depending_on[]}` plus a `primary` key. That shape is not what `getElementTreeData` returns; the model follows `cleanUp`.
- Config.Renumber: the query's ORDER BY is not modelled, because the abstract database streams rows in stored order. The property over a sorted stream is stated on streams through `PartitionNumbering` (its `Grouped` hypothesis stands in for the sort).
- Config.CleanUpElement: the update in `cleanUp` passes a scalar id; it is modelled as a where-array on the element's primary key.
- Config.BackReferenceSpec: it assumes the parent's child keys are truthy relationship names. With a child key `"0"`, `$found` stays falsy; `Resolved` models that case too, but the lemma does not describe it.
- Values.IsNumeric: `is_numeric` and PHP 8's loose `==` against strings cover decimal integers only: no leading spaces, signs other than `-`, decimals or exponents.
- ChildrenCache.Register: the `in_array` test of ORM.php:210 is PHP's loose comparison, so registering `5` after `"5"` changes nothing there. The model compares values, so it appends the second id and queues it again. Ids are taken to be registered in one form.
- ChildrenCache.ChildrenLoadingCache.RegisterChildrenLoading: the same loose `in_array` (ORM.php:210) is modelled as value membership, as for `Register`.
- ChildrenCache.ChildrenLoadingCache.LoadChildrenLoadingCache: the default `order_by => 'id'` of the batch read (ORM.php:234-235) is dropped. The rows come in stored order, so `results`, and the order `loadFromChildrenLoadingCache` returns, follow the table rather than the ids.
- ChildrenCache.Children: the comparison `$r[$parent_field] == $parent` is modelled as value equality, not PHP's loose `==` (so `"5"` and `5` are different parents here).
- ElementData.Quoted: `$db->quote` is modelled as the string cast of the value, with null apart.
- ElementData.Coerce: the date and datetime coercion of `update` (`date_create`/`format`) is left out, because it is library parsing. The `date(...)` defaults of `load` read a `Clock` parameter.
- Elements.Element.UpdateLoaded: the `is_post` checkbox defaulting, `beforeUpdate`/`afterUpdate` and the form's `setValues` are left out, because they depend on the Form module.
- Elements.Element.SaveLoaded: `is_post` child saving (Element.php:1030-1140) is left out, because it depends on `getForm` and the Form module. Also left out: a `false` result from `$db->update` or `$db->insert`, and the `zkversion` value an update returns. `beforeSave` is a no-op, and `afterSave` is counted, not run: a hook that re-enters `save` is given as the number of re-entries, and the saves it makes are not modelled.
- Elements.Element.Save: its contract states the verdict and the id only. The writes, the snapshot and the transaction are stated on `SaveLoaded`, which `Save` calls once the element is loaded.
- Elements.Element.Delete: its contract states the destroyed state only. The shift and the delete are stated on `DeleteLoaded`.
- Elements.Element.Update: its contract states the staged values only. The new data is stated on `UpdateLoaded`.
- Elements.Element.Load: a `select` on a table the database lacks raises in the database layer; `Load` reads such a table as holding no row. `one` raises before it loads an id on such a table, and `delete` raises at its first query.
- ElementData.SaveMoveKeepsDense: proved for ordering fields kept apart (`SeparateOrders`: distinct, none the primary key, none a field's partition column) and a partition column other than `zkversion`. It states the two partitions the row leaves and enters, not the others.
- ElementData.NewRowKeepsDense: proved for auto-increment fields kept apart (`SeparateAutoIncrements`) whose `depending_on` names at most one column. A partition here is over one column, so a list of two or more is not covered.
- ElementData.DeleteOneKeepsDense: proved for ordering fields kept apart (`SeparateOrders`). An ordering field whose partition column is another ordering field is not covered.
- Elements.Element.SaveExisting: follows the corrected `ExistingSave` of Findings row 1, which puts the moved order into `data_arr` too. The save as written is `ExistingSaveAsWritten`.
- Elements.Element.WriteDiff: follows the corrected `ExistingSave` of Findings row 1 (`data_arr` takes the moved order), not Element.php:997 as written.
- Elements.Element.SaveNew: follows the corrected `NewSave` of Findings row 2, which sets the snapshot to the inserted row. The insert as written is `NewSaveAsWritten`.
- Elements.Element.InsertRow: follows the corrected `NewSave` of Findings row 2; the insert as written, which leaves `db_data_arr` unset, is `NewSaveAsWritten`.
- Elements.Element.WriteSaving: dispatches to the corrected `ExistingSave`/`NewSave` of Findings rows 1-2, not the save as written.
- Elements.Element.WriteAndCommit: its write is the corrected save of Findings rows 1-2.
- Elements.Element.SaveInTransaction: its write is the corrected save of Findings rows 1-2.
- Elements.Element.SaveLoaded: the diff and the insert it states are the corrected `ExistingSave`/`NewSave` of Findings rows 1-2.
- Elements.CreateAndSave: saves through the corrected `NewSave` of Findings row 2, so its ensures read the inserted row from `copy.dbDataArr`, which the source as written never sets.
- Elements.Element.Duplicate: saves through the corrected `NewSave` of Findings row 2, so its ensures read the inserted row from `copy.dbDataArr`, which the source as written never sets.
- Elements.Element.DeleteLoaded: `beforeDelete` is taken to allow the delete (its default). The form dataset deletes and `afterDelete` are left out. So is removing the element from its parent's `children_ar` (Element.php:1248-1250), because the parent is held as a (class, id) link rather than an object.
- Elements.Element.LoadChildrenLoaded: custom `load_<name>` loaders, the read options `order_by`/`joins`, and `pre_loaded_children` are left out. A set of children is held as the rows read rather than as child elements. A single child of a declared class is held as a (class, id) link rather than an element fetched through `one`.
- Elements.Element.Duplicate: the copy of files and the recursive duplication of `duplicable` children are left out, because they depend on the filesystem and on `getFilePath`.
- Element `create` (Element.php:562-596), `render`, `getForm`, `getUrl`, `getMeta`, `getFilePath`, `reload`, `jsonSerialize`, `offsetSet`/`offsetExists` and `__clone` are not modelled. The first is a child factory that builds an element without touching any table.
- Memory management (`__destruct`, `gc_collect_cycles`) is left out; `destroy` is modelled by its effect on the fields.
- IdentityMap.IdentityMap.One: the CLC registrations that the new element makes are not restated in its contract (only `clc.Valid()` is kept). The `Db_zkversion_update` handler and `loadMainElement` are not modelled.
- IdentityMap.IdentityMap.One: the class follows the corrected `OnePlan` of Findings row 3, in which the element reads the table it was looked up in. The plan as written is `OnePlanAsWritten`; `OneByIdAsWritten`, `OneByWhereAsWritten` and `CreateAsWritten` state what it does.
- IdentityMap.IdentityMap.Create: follows the corrected `OnePlan` of Findings rows 3-4, so the element takes the resolved table. As written, without a `table` option, the element has no table (`CreateAsWritten`).
- IdentityMap.OneByWhereFindsRow: states the corrected `OnePlan` of Findings row 3. As written, the element a where-lookup builds never exists (`OneByWhereAsWritten`).
- IdentityMap.IdentityMap.OneByWhere: follows the corrected `OnePlan` of Findings row 3, not the plan as written.
- IdentityMap.IdentityMap.OneById: follows the corrected `OnePlan` of Findings row 3, not the plan as written.
- IdentityMap.IdentityMap.BuildById: follows the corrected `OnePlan` of Findings row 3, not the plan as written.
- IdentityMap.IdentityMap.All: `joins` and other read options are passed to the database unmodelled; only `order_by` is computed.
- `isAPIActionAuthorized` (ORM.php:320) is not modelled: its outcome rests on the `eval` of permission strings and on the User module.
- Database.Db.Insert: the new id is MAX(pk)+1 of the rows present, so an id freed by deleting the largest row is reused. A database auto-increment counter would not reuse it; the counter is not modelled.
- Transactions are snapshot/restore of the abstract tables; real database transactions, locking and concurrency are not modelled.
- Integers and ids are unbounded; PHP's integer overflow to float is not modelled.

## Findings

| source | as written | input that shows it | evidently intended | confidence | as-written member | corrected member |
|---|---|---|---|---|---|---|
| Element.php:980-998 | When `save` moves an existing row to another partition, the new order value goes into the table and into `db_data_arr`, but not into `data_arr`. | Rows `{id 1, parent 1, ord 1}` and `{id 2, parent 2, ord 1}` with `orderBy('ord', ['depending_on' => 'parent'])`. `save(['parent' => 2])` on row 1 stores `ord 2`, but the element still holds `ord 1`. A following `save()` writes `ord 1` back, and partition 2 is numbered 1, 1. | The element's data takes the moved order too, so a second save writes nothing. | not executed | ElementData.StaleOrderAsWritten | ElementData.StaleOrderFixed |
| Element.php:1018-1023 | After an insert, `db_data_arr` keeps its old (empty) value. | A row `{id 2, parent 2, ord 1}`, and a new element saved with `parent 2` that gets `id 3, ord 2`. Saving it again unchanged diffs the whole row against the empty snapshot, sees the partition column as changed, and renumbers the element to `ord 3`, so the partition reads 1, 3. | The snapshot is set to the inserted row, so a second save writes nothing. | not executed | ElementData.ResaveAfterInsertAsWritten | ElementData.ResaveAfterInsertFixed |
| ORM.php:62-95 | `one` passes its options, whose `'table' => null` default is always present, as the new element's settings. The element constructor's `array_merge` (Element.php:60-72) then lets that `null` override the class's static table. The element therefore has no table, `load` selects nothing (Element.php:347), and `exists()` is false. `create` (ORM.php:114-116) goes through `one` too, so without a `table` option it also builds an element with no table, and that element's `update` and `save` fail for want of a table model (Element.php:880-884). | A class whose static table `posts` holds a row `{id: 5}`. `one(class, 5)` returns false, and `create(class)->save(['title' => 'x'])` raises. | The element reads the table `one` looked it up in, so `one(class, 5)` returns the element of row 5 and the element `create` builds can be saved. | not executed | IdentityMap.OneByIdAsWrittenExample | IdentityMap.OneByIdFindsRow |
| ORM.php:114-116 | As in the row above: `create` is `one(element, false, options)`, so the `'table' => null` default leaves the new element without a table. | `create(class)` for a class whose static table is `posts`: the element's settings name no table. | The element takes the class's table, as `create` with a `table` option already does. | not executed | IdentityMap.CreateAsWritten | IdentityMap.CreateBuilds |
