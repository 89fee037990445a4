# A verified model of the djc Phalcon base library's core rules

The library gives Phalcon applications:
- a base model;
- a base controller;
- a database installer that applies versioned migrations;
- a few string helpers.

Under the framework glue sit a handful of deterministic rules. This project models them in Dafny and proves what they promise:

- **The schema diff of `DatabaseInstaller::morphTable`.** `database_installer.dfy` holds the loops as methods. `schema_diff.dfy` holds the specification, as functions. `schema_diff_properties.dfy` states the diff's meaning per column, reference and index name. Its inputs are:
  - the desired table definition, after `getGeneralDefinition`;
  - whether the table exists;
  - the database's current description of the table.

  Its output is the ordered list of DDL calls it issues, or the "Table must have at least one column" error.
- **The migration bookkeeping** (`migrations.dfy`):
  - how `getMigrations` derives a version and a class name from a file name, and fails on an undeclared class;
  - how `rollbackDatabase` rebuilds the file name;
  - the apply-unless-recorded rule of `runMigrations`.
- **The base controller's `makeFilter`** (`base_controller.dfy`). It turns the request's filters into a condition string with `:field:` placeholders, a bind array and an order. The same file holds the value/label loop of `dropDownAction`.
- **The base model** (`base_model.dfy`):
  - the audit columns `getGeneralDefinition` appends;
  - the soft-delete rewrite `softDeleteFetch` applies to every finder's parameters;
  - the audit fields `beforeValidation` fills in;
  - the date and date-time field lists.
- **`Utils`** (`utils.dfy`):
  - the `convertDateTimeFormat` token rewrite;
  - `objectMerge`;
  - the string normalisation `convertNumberString` applies before `floatval`.
- **The `notNull` defaulting of the library's `Db\Column`** (`db_column.dfy`).

The supporting modules:
- `php.dfy` models PHP's string functions as functions: `strpos`, `str_replace`, `trim`, `strtoupper`, the `(int)` cast and integer printing.
- `collections.dfy` models an associative array as an insertion-ordered key list plus a map (`OrderedMap`). Assigning to an existing key keeps its position, as in PHP.
- `schema.dfy` holds the column, reference, index, definition and DDL-operation values.

The PHP code is modelled in its own form:
- **Loops** become methods with loop invariants, proved equal to a specification function. Examples are the `morphTable` loops, `getMigrations`, `runMigrations`, `makeFilter`, the label loop, `objectMerge` and the `convertNumberString` loop.
- **Objects whose fields change** become classes, with `modifies` clauses on their methods: the controller's `_filter`, the model's audit fields and field lists, and `objectMerge`'s target object.
- **Pure rewrites** are functions with lemmas: `softDeleteFetch`, `getGeneralDefinition`, `convertDateTimeFormat` and the `Column` constructor.

The connection, the filesystem, the clock and the session are not modelled; they appear as parameters or values:
- The connection is the sequence of `Op` values the diff issues.
- The classes that `glob`/`require_once` would declare are a set of class names.
- The migration records already stored are a sequence of records.
- `time()` and the session's user are parameters of `BeforeValidation`.
- The translation `Utils::t('useSelectValue')` is the `selectLabel` parameter of `DropDownRecords`.

## Model

| member | source | states |
|---|---|---|
| DbColumn.NewColumn | src/Db/Column.php:7-13 | The name passes through unchanged. The definition gains the key `notNull` and no other key. An absent `notNull` becomes false. Every given entry, a given `notNull` included, keeps its value. |
| BaseModel.GeneralDefinition | src/Models/BaseModel.php:120-171 | The caller's columns come first, unchanged. They are followed by exactly the audit columns the switches ask for, and the column list is absent only when it was absent and every switch is off. Absent references become the empty list, and indexes are left as they are. |
| BaseModel.GeneralColumns | src/Models/BaseModel.php:125-166 | Two columns for timestamps, one for soft deletes and two for modifiers, and no others. Each audit column is present iff its switch is on. |
| BaseModel.GeneralColumnsFollowFlags | src/Models/BaseModel.php:125-166 | createdAt and modifiedAt are appended iff timestamps are on, softDeleted iff soft deletes are on, creatorId and modifierId iff modifiers are on. The appended columns are strictly in that order. |
| BaseModel.SoftDeleteFetch | src/Models/BaseModel.php:313-344 | Soft deletes off: the parameters come back unchanged. Null becomes `softDeleted = v`. A string that does not mention softDeleted gets ` AND softDeleted = v` appended, "" becoming "1" first; one that does is unchanged. In an array: index 0 is rewritten if it needs the check, else 'conditions' if it needs it, never both. Every other entry, the keys and their order are unchanged. |
| BaseModel.MentionsDeletedField | src/Models/BaseModel.php:325-328 | An appended check always mentions softDeleted, so a rewritten condition is never rewritten again. |
| BaseModel.SoftDeleteConditionMentionsField | src/Models/BaseModel.php:322-340 | With soft deletes on, any condition the query has ends up mentioning softDeleted. It is the input's effective condition (index 0 before 'conditions') when that already mentioned the field, or that condition with the check appended. |
| BaseModel.SoftDeleteFetchIdempotent | src/Models/BaseModel.php:324-340 | Applying the rewrite twice equals applying it once iff it is not the case that soft deletes are on and the parameters are an array whose index 0 and 'conditions' both need the check. |
| BaseModel.FindParameters | src/Models/BaseModel.php:212-216 | `find` (and `findFirst`, `count`) rewrite with value 0: no parameters become `softDeleted = 0`. |
| BaseModel.FindDeletedParameters | src/Models/BaseModel.php:226-230 | `findDeleted` (and `findFirstDeleted`) rewrite with value 1: no parameters become `softDeleted = 1`. |
| BaseModel.Model.constructor | src/Models/BaseModel.php:25-50 | The three switches as given; empty date and date-time lists; createdAt 0, creatorId "", modifiedAt 0, modifierId "", softDeleted 0. |
| BaseModel.Model.BeforeValidation | src/Models/BaseModel.php:81-99 | With timestamps on, createdAt is set to the clock only when it is 0 and modifiedAt always. With a logged-in user and modifiers on, creatorId is set only when it is empty and modifierId always. Otherwise the fields keep their values. |
| BaseModel.Model.SetDateTimeField | src/Models/BaseModel.php:356-368 | The list, and what the getter returns, grow by the array's elements or by the single name, in order. |
| BaseModel.Model.SetDateField | src/Models/BaseModel.php:370-382 | The list, and what the getter returns, grow by the array's elements or by the single name, in order. |
| BaseController.OperatorNamed | src/Controllers/BaseController.php:150-173 | An operator name selects a case iff it is one of eq, ne, ge, gt, le, lt and IN. Any other name falls through the switch as an unknown operator that keeps its name. |
| BaseController.OperatorText | src/Controllers/BaseController.php:148-176 | The switch gives `=`, `<>`, `>=`, `>`, `<=`, `<` followed by `:field:` for eq, ne, ge, gt, le, lt. It gives ` IN({field:array})` for IN, and the bare `:field:` for an unknown operator. |
| BaseController.PlaceholderUnlessIn | src/Controllers/BaseController.php:169-176 | A filter's clause ends in the `:field:` placeholder iff its operator is not IN. |
| BaseController.AppendFilter | src/Controllers/BaseController.php:143-176 | One loop body. A non-empty condition gets the filter's own where clause upper-cased between spaces, or ` AND `. Then the field and its operator clause are appended. |
| BaseController.Condition | src/Controllers/BaseController.php:140-147 | The condition is empty iff there are no filters. |
| BaseController.ConditionConnectsLaterFilters | src/Controllers/BaseController.php:142-147 | The condition is the first filter's text with no connector, then each later filter preceded by its own connector. |
| BaseController.Bind | src/Controllers/BaseController.php:177 | The bind array is a well-formed array: its keys are distinct and are exactly the keys it maps. |
| BaseController.BindKeys | src/Controllers/BaseController.php:177 | The bind array has a key for each filtered field and no other. |
| BaseController.BindLastWins | src/Controllers/BaseController.php:177 | A field's bound value is that of the last filter on it. |
| BaseController.Order | src/Controllers/BaseController.php:179 | The order text reads back as the order field, one space and the direction. |
| BaseController.NoFiltersQuery | src/Controllers/BaseController.php:140-179 | With no filters: an empty condition, an empty bind array and the order `orderField orderDirection`. |
| BaseController.Controller.constructor | src/Controllers/BaseController.php:40-41 | The filters as given. `_filter` is still null, modelled as `None`. The base model's default order is `id ASC`. |
| BaseController.Controller.MakeFilter | src/Controllers/BaseController.php:138-180 | `_filter` becomes the condition, the bind array and the order that the lemmas above describe; nothing else changes. |
| BaseController.LabelValues | src/Controllers/BaseController.php:340-342 | One string per label field, in order: the record's property as a string, with a missing property read as null and therefore "". |
| BaseController.Label | src/Controllers/BaseController.php:339-346 | The counted loop builds the label-field values joined by ` sep `. |
| BaseController.JoinEnds | src/Controllers/BaseController.php:339-346 | A label starts with its first value and ends with its last: no separator leads or trails. |
| BaseController.JoinLength | src/Controllers/BaseController.php:339-346 | A label has the length of its values plus exactly one separator between each two. |
| BaseController.DropDownRecords | src/Controllers/BaseController.php:322-357 | With `useSelectValue` exactly `Y`, an entry with value "" and the translated label comes first. Then there is one entry per record, in order: the requested value field (or the primary key), and the label with the requested separator (or `-`). recordCount is the number of entries, the select entry included. |
| Utils.NoTokensUnchanged | src/Utils.php:55-62 | A format holding none of dd, MM, yyyy, HH, mm is returned unchanged. |
| Utils.ConvertDateTimeFormat | src/Utils.php:55-62 | The translated format is never longer than the given one. |
| Utils.DayStage | src/Utils.php:56 | In a `dd a MM b yyyy c HH d mm` format whose separators hold none of d, M, y, H, m: the first replacement turns the day token into `d` and keeps everything else. |
| Utils.MonthStage | src/Utils.php:57 | In a `dd a MM b yyyy c HH d mm` format whose separators hold none of d, M, y, H, m: the second turns the month token into `m`. |
| Utils.YearStage | src/Utils.php:58 | In a `dd a MM b yyyy c HH d mm` format whose separators hold none of d, M, y, H, m: the third turns the year token into `Y`. |
| Utils.HourStage | src/Utils.php:59 | In a `dd a MM b yyyy c HH d mm` format whose separators hold none of d, M, y, H, m: the fourth turns the hour token into `H`. |
| Utils.MinuteStage | src/Utils.php:60 | In a `dd a MM b yyyy c HH d mm` format whose separators hold none of d, M, y, H, m: the last turns only the minute token into `i`; the `m` left by the month is not taken for part of a minute token. |
| Utils.MonthLeftFeedsMinute | src/Utils.php:57-60 | Outside the separated shape the replacements interact: `MMmm` becomes `mmm` and then `im`, the month's `m` being taken for part of a minute token. |
| Utils.SeparatedFormat | src/Utils.php:55-62 | Every day-month-year hour-minute format with separators free of token letters becomes `d`, `m`, `Y`, `H`, `i` with the separators kept. |
| Utils.DayMonthYearHourMinute | src/Utils.php:55-62 | `dd-MM-yyyy HH:mm` becomes `d-m-Y H:i`. |
| Utils.Merge | src/Utils.php:41-47 | The merged properties form a well-formed array: distinct keys, exactly the keys mapped. |
| Utils.MergeContents | src/Utils.php:41-47 | After the merge, the properties are those of either object. Each of base's properties has base's value, and one only the target had keeps its value. |
| Utils.MergeOrder | src/Utils.php:43-45 | The target's properties keep their places, and base's new ones follow in base's order. |
| Utils.StdObject.constructor | src/Utils.php:41 | A plain object holding exactly the given properties. |
| Utils.ObjectMerge | src/Utils.php:41-47 | The object returned is the target object itself. Its properties become the merge of base into it, and no other object is modified. |
| Utils.SkipToLastSpace | src/Utils.php:72-74 | The loop's result is never longer than the input. A result that was cut is trimmed at both ends. |
| Utils.SkipToLastSpaceMeaning | src/Utils.php:72-74 | The loop leaves a piece of the input. That piece holds a space only if the input starts with one and was left whole. An input without a space after its first position is left whole. |
| Utils.LastSpaceIsLast | src/Utils.php:72-74 | The last-space position holds a space and no later position does; without one the string has no space at all. |
| Utils.SkipToLastSpaceCutsAtLastSpace | src/Utils.php:72-74 | For an input that does not start with a space, does not end in whitespace and holds a space: the loop keeps exactly the trimmed text after the last space. |
| Utils.DecimalCommaByCharacter | src/Utils.php:79-81 | Removing the dots and then turning commas into dots maps each character on its own: dot to nothing, comma to dot, anything else to itself. |
| Utils.NormalisedNumber | src/Utils.php:70-82 | The string handed to `floatval` holds no euro sign. |
| Utils.NormalisedNumberMeaning | src/Utils.php:75-82 | The normalised string holds no euro sign. With a decimal comma, it is the character-wise rewrite of the trimmed string and holds no comma. Otherwise it is the trimmed string itself. |
| Utils.ConvertNumberString | src/Utils.php:70-82 | The loop, the euro removal, the trim and the decimal-comma replacements produce the normalised string. |
| Collections.KeyByStoresUnderOwnKey | src/Migrations/DatabaseInstaller.php:197-199 | Filling an array by each item's name stores every item under its own name. |
| Collections.KeyByLastWins | src/Migrations/DatabaseInstaller.php:197-199 | When two items share a name, the later one is the one stored. |
| Php.IntCast | src/Migrations/DatabaseInstaller.php:405 | A string that, after leading whitespace, starts with neither a sign nor a digit casts to 0. A negative result needs a leading minus. |
| SchemaDiff.Morph | src/Migrations/DatabaseInstaller.php:178-379 | Only a definition with a columns list can fail. For a table that does not exist the diff issues at most one call, the createTable of this table with this definition. |
| SchemaDiff.ColumnObjectsMeaning | src/Migrations/DatabaseInstaller.php:185-189 | The columns list is refused iff some entry is not an object. Otherwise it yields every entry's column, in order. |
| SchemaDiff.TableSchemaFirstNonEmpty | src/Migrations/DatabaseInstaller.php:190-192 | The table schema is the first non-empty schema name of the columns, or empty when all are. |
| SchemaDiffProperties.MorphFailsIff | src/Migrations/DatabaseInstaller.php:178-188 | The diff throws, issuing nothing, iff the definition has a columns list that is empty or holds a non-object. |
| SchemaDiffProperties.MorphNewTable | src/Migrations/DatabaseInstaller.php:231-240 | For a table that does not exist, the only operation is one createTable when there is a columns list, and nothing otherwise. No column, reference or index diff happens. |
| SchemaDiffProperties.MorphExistingWithoutColumns | src/Migrations/DatabaseInstaller.php:239-379 | An existing table without a columns list gets the reference part and then the index part, with an empty schema name. |
| SchemaDiffProperties.MorphExistingWithColumns | src/Migrations/DatabaseInstaller.php:178-379 | An existing table with an accepted columns list gets the column part, then the reference part, then the index part. The column and index parts use the columns' first non-empty schema name. |
| SchemaDiffProperties.MorphOpsByKind | src/Migrations/DatabaseInstaller.php:194-379 | The calls that concern a column, a reference or an index all come from that kind's part of the diff. |
| SchemaDiffProperties.ColumnStepsOn | src/Migrations/DatabaseInstaller.php:201-224 | The first column loop issues, for a name, exactly that desired column's own step, or nothing when no desired column has the name. |
| SchemaDiffProperties.ColumnDropsOn | src/Migrations/DatabaseInstaller.php:226-230 | The second column loop drops a name exactly once when it is current and not desired, and does nothing for it otherwise. |
| SchemaDiffProperties.ColumnPhaseOn | src/Migrations/DatabaseInstaller.php:201-230 | A column name gets its desired column's add or modify, then a drop when it is only current. |
| SchemaDiffProperties.MorphExistingTableColumn | src/Migrations/DatabaseInstaller.php:201-230 | Existing table, one column name. A desired column the table lacks gets exactly one addColumn. A column in both gets exactly one modifyColumn iff its type, size, notNull or default differs, and nothing otherwise. A current column the definition lacks gets exactly one dropColumn. Nothing else is issued for the name. |
| SchemaDiffProperties.ReferenceStepsOnPresent | src/Migrations/DatabaseInstaller.php:257-312 | The reference loop issues, for a definition reference with a unique name, exactly that reference's own step. |
| SchemaDiffProperties.ReferenceStepsOnAbsent | src/Migrations/DatabaseInstaller.php:257-312 | The reference loop issues nothing for a name the definition does not have. |
| SchemaDiffProperties.ReferenceDropsOn | src/Migrations/DatabaseInstaller.php:314-318 | The drop loop drops a current reference exactly once, with a null schema, when the definition does not name it. |
| SchemaDiffProperties.MorphReferencePresent | src/Migrations/DatabaseInstaller.php:257-312 | Existing table, one reference whose name no other reference of the definition shares. It is added when the table lacks it. It is dropped and re-added when the referenced table, the column or referenced-column counts differ, or a desired column or referenced column is missing. Otherwise nothing is issued for it. |
| SchemaDiffProperties.MorphReferenceAbsent | src/Migrations/DatabaseInstaller.php:314-318 | Existing table: a current reference the definition does not name is dropped exactly once, and one the table lacks gets nothing. |
| SchemaDiffProperties.IndexStepsOnPresent | src/Migrations/DatabaseInstaller.php:335-372 | The index loop issues, for a definition index with a unique name, exactly that index's own step. |
| SchemaDiffProperties.IndexStepsOnAbsent | src/Migrations/DatabaseInstaller.php:335-372 | The index loop issues nothing for a name the definition does not have. |
| SchemaDiffProperties.MorphIndexPresent | src/Migrations/DatabaseInstaller.php:335-372 | Existing table, one index whose name no other index of the definition shares. It is added when the table lacks it. It is dropped and re-added when its column count differs or one of its columns is missing. Otherwise nothing is issued. `PRIMARY` uses the primary-key calls instead. |
| SchemaDiffProperties.MorphIndexNeverDropped | src/Migrations/DatabaseInstaller.php:373-377 | An index the definition does not name gets no operation at all, whether the table exists or not. |
| DatabaseInstaller.IndexByName | src/Migrations/DatabaseInstaller.php:195-199 | The loop that keys items by name builds exactly the keyed array whose properties the two lemmas above give. |
| DatabaseInstaller.CollectColumns | src/Migrations/DatabaseInstaller.php:183-193 | The loop succeeds iff every entry is a column object. Then it yields the columns by name and the first non-empty schema name. |
| DatabaseInstaller.ColumnChange | src/Migrations/DatabaseInstaller.php:202-223 | The body of the first column loop: addColumn for a column the table lacks, modifyColumn when one of the four attributes differs, nothing otherwise. |
| DatabaseInstaller.ColumnAddsAndModifies | src/Migrations/DatabaseInstaller.php:201-224 | The first column loop issues each desired column's step in the definition's order. |
| DatabaseInstaller.ColumnDropLoop | src/Migrations/DatabaseInstaller.php:226-230 | The second column loop drops, in the table's order, each current column the definition lacks. |
| DatabaseInstaller.ColumnPart | src/Migrations/DatabaseInstaller.php:194-236 | The column part: the two loops for an existing table, one createTable for a new one. |
| DatabaseInstaller.ColumnSection | src/Migrations/DatabaseInstaller.php:178-237 | The columns block. Without a list it issues nothing and leaves the schema empty. With a list it fails iff the list is empty or holds a non-object, and the failure is the diff's error. On success, its operations and schema name begin the whole diff. |
| DatabaseInstaller.AllPresent | src/Migrations/DatabaseInstaller.php:283-288 | The scan that stops at the first missing name answers whether every wanted name is present. |
| DatabaseInstaller.ReferenceDiffers | src/Migrations/DatabaseInstaller.php:265-297 | The chain of `$changed` checks is exactly the reference-changed condition. |
| DatabaseInstaller.ForeignKeyChanges | src/Migrations/DatabaseInstaller.php:257-318 | The two reference loops: each definition reference's step, in the definition's order, then the drops in the table's order. |
| DatabaseInstaller.ReferencePart | src/Migrations/DatabaseInstaller.php:239-320 | The reference part, issued only for an existing table with a references entry. |
| DatabaseInstaller.IndexDiffers | src/Migrations/DatabaseInstaller.php:343-353 | The `$changed` check of an index is exactly a different count or a missing column. |
| DatabaseInstaller.IndexChanges | src/Migrations/DatabaseInstaller.php:335-377 | The index loop: each definition index's step, in order, and no drop. |
| DatabaseInstaller.IndexPart | src/Migrations/DatabaseInstaller.php:322-379 | The index part, issued only for an existing table with an indexes entry. |
| DatabaseInstaller.MorphDefinition | src/Migrations/DatabaseInstaller.php:178-379 | The sequence of DDL calls, or the error, is the diff the properties above describe. |
| DatabaseInstaller.MorphTable | src/Migrations/DatabaseInstaller.php:170-380 | `morphTable` diffs the definition after the model's audit columns were added to it. |
| MigrationNames.ParseFileName | src/Migrations/DatabaseInstaller.php:404-407 | A file is accepted iff its eight-character prefix casts to a positive integer. Its version is that prefix, and its class is the text between the ninth character and `.php`, then `_` and the version. |
| MigrationNames.FindMigrations | src/Migrations/DatabaseInstaller.php:402-417 | A successful lookup is a well-formed array: distinct file names, exactly the keys mapped. |
| MigrationNames.RollbackFileName | src/Migrations/DatabaseInstaller.php:119 | The rebuilt name is the printed version, `_`, the class name without its last nine characters, and `.php`, with exactly that length. |
| MigrationNames.RecoveredFileName | src/Migrations/DatabaseInstaller.php:119 | The corrected rebuild ends in `.php`. For a class name of at least nine characters it is four characters longer, with `_` after the eight-character version. |
| MigrationNames.FileNameRoundTrip | src/Migrations/DatabaseInstaller.php:404-407 | Every `VVVVVVVV_Name.php` file name is accepted, with the first eight characters as its version and class `Name_VVVVVVVV`. Rebuilding the name from the class name alone gives the file name back. |
| MigrationNames.RecoveredFileNameOf | src/Migrations/DatabaseInstaller.php:119 | The corrected rebuild splits a class name `Name_VVVVVVVV` back into `VVVVVVVV_Name.php`. |
| MigrationNames.RollbackFileNameLosesLeadingZeros | src/Migrations/DatabaseInstaller.php:119 | As written, the rebuild from the stored integer version differs from the file name for every migration file whose version begins with 0. |
| MigrationNames.FindMigrationsFailsIff | src/Migrations/DatabaseInstaller.php:402-414 | The lookup throws iff some file with a positive version has a class that is not declared. |
| MigrationNames.FindMigrationsContents | src/Migrations/DatabaseInstaller.php:402-417 | A successful lookup holds exactly the files whose eight-character prefix casts to a positive integer, each under its own name with its version and class name. |
| MigrationNames.FindMigrationsStopsAtError | src/Migrations/DatabaseInstaller.php:409-411 | The first failing file decides the error: files after it change nothing. |
| DatabaseInstaller.GetMigrations | src/Migrations/DatabaseInstaller.php:392-418 | The loop builds exactly the lookup described by the lemmas above. |
| MigrationNames.NewRecord | src/Migrations/DatabaseInstaller.php:445-451 | A new record carries the migration's module, version, table and class, and the given run number. |
| MigrationNames.Run | src/Migrations/DatabaseInstaller.php:427-455 | A run only appends records: one new record per applied migration, in order, each with the run number. Only migrations of the list are applied. |
| MigrationNames.RunRecordsEveryMigration | src/Migrations/DatabaseInstaller.php:429-453 | After a run, every migration of the list has a record with its version and table. |
| MigrationNames.RunOverRecordedAppliesNothing | src/Migrations/DatabaseInstaller.php:430-439 | When every migration is already recorded, a run applies and records nothing. The exception is the `migrations` table on run 1. |
| MigrationNames.RerunAppliesNothing | src/Migrations/DatabaseInstaller.php:429-453 | Running the same list again applies and records nothing, except the `migrations` table on run 1. |
| MigrationNames.UnrecordedMigrationApplied | src/Migrations/DatabaseInstaller.php:434-452 | One loop step: a run over a single migration with no record of its version and table applies it and appends exactly its record with the run number. |
| MigrationNames.MigrationsTableAlwaysAppliedOnFirstRun | src/Migrations/DatabaseInstaller.php:430-431 | One loop step: a run 1 over a single `migrations`-table migration applies it even when it is already recorded. |
| MigrationNames.AppliedOnlyWhenShouldApply | src/Migrations/DatabaseInstaller.php:429-452 | On any list, a migration is applied only if it is the `migrations` table on run 1 or has no record stored before the run. |
| MigrationNames.FirstUnrecordedApplied | src/Migrations/DatabaseInstaller.php:429-452 | On any list, the first migration with an unrecorded version and table is applied and recorded with the run number. |
| MigrationNames.MigrationsTableAppliedOnFirstRun | src/Migrations/DatabaseInstaller.php:429-452 | On any list, run 1 applies and records every `migrations`-table migration, whether recorded or not. |
| MigrationNames.RecordedAfterRun | src/Migrations/DatabaseInstaller.php:429-452 | A version and table recorded after a run were recorded before it or belong to a migration of the list. |
| MigrationNames.NotRecordedAfterRun | src/Migrations/DatabaseInstaller.php:429-452 | A version and table neither recorded before nor in the list are not recorded after the run. |
| MigrationNames.StoredStaysRecorded | src/Migrations/DatabaseInstaller.php:445-451 | A run never removes a record. |
| MigrationNames.AfterContainsBefore | src/Migrations/DatabaseInstaller.php:429-453 | Adding a migration to the list keeps everything the shorter run applied and recorded. |
| DatabaseInstaller.RunMigrations | src/Migrations/DatabaseInstaller.php:427-455 | The loop's records and applied migrations are exactly the run described above. |

## Left out

- The database connection, `describeColumns`/`describeReferences`/`describeIndexes` and the DDL calls are foreign calls. The model takes the description as a value and returns the calls as a sequence of `Op` values. The connection's own errors are not modelled.
- `afterCreateTable`, called after `createTable` when a migration defines it, is not modelled.
- `installDatabase`, `updateDatabase` and the loading and `down()`/`morph()` calls of `rollbackDatabase` are left out. They are orchestration over the filesystem, the session and the database. Only the file name `rollbackDatabase` rebuilds is modelled.
- In `getMigrations`, `glob` and `require_once` are left out: the file names are a sequence with the path already removed, in the order `glob` returns them. `class_exists` is membership in a set of declared class names. The migration objects themselves are represented by their parsed file.
- In `runMigrations`:
  - `Migration::findFirst` is modelled as a search of the records stored so far;
  - `morph()` is modelled by the version, table, module and class a migration reports;
  - the random record id, `modelsMetadata->reset()` and `up()` are left out;
  - a `morph()` or `up()` that throws (for instance the diff's "Table must have at least one column") is not modelled: in PHP it ends the loop with the records saved so far kept, and the installer's callers catch it and return false. MigrationNames.Run and every lemma about it describe runs in which every migration returns.
- In the migration records, the stored class name is taken to be the `Name_VVVVVVVV` name `getMigrations` builds; what `get_class` returns for a namespaced class is not modelled.
- In `BaseController`:
  - `initialize`, the store/load/create/update/delete/restore/keepalive actions, `_formatRecords` and `_getDataRecord` are request, session, ORM and JSON plumbing;
  - the `find` call and the JSON response of `dropDownAction` are left out, as is the `afterDropDownAction` hook and its error branch;
  - the records arrive as property maps; `labelFields` arrives already decoded as a sequence of names.
- BaseController.OperatorNamed: the `switch` compares loosely in PHP; the model compares the operator names as strings.
- Loose comparisons elsewhere (`!=` on referenced tables, `in_array`, `== 'PRIMARY'`, `== 0`, `== ''`) are modelled as strict equality on strings and integers.
- In `BaseModel`:
  - `find*`/`count` are left out except for the rewrite they apply;
  - `findAll`, `findFirstAll` and `findByPk` apply no rewrite and are left out;
  - `getUUID` is random, `createTime`/`modifyTime` format dates, `saveDateFields` calls `strtotime`, and `onConstruct`/`initialize` read database metadata; all are left out.
- BaseModel.Model.BeforeValidation: `time()` and the session's user are parameters; the user's id is modelled as a string. The two `time()` reads become one `now`, so a one-second gap between createdAt and modifiedAt on a fresh record is not modelled.
- BaseModel.Model.SetDateField and BaseModel.Model.SetDateTimeField: an array argument is a list of names. `array_merge` with string keys, which would overwrite rather than append, is not modelled.
- BaseModel.SoftDeleteFetch: `useSoftDeletes` is a parameter rather than the dynamic `call_user_func` on the called class. The value is an integer. An array entry's text is its PHP string value (`null` and `false` read as "").
- BaseModel.SoftDeleteFetchIdempotent: the rewrite is idempotent except for one case. When both index 0 and 'conditions' need the check, the first pass rewrites index 0 and a second pass then rewrites 'conditions'. The lemma proves the exception as well as the rule.
- `Utils::t` reads language files from disk and is left out; the translated label is a parameter.
- Utils.ConvertNumberString: the final `floatval` is floating point and is left out. The model returns the normalised string handed to it.
- The euro sign is one character of the string; PHP's byte-wise handling of its UTF-8 encoding is not modelled, and neither is any other multi-byte character.
- `strtoupper` is modelled for ASCII letters only, as in PHP 8.
- Utils.SkipToLastSpaceCutsAtLastSpace: an input that ends in whitespace or starts with a space is covered only by Utils.SkipToLastSpaceMeaning. The last-space characterisation does not hold for it: `"a b "` gives `"b"`, not the empty text after its last space, and `" a b"` is left whole.
- Php.IntCast: the cast reads only an optional sign and decimal digits. PHP 7.1 and later casts a string with a numeric fraction or exponent prefix through a float, so `"1e-00001"` is 0 in PHP and 1 here, and `"0.5e0001"` is 5 in PHP and 0 here. As a result, MigrationNames.ParseFileName, MigrationNames.IsMigrationFileName, MigrationNames.FindMigrations and the lemmas about them decide differently from PHP for version prefixes of that shape.
- A `null` schema name passed to the DDL calls is modelled as the empty schema name "" (the drop of a foreign key, and the schema of a table whose columns all have an empty schema name, or of a definition without a columns list).
- `src/Services/AclService.php`, `src/Db/DbListener.php`, `src/Models/Migration.php` and the two migration classes are not part of this model. They are ORM calls, debug output and configuration data.

## Findings

| source | as written | input that shows it | evidently intended | confidence | as-written member | corrected member |
|---|---|---|---|---|---|---|
| src/Migrations/DatabaseInstaller.php:119 | `rollbackDatabase` rebuilds the file name from the record's `version`. That is stored in an INTEGER column, so the version prints without leading zeros. | The file `00000001_Init.php` has version text `00000001` and class `Init_00000001`. The stored version is 1, and the rebuilt name is `1_Init.php`, which is not the file. | Rebuild the name from the version text as it was in the file name, which is the class name's last eight characters. The rebuild then gives back every migration file name. | not executed | MigrationNames.RollbackFileNameLosesLeadingZeros | MigrationNames.FileNameRoundTrip |
