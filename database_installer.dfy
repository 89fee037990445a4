/**
 * The migration installer: `morphTable`, which diffs a table definition
 * against the database and issues DDL calls in sequence, and the two loops
 * that find migration files and run the ones not yet recorded.
 *
 * The connection is an operation log: each method returns the calls it
 * would issue, in order.
 */
module DatabaseInstaller {
  import opened Php
  import opened Collections
  import opened Schema
  import opened SchemaDiff
  import opened BaseModel
  import opened MigrationNames

  // ---------------------------------------------------------------------
  // morphTable

  /** `foreach ($items as $x) { $m[$key($x)] = $x; }`. */
  method IndexByName<V>(items: seq<V>, key: V -> string) returns (m: OrderedMap<string, V>)
    ensures m == KeyBy(items, key)
  {
    m := Empty();
    var i := 0;
    while i < |items|
      invariant 0 <= i <= |items|
      invariant m == KeyBy(items[..i], key)
    {
      assert items[..i + 1][..i] == items[..i];
      m := Put(m, key(items[i]), items[i]);
      i := i + 1;
    }
    assert items[..|items|] == items;
  }

  /** The first loop over one more desired column. */
  lemma ColumnStepsNext(table: string, schema: string, names: seq<string>, fields: map<string, Column>,
                        current: map<string, Column>, i: int)
    requires forall j :: 0 <= j < |names| ==> names[j] in fields
    requires 0 <= i < |names|
    ensures ColumnSteps(table, schema, names[..i + 1], fields, current) ==
            ColumnSteps(table, schema, names[..i], fields, current) + ColumnStep(table, schema, fields[names[i]], current)
  {
    assert names[..i + 1][..i] == names[..i];
  }

  /** The first column loop of an existing table: add or modify each desired column. */
  method ColumnAddsAndModifies(table: string, schema: string, fields: OrderedMap<string, Column>,
                               currentFields: map<string, Column>) returns (ops: seq<Op>)
    requires forall j :: 0 <= j < |fields.keys| ==> fields.keys[j] in fields.vals
    ensures ops == ColumnSteps(table, schema, fields.keys, fields.vals, currentFields)
  {
    ops := [];
    var i := 0;
    while i < |fields.keys|
      invariant 0 <= i <= |fields.keys|
      invariant ops == ColumnSteps(table, schema, fields.keys[..i], fields.vals, currentFields)
    {
      var fieldName := fields.keys[i];
      ColumnStepsNext(table, schema, fields.keys, fields.vals, currentFields, i);
      var step := ColumnChange(table, schema, fields.vals[fieldName], currentFields);
      ops := ops + step;
      i := i + 1;
    }
    assert fields.keys[..|fields.keys|] == fields.keys;
  }

  /** The second column loop: drop each current column the definition does not have. */
  method ColumnDropLoop(table: string, schema: string, currentNames: seq<string>, fields: map<string, Column>)
    returns (ops: seq<Op>)
    ensures ops == ColumnDrops(table, schema, currentNames, fields)
  {
    ops := [];
    var j := 0;
    while j < |currentNames|
      invariant 0 <= j <= |currentNames|
      invariant ops == ColumnDrops(table, schema, currentNames[..j], fields)
    {
      var fieldName := currentNames[j];
      assert currentNames[..j + 1][..j] == currentNames[..j];
      if fieldName !in fields {
        ops := ops + [DropColumn(table, schema, fieldName)];
      }
      j := j + 1;
    }
    assert currentNames[..|currentNames|] == currentNames;
  }

  /** The body of the first column loop: add a missing column, modify a changed one. */
  method ColumnChange(table: string, schema: string, column: Column, currentFields: map<string, Column>)
    returns (ops: seq<Op>)
    ensures ops == ColumnStep(table, schema, column, currentFields)
  {
    ops := [];
    if column.name !in currentFields {
      ops := [AddColumn(table, schema, column)];
    } else {
      var changed := false;
      var currentField := currentFields[column.name];
      if currentField.kind != column.kind {
        changed := true;
      }
      if currentField.size != column.size {
        changed := true;
      }
      if currentField.notNull != column.notNull {
        changed := true;
      }
      if currentField.defaultValue != column.defaultValue {
        changed := true;
      }
      if changed {
        ops := [ModifyColumn(table, schema, column)];
      }
    }
  }

  /** Does every name of `wanted` occur in `present`? Scans `wanted` and stops at the first miss. */
  method AllPresent(wanted: seq<string>, present: seq<string>) returns (all: bool)
    ensures all <==> forall c :: c in wanted ==> c in present
  {
    all := true;
    var i := 0;
    while i < |wanted|
      invariant 0 <= i <= |wanted|
      invariant forall k :: 0 <= k < i ==> wanted[k] in present
    {
      if wanted[i] !in present {
        all := false;
        break;
      }
      i := i + 1;
    }
  }

  /** The `$changed` flag of a reference that is present on both sides. */
  method ReferenceDiffers(desired: Reference, current: Reference) returns (changed: bool)
    ensures changed == ReferenceChanged(desired, current)
  {
    changed := false;
    if desired.referencedTable != current.referencedTable {
      changed := true;
    }
    if !changed {
      if |desired.columns| != |current.columns| {
        changed := true;
      }
    }
    if !changed {
      if |desired.referencedColumns| != |current.referencedColumns| {
        changed := true;
      }
    }
    if !changed {
      var all := AllPresent(desired.columns, current.columns);
      changed := !all;
    }
    if !changed {
      var all := AllPresent(desired.referencedColumns, current.referencedColumns);
      changed := !all;
    }
  }

  /** The two reference loops of an existing table: add or replace, then drop. */
  method ForeignKeyChanges(table: string, references: seq<Reference>, localReferences: OrderedMap<string, Reference>,
                           desired: map<string, Reference>) returns (ops: seq<Op>)
    ensures ops == ReferenceSteps(table, references, localReferences.vals)
                   + ReferenceDrops(table, localReferences.keys, desired)
  {
    ops := [];
    var i := 0;
    while i < |references|
      invariant 0 <= i <= |references|
      invariant ops == ReferenceSteps(table, references[..i], localReferences.vals)
    {
      var tableReference := references[i];
      assert references[..i + 1][..i] == references[..i];
      if tableReference.name !in localReferences.vals {
        ops := ops + [AddForeignKey(table, tableReference.schema, tableReference)];
      } else {
        var changed := ReferenceDiffers(tableReference, localReferences.vals[tableReference.name]);
        if changed {
          ops := ops + [DropForeignKey(table, tableReference.schema, tableReference.name)];
          ops := ops + [AddForeignKey(table, tableReference.schema, tableReference)];
        }
      }
      i := i + 1;
    }
    assert references[..|references|] == references;
    ghost var replaced := ops;
    var j := 0;
    while j < |localReferences.keys|
      invariant 0 <= j <= |localReferences.keys|
      invariant ops == replaced + ReferenceDrops(table, localReferences.keys[..j], desired)
    {
      var referenceName := localReferences.keys[j];
      assert localReferences.keys[..j + 1][..j] == localReferences.keys[..j];
      if referenceName !in desired {
        ops := ops + [DropForeignKey(table, "", referenceName)];
      }
      j := j + 1;
    }
    assert localReferences.keys[..|localReferences.keys|] == localReferences.keys;
  }

  /** The `$changed` flag of an index that is present on both sides. */
  method IndexDiffers(desired: seq<string>, current: seq<string>) returns (changed: bool)
    ensures changed == IndexChanged(desired, current)
  {
    changed := false;
    if |desired| != |current| {
      changed := true;
    } else {
      var all := AllPresent(desired, current);
      changed := !all;
    }
  }

  /** The index loop of an existing table: add or replace; nothing is dropped. */
  method IndexChanges(table: string, schema: string, indexes: seq<Index>, localIndexes: map<string, Index>)
    returns (ops: seq<Op>)
    ensures ops == IndexSteps(table, schema, indexes, localIndexes)
  {
    ops := [];
    var i := 0;
    while i < |indexes|
      invariant 0 <= i <= |indexes|
      invariant ops == IndexSteps(table, schema, indexes[..i], localIndexes)
    {
      var tableIndex := indexes[i];
      assert indexes[..i + 1][..i] == indexes[..i];
      if tableIndex.name !in localIndexes {
        if tableIndex.name == PrimaryIndexName {
          ops := ops + [AddPrimaryKey(table, schema, tableIndex)];
        } else {
          ops := ops + [AddIndex(table, schema, tableIndex)];
        }
      } else {
        var changed := IndexDiffers(tableIndex.columns, localIndexes[tableIndex.name].columns);
        if changed {
          if tableIndex.name == PrimaryIndexName {
            ops := ops + [DropPrimaryKey(table, schema), AddPrimaryKey(table, schema, tableIndex)];
          } else {
            ops := ops + [DropIndex(table, schema, tableIndex.name), AddIndex(table, schema, tableIndex)];
          }
        }
      }
      i := i + 1;
    }
    assert indexes[..|indexes|] == indexes;
  }

  /** One more column object extends the list of objects, the columns by name and the schema name. */
  lemma CollectColumnsStep(items: seq<ColumnItem>, i: int, cols: seq<Column>, column: Column)
    requires 0 <= i < |items| && ColumnObjects(items[..i]) == Some(cols) && items[i] == ColumnObject(column)
    ensures ColumnObjects(items[..i + 1]) == Some(cols + [column])
    ensures KeyBy(cols + [column], ColumnName) == Put(KeyBy(cols, ColumnName), column.name, column)
    ensures TableSchema(cols + [column]) == if IsEmptyString(TableSchema(cols)) then column.schema else TableSchema(cols)
  {
    assert items[..i + 1][..i] == items[..i];
    assert (cols + [column])[..|cols|] == cols;
  }

  /**
   * The loop over the definition's columns: key them by name and take the
   * first non-empty schema name, or stop at the first entry that is not an
   * object.
   */
  method CollectColumns(items: seq<ColumnItem>) returns (ok: bool, fields: OrderedMap<string, Column>, tableSchema: string)
    ensures ok <==> ColumnObjects(items).Some?
    ensures ok ==> fields == KeyBy(ColumnObjects(items).value, ColumnName)
    ensures ok ==> tableSchema == TableSchema(ColumnObjects(items).value)
  {
    fields := Empty();
    tableSchema := "";
    ghost var cols: seq<Column> := [];
    var i := 0;
    while i < |items|
      invariant 0 <= i <= |items|
      invariant ColumnObjects(items[..i]) == Some(cols)
      invariant fields == KeyBy(cols, ColumnName)
      invariant tableSchema == TableSchema(cols)
    {
      match items[i]
      case NotAnObject =>
        ColumnObjectsMeaning(items);
        return false, fields, tableSchema;
      case ColumnObject(column) =>
        CollectColumnsStep(items, i, cols, column);
        fields := Put(fields, column.name, column);
        if IsEmptyString(tableSchema) {
          tableSchema := column.schema;
        }
        cols := cols + [column];
      i := i + 1;
    }
    assert items[..|items|] == items;
    ok := true;
  }

  /**
   * `morphTable($tableName, $model, $definition)`: extend the definition
   * with the model's audit columns, then issue the calls of the diff, or
   * fail before issuing any.
   */
  method MorphTable(table: string, model: ModelFlags, tableExists: bool, given: Definition, current: Description)
    returns (r: Result<seq<Op>, MorphError>)
    ensures r == Morph(table, tableExists, GeneralDefinition(model, given), current)
  {
    r := MorphDefinition(table, tableExists, GeneralDefinition(model, given), current);
  }

  /** The diff of `morphTable` once the definition holds the audit columns. */
  method MorphDefinition(table: string, tableExists: bool, definition: Definition, current: Description)
    returns (r: Result<seq<Op>, MorphError>)
    ensures r == Morph(table, tableExists, definition, current)
  {
    var columns := ColumnSection(table, tableExists, definition, current);
    if columns.Err? {
      return Err(columns.error);
    }
    var columnOps := columns.value.0;
    var tableSchema := columns.value.1;
    var referenceOps := ReferencePart(table, tableExists, definition, current);
    var indexOps := IndexPart(table, tableExists, tableSchema, definition, current);
    r := Ok(columnOps + referenceOps + indexOps);
  }

  /**
   * The columns block of `morphTable`: the column calls and the table's
   * schema name, or the error for an empty list or a non-object entry.
   * Without a columns list nothing is issued and the schema stays empty.
   */
  method ColumnSection(table: string, tableExists: bool, definition: Definition, current: Description)
    returns (r: Result<(seq<Op>, string), MorphError>)
    ensures definition.columns.None? ==> r == Ok(([], ""))
    ensures definition.columns.Some? ==>
              (r.Err? <==> |definition.columns.value| == 0 || ColumnObjects(definition.columns.value).None?)
    ensures r.Err? ==> Morph(table, tableExists, definition, current) == Err(r.error)
    ensures r.Ok? ==>
              Morph(table, tableExists, definition, current) ==
              Ok(r.value.0 + ReferencePhase(table, tableExists, definition, current)
                 + IndexPhase(table, tableExists, r.value.1, definition, current))
    ensures definition.columns.Some? && r.Ok? ==>
              (var cols := ColumnObjects(definition.columns.value).value;
               r.value == (ColumnPhase(table, tableExists, TableSchema(cols), cols, definition, current), TableSchema(cols)))
  {
    if definition.columns.None? {
      MorphWithoutColumnList(table, tableExists, definition, current);
      assert [] + ReferencePhase(table, tableExists, definition, current) == ReferencePhase(table, tableExists, definition, current);
      return Ok(([], ""));
    }
    var items := definition.columns.value;
    if |items| == 0 {
      return Err(TableMustHaveColumn);
    }
    var ok, fields, tableSchema := CollectColumns(items);
    if !ok {
      return Err(TableMustHaveColumn);
    }
    var cols := ColumnObjects(items).value;
    var columnOps := ColumnPart(table, tableExists, tableSchema, cols, fields, definition, current);
    MorphOfColumns(table, tableExists, definition, current, cols);
    r := Ok((columnOps, tableSchema));
  }

  /** With an accepted columns list, the diff is the column, reference and index parts. */
  lemma MorphOfColumns(table: string, tableExists: bool, definition: Definition, current: Description, cols: seq<Column>)
    requires definition.columns.Some? && |definition.columns.value| > 0
    requires ColumnObjects(definition.columns.value) == Some(cols)
    ensures Morph(table, tableExists, definition, current) ==
            Ok(ColumnPhase(table, tableExists, TableSchema(cols), cols, definition, current)
               + ReferencePhase(table, tableExists, definition, current)
               + IndexPhase(table, tableExists, TableSchema(cols), definition, current))
  {
  }

  /** Without a columns list, the diff is the reference and index parts with an empty schema name. */
  lemma MorphWithoutColumnList(table: string, tableExists: bool, definition: Definition, current: Description)
    requires definition.columns.None?
    ensures Morph(table, tableExists, definition, current) ==
            Ok(ReferencePhase(table, tableExists, definition, current) + IndexPhase(table, tableExists, "", definition, current))
  {
  }

  /** The column part of `morphTable`, once the columns are keyed by name. */
  method ColumnPart(table: string, tableExists: bool, tableSchema: string, cols: seq<Column>,
                    fields: OrderedMap<string, Column>, definition: Definition, current: Description)
    returns (ops: seq<Op>)
    requires fields == KeyBy(cols, ColumnName)
    ensures ops == ColumnPhase(table, tableExists, tableSchema, cols, definition, current)
  {
    if tableExists {
      KeyByStoresUnderOwnKey(cols, ColumnName);
      var currentFields := IndexByName(current.columns, ColumnName);
      var changes := ColumnAddsAndModifies(table, tableSchema, fields, currentFields.vals);
      var drops := ColumnDropLoop(table, tableSchema, currentFields.keys, fields.vals);
      ops := changes + drops;
    } else {
      ops := [CreateTable(table, tableSchema, definition)];
    }
  }

  /** The reference part of `morphTable`. */
  method ReferencePart(table: string, tableExists: bool, definition: Definition, current: Description)
    returns (ops: seq<Op>)
    ensures ops == ReferencePhase(table, tableExists, definition, current)
  {
    ops := [];
    if definition.references.Some? {
      if tableExists {
        var references := IndexByName(definition.references.value, ReferenceName);
        var localReferences := IndexByName(current.references, ReferenceName);
        ops := ForeignKeyChanges(table, definition.references.value, localReferences, references.vals);
      }
    }
  }

  /** The index part of `morphTable`. */
  method IndexPart(table: string, tableExists: bool, tableSchema: string, definition: Definition, current: Description)
    returns (ops: seq<Op>)
    ensures ops == IndexPhase(table, tableExists, tableSchema, definition, current)
  {
    ops := [];
    if definition.indexes.Some? {
      if tableExists {
        var localIndexes := IndexByName(current.indexes, IndexName);
        ops := IndexChanges(table, tableSchema, definition.indexes.value, localIndexes.vals);
      }
    }
  }

  // ---------------------------------------------------------------------
  // getMigrations and runMigrations

  /**
   * `getMigrations($module)` over the file names found in the module's
   * migration directory, in `glob`'s order: the accepted files keyed by
   * name, or the exception for the first one whose class is not declared.
   */
  method GetMigrations(path: string, files: seq<string>, declared: set<string>)
    returns (r: Result<OrderedMap<string, ParsedFile>, string>)
    ensures r == FindMigrations(path, files, declared)
  {
    var migrates: OrderedMap<string, ParsedFile> := Empty();
    var i := 0;
    while i < |files|
      invariant 0 <= i <= |files|
      invariant FindMigrations(path, files[..i], declared) == Ok(migrates)
    {
      var fileName := files[i];
      FindMigrationsNext(path, files, declared, i);
      var version := Prefix(fileName, VersionLength);
      if IntCast(version) > 0 {
        var className := Middle(fileName, VersionLength + 1, 4) + "_" + version;
        if className !in declared {
          FindMigrationsStopsAtError(path, files, declared, i + 1);
          return Err(MissingClassMessage(className, path, fileName));
        }
        migrates := Put(migrates, fileName, ParsedFile(version, className));
      }
      i := i + 1;
    }
    assert files[..|files|] == files;
    r := Ok(migrates);
  }

  /**
   * `runMigrations($migrations, $runNumber)`: the records after the run
   * and the migrations whose `morph()` and `up()` ran, in order.
   */
  method RunMigrations(migrations: seq<Migration>, runNumber: int, stored: seq<MigrationRecord>)
    returns (records: seq<MigrationRecord>, applied: seq<Migration>)
    ensures RunOutcome(records, applied) == Run(migrations, runNumber, stored)
  {
    records := stored;
    applied := [];
    var i := 0;
    while i < |migrations|
      invariant 0 <= i <= |migrations|
      invariant RunOutcome(records, applied) == Run(migrations[..i], runNumber, stored)
    {
      var migration := migrations[i];
      assert migrations[..i + 1][..i] == migrations[..i];
      var migrationRecord: bool;
      if migration.table == MigrationsTable && runNumber == 1 {
        migrationRecord := false;
      } else {
        migrationRecord := Recorded(records, migration.version, migration.table);
      }
      if !migrationRecord {
        applied := applied + [migration];
        records := records + [NewRecord(migration, runNumber)];
      }
      i := i + 1;
    }
    assert migrations[..|migrations|] == migrations;
  }
}
