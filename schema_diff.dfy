/**
 * What `morphTable` issues on the connection, as functions of the table
 * definition, whether the table exists and the database's current
 * description of it. Each function follows one loop of the installer and
 * is built the way the loop builds its output: one step per element, the
 * steps in the loop's order.
 */
module SchemaDiff {
  import opened Php
  import opened Collections
  import opened Schema

  /** Both checks of the columns list fail with 'Table must have at least one column'. */
  datatype MorphError = TableMustHaveColumn

  // ---------------------------------------------------------------------
  // Columns

  /** The column objects of the list, or `None` as soon as one entry is not an object. */
  function ColumnObjects(items: seq<ColumnItem>): Option<seq<Column>>
    decreases |items|
  {
    if items == [] then Some([])
    else
      match ColumnObjects(items[..|items| - 1])
      case None => None
      case Some(cols) =>
        match items[|items| - 1]
        case NotAnObject => None
        case ColumnObject(c) => Some(cols + [c])
  }

  /** The list fails exactly when some entry is not an object; otherwise it holds each entry's column. */
  lemma {:induction false} ColumnObjectsMeaning(items: seq<ColumnItem>)
    ensures ColumnObjects(items).None? <==> exists i :: 0 <= i < |items| && items[i].NotAnObject?
    ensures ColumnObjects(items).Some? ==>
              && |ColumnObjects(items).value| == |items|
              && forall i :: 0 <= i < |items| ==> items[i] == ColumnObject(ColumnObjects(items).value[i])
    decreases |items|
  {
    if items != [] {
      var init := items[..|items| - 1];
      ColumnObjectsMeaning(init);
      assert forall i :: 0 <= i < |init| ==> init[i] == items[i];
    }
  }

  /** The schema of the table: each column's schema name replaces a value left empty so far. */
  function TableSchema(cols: seq<Column>): string
    decreases |cols|
  {
    if cols == [] then ""
    else
      var previous := TableSchema(cols[..|cols| - 1]);
      if IsEmptyString(previous) then cols[|cols| - 1].schema else previous
  }

  /** The schema is the first non-empty schema name; when every one is empty, so is the result. */
  lemma {:induction false} TableSchemaFirstNonEmpty(cols: seq<Column>)
    ensures forall i ::
              (0 <= i < |cols| && !IsEmptyString(cols[i].schema) && forall j :: 0 <= j < i ==> IsEmptyString(cols[j].schema))
              ==> TableSchema(cols) == cols[i].schema
    ensures (forall i :: 0 <= i < |cols| ==> IsEmptyString(cols[i].schema)) ==> IsEmptyString(TableSchema(cols))
    decreases |cols|
  {
    if cols != [] {
      var init := cols[..|cols| - 1];
      TableSchemaFirstNonEmpty(init);
      assert forall i :: 0 <= i < |init| ==> init[i] == cols[i];
    }
  }

  /** The four attributes that are compared strictly: type, size, notNull and default. */
  predicate ColumnChanged(current: Column, desired: Column)
  {
    || current.kind != desired.kind
    || current.size != desired.size
    || current.notNull != desired.notNull
    || current.defaultValue != desired.defaultValue
  }

  /** The operation for one desired column of an existing table. */
  function ColumnStep(table: string, schema: string, column: Column, current: map<string, Column>): seq<Op>
  {
    if column.name !in current then [AddColumn(table, schema, column)]
    else if ColumnChanged(current[column.name], column) then [ModifyColumn(table, schema, column)]
    else []
  }

  /** The loop over the desired columns, keyed by name. */
  function ColumnSteps(table: string, schema: string, names: seq<string>, fields: map<string, Column>,
                       current: map<string, Column>): seq<Op>
    requires forall i :: 0 <= i < |names| ==> names[i] in fields
    decreases |names|
  {
    if names == [] then []
    else ColumnSteps(table, schema, names[..|names| - 1], fields, current)
         + ColumnStep(table, schema, fields[names[|names| - 1]], current)
  }

  /** The loop over the current columns: drop those the definition does not have. */
  function ColumnDrops(table: string, schema: string, currentNames: seq<string>, fields: map<string, Column>): seq<Op>
    decreases |currentNames|
  {
    if currentNames == [] then []
    else
      var name := currentNames[|currentNames| - 1];
      ColumnDrops(table, schema, currentNames[..|currentNames| - 1], fields)
      + if name !in fields then [DropColumn(table, schema, name)] else []
  }

  /** The column part: a per-column diff of an existing table, or one `createTable`. */
  function ColumnPhase(table: string, tableExists: bool, schema: string, cols: seq<Column>,
                       definition: Definition, current: Description): seq<Op>
  {
    if tableExists then
      var fields := KeyBy(cols, ColumnName);
      var currentFields := KeyBy(current.columns, ColumnName);
      ColumnSteps(table, schema, fields.keys, fields.vals, currentFields.vals)
      + ColumnDrops(table, schema, currentFields.keys, fields.vals)
    else [CreateTable(table, schema, definition)]
  }

  // ---------------------------------------------------------------------
  // Foreign keys

  /**
   * A desired reference differs from the current one of the same name: the
   * referenced table, the number of columns or of referenced columns, or a
   * desired (referenced) column the current one lacks.
   */
  predicate ReferenceChanged(desired: Reference, current: Reference)
  {
    || desired.referencedTable != current.referencedTable
    || |desired.columns| != |current.columns|
    || |desired.referencedColumns| != |current.referencedColumns|
    || (exists c :: c in desired.columns && c !in current.columns)
    || (exists c :: c in desired.referencedColumns && c !in current.referencedColumns)
  }

  /** The operations for one reference of the definition. */
  function ReferenceStep(table: string, reference: Reference, current: map<string, Reference>): seq<Op>
  {
    if reference.name !in current then [AddForeignKey(table, reference.schema, reference)]
    else if ReferenceChanged(reference, current[reference.name]) then
      [DropForeignKey(table, reference.schema, reference.name), AddForeignKey(table, reference.schema, reference)]
    else []
  }

  function ReferenceSteps(table: string, references: seq<Reference>, current: map<string, Reference>): seq<Op>
    decreases |references|
  {
    if references == [] then []
    else ReferenceSteps(table, references[..|references| - 1], current)
         + ReferenceStep(table, references[|references| - 1], current)
  }

  /** The loop over the current references: drop those the definition does not name. */
  function ReferenceDrops(table: string, currentNames: seq<string>, desired: map<string, Reference>): seq<Op>
    decreases |currentNames|
  {
    if currentNames == [] then []
    else
      var name := currentNames[|currentNames| - 1];
      ReferenceDrops(table, currentNames[..|currentNames| - 1], desired)
      + if name !in desired then [DropForeignKey(table, "", name)] else []
  }

  /** The reference part: only for an existing table and a definition that lists references. */
  function ReferencePhase(table: string, tableExists: bool, definition: Definition, current: Description): seq<Op>
  {
    if tableExists && definition.references.Some? then
      var references := definition.references.value;
      var desired := KeyBy(references, ReferenceName);
      var local := KeyBy(current.references, ReferenceName);
      ReferenceSteps(table, references, local.vals) + ReferenceDrops(table, local.keys, desired.vals)
    else []
  }

  // ---------------------------------------------------------------------
  // Indexes

  const PrimaryIndexName := "PRIMARY"

  /** A desired index differs from the current one: a different count, or a missing column. */
  predicate IndexChanged(desired: seq<string>, current: seq<string>)
  {
    |desired| != |current| || exists c :: c in desired && c !in current
  }

  /** The operations for one index of the definition; `PRIMARY` goes through the primary-key calls. */
  function IndexStep(table: string, schema: string, index: Index, current: map<string, Index>): seq<Op>
  {
    if index.name !in current then
      if index.name == PrimaryIndexName then [AddPrimaryKey(table, schema, index)]
      else [AddIndex(table, schema, index)]
    else if IndexChanged(index.columns, current[index.name].columns) then
      if index.name == PrimaryIndexName then [DropPrimaryKey(table, schema), AddPrimaryKey(table, schema, index)]
      else [DropIndex(table, schema, index.name), AddIndex(table, schema, index)]
    else []
  }

  function IndexSteps(table: string, schema: string, indexes: seq<Index>, current: map<string, Index>): seq<Op>
    decreases |indexes|
  {
    if indexes == [] then []
    else IndexSteps(table, schema, indexes[..|indexes| - 1], current)
         + IndexStep(table, schema, indexes[|indexes| - 1], current)
  }

  /** The index part: only for an existing table; current indexes are never dropped. */
  function IndexPhase(table: string, tableExists: bool, schema: string, definition: Definition,
                      current: Description): seq<Op>
  {
    if tableExists && definition.indexes.Some? then
      IndexSteps(table, schema, definition.indexes.value, KeyBy(current.indexes, IndexName).vals)
    else []
  }

  // ---------------------------------------------------------------------
  // The whole diff

  /**
   * The operations `morphTable` issues for a definition that already went
   * through `getGeneralDefinition`, or the error it throws before issuing any.
   * Only a definition that lists columns can fail, and a table that does not
   * exist yet gets at most the one call that creates it with the definition.
   */
  function Morph(table: string, tableExists: bool, definition: Definition, current: Description):
    (r: Result<seq<Op>, MorphError>)
    ensures r.Err? ==> definition.columns.Some?
    ensures r.Ok? && !tableExists ==>
              |r.value| <= 1 && forall op :: op in r.value ==> op.CreateTable? && op.table == table && op.definition == definition
  {
    match definition.columns
    case None =>
      Ok(ReferencePhase(table, tableExists, definition, current)
         + IndexPhase(table, tableExists, "", definition, current))
    case Some(items) =>
      if |items| == 0 then Err(TableMustHaveColumn)
      else
        match ColumnObjects(items)
        case None => Err(TableMustHaveColumn)
        case Some(cols) =>
          var schema := TableSchema(cols);
          Ok(ColumnPhase(table, tableExists, schema, cols, definition, current)
             + ReferencePhase(table, tableExists, definition, current)
             + IndexPhase(table, tableExists, schema, definition, current))
  }
}
