/**
 * The table-description objects that migrations hand to the schema diff:
 * columns, foreign-key references and indexes, a table definition, the
 * database's current description of a table, and the DDL operations the
 * diff issues on the connection.
 */
module Schema {
  import opened Php

  /** The column type constants the library uses; any other type by its code. */
  datatype ColumnType = TypeInteger | TypeBigInteger | TypeVarchar | TypeChar | TypeBoolean | TypeOther(code: int)

  /**
   * A column object. A missing schema name is the empty string; a missing
   * size is 0 and a missing default is `Null`, as the column object returns
   * them.
   */
  datatype Column = Column(
    name: string,
    schema: string,
    kind: ColumnType,
    size: int,
    notNull: bool,
    defaultValue: Value)

  /** An entry of a definition's `columns` list, which need not be an object. */
  datatype ColumnItem = ColumnObject(column: Column) | NotAnObject

  datatype Reference = Reference(
    name: string,
    schema: string,
    referencedTable: string,
    columns: seq<string>,
    referencedColumns: seq<string>)

  datatype Index = Index(name: string, columns: seq<string>)

  /** A migration's table definition; an absent key is `None`. */
  datatype Definition = Definition(
    columns: Option<seq<ColumnItem>>,
    references: Option<seq<Reference>>,
    indexes: Option<seq<Index>>)

  /** What `describeColumns`, `describeReferences` and `describeIndexes` return. */
  datatype Description = Description(
    columns: seq<Column>,
    references: seq<Reference>,
    indexes: seq<Index>)

  /** One DDL call on the connection. */
  datatype Op =
    | AddColumn(table: string, schema: string, column: Column)
    | ModifyColumn(table: string, schema: string, column: Column)
    | DropColumn(table: string, schema: string, name: string)
    | CreateTable(table: string, schema: string, definition: Definition)
    | AddForeignKey(table: string, schema: string, reference: Reference)
    | DropForeignKey(table: string, schema: string, name: string)
    | AddIndex(table: string, schema: string, index: Index)
    | DropIndex(table: string, schema: string, name: string)
    | AddPrimaryKey(table: string, schema: string, index: Index)
    | DropPrimaryKey(table: string, schema: string)

  function ColumnName(c: Column): string { c.name }

  function ReferenceName(r: Reference): string { r.name }

  function IndexName(i: Index): string { i.name }
}
