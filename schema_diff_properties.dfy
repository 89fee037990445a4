/**
 * What the diff of `morphTable` does to one column, one reference or one
 * index, by name: the operations that concern it, in the order they are
 * issued.
 */
module SchemaDiffProperties {
  import opened Php
  import opened Collections
  import opened Schema
  import opened SchemaDiff

  /** A column, reference or index, by name. */
  datatype Target = ColumnTarget(name: string) | ReferenceTarget(name: string) | IndexTarget(name: string)

  predicate IsColumnOp(op: Op)
  {
    op.AddColumn? || op.ModifyColumn? || op.DropColumn?
  }

  predicate IsReferenceOp(op: Op)
  {
    op.AddForeignKey? || op.DropForeignKey?
  }

  predicate IsIndexOp(op: Op)
  {
    op.AddIndex? || op.DropIndex? || op.AddPrimaryKey? || op.DropPrimaryKey?
  }

  /** The operation acts on the target; `dropPrimaryKey` acts on the index `PRIMARY`. */
  predicate Concerns(op: Op, t: Target)
  {
    match t
    case ColumnTarget(n) =>
      || (op.AddColumn? && op.column.name == n)
      || (op.ModifyColumn? && op.column.name == n)
      || (op.DropColumn? && op.name == n)
    case ReferenceTarget(n) =>
      || (op.AddForeignKey? && op.reference.name == n)
      || (op.DropForeignKey? && op.name == n)
    case IndexTarget(n) =>
      || (op.AddIndex? && op.index.name == n)
      || (op.DropIndex? && op.name == n)
      || (op.AddPrimaryKey? && op.index.name == n)
      || (op.DropPrimaryKey? && n == PrimaryIndexName)
  }

  /** The operations that act on the target, in order. */
  function OpsOn(ops: seq<Op>, t: Target): seq<Op>
    decreases |ops|
  {
    if ops == [] then []
    else OpsOn(ops[..|ops| - 1], t) + if Concerns(ops[|ops| - 1], t) then [ops[|ops| - 1]] else []
  }

  lemma {:induction false} OpsOnAppend(a: seq<Op>, b: seq<Op>, t: Target)
    ensures OpsOn(a + b, t) == OpsOn(a, t) + OpsOn(b, t)
    decreases |b|
  {
    if b == [] {
      assert a + b == a;
    } else {
      var init := b[..|b| - 1];
      OpsOnAppend(a, init, t);
      assert (a + b)[..|a + b| - 1] == a + init;
    }
  }

  lemma {:induction false} OpsOnNone(s: seq<Op>, t: Target)
    requires forall i :: 0 <= i < |s| ==> !Concerns(s[i], t)
    ensures OpsOn(s, t) == []
    decreases |s|
  {
    if s != [] {
      var init := s[..|s| - 1];
      assert forall i :: 0 <= i < |init| ==> init[i] == s[i];
      OpsOnNone(init, t);
    }
  }

  lemma {:induction false} OpsOnAll(s: seq<Op>, t: Target)
    requires forall i :: 0 <= i < |s| ==> Concerns(s[i], t)
    ensures OpsOn(s, t) == s
    decreases |s|
  {
    if s != [] {
      var init := s[..|s| - 1];
      var last := s[|s| - 1];
      assert forall i :: 0 <= i < |init| ==> init[i] == s[i];
      OpsOnAll(init, t);
      assert Concerns(last, t);
      assert OpsOn(s, t) == init + [last];
      assert init + [last] == s;
    }
  }


  lemma OpsOnOne(x: Op, t: Target)
    ensures OpsOn([x], t) == if Concerns(x, t) then [x] else []
  {
    assert [x][..0] == [];
  }

  lemma OpsOnTwo(x: Op, y: Op, t: Target)
    ensures OpsOn([x, y], t) == (if Concerns(x, t) then [x] else []) + (if Concerns(y, t) then [y] else [])
  {
    assert [x, y][..1] == [x];
    OpsOnOne(x, t);
  }

  /** The operations of one step act on the step's own name only. */
  lemma ColumnStepOn(table: string, schema: string, column: Column, current: map<string, Column>, n: string)
    ensures OpsOn(ColumnStep(table, schema, column, current), ColumnTarget(n)) ==
              if column.name == n then ColumnStep(table, schema, column, current) else []
  {
    if column.name !in current {
      OpsOnOne(AddColumn(table, schema, column), ColumnTarget(n));
    } else if ColumnChanged(current[column.name], column) {
      OpsOnOne(ModifyColumn(table, schema, column), ColumnTarget(n));
    }
  }

  lemma ReferenceStepOn(table: string, reference: Reference, current: map<string, Reference>, n: string)
    ensures OpsOn(ReferenceStep(table, reference, current), ReferenceTarget(n)) ==
              if reference.name == n then ReferenceStep(table, reference, current) else []
  {
    var add := AddForeignKey(table, reference.schema, reference);
    if reference.name !in current {
      OpsOnOne(add, ReferenceTarget(n));
    } else if ReferenceChanged(reference, current[reference.name]) {
      OpsOnTwo(DropForeignKey(table, reference.schema, reference.name), add, ReferenceTarget(n));
    }
  }

  lemma IndexStepOn(table: string, schema: string, index: Index, current: map<string, Index>, n: string)
    ensures OpsOn(IndexStep(table, schema, index, current), IndexTarget(n)) ==
              if index.name == n then IndexStep(table, schema, index, current) else []
  {
    if index.name !in current {
      if index.name == PrimaryIndexName {
        OpsOnOne(AddPrimaryKey(table, schema, index), IndexTarget(n));
      } else {
        OpsOnOne(AddIndex(table, schema, index), IndexTarget(n));
      }
    } else if IndexChanged(index.columns, current[index.name].columns) {
      if index.name == PrimaryIndexName {
        OpsOnTwo(DropPrimaryKey(table, schema), AddPrimaryKey(table, schema, index), IndexTarget(n));
      } else {
        OpsOnTwo(DropIndex(table, schema, index.name), AddIndex(table, schema, index), IndexTarget(n));
      }
    }
  }

  // ---------------------------------------------------------------------
  // Which kinds of operations each loop issues

  lemma {:induction false} ColumnLoopsIssueColumnOps(table: string, schema: string, names: seq<string>,
                                                     fields: map<string, Column>, current: map<string, Column>,
                                                     currentNames: seq<string>)
    requires forall i :: 0 <= i < |names| ==> names[i] in fields
    ensures forall op :: op in ColumnSteps(table, schema, names, fields, current) ==> IsColumnOp(op)
    ensures forall op :: op in ColumnDrops(table, schema, currentNames, fields) ==> IsColumnOp(op)
    decreases |names| + |currentNames|
  {
    if names != [] {
      ColumnLoopsIssueColumnOps(table, schema, names[..|names| - 1], fields, current, currentNames);
    }
    if currentNames != [] {
      ColumnLoopsIssueColumnOps(table, schema, [], fields, current, currentNames[..|currentNames| - 1]);
    }
  }

  lemma {:induction false} ReferenceLoopsIssueReferenceOps(table: string, references: seq<Reference>,
                                                           current: map<string, Reference>, currentNames: seq<string>,
                                                           desired: map<string, Reference>)
    ensures forall op :: op in ReferenceSteps(table, references, current) ==> IsReferenceOp(op)
    ensures forall op :: op in ReferenceDrops(table, currentNames, desired) ==> IsReferenceOp(op)
    decreases |references| + |currentNames|
  {
    if references != [] {
      ReferenceLoopsIssueReferenceOps(table, references[..|references| - 1], current, currentNames, desired);
    }
    if currentNames != [] {
      ReferenceLoopsIssueReferenceOps(table, [], current, currentNames[..|currentNames| - 1], desired);
    }
  }

  lemma {:induction false} IndexLoopIssuesIndexOps(table: string, schema: string, indexes: seq<Index>,
                                                   current: map<string, Index>)
    ensures forall op :: op in IndexSteps(table, schema, indexes, current) ==> IsIndexOp(op)
    decreases |indexes|
  {
    if indexes != [] {
      IndexLoopIssuesIndexOps(table, schema, indexes[..|indexes| - 1], current);
    }
  }

  lemma NotOfKind(s: seq<Op>, t: Target)
    requires t.ColumnTarget? ==> forall op :: op in s ==> !IsColumnOp(op)
    requires t.ReferenceTarget? ==> forall op :: op in s ==> !IsReferenceOp(op)
    requires t.IndexTarget? ==> forall op :: op in s ==> !IsIndexOp(op)
    ensures OpsOn(s, t) == []
  {
    forall i | 0 <= i < |s|
      ensures !Concerns(s[i], t)
    {
      assert s[i] in s;
    }
    OpsOnNone(s, t);
  }

  // ---------------------------------------------------------------------
  // One name through each loop

  lemma {:induction false} ColumnStepsOn(table: string, schema: string, names: seq<string>, fields: map<string, Column>,
                                         current: map<string, Column>, n: string)
    requires forall i :: 0 <= i < |names| ==> names[i] in fields && fields[names[i]].name == names[i]
    requires forall i, j :: 0 <= i < j < |names| ==> names[i] != names[j]
    ensures OpsOn(ColumnSteps(table, schema, names, fields, current), ColumnTarget(n)) ==
              if n in names then ColumnStep(table, schema, fields[n], current) else []
    decreases |names|
  {
    if names != [] {
      var init := names[..|names| - 1];
      var last := names[|names| - 1];
      ColumnStepsOn(table, schema, init, fields, current, n);
      OpsOnAppend(ColumnSteps(table, schema, init, fields, current), ColumnStep(table, schema, fields[last], current),
                  ColumnTarget(n));
      ColumnStepOn(table, schema, fields[last], current, n);
      if last == n {
        assert n !in init;
      } else {
        assert n in names <==> n in init;
      }
    }
  }

  lemma {:induction false} ColumnDropsOn(table: string, schema: string, names: seq<string>, fields: map<string, Column>,
                                         n: string)
    requires forall i, j :: 0 <= i < j < |names| ==> names[i] != names[j]
    ensures OpsOn(ColumnDrops(table, schema, names, fields), ColumnTarget(n)) ==
              if n in names && n !in fields then [DropColumn(table, schema, n)] else []
    decreases |names|
  {
    if names != [] {
      var init := names[..|names| - 1];
      var last := names[|names| - 1];
      ColumnDropsOn(table, schema, init, fields, n);
      var step := if last !in fields then [DropColumn(table, schema, last)] else [];
      OpsOnAppend(ColumnDrops(table, schema, init, fields), step, ColumnTarget(n));
      if last == n {
        assert n !in init;
        OpsOnAll(step, ColumnTarget(n));
      } else {
        assert n in names <==> n in init;
        OpsOnNone(step, ColumnTarget(n));
      }
    }
  }

  lemma {:induction false} ReferenceStepsOnPresent(table: string, references: seq<Reference>,
                                                   current: map<string, Reference>, k: int)
    requires 0 <= k < |references|
    requires forall j :: 0 <= j < |references| && j != k ==> references[j].name != references[k].name
    ensures OpsOn(ReferenceSteps(table, references, current), ReferenceTarget(references[k].name)) ==
              ReferenceStep(table, references[k], current)
    decreases |references|
  {
    var n := references[k].name;
    var init := references[..|references| - 1];
    var last := references[|references| - 1];
    var t := ReferenceTarget(n);
    OpsOnAppend(ReferenceSteps(table, init, current), ReferenceStep(table, last, current), t);
    ReferenceStepOn(table, last, current, n);
    if k == |references| - 1 {
      forall j | 0 <= j < |init|
        ensures init[j].name != n
      {
        assert init[j] == references[j];
      }
      ReferenceStepsOnAbsent(table, init, current, n);
      assert OpsOn(ReferenceSteps(table, init, current), t) + ReferenceStep(table, last, current) == ReferenceStep(table, last, current);
    } else {
      assert init[k] == references[k];
      forall j | 0 <= j < |init| && j != k
        ensures init[j].name != init[k].name
      {
        assert init[j] == references[j];
      }
      ReferenceStepsOnPresent(table, init, current, k);
      assert last.name != n;
    }
  }


  lemma {:induction false} ReferenceStepsOnAbsent(table: string, references: seq<Reference>,
                                                  current: map<string, Reference>, n: string)
    requires forall j :: 0 <= j < |references| ==> references[j].name != n
    ensures OpsOn(ReferenceSteps(table, references, current), ReferenceTarget(n)) == []
    decreases |references|
  {
    if references != [] {
      var init := references[..|references| - 1];
      var last := references[|references| - 1];
      ReferenceStepsOnAbsent(table, init, current, n);
      OpsOnAppend(ReferenceSteps(table, init, current), ReferenceStep(table, last, current), ReferenceTarget(n));
      ReferenceStepOn(table, last, current, n);
    }
  }

  lemma {:induction false} ReferenceDropsOn(table: string, names: seq<string>, desired: map<string, Reference>, n: string)
    requires forall i, j :: 0 <= i < j < |names| ==> names[i] != names[j]
    ensures OpsOn(ReferenceDrops(table, names, desired), ReferenceTarget(n)) ==
              if n in names && n !in desired then [DropForeignKey(table, "", n)] else []
    decreases |names|
  {
    if names != [] {
      var init := names[..|names| - 1];
      var last := names[|names| - 1];
      ReferenceDropsOn(table, init, desired, n);
      var step := if last !in desired then [DropForeignKey(table, "", last)] else [];
      OpsOnAppend(ReferenceDrops(table, init, desired), step, ReferenceTarget(n));
      if last == n {
        assert n !in init;
        OpsOnAll(step, ReferenceTarget(n));
      } else {
        assert n in names <==> n in init;
        OpsOnNone(step, ReferenceTarget(n));
      }
    }
  }

  lemma {:induction false} IndexStepsOnPresent(table: string, schema: string, indexes: seq<Index>,
                                               current: map<string, Index>, k: int)
    requires 0 <= k < |indexes|
    requires forall j :: 0 <= j < |indexes| && j != k ==> indexes[j].name != indexes[k].name
    ensures OpsOn(IndexSteps(table, schema, indexes, current), IndexTarget(indexes[k].name)) ==
              IndexStep(table, schema, indexes[k], current)
    decreases |indexes|
  {
    var n := indexes[k].name;
    var init := indexes[..|indexes| - 1];
    var last := indexes[|indexes| - 1];
    var t := IndexTarget(n);
    OpsOnAppend(IndexSteps(table, schema, init, current), IndexStep(table, schema, last, current), t);
    IndexStepOn(table, schema, last, current, n);
    if k == |indexes| - 1 {
      forall j | 0 <= j < |init|
        ensures init[j].name != n
      {
        assert init[j] == indexes[j];
      }
      IndexStepsOnAbsent(table, schema, init, current, n);
      assert OpsOn(IndexSteps(table, schema, init, current), t) + IndexStep(table, schema, last, current) == IndexStep(table, schema, last, current);
    } else {
      assert init[k] == indexes[k];
      forall j | 0 <= j < |init| && j != k
        ensures init[j].name != init[k].name
      {
        assert init[j] == indexes[j];
      }
      IndexStepsOnPresent(table, schema, init, current, k);
      assert last.name != n;
    }
  }


  lemma {:induction false} IndexStepsOnAbsent(table: string, schema: string, indexes: seq<Index>,
                                              current: map<string, Index>, n: string)
    requires forall j :: 0 <= j < |indexes| ==> indexes[j].name != n
    ensures OpsOn(IndexSteps(table, schema, indexes, current), IndexTarget(n)) == []
    decreases |indexes|
  {
    if indexes != [] {
      var init := indexes[..|indexes| - 1];
      var last := indexes[|indexes| - 1];
      IndexStepsOnAbsent(table, schema, init, current, n);
      OpsOnAppend(IndexSteps(table, schema, init, current), IndexStep(table, schema, last, current), IndexTarget(n));
      IndexStepOn(table, schema, last, current, n);
    }
  }

  // ---------------------------------------------------------------------
  // The whole diff

  /** The schema name the diff passes to column and index calls. */
  function DiffSchema(definition: Definition): string
  {
    if definition.columns.Some? && ColumnObjects(definition.columns.value).Some? then
      TableSchema(ColumnObjects(definition.columns.value).value)
    else ""
  }

  /** The diff fails, before any call, exactly when the columns list is empty or holds a non-object. */
  lemma MorphFailsIff(table: string, tableExists: bool, definition: Definition, current: Description)
    ensures Morph(table, tableExists, definition, current).Err? <==>
              && definition.columns.Some?
              && (|definition.columns.value| == 0
                  || exists i :: 0 <= i < |definition.columns.value| && definition.columns.value[i].NotAnObject?)
  {
    if definition.columns.Some? {
      ColumnObjectsMeaning(definition.columns.value);
    }
  }

  /** A new table gets one `createTable` and nothing else: no column, reference or index diff. */
  lemma MorphNewTable(table: string, definition: Definition, current: Description)
    requires Morph(table, false, definition, current).Ok?
    ensures Morph(table, false, definition, current).value ==
              if definition.columns.Some? then [CreateTable(table, DiffSchema(definition), definition)] else []
  {
  }

  /** An existing table whose definition has no columns list: the reference part, then the index part. */
  lemma MorphExistingWithoutColumns(table: string, definition: Definition, current: Description)
    requires definition.columns.None?
    ensures Morph(table, true, definition, current) ==
              Ok(ReferencePhase(table, true, definition, current) + IndexPhase(table, true, "", definition, current))
  {
  }

  /** An existing table with an accepted columns list: the column, reference and index parts. */
  lemma MorphExistingWithColumns(table: string, definition: Definition, current: Description)
    requires Morph(table, true, definition, current).Ok? && definition.columns.Some?
    ensures ColumnObjects(definition.columns.value).Some?
    ensures var cols := ColumnObjects(definition.columns.value).value;
            && DiffSchema(definition) == TableSchema(cols)
            && Morph(table, true, definition, current).value ==
                 ColumnPhase(table, true, TableSchema(cols), cols, definition, current)
                 + ReferencePhase(table, true, definition, current)
                 + IndexPhase(table, true, TableSchema(cols), definition, current)
  {
  }

  lemma ColumnPhaseIssuesColumnOps(table: string, schema: string, cols: seq<Column>, definition: Definition,
                                   current: Description)
    ensures forall op :: op in ColumnPhase(table, true, schema, cols, definition, current) ==> IsColumnOp(op)
  {
    var fields := KeyBy(cols, ColumnName);
    var currentFields := KeyBy(current.columns, ColumnName);
    ColumnLoopsIssueColumnOps(table, schema, fields.keys, fields.vals, currentFields.vals, currentFields.keys);
  }

  lemma ReferencePhaseIssuesReferenceOps(table: string, definition: Definition, current: Description)
    ensures forall op :: op in ReferencePhase(table, true, definition, current) ==> IsReferenceOp(op)
  {
    if definition.references.Some? {
      var desired := KeyBy(definition.references.value, ReferenceName);
      var local := KeyBy(current.references, ReferenceName);
      ReferenceLoopsIssueReferenceOps(table, definition.references.value, local.vals, local.keys, desired.vals);
    }
  }

  lemma IndexPhaseIssuesIndexOps(table: string, schema: string, definition: Definition, current: Description)
    ensures forall op :: op in IndexPhase(table, true, schema, definition, current) ==> IsIndexOp(op)
  {
    if definition.indexes.Some? {
      IndexLoopIssuesIndexOps(table, schema, definition.indexes.value, KeyBy(current.indexes, IndexName).vals);
    }
  }

  /** One column name through both column loops of an existing table. */
  lemma ColumnPhaseOn(table: string, schema: string, cols: seq<Column>, definition: Definition, current: Description,
                      n: string)
    ensures var fields := KeyBy(cols, ColumnName).vals;
            var currentFields := KeyBy(current.columns, ColumnName).vals;
            OpsOn(ColumnPhase(table, true, schema, cols, definition, current), ColumnTarget(n)) ==
              (if n in fields then ColumnStep(table, schema, fields[n], currentFields) else [])
              + (if n in currentFields && n !in fields then [DropColumn(table, schema, n)] else [])
  {
    var fields := KeyBy(cols, ColumnName);
    var currentFields := KeyBy(current.columns, ColumnName);
    var steps := ColumnSteps(table, schema, fields.keys, fields.vals, currentFields.vals);
    var drops := ColumnDrops(table, schema, currentFields.keys, fields.vals);
    assert ColumnPhase(table, true, schema, cols, definition, current) == steps + drops;
    OpsOnAppend(steps, drops, ColumnTarget(n));
    KeyByStoresUnderOwnKey(cols, ColumnName);
    assert forall i :: 0 <= i < |fields.keys| ==> fields.keys[i] in fields.vals && fields.vals[fields.keys[i]].name == fields.keys[i];
    ColumnStepsOn(table, schema, fields.keys, fields.vals, currentFields.vals, n);
    ColumnDropsOn(table, schema, currentFields.keys, fields.vals, n);
    assert n in fields.keys <==> n in fields.vals;
    assert n in currentFields.keys <==> n in currentFields.vals;
  }

  /** The column part of an existing table's diff, empty without a columns list. */
  function ExistingColumnOps(table: string, definition: Definition, current: Description): seq<Op>
  {
    if definition.columns.Some? && ColumnObjects(definition.columns.value).Some? then
      var cols := ColumnObjects(definition.columns.value).value;
      ColumnPhase(table, true, TableSchema(cols), cols, definition, current)
    else []
  }

  /** An existing table's diff is its column part, then its reference part, then its index part. */
  lemma MorphExistingSplit(table: string, definition: Definition, current: Description)
    requires Morph(table, true, definition, current).Ok?
    ensures Morph(table, true, definition, current).value ==
              ExistingColumnOps(table, definition, current)
              + ReferencePhase(table, true, definition, current)
              + IndexPhase(table, true, DiffSchema(definition), definition, current)
  {
    if definition.columns.Some? {
      MorphSplitWithColumns(table, definition, current);
    } else {
      MorphSplitWithoutColumns(table, definition, current);
    }
  }

  lemma MorphSplitWithColumns(table: string, definition: Definition, current: Description)
    requires Morph(table, true, definition, current).Ok? && definition.columns.Some?
    ensures Morph(table, true, definition, current).value ==
              ExistingColumnOps(table, definition, current)
              + ReferencePhase(table, true, definition, current)
              + IndexPhase(table, true, DiffSchema(definition), definition, current)
  {
    MorphExistingWithColumns(table, definition, current);
  }

  lemma MorphSplitWithoutColumns(table: string, definition: Definition, current: Description)
    requires definition.columns.None?
    ensures Morph(table, true, definition, current).value ==
              ExistingColumnOps(table, definition, current)
              + ReferencePhase(table, true, definition, current)
              + IndexPhase(table, true, DiffSchema(definition), definition, current)
  {
    MorphExistingWithoutColumns(table, definition, current);
    assert [] + ReferencePhase(table, true, definition, current) == ReferencePhase(table, true, definition, current);
  }

  lemma ExistingColumnOpsAreColumnOps(table: string, definition: Definition, current: Description)
    ensures forall op :: op in ExistingColumnOps(table, definition, current) ==> IsColumnOp(op)
  {
    if definition.columns.Some? && ColumnObjects(definition.columns.value).Some? {
      var cols := ColumnObjects(definition.columns.value).value;
      ColumnPhaseIssuesColumnOps(table, TableSchema(cols), cols, definition, current);
    }
  }

  /** In a column part, a reference part and an index part, the operations on a target come from its kind's part. */
  lemma OpsOnByKind(columnOps: seq<Op>, refs: seq<Op>, idx: seq<Op>, t: Target)
    requires forall op :: op in columnOps ==> IsColumnOp(op)
    requires forall op :: op in refs ==> IsReferenceOp(op)
    requires forall op :: op in idx ==> IsIndexOp(op)
    ensures t.ColumnTarget? ==> OpsOn(columnOps + refs + idx, t) == OpsOn(columnOps, t)
    ensures t.ReferenceTarget? ==> OpsOn(columnOps + refs + idx, t) == OpsOn(refs, t)
    ensures t.IndexTarget? ==> OpsOn(columnOps + refs + idx, t) == OpsOn(idx, t)
  {
    OpsOnAppend(columnOps + refs, idx, t);
    OpsOnAppend(columnOps, refs, t);
    match t
    case ColumnTarget(_) => OpsOnColumnPart(columnOps, refs, idx, t);
    case ReferenceTarget(_) => OpsOnReferencePart(columnOps, refs, idx, t);
    case IndexTarget(_) => OpsOnIndexPart(columnOps, refs, idx, t);
  }

  lemma OpsOnColumnPart(columnOps: seq<Op>, refs: seq<Op>, idx: seq<Op>, t: Target)
    requires t.ColumnTarget?
    requires forall op :: op in refs ==> IsReferenceOp(op)
    requires forall op :: op in idx ==> IsIndexOp(op)
    ensures OpsOn(columnOps, t) + OpsOn(refs, t) + OpsOn(idx, t) == OpsOn(columnOps, t)
  {
    NotOfKind(refs, t);
    NotOfKind(idx, t);
  }

  lemma OpsOnReferencePart(columnOps: seq<Op>, refs: seq<Op>, idx: seq<Op>, t: Target)
    requires t.ReferenceTarget?
    requires forall op :: op in columnOps ==> IsColumnOp(op)
    requires forall op :: op in idx ==> IsIndexOp(op)
    ensures OpsOn(columnOps, t) + OpsOn(refs, t) + OpsOn(idx, t) == OpsOn(refs, t)
  {
    NotOfKind(columnOps, t);
    NotOfKind(idx, t);
  }

  lemma OpsOnIndexPart(columnOps: seq<Op>, refs: seq<Op>, idx: seq<Op>, t: Target)
    requires t.IndexTarget?
    requires forall op :: op in columnOps ==> IsColumnOp(op)
    requires forall op :: op in refs ==> IsReferenceOp(op)
    ensures OpsOn(columnOps, t) + OpsOn(refs, t) + OpsOn(idx, t) == OpsOn(idx, t)
  {
    NotOfKind(columnOps, t);
    NotOfKind(refs, t);
  }

  /** The operations of an existing table that concern targets of one kind come from that kind's part. */
  lemma MorphOpsByKind(table: string, definition: Definition, current: Description, t: Target)
    requires Morph(table, true, definition, current).Ok?
    ensures t.ColumnTarget? ==>
              OpsOn(Morph(table, true, definition, current).value, t) == OpsOn(ExistingColumnOps(table, definition, current), t)
    ensures t.ReferenceTarget? ==>
              OpsOn(Morph(table, true, definition, current).value, t) == OpsOn(ReferencePhase(table, true, definition, current), t)
    ensures t.IndexTarget? ==>
              OpsOn(Morph(table, true, definition, current).value, t) ==
              OpsOn(IndexPhase(table, true, DiffSchema(definition), definition, current), t)
  {
    MorphExistingSplit(table, definition, current);
    ExistingColumnOpsAreColumnOps(table, definition, current);
    ReferencePhaseIssuesReferenceOps(table, definition, current);
    IndexPhaseIssuesIndexOps(table, DiffSchema(definition), definition, current);
    OpsOnByKind(ExistingColumnOps(table, definition, current), ReferencePhase(table, true, definition, current),
                IndexPhase(table, true, DiffSchema(definition), definition, current), t);
  }

  /**
   * In an existing table, one column name: a desired column missing from
   * the table is added, a column in both is modified exactly when its type,
   * size, notNull or default differs, a current column the definition lacks
   * is dropped, and nothing else is issued for the name.
   */
  lemma MorphExistingTableColumn(table: string, definition: Definition, current: Description, n: string)
    requires Morph(table, true, definition, current).Ok?
    requires definition.columns.Some?
    ensures ColumnObjects(definition.columns.value).Some?
    ensures var schema := DiffSchema(definition);
            var fields := KeyBy(ColumnObjects(definition.columns.value).value, ColumnName).vals;
            var currentFields := KeyBy(current.columns, ColumnName).vals;
            OpsOn(Morph(table, true, definition, current).value, ColumnTarget(n)) ==
              if n in fields && n !in currentFields then [AddColumn(table, schema, fields[n])]
              else if n in fields && ColumnChanged(currentFields[n], fields[n]) then [ModifyColumn(table, schema, fields[n])]
              else if n in fields then []
              else if n in currentFields then [DropColumn(table, schema, n)]
              else []
  {
    MorphOpsByKind(table, definition, current, ColumnTarget(n));
    MorphExistingWithColumns(table, definition, current);
    var cols := ColumnObjects(definition.columns.value).value;
    var schema := TableSchema(cols);
    assert ExistingColumnOps(table, definition, current) == ColumnPhase(table, true, schema, cols, definition, current);
    ColumnPhaseOn(table, schema, cols, definition, current, n);
    var fields := KeyBy(cols, ColumnName).vals;
    if n in fields {
      assert fields[n].name == n by {
        KeyByStoresUnderOwnKey(cols, ColumnName);
      }
    }
  }

  /**
   * In an existing table, a reference of the definition (the only one of
   * its name): added when the table lacks it, dropped and re-added when it
   * changed, otherwise left alone.
   */
  lemma MorphReferencePresent(table: string, definition: Definition, current: Description, k: int)
    requires Morph(table, true, definition, current).Ok?
    requires definition.references.Some? && 0 <= k < |definition.references.value|
    requires forall j :: 0 <= j < |definition.references.value| && j != k ==>
               definition.references.value[j].name != definition.references.value[k].name
    ensures var r := definition.references.value[k];
            var local := KeyBy(current.references, ReferenceName).vals;
            OpsOn(Morph(table, true, definition, current).value, ReferenceTarget(r.name)) ==
              if r.name !in local then [AddForeignKey(table, r.schema, r)]
              else if ReferenceChanged(r, local[r.name]) then [DropForeignKey(table, r.schema, r.name), AddForeignKey(table, r.schema, r)]
              else []
  {
    var references := definition.references.value;
    var r := references[k];
    var desired := KeyBy(references, ReferenceName);
    var local := KeyBy(current.references, ReferenceName);
    MorphOpsByKind(table, definition, current, ReferenceTarget(r.name));
    OpsOnAppend(ReferenceSteps(table, references, local.vals), ReferenceDrops(table, local.keys, desired.vals),
                ReferenceTarget(r.name));
    ReferenceStepsOnPresent(table, references, local.vals, k);
    ReferenceDropsOn(table, local.keys, desired.vals, r.name);
  }

  /** In an existing table, a current reference the definition does not name is dropped, once. */
  lemma MorphReferenceAbsent(table: string, definition: Definition, current: Description, n: string)
    requires Morph(table, true, definition, current).Ok?
    requires definition.references.Some?
    requires forall j :: 0 <= j < |definition.references.value| ==> definition.references.value[j].name != n
    ensures var local := KeyBy(current.references, ReferenceName).vals;
            OpsOn(Morph(table, true, definition, current).value, ReferenceTarget(n)) ==
              if n in local then [DropForeignKey(table, "", n)] else []
  {
    var references := definition.references.value;
    var desired := KeyBy(references, ReferenceName);
    var local := KeyBy(current.references, ReferenceName);
    MorphOpsByKind(table, definition, current, ReferenceTarget(n));
    OpsOnAppend(ReferenceSteps(table, references, local.vals), ReferenceDrops(table, local.keys, desired.vals),
                ReferenceTarget(n));
    ReferenceStepsOnAbsent(table, references, local.vals, n);
    ReferenceDropsOn(table, local.keys, desired.vals, n);
  }

  /**
   * In an existing table, an index of the definition (the only one of its
   * name): added when the table lacks it, dropped and re-added when its
   * columns changed, otherwise left alone; `PRIMARY` goes through the
   * primary-key calls.
   */
  lemma MorphIndexPresent(table: string, definition: Definition, current: Description, k: int)
    requires Morph(table, true, definition, current).Ok?
    requires definition.indexes.Some? && 0 <= k < |definition.indexes.value|
    requires forall j :: 0 <= j < |definition.indexes.value| && j != k ==>
               definition.indexes.value[j].name != definition.indexes.value[k].name
    ensures var x := definition.indexes.value[k];
            var schema := DiffSchema(definition);
            var local := KeyBy(current.indexes, IndexName).vals;
            OpsOn(Morph(table, true, definition, current).value, IndexTarget(x.name)) ==
              if x.name !in local then
                if x.name == PrimaryIndexName then [AddPrimaryKey(table, schema, x)] else [AddIndex(table, schema, x)]
              else if IndexChanged(x.columns, local[x.name].columns) then
                if x.name == PrimaryIndexName then [DropPrimaryKey(table, schema), AddPrimaryKey(table, schema, x)]
                else [DropIndex(table, schema, x.name), AddIndex(table, schema, x)]
              else []
  {
    MorphOpsByKind(table, definition, current, IndexTarget(definition.indexes.value[k].name));
    IndexStepsOnPresent(table, DiffSchema(definition), definition.indexes.value, KeyBy(current.indexes, IndexName).vals, k);
  }

  /** An index the definition does not name is never dropped, whether or not the table exists. */
  lemma MorphIndexNeverDropped(table: string, tableExists: bool, definition: Definition, current: Description,
                               n: string)
    requires Morph(table, tableExists, definition, current).Ok?
    requires definition.indexes.Some? ==>
               forall j :: 0 <= j < |definition.indexes.value| ==> definition.indexes.value[j].name != n
    ensures OpsOn(Morph(table, tableExists, definition, current).value, IndexTarget(n)) == []
  {
    if tableExists {
      MorphOpsByKind(table, definition, current, IndexTarget(n));
      if definition.indexes.Some? {
        IndexStepsOnAbsent(table, DiffSchema(definition), definition.indexes.value,
                           KeyBy(current.indexes, IndexName).vals, n);
      }
    } else {
      MorphNewTable(table, definition, current);
      if definition.columns.Some? {
        OpsOnOne(CreateTable(table, DiffSchema(definition), definition), IndexTarget(n));
      }
    }
  }
}
