/**
 * The query-building part of the base controller: `makeFilter` turns the
 * request's filters into a Phalcon find parameter (a condition with
 * `:field:` placeholders, the bind array and the order), and
 * `dropDownAction` turns the records found into value/label entries.
 */
module BaseController {
  import opened Php
  import opened Collections

  /** The operators the `switch` of `makeFilter` knows; any other name falls through all cases. */
  datatype Operator = Eq | Ne | Ge | Gt | Le | Lt | In | Unknown(name: string)

  /** The operator names the `switch` has a case for. */
  const OperatorNames: seq<string> := ["eq", "ne", "ge", "gt", "le", "lt", "IN"]

  /** The case of the `switch` an operator name selects: a known case exactly for the names it lists. */
  function OperatorNamed(name: string): (r: Operator)
    ensures r.Unknown? <==> name !in OperatorNames
    ensures r.Unknown? ==> r.name == name
  {
    if name == "eq" then Eq
    else if name == "ne" then Ne
    else if name == "ge" then Ge
    else if name == "gt" then Gt
    else if name == "le" then Le
    else if name == "lt" then Lt
    else if name == "IN" then In
    else Unknown(name)
  }

  /** One entry of `_filters`: `whereClause` is the optional connector to the filters before it. */
  datatype FilterSpec = FilterSpec(field: string, operator: Operator, value: Value, whereClause: Option<string>)

  /** `[condition, 'bind' => bind, 'order' => order]`. */
  datatype Query = Query(condition: string, bind: OrderedMap<string, Value>, order: string)

  /** The comparison symbol of an operator, or "" for `IN` and for an operator the switch does not know. */
  function Comparison(operator: Operator): string
  {
    match operator
    case Eq => "="
    case Ne => "<>"
    case Ge => ">="
    case Gt => ">"
    case Le => "<="
    case Lt => "<"
    case _ => ""
  }

  function Placeholder(field: string): string
  {
    ":" + field + ":"
  }

  /**
   * What follows the field name: the comparison and the placeholder, or the
   * array placeholder of `IN`. Only `IN` goes without the `:field:` placeholder.
   */
  function OperatorClause(field: string, operator: Operator): (r: string)
    ensures |r| > 0
  {
    if operator == In then " IN({" + field + ":array})"
    else Comparison(operator) + Placeholder(field)
  }

  /** The clause ends in the `:field:` placeholder exactly when the operator is not `IN`. */
  lemma PlaceholderUnlessIn(field: string, operator: Operator)
    ensures var r := OperatorClause(field, operator);
            operator != In <==> (|r| >= |Placeholder(field)| && r[|r| - |Placeholder(field)|..] == Placeholder(field))
  {
    var r := OperatorClause(field, operator);
    var p := Placeholder(field);
    if operator == In {
      assert r[|r| - 1] == ')';
      assert p[|p| - 1] == ':';
    } else {
      assert r == Comparison(operator) + p;
    }
  }

  /** The text one filter contributes after its connector. */
  function FilterText(f: FilterSpec): (r: string)
    ensures |r| > 0
  {
    f.field + OperatorClause(f.field, f.operator)
  }

  /** The connector before a filter that is not the first: its own where clause in upper case, or AND. */
  function Connector(f: FilterSpec): string
  {
    if f.whereClause.Some? then " " + ToUpper(f.whereClause.value) + " " else " AND "
  }

  /**
   * The condition as the loop builds it: a connector only once the string
   * is non-empty. It is empty exactly when there are no filters.
   */
  function Condition(filters: seq<FilterSpec>): (r: string)
    ensures r == "" <==> filters == []
    decreases |filters|
  {
    if filters == [] then ""
    else
      AppendedFilter(Condition(filters[..|filters| - 1]), filters[|filters| - 1])
  }

  /** One filter appended to the condition so far. */
  function AppendedFilter(previous: string, f: FilterSpec): string
  {
    previous + (if |previous| > 0 then Connector(f) else "") + FilterText(f)
  }

  /** Each filter after the first, preceded by its connector. */
  function ConnectedFilters(filters: seq<FilterSpec>): string
    decreases |filters|
  {
    if filters == [] then ""
    else ConnectedFilters(filters[..|filters| - 1]) + Connector(filters[|filters| - 1]) + FilterText(filters[|filters| - 1])
  }

  /** Independent reading of the condition: the first filter alone, then every later one with its connector. */
  function ConditionByPosition(filters: seq<FilterSpec>): string
  {
    if filters == [] then "" else FilterText(filters[0]) + ConnectedFilters(filters[1..])
  }

  /**
   * The first filter has no leading connector and each later one is
   * preceded by its own: the condition the loop builds is the condition
   * read by position.
   */
  lemma {:induction false} ConditionConnectsLaterFilters(filters: seq<FilterSpec>)
    ensures Condition(filters) == ConditionByPosition(filters)
    decreases |filters|
  {
    if |filters| >= 2 {
      var init := filters[..|filters| - 1];
      ConditionConnectsLaterFilters(init);
      ConditionStep(filters);
    } else if |filters| == 1 {
      assert filters[..0] == [];
      assert filters[1..] == [];
    }
  }

  /** One step of the induction: the last filter is connected to a non-empty condition. */
  lemma ConditionStep(filters: seq<FilterSpec>)
    requires |filters| >= 2
    requires Condition(filters[..|filters| - 1]) == ConditionByPosition(filters[..|filters| - 1])
    ensures Condition(filters) == ConditionByPosition(filters)
  {
    var init := filters[..|filters| - 1];
    var last := filters[|filters| - 1];
    var first := FilterText(filters[0]);
    var middle := ConnectedFilters(init[1..]);
    var connector := Connector(last);
    var text := FilterText(last);
    assert init[0] == filters[0];
    assert Condition(init) == first + middle;
    assert Condition(filters) == (first + middle) + connector + text;
    SliceCommutes(filters);
    ConnectedFiltersLast(filters[1..]);
    assert ConnectedFilters(filters[1..]) == middle + connector + text;
    ConcatAssociates(first, middle, connector, text);
  }

  lemma ConnectedFiltersLast(fs: seq<FilterSpec>)
    requires fs != []
    ensures ConnectedFilters(fs) == ConnectedFilters(fs[..|fs| - 1]) + Connector(fs[|fs| - 1]) + FilterText(fs[|fs| - 1])
  {
  }

  lemma ConcatAssociates<T>(a: seq<T>, b: seq<T>, c: seq<T>, d: seq<T>)
    ensures (a + b) + c + d == a + (b + c + d)
  {
  }

  /** Dropping the first and dropping the last element commute. */
  lemma SliceCommutes<T>(s: seq<T>)
    requires |s| >= 2
    ensures s[1..][..|s[1..]| - 1] == s[..|s| - 1][1..]
    ensures s[1..][|s[1..]| - 1] == s[|s| - 1]
  {
  }

  /** The bind array: `$bindArray[$filter['field']] = $filter['value']` for each filter in turn. */
  function Bind(filters: seq<FilterSpec>): (r: OrderedMap<string, Value>)
    ensures Valid(r)
    decreases |filters|
  {
    if filters == [] then Empty()
    else
      var last := filters[|filters| - 1];
      Put(Bind(filters[..|filters| - 1]), last.field, last.value)
  }

  /** The bind array has a key for each filtered field and no other. */
  lemma {:induction false} BindKeys(filters: seq<FilterSpec>, k: string)
    ensures k in Bind(filters).vals <==> exists i :: 0 <= i < |filters| && filters[i].field == k
    decreases |filters|
  {
    if filters != [] {
      var init := filters[..|filters| - 1];
      BindKeys(init, k);
      if k in Bind(init).vals {
        var i :| 0 <= i < |init| && init[i].field == k;
        assert filters[i].field == k;
      }
      if exists i :: 0 <= i < |filters| && filters[i].field == k {
        var i :| 0 <= i < |filters| && filters[i].field == k;
        if i < |init| {
          assert init[i].field == k;
        }
      }
    }
  }

  /** A later filter on the same field overwrites an earlier one: the last filter with a field gives its value. */
  lemma {:induction false} BindLastWins(filters: seq<FilterSpec>, i: int)
    requires 0 <= i < |filters|
    requires forall j :: i < j < |filters| ==> filters[j].field != filters[i].field
    ensures filters[i].field in Bind(filters).vals
    ensures Bind(filters).vals[filters[i].field] == filters[i].value
    decreases |filters|
  {
    var init := filters[..|filters| - 1];
    if i < |filters| - 1 {
      assert forall j :: i < j < |init| ==> init[j] == filters[j];
      BindLastWins(init, i);
    }
  }

  /** One more filter: the loop's condition and bind array after filter `i`. */
  lemma FiltersNext(filters: seq<FilterSpec>, i: int)
    requires 0 <= i < |filters|
    ensures Condition(filters[..i + 1]) == AppendedFilter(Condition(filters[..i]), filters[i])
    ensures Bind(filters[..i + 1]) == Put(Bind(filters[..i]), filters[i].field, filters[i].value)
  {
    assert filters[..i + 1][..i] == filters[..i];
  }

  /** The order parameter: the model's order field and direction. */
  function Order(orderField: string, orderDirection: string): (r: string)
    ensures |r| == |orderField| + 1 + |orderDirection|
    ensures r[..|orderField|] == orderField && r[|orderField|] == ' ' && r[|orderField| + 1..] == orderDirection
  {
    orderField + " " + orderDirection
  }

  /** With no filters the find parameter has an empty condition, an empty bind array and the order. */
  lemma NoFiltersQuery(orderField: string, orderDirection: string)
    ensures var q := Query(Condition([]), Bind([]), Order(orderField, orderDirection));
            q.condition == "" && q.bind.keys == [] && q.bind.vals == map[] && q.order == orderField + " " + orderDirection
  {
  }

  class Controller {
    /** `_filters`, as the request supplied them. */
    var filters: seq<FilterSpec>
    /** `_filter`, the find parameter `makeFilter` assigns; null until then. */
    var filter: Option<Query>
    /** The model's `orderField` and `orderDirection`. */
    var orderField: string
    var orderDirection: string

    /** A controller whose model has the default order `id ASC`. */
    constructor(filters: seq<FilterSpec>)
      ensures this.filters == filters
      ensures filter == None
      ensures orderField == "id" && orderDirection == "ASC"
    {
      this.filters := filters;
      filter := None;
      orderField := "id";
      orderDirection := "ASC";
    }

    method MakeFilter()
      modifies this`filter
      ensures filter == Some(Query(Condition(filters), Bind(filters), Order(orderField, orderDirection)))
    {
      var bindArray: OrderedMap<string, Value> := Empty();
      var filterString := "";
      var i := 0;
      while i < |filters|
        invariant 0 <= i <= |filters|
        invariant filterString == Condition(filters[..i])
        invariant bindArray == Bind(filters[..i])
      {
        var f := filters[i];
        FiltersNext(filters, i);
        filterString := AppendFilter(filterString, f);
        bindArray := Put(bindArray, f.field, f.value);
        i := i + 1;
      }
      assert filters[..|filters|] == filters;
      filter := Some(Query(filterString, bindArray, orderField + " " + orderDirection));
    }
  }

  /** The body of the `makeFilter` loop for one filter, on the condition text. */
  method AppendFilter(previous: string, f: FilterSpec) returns (filterString: string)
    ensures filterString == AppendedFilter(previous, f)
  {
    filterString := previous;
    if |filterString| > 0 && f.whereClause.Some? {
      filterString := filterString + " " + ToUpper(f.whereClause.value) + " ";
    } else if |filterString| > 0 {
      filterString := filterString + " AND ";
    }
    var clause := OperatorText(f.field, f.operator);
    filterString := filterString + f.field + clause;
  }

  /** The `switch` on the operator and the placeholder after it. */
  method OperatorText(field: string, operator: Operator) returns (clause: string)
    ensures clause == OperatorClause(field, operator)
  {
    var addValue := true;
    match operator {
      case Eq => clause := "=";
      case Ne => clause := "<>";
      case Ge => clause := ">=";
      case Gt => clause := ">";
      case Le => clause := "<=";
      case Lt => clause := "<";
      case In =>
        clause := " IN({" + field + ":array})";
        addValue := false;
      case Unknown(_) => clause := "";
    }
    assert addValue <==> operator != In;
    if addValue {
      assert clause == Comparison(operator);
      clause := clause + Placeholder(field);
    }
  }

  // ---------------------------------------------------------------------
  // dropDownAction

  /** A record found by the model: its properties by name. */
  type Record = map<string, Value>

  /** One entry of the dropdown. */
  datatype DropDownEntry = DropDownEntry(value: Value, labelText: string)

  /** `$record->{$name}`: a property the record lacks reads as null. */
  function Property(record: Record, name: string): Value
  {
    if name in record then record[name] else Null
  }

  /** The label-field values of a record, as strings. */
  function LabelValues(record: Record, labelFields: seq<string>): (r: seq<string>)
    ensures |r| == |labelFields|
    ensures forall i :: 0 <= i < |labelFields| ==> r[i] == ToStr(Property(record, labelFields[i]))
  {
    seq(|labelFields|, i requires 0 <= i < |labelFields| => ToStr(Property(record, labelFields[i])))
  }

  /** The separator, `-` unless the request names one. */
  function LabelSeparator(requested: Option<string>): string
  {
    if requested.Some? then requested.value else "-"
  }

  /**
   * The label of one record: the label-field values in order, a spaced
   * separator between consecutive ones and none after the last.
   */
  method Label(record: Record, labelFields: seq<string>, labelSeparator: string) returns (labelText: string)
    ensures labelText == Join(LabelValues(record, labelFields), " " + labelSeparator + " ")
  {
    var values := LabelValues(record, labelFields);
    var sep := " " + labelSeparator + " ";
    labelText := "";
    for i := 1 to |labelFields| + 1
      invariant labelText == Join(values[..i - 1], sep) + (if 1 < i <= |labelFields| then sep else "")
    {
      JoinNext(values, sep, i);
      labelText := labelText + values[i - 1];
      if i < |labelFields| {
        labelText := labelText + sep;
      }
    }
    assert values[..|labelFields|] == values;
  }

  /** One more part joined: the separator comes only between two parts. */
  lemma JoinNext(parts: seq<string>, sep: string, i: int)
    requires 1 <= i <= |parts|
    ensures Join(parts[..i], sep) == Join(parts[..i - 1], sep) + (if i > 1 then sep else "") + parts[i - 1]
  {
    assert parts[..i][..i - 1] == parts[..i - 1];
  }

  /** A join starts with the first part and ends with the last: no separator leads or trails. */
  lemma {:induction false} JoinEnds(parts: seq<string>, sep: string)
    requires parts != []
    ensures var r := Join(parts, sep);
            |r| >= |parts[0]| && r[..|parts[0]|] == parts[0]
            && |r| >= |parts[|parts| - 1]| && r[|r| - |parts[|parts| - 1]|..] == parts[|parts| - 1]
    decreases |parts|
  {
    if |parts| > 1 {
      var init := parts[..|parts| - 1];
      JoinEnds(init, sep);
      var r := Join(parts, sep);
      assert r == Join(init, sep) + sep + parts[|parts| - 1];
      assert r[..|parts[0]|] == Join(init, sep)[..|init[0]|];
    }
  }

  /** The join's length: every part, plus one separator between each two. */
  lemma {:induction false} JoinLength(parts: seq<string>, sep: string)
    requires parts != []
    ensures |Join(parts, sep)| == TotalLength(parts) + (|parts| - 1) * |sep|
    decreases |parts|
  {
    if |parts| > 1 {
      JoinLength(parts[..|parts| - 1], sep);
    }
  }

  function TotalLength(parts: seq<string>): nat
    decreases |parts|
  {
    if parts == [] then 0 else TotalLength(parts[..|parts| - 1]) + |parts[|parts| - 1]|
  }

  /** The entry of one record: its value field and its label. */
  function Entry(record: Record, valueField: string, labelFields: seq<string>, labelSeparator: string): DropDownEntry
  {
    DropDownEntry(Property(record, valueField), Join(LabelValues(record, labelFields), " " + labelSeparator + " "))
  }

  /**
   * The records of `dropDownAction` and their count: with `useSelectValue`
   * exactly `Y`, an empty-valued select entry first, then one entry per
   * record in the order found. The value field is the requested one or the
   * primary key.
   */
  method DropDownRecords(records: seq<Record>, requestedValueField: Option<string>, primaryKey: string,
                         labelFields: seq<string>, requestedSeparator: Option<string>,
                         useSelectValue: Option<string>, selectLabel: string)
    returns (dataRecords: seq<DropDownEntry>, recordCount: nat)
    ensures var offset := if useSelectValue == Some("Y") then 1 else 0;
            && |dataRecords| == |records| + offset
            && (offset == 1 ==> dataRecords[0] == DropDownEntry(Str(""), selectLabel))
            && forall i :: 0 <= i < |records| ==>
                 dataRecords[offset + i] == Entry(records[i], if requestedValueField.Some? then requestedValueField.value else primaryKey,
                                                  labelFields, LabelSeparator(requestedSeparator))
    ensures recordCount == |dataRecords|
  {
    var valueField := if requestedValueField.Some? then requestedValueField.value else primaryKey;
    var labelSeparator := LabelSeparator(requestedSeparator);
    dataRecords := [];
    if useSelectValue == Some("Y") {
      dataRecords := dataRecords + [DropDownEntry(Str(""), selectLabel)];
    }
    var offset := |dataRecords|;
    var n := 0;
    while n < |records|
      invariant 0 <= n <= |records|
      invariant |dataRecords| == offset + n
      invariant offset == 1 ==> dataRecords[0] == DropDownEntry(Str(""), selectLabel)
      invariant forall i :: 0 <= i < n ==> dataRecords[offset + i] == Entry(records[i], valueField, labelFields, labelSeparator)
    {
      var record := records[n];
      var labelText := Label(record, labelFields, labelSeparator);
      dataRecords := dataRecords + [DropDownEntry(Property(record, valueField), labelText)];
      n := n + 1;
    }
    recordCount := |dataRecords|;
  }
}
