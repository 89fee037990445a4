/**
 * The base model: the audit columns it adds to every table definition, the
 * soft-delete condition it adds to every query, the audit fields it fills
 * in before validation, and its lists of date and date-time fields.
 */
module BaseModel {
  import opened Php
  import opened Collections
  import opened Schema

  /** The three per-model switches; all three are on unless a model turns them off. */
  datatype ModelFlags = ModelFlags(modifiers: bool, softDeletes: bool, timeStamps: bool)

  const DefaultFlags := ModelFlags(true, true, true)

  /** The migrations model turns all three off. */
  const MigrationFlags := ModelFlags(false, false, false)

  // ---------------------------------------------------------------------
  // Audit columns

  const CreatedAtColumn := Column("createdAt", "", TypeBigInteger, 11, true, Null)
  const ModifiedAtColumn := Column("modifiedAt", "", TypeBigInteger, 11, true, Int(0))
  const SoftDeletedColumn := Column("softDeleted", "", TypeBoolean, 0, false, Int(0))
  const CreatorIdColumn := Column("creatorId", "", TypeChar, 38, false, Null)
  const ModifierIdColumn := Column("modifierId", "", TypeChar, 38, false, Null)

  /** The audit columns the switches ask for, in the order they are appended. */
  function GeneralColumns(flags: ModelFlags): (r: seq<Column>)
    ensures |r| == (if flags.timeStamps then 2 else 0) + (if flags.softDeletes then 1 else 0) + (if flags.modifiers then 2 else 0)
    ensures (CreatedAtColumn in r <==> flags.timeStamps) && (ModifiedAtColumn in r <==> flags.timeStamps)
    ensures SoftDeletedColumn in r <==> flags.softDeletes
    ensures (CreatorIdColumn in r <==> flags.modifiers) && (ModifierIdColumn in r <==> flags.modifiers)
  {
    var withTimeStamps := if flags.timeStamps then [CreatedAtColumn, ModifiedAtColumn] else [];
    var withSoftDeletes := withTimeStamps + if flags.softDeletes then [SoftDeletedColumn] else [];
    withSoftDeletes + if flags.modifiers then [CreatorIdColumn, ModifierIdColumn] else []
  }

  function AsItems(cols: seq<Column>): (r: seq<ColumnItem>)
    ensures |r| == |cols| && forall i :: 0 <= i < |cols| ==> r[i] == ColumnObject(cols[i])
  {
    seq(|cols|, i requires 0 <= i < |cols| => ColumnObject(cols[i]))
  }

  /**
   * `getGeneralDefinition`: the caller's columns come first and the audit
   * columns follow; references default to the empty list; indexes are
   * untouched. Without `columns` and with every switch off, `columns`
   * stays unset.
   */
  function GeneralDefinition(flags: ModelFlags, definition: Definition): (r: Definition)
    ensures r.indexes == definition.indexes
    ensures r.references == Some(if definition.references.Some? then definition.references.value else [])
    ensures r.columns.None? <==> definition.columns.None? && GeneralColumns(flags) == []
    ensures r.columns.Some? ==>
      var given := if definition.columns.Some? then definition.columns.value else [];
      && |r.columns.value| == |given| + |GeneralColumns(flags)|
      && r.columns.value[..|given|] == given
      && r.columns.value[|given|..] == AsItems(GeneralColumns(flags))
  {
    var given := if definition.columns.Some? then definition.columns.value else [];
    var columns := if definition.columns.None? && GeneralColumns(flags) == [] then None
                   else Some(given + AsItems(GeneralColumns(flags)));
    var references := if definition.references.Some? then definition.references.value else [];
    Definition(columns, Some(references), definition.indexes)
  }

  /** Position of an audit column in the fixed order of appending. */
  function AuditRank(name: string): int
  {
    if name == "createdAt" then 0
    else if name == "modifiedAt" then 1
    else if name == "softDeleted" then 2
    else if name == "creatorId" then 3
    else if name == "modifierId" then 4
    else 5
  }

  predicate HasColumnNamed(cols: seq<Column>, name: string)
  {
    exists i :: 0 <= i < |cols| && cols[i].name == name
  }

  /**
   * Each audit column is appended exactly when its switch is on, and they
   * come in the order createdAt, modifiedAt, softDeleted, creatorId, modifierId.
   */
  lemma GeneralColumnsFollowFlags(flags: ModelFlags)
    ensures var g := GeneralColumns(flags);
      && (forall i, j :: 0 <= i < j < |g| ==> AuditRank(g[i].name) < AuditRank(g[j].name))
      && (HasColumnNamed(g, "createdAt") <==> flags.timeStamps)
      && (HasColumnNamed(g, "modifiedAt") <==> flags.timeStamps)
      && (HasColumnNamed(g, "softDeleted") <==> flags.softDeletes)
      && (HasColumnNamed(g, "creatorId") <==> flags.modifiers)
      && (HasColumnNamed(g, "modifierId") <==> flags.modifiers)
  {
    var g := GeneralColumns(flags);
    if flags.timeStamps {
      assert g[0].name == "createdAt" && g[1].name == "modifiedAt";
    }
    var base := if flags.timeStamps then 2 else 0;
    if flags.softDeletes {
      assert g[base].name == "softDeleted";
    }
    var more := base + if flags.softDeletes then 1 else 0;
    if flags.modifiers {
      assert g[more].name == "creatorId" && g[more + 1].name == "modifierId";
    }
  }

  // ---------------------------------------------------------------------
  // Soft-delete condition

  /** A PHP array key. */
  datatype Key = IntKey(i: int) | StrKey(s: string)

  /** The `$parameters` argument of the finders. */
  datatype Params = NoParams | Condition(text: string) | Options(entries: OrderedMap<Key, Value>)

  const DeletedField := "softDeleted"

  const ConditionsKey := StrKey("conditions")

  /** `isset($entries[$key])`. */
  predicate IsSet(entries: OrderedMap<Key, Value>, key: Key)
  {
    key in entries.vals && entries.vals[key] != Null
  }

  /** The entry is set and its text does not mention the soft-delete column. */
  predicate NeedsCheck(entries: OrderedMap<Key, Value>, key: Key)
  {
    IsSet(entries, key) && !Contains(ToStr(entries.vals[key]), DeletedField)
  }

  /** A condition text with the soft-delete test appended; an empty one becomes "1" first. */
  function WithDeletedCheck(condition: string, value: int): string
  {
    (if condition == "" then "1" else condition) + " AND " + DeletedField + " = " + IntToString(value)
  }

  /** The condition the query is built from: index 0 if set, else 'conditions'. */
  function EffectiveCondition(p: Params): Option<string>
  {
    match p
    case NoParams => None
    case Condition(text) => Some(text)
    case Options(entries) =>
      if IsSet(entries, IntKey(0)) then Some(ToStr(entries.vals[IntKey(0)]))
      else if IsSet(entries, ConditionsKey) then Some(ToStr(entries.vals[ConditionsKey]))
      else None
  }

  /**
   * `softDeleteFetch($parameters, $value)`: with soft deletes on, make the
   * query test `softDeleted = value` unless its condition already mentions
   * the column. In an array, index 0 is rewritten in preference to
   * 'conditions', at most one of the two is, and nothing else changes.
   */
  function SoftDeleteFetch(useSoftDeletes: bool, p: Params, value: int): (r: Params)
    requires p.Options? ==> Valid(p.entries)
    ensures !useSoftDeletes ==> r == p
    ensures useSoftDeletes && p.NoParams? ==> r == Condition(DeletedField + " = " + IntToString(value))
    ensures useSoftDeletes && p.Condition? && Contains(p.text, DeletedField) ==> r == p
    ensures useSoftDeletes && p.Condition? && !Contains(p.text, DeletedField) ==>
      r == Condition(WithDeletedCheck(p.text, value))
    ensures p.Options? <==> r.Options?
    ensures r.Options? ==>
      && Valid(r.entries)
      && r.entries.keys == p.entries.keys
      && r.entries.vals.Keys == p.entries.vals.Keys
      && (forall k :: k in p.entries.vals && k != IntKey(0) && k != ConditionsKey ==> r.entries.vals[k] == p.entries.vals[k])
      && !(Rewritten(p.entries, r.entries, IntKey(0)) && Rewritten(p.entries, r.entries, ConditionsKey))
    ensures useSoftDeletes && p.Options? && NeedsCheck(p.entries, IntKey(0)) ==>
      r.entries.vals[IntKey(0)] == Str(WithDeletedCheck(ToStr(p.entries.vals[IntKey(0)]), value))
    ensures useSoftDeletes && p.Options? && !NeedsCheck(p.entries, IntKey(0)) && NeedsCheck(p.entries, ConditionsKey) ==>
      r.entries.vals[ConditionsKey] == Str(WithDeletedCheck(ToStr(p.entries.vals[ConditionsKey]), value))
    ensures p.Options? && !NeedsCheck(p.entries, IntKey(0)) && !NeedsCheck(p.entries, ConditionsKey) ==> r == p
  {
    if !useSoftDeletes then p
    else
      match p
      case NoParams => Condition(DeletedField + " = " + IntToString(value))
      case Condition(text) =>
        if Contains(text, DeletedField) then p else Condition(WithDeletedCheck(text, value))
      case Options(entries) =>
        if NeedsCheck(entries, IntKey(0)) then
          Options(Put(entries, IntKey(0), Str(WithDeletedCheck(ToStr(entries.vals[IntKey(0)]), value))))
        else if NeedsCheck(entries, ConditionsKey) then
          Options(Put(entries, ConditionsKey, Str(WithDeletedCheck(ToStr(entries.vals[ConditionsKey]), value))))
        else p
  }

  /** The entry under `key` differs between the two arrays. */
  predicate Rewritten(before: OrderedMap<Key, Value>, after: OrderedMap<Key, Value>, key: Key)
  {
    key in before.vals && key in after.vals && before.vals[key] != after.vals[key]
  }

  lemma MentionsDeletedField(condition: string, value: int)
    ensures Contains(WithDeletedCheck(condition, value), DeletedField)
  {
    var prefix := (if condition == "" then "1" else condition) + " AND ";
    var s := WithDeletedCheck(condition, value);
    assert s == prefix + DeletedField + " = " + IntToString(value);
    assert s[|prefix|..|prefix| + |DeletedField|] == DeletedField;
    ContainsAt(s, DeletedField, |prefix|);
  }

  /**
   * With soft deletes on, a query that has a condition ends up with one
   * that mentions `softDeleted`: either it already did and is unchanged, or
   * the test was appended to it.
   */
  lemma SoftDeleteConditionMentionsField(p: Params, value: int)
    requires p.Options? ==> Valid(p.entries)
    requires p.Options? ==> EffectiveCondition(p).Some?
    ensures var r := SoftDeleteFetch(true, p, value);
      var c := EffectiveCondition(r);
      && c.Some?
      && Contains(c.value, DeletedField)
      && (p.NoParams? ==> c.value == DeletedField + " = " + IntToString(value))
      && (EffectiveCondition(p).Some? ==>
            c.value == if Contains(EffectiveCondition(p).value, DeletedField) then EffectiveCondition(p).value
                       else WithDeletedCheck(EffectiveCondition(p).value, value))
  {
    var r := SoftDeleteFetch(true, p, value);
    match p
    case NoParams =>
      var s := DeletedField + " = " + IntToString(value);
      assert s[0..|DeletedField|] == DeletedField;
      ContainsAt(s, DeletedField, 0);
    case Condition(text) =>
      MentionsDeletedField(text, value);
    case Options(entries) =>
      if IsSet(entries, IntKey(0)) {
        MentionsDeletedField(ToStr(entries.vals[IntKey(0)]), value);
      } else {
        MentionsDeletedField(ToStr(entries.vals[ConditionsKey]), value);
      }
  }

  /**
   * Applying the rewrite twice equals applying it once, except for an
   * array whose index 0 and 'conditions' are both set and neither
   * mentions `softDeleted`: the first pass rewrites index 0, the second
   * then rewrites 'conditions'.
   */
  lemma SoftDeleteFetchIdempotent(useSoftDeletes: bool, p: Params, value: int)
    requires p.Options? ==> Valid(p.entries)
    ensures var once := SoftDeleteFetch(useSoftDeletes, p, value);
      (SoftDeleteFetch(useSoftDeletes, once, value) == once) <==>
        !(useSoftDeletes && p.Options? && NeedsCheck(p.entries, IntKey(0)) && NeedsCheck(p.entries, ConditionsKey))
  {
    var once := SoftDeleteFetch(useSoftDeletes, p, value);
    if useSoftDeletes {
      match p
      case NoParams =>
        var s := DeletedField + " = " + IntToString(value);
        assert s[0..|DeletedField|] == DeletedField;
        ContainsAt(s, DeletedField, 0);
      case Condition(text) =>
        MentionsDeletedField(text, value);
      case Options(entries) =>
        if NeedsCheck(entries, IntKey(0)) {
          var rewritten := WithDeletedCheck(ToStr(entries.vals[IntKey(0)]), value);
          MentionsDeletedField(ToStr(entries.vals[IntKey(0)]), value);
          assert ToStr(Str(rewritten)) == rewritten;
          if NeedsCheck(entries, ConditionsKey) {
            var twice := SoftDeleteFetch(true, once, value);
            var c := ToStr(entries.vals[ConditionsKey]);
            MentionsDeletedField(c, value);
            assert twice.entries.vals[ConditionsKey] == Str(WithDeletedCheck(c, value));
            assert !Contains(c, DeletedField);
            assert twice.entries.vals[ConditionsKey] != once.entries.vals[ConditionsKey];
          }
        } else if NeedsCheck(entries, ConditionsKey) {
          MentionsDeletedField(ToStr(entries.vals[ConditionsKey]), value);
        }
    }
  }

  /** `find` and `findFirst` ask for records that are not soft-deleted. */
  function FindParameters(useSoftDeletes: bool, p: Params): (r: Params)
    requires p.Options? ==> Valid(p.entries)
    ensures useSoftDeletes && p.NoParams? ==> r == Condition("softDeleted = 0")
  {
    SoftDeleteFetch(useSoftDeletes, p, 0)
  }

  /** `findDeleted` and `findFirstDeleted` ask for records that are soft-deleted. */
  function FindDeletedParameters(useSoftDeletes: bool, p: Params): (r: Params)
    requires p.Options? ==> Valid(p.entries)
    ensures useSoftDeletes && p.NoParams? ==> r == Condition("softDeleted = 1")
  {
    SoftDeleteFetch(useSoftDeletes, p, 1)
  }

  // ---------------------------------------------------------------------
  // Model state

  /** The argument of `setDateField`/`setDateTimeField`: an array or one name. */
  datatype FieldArgument = FieldList(names: seq<string>) | SingleField(name: string)

  function Elements(fields: FieldArgument): seq<string>
  {
    match fields
    case FieldList(names) => names
    case SingleField(name) => [name]
  }

  class Model {
    var modifiers: bool
    var softDeletes: bool
    var timeStamps: bool

    var dateFields: seq<string>
    var dateTimeFields: seq<string>

    var createdAt: int
    var creatorId: string
    var modifiedAt: int
    var modifierId: string
    var softDeleted: int

    /** A fresh record: the audit fields hold their declared initial values. */
    constructor(flags: ModelFlags)
      ensures modifiers == flags.modifiers && softDeletes == flags.softDeletes && timeStamps == flags.timeStamps
      ensures dateFields == [] && dateTimeFields == []
      ensures createdAt == 0 && creatorId == "" && modifiedAt == 0 && modifierId == "" && softDeleted == 0
    {
      modifiers, softDeletes, timeStamps := flags.modifiers, flags.softDeletes, flags.timeStamps;
      dateFields, dateTimeFields := [], [];
      createdAt, creatorId, modifiedAt, modifierId, softDeleted := 0, "", 0, "", 0;
    }

    /**
     * `beforeValidation`, with the clock reading `now` and the session's
     * user id (`None` when no user is logged in) given as parameters.
     */
    method BeforeValidation(now: int, user: Option<string>)
      modifies this`createdAt, this`modifiedAt, this`creatorId, this`modifierId
      ensures createdAt == if timeStamps && old(createdAt) == 0 then now else old(createdAt)
      ensures modifiedAt == if timeStamps then now else old(modifiedAt)
      ensures creatorId == if modifiers && user.Some? && old(creatorId) == "" then user.value else old(creatorId)
      ensures modifierId == if modifiers && user.Some? then user.value else old(modifierId)
    {
      if timeStamps {
        if createdAt == 0 {
          createdAt := now;
        }
        modifiedAt := now;
      }
      if user.Some? {
        var currentUserId := user.value;
        if modifiers {
          if creatorId == "" {
            creatorId := currentUserId;
          }
          modifierId := currentUserId;
        }
      }
    }

    /** `setDateTimeField`: append the names of an array, or push a single name. */
    method SetDateTimeField(fields: FieldArgument)
      modifies this`dateTimeFields
      ensures dateTimeFields == old(dateTimeFields) + Elements(fields)
      ensures GetDateTimeFields() == old(GetDateTimeFields()) + Elements(fields)
    {
      match fields
      case FieldList(names) =>
        dateTimeFields := dateTimeFields + names;
      case SingleField(name) =>
        dateTimeFields := dateTimeFields + [name];
    }

    function GetDateTimeFields(): seq<string>
      reads this
    {
      dateTimeFields
    }

    /** `setDateField`: append the names of an array, or push a single name. */
    method SetDateField(fields: FieldArgument)
      modifies this`dateFields
      ensures dateFields == old(dateFields) + Elements(fields)
      ensures GetDateFields() == old(GetDateFields()) + Elements(fields)
    {
      match fields
      case FieldList(names) =>
        dateFields := dateFields + names;
      case SingleField(name) =>
        dateFields := dateFields + [name];
    }

    function GetDateFields(): seq<string>
      reads this
    {
      dateFields
    }
  }
}
