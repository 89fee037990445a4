/**
 * The library's column class: it fills in `notNull` before handing the
 * name and the definition array to the framework's column constructor.
 */
module DbColumn {
  import opened Php

  /** The arguments the parent constructor receives. */
  datatype ParentArguments = ParentArguments(name: string, definition: map<string, Value>)

  /**
   * The constructor: an absent `notNull` becomes false, a present one is
   * kept, no other key is added or changed, and the name passes through.
   */
  function NewColumn(name: string, definition: map<string, Value>): (r: ParentArguments)
    ensures r.name == name
    ensures r.definition.Keys == definition.Keys + {"notNull"}
    ensures "notNull" !in definition ==> r.definition["notNull"] == Bool(false)
    ensures forall k :: k in definition ==> r.definition[k] == definition[k]
  {
    if "notNull" !in definition then ParentArguments(name, definition["notNull" := Bool(false)])
    else ParentArguments(name, definition)
  }
}
