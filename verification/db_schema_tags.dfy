/** The kinds of statement a schema descriptor holds. The enum's declaration
    order is the order in which the bootstrap runs the kinds. */
module DbSchemaTags {

  datatype DbSchemaTag = Keyspace | Use | Table | Index | Sql

  /** `values()`: the constants in declaration order. */
  const Values: seq<DbSchemaTag> := [Keyspace, Use, Table, Index, Sql]

  /** `getTagName()`: the element name given to the constant. */
  function TagName(tag: DbSchemaTag): string {
    match tag
    case Keyspace => "keyspace"
    case Use => "use"
    case Table => "table"
    case Index => "index"
    case Sql => "sql"
  }

  /** The position of a constant in `values()`. */
  function Ordinal(tag: DbSchemaTag): (n: nat)
    ensures n < |Values| && Values[n] == tag
  {
    match tag
    case Keyspace => 0
    case Use => 1
    case Table => 2
    case Index => 3
    case Sql => 4
  }

  /** `values()` lists every constant exactly once, and each constant keeps
      its own element name. */
  lemma ValuesEnumerateTags()
    ensures |Values| == 5
    ensures forall i, j :: 0 <= i < j < |Values| ==> Values[i] != Values[j]
    ensures forall i :: 0 <= i < |Values| ==> Ordinal(Values[i]) == i
    ensures TagName(Values[0]) == "keyspace" && TagName(Values[1]) == "use"
    ensures TagName(Values[2]) == "table" && TagName(Values[3]) == "index"
    ensures TagName(Values[4]) == "sql"
  {
  }

  /** Distinct constants have distinct element names, so an element is picked
      up by at most one constant's pass. */
  lemma TagNamesDistinct(a: DbSchemaTag, b: DbSchemaTag)
    ensures TagName(a) == TagName(b) ==> a == b
  {
  }

  /** Tables are created before indexes. */
  lemma TableBeforeIndex()
    ensures Ordinal(Table) < Ordinal(Index)
  {
  }
}
