/** The driver's consistency levels and `ConsistencyLevel.valueOf`, used to
    turn the configured names into levels. */
module ConsistencyLevels {
  import opened Wrappers

  datatype ConsistencyLevel =
    | Any | One | Two | Three | Quorum | All
    | LocalQuorum | EachQuorum | Serial | LocalSerial | LocalOne

  /** The name of the enum constant. */
  function Name(level: ConsistencyLevel): string {
    match level
    case Any => "ANY"
    case One => "ONE"
    case Two => "TWO"
    case Three => "THREE"
    case Quorum => "QUORUM"
    case All => "ALL"
    case LocalQuorum => "LOCAL_QUORUM"
    case EachQuorum => "EACH_QUORUM"
    case Serial => "SERIAL"
    case LocalSerial => "LOCAL_SERIAL"
    case LocalOne => "LOCAL_ONE"
  }

  /** `ConsistencyLevel.valueOf(name)`: the constant with exactly this name;
      `None` stands for the `IllegalArgumentException` thrown otherwise. */
  function ValueOf(name: string): (r: Option<ConsistencyLevel>)
    ensures r.Some? ==> Name(r.value) == name
    ensures r.None? ==> forall level :: Name(level) != name
  {
    if name == "ANY" then Some(Any)
    else if name == "ONE" then Some(One)
    else if name == "TWO" then Some(Two)
    else if name == "THREE" then Some(Three)
    else if name == "QUORUM" then Some(Quorum)
    else if name == "ALL" then Some(All)
    else if name == "LOCAL_QUORUM" then Some(LocalQuorum)
    else if name == "EACH_QUORUM" then Some(EachQuorum)
    else if name == "SERIAL" then Some(Serial)
    else if name == "LOCAL_SERIAL" then Some(LocalSerial)
    else if name == "LOCAL_ONE" then Some(LocalOne)
    else None
  }

  /** Looking up a constant's own name gives that constant back. */
  lemma ValueOfName(level: ConsistencyLevel)
    ensures ValueOf(Name(level)) == Some(level)
  {
    var r := ValueOf(Name(level));
    assert r.Some?;
    NamesDistinct(r.value, level);
  }

  lemma NamesDistinct(a: ConsistencyLevel, b: ConsistencyLevel)
    ensures Name(a) == Name(b) ==> a == b
  {
  }
}
