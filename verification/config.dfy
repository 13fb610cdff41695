/** The `cassandra.*` configuration record and its default values. */
module Config {
  import opened Wrappers

  newtype Int32 = x: int | -0x8000_0000 <= x < 0x8000_0000

  /** `schemaPath` may be null in the record; `None` stands for null. */
  datatype CassandraProperties = CassandraProperties(
    endpoints: seq<string>,
    user: string,
    pass: string,
    authRequired: bool,
    port: Int32,
    replication: string,
    strategyClass: string,
    strategyOption: string,
    writeConsistency: string,
    readConsistency: string,
    keyspace: string,
    schemaPath: Option<string>,
    createKeyspace: bool)

  const DefaultSchemaPath: string := "classpath:cassandra-schema.xml"

  /** The record as the field initialisers leave it. */
  function Default(): (p: CassandraProperties)
    ensures p.endpoints == ["127.0.0.1"] && p.port == 9042 && !p.authRequired
    ensures p.user == "" && p.pass == ""
    ensures p.replication == "1" && p.strategyOption == "replication_factor"
    ensures p.strategyClass == "org.apache.cassandra.locator.SimpleStrategy"
    ensures p.writeConsistency == "LOCAL_ONE" && p.readConsistency == "ONE"
    ensures p.keyspace == "poland_prices_dev"
    ensures p.schemaPath == Some(DefaultSchemaPath) && p.createKeyspace
  {
    CassandraProperties(
      ["127.0.0.1"], "", "", false, 9042,
      "1", "org.apache.cassandra.locator.SimpleStrategy", "replication_factor",
      "LOCAL_ONE", "ONE", "poland_prices_dev", Some(DefaultSchemaPath), true)
  }

  /** The location the service loads the schema descriptor from: the
      configured path, or the default one when the path is null. */
  function SchemaLocation(p: CassandraProperties): (location: string)
    ensures p.schemaPath.Some? ==> location == p.schemaPath.value
    ensures p.schemaPath.None? ==> location == Default().schemaPath.value
  {
    match p.schemaPath
    case Some(path) => path
    case None => DefaultSchemaPath
  }
}
