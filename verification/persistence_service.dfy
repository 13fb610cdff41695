/** `CassandraPersistenceService`: the object that holds the session, connects
    on start-up, bootstraps the schema and forwards queries to the session. */
module PersistenceService {
  import opened Wrappers
  import opened Text
  import opened DbSchemaTags
  import opened Config
  import opened ConsistencyLevels
  import opened Driver
  import StatementFilter
  import opened SchemaBootstrap

  /** A row of a result set, by column name; `None` is a NULL value. */
  type Row = map<string, Option<bool>>

  const AppliedColumn: string := "[applied]"

  /** How `executeUpdate` can fail. */
  datatype UpdateError =
    | Thrown(error: QueryException)  // the session's own exception
    | NoRow                          // `resultSet.one()` was null: a `NullPointerException`
    | NoAppliedColumn                // `getBool` on an unknown column: an `IllegalArgumentException`

  /** `row.getBool("[applied]")` on `resultSet.one()`: the flag of the first
      row; a NULL value reads as `false`. */
  function FirstRowApplied(rows: seq<Row>): (r: Result<bool, UpdateError>)
    ensures r.Success? <==> rows != [] && AppliedColumn in rows[0]
    ensures rows == [] ==> r == Failure(NoRow)
    ensures r.Success? ==> (r.value <==> rows[0][AppliedColumn] == Some(true))
  {
    if rows == [] then Failure(NoRow)
    else if AppliedColumn !in rows[0] then Failure(NoAppliedColumn)
    else match rows[0][AppliedColumn]
      case None => Success(false)
      case Some(b) => Success(b)
  }

  /** Only the first row is read: rows after it never change the answer. */
  lemma OnlyFirstRowMatters(first: Row, rest: seq<Row>, other: seq<Row>)
    ensures FirstRowApplied([first] + rest) == FirstRowApplied([first] + other)
  {
    assert ([first] + rest)[0] == first == ([first] + other)[0];
  }

  /** The default consistency names are names of driver constants, so the
      default configuration gets past the parsing step of the connection. */
  lemma DefaultConsistencyNamesParse()
    ensures ValueOf(Default().writeConsistency) == Some(LocalOne)
    ensures ValueOf(Default().readConsistency) == Some(One)
  {
    ValueOfName(LocalOne);
    ValueOfName(One);
  }

  class CassandraPersistenceService {
    const properties: CassandraProperties
    /** Where the schema descriptor is loaded from. */
    const schemaLocation: string
    /** `null` until a connection succeeds. */
    var session: Session?
    var writeConsistency: Option<ConsistencyLevel>
    var readConsistency: Option<ConsistencyLevel>
    /** The errors written to the log, in order. */
    var errorLog: seq<Report>

    /** The schema descriptor is looked up at the configured path, or at the
        default path when none is configured. */
    constructor (properties: CassandraProperties)
      ensures this.properties == properties
      ensures schemaLocation == SchemaLocation(properties)
      ensures session == null && writeConsistency == None && readConsistency == None
      ensures errorLog == []
    {
      this.properties := properties;
      if properties.schemaPath.None? {
        schemaLocation := "classpath:cassandra-schema.xml";
      } else {
        schemaLocation := properties.schemaPath.value;
      }
      session := null;
      writeConsistency := None;
      readConsistency := None;
      errorLog := [];
    }

    /** `connectDatabase`: parse both consistency names, then connect and
        bootstrap the schema. `clusterReachable` says whether building the
        cluster and connecting to it succeeds; `oracle` is the database behind
        the new session; `document` is the descriptor read from
        `schemaLocation`. Any failure before the bootstrap is logged and
        leaves the session as it was. */
    method ConnectDatabase(clusterReachable: bool, oracle: Oracle, document: SchemaDocument)
      modifies this
      ensures var write := ValueOf(properties.writeConsistency);
        var read := ValueOf(properties.readConsistency);
        && writeConsistency == (if write.Some? then write else old(writeConsistency))
        && readConsistency == (if write.Some? && read.Some? then read else old(readConsistency))
        && (write.None? || read.None? || !clusterReachable ==>
              session == old(session) && errorLog == old(errorLog) + [ConnectFailed])
        && (write.Some? && read.Some? && clusterReachable ==>
              session != null && fresh(session) && session.oracle == oracle
              && Trace(session.log, errorLog) == Bootstrap(properties, document, oracle, Trace([], old(errorLog))))
    {
      var write := ValueOf(properties.writeConsistency);
      if write.None? {
        errorLog := errorLog + [ConnectFailed];
        return;
      }
      writeConsistency := write;
      var read := ValueOf(properties.readConsistency);
      if read.None? {
        errorLog := errorLog + [ConnectFailed];
        return;
      }
      readConsistency := read;
      if !clusterReachable {
        errorLog := errorLog + [ConnectFailed];
        return;
      }
      session := new Session(oracle);
      InitDatabase(document);
    }

    /** `initDatabase`: everything it sends and logs is `Bootstrap`. A
        descriptor that cannot be read stops it before any query; otherwise
        the keyspace statements go first, then, tag by tag in `values()`
        order and element by element in document order, the schema
        statements. */
    method InitDatabase(document: SchemaDocument)
      requires session != null
      modifies this`errorLog, session
      ensures session.oracle == old(session.oracle)
      ensures Trace(session.log, errorLog) ==
        Bootstrap(properties, document, session.oracle, old(Trace(session.log, errorLog)))
    {
      if document.Unparseable? {
        errorLog := errorLog + [SchemaUnreadable];
        return;
      }
      var elements := document.elements;
      CreateKeyspace();
      ghost var start := Trace(session.log, errorLog);
      var tags := Values;
      for t := 0 to |tags|
        invariant session.oracle == old(session.oracle)
        invariant Trace(session.log, errorLog) == Run(session.oracle, start, Schedule(elements, tags[..t]))
      {
        var tag := tags[t];
        var nodes := ElementsByTagName(elements, TagName(tag));
        ghost var mid := Trace(session.log, errorLog);
        for i := 0 to |nodes|
          invariant session.oracle == old(session.oracle)
          invariant Trace(session.log, errorLog) == Run(session.oracle, mid, TagStatements(nodes[..i], tag))
        {
          RunNextElement(session.oracle, mid, nodes, tag, i);
          RunSchemaElement(nodes[i]);
        }
        assert nodes[..|nodes|] == nodes;
        RunNextTag(session.oracle, start, elements, tags, t);
      }
      assert tags[..|tags|] == tags;
    }

    /** The body of the element loop: unless the element's text is blank
        (`trim().isEmpty()`, which is `AllTrimSpace` by `Text.TrimEmptyIff`),
        the text with its whitespace runs collapsed goes through
        `execute(String)`, inside a `try` that logs any exception. */
    method RunSchemaElement(text: string)
      requires session != null
      modifies this`errorLog, session
      ensures session.oracle == old(session.oracle)
      ensures Trace(session.log, errorLog) == RunElement(session.oracle, old(Trace(session.log, errorLog)), text)
    {
      if !AllTrimSpace(text) {
        var statement := Collapse(text);
        var e := Execute(statement);
        if e.Some? {
          errorLog := errorLog + [QueryFailed(statement, e.value)];
        }
      }
    }

    /** The keyspace part of `initDatabase`, one `try` block: the creation
        statement when it is configured, then the selection statement; an
        exception from either skips the rest of the block and is logged. */
    method CreateKeyspace()
      requires session != null
      modifies this`errorLog, session
      ensures session.oracle == old(session.oracle)
      ensures Trace(session.log, errorLog) ==
        Prelude(properties, session.oracle, old(Trace(session.log, errorLog)))
    {
      ghost var start := Trace(session.log, errorLog);
      var createKeyspace := CreateKeyspaceStatement(properties);
      var thrown: Option<QueryException> := None;
      ghost var create := StatementFilter.Outcome(start.log, None);
      if properties.createKeyspace {
        thrown := Execute(createKeyspace);
        create := StatementFilter.Execute(session.oracle, start.log, createKeyspace);
      }
      assert StatementFilter.Outcome(session.log, thrown) == create;
      if thrown.None? {
        thrown := Execute(UseStatement(properties));
      }
      if thrown.Some? {
        errorLog := errorLog + [KeyspaceNotCreated(properties.keyspace, thrown.value)];
      }
    }

    /** `execute(String)`: at most one query reaches the session, the one
        `StatementFilter.Filter` keeps, and the method throws exactly what
        `StatementFilter.Execute` says escapes. */
    method Execute(query: string) returns (thrown: Option<QueryException>)
      requires session != null
      modifies session
      ensures session.oracle == old(session.oracle)
      ensures StatementFilter.Outcome(session.log, thrown)
        == StatementFilter.Execute(session.oracle, old(session.log), query)
    {
      var q := Trim(query);
      if q != [] && !StartsWith(q, StatementFilter.CommentPrefix) {
        var e := session.Execute(q);
        match e {
          case None => thrown := None;
          case Some(error) =>
            if error.InvalidQuery? {
              if error.message.None? {
                thrown := Some(NullPointer);
              } else if Contains(error.message.value, StatementFilter.AlreadyAppliedMarker) {
                thrown := None;
              } else {
                thrown := e;
              }
            } else {
              thrown := e;
            }
        }
      } else {
        thrown := None;
      }
    }

    /** `executeSelect(String)`: the query goes to the session as it is, with
        no trimming and no comment filter, and every error escapes. */
    method ExecuteSelect(query: string) returns (thrown: Option<QueryException>)
      requires session != null
      modifies session
      ensures session.oracle == old(session.oracle)
      ensures session.log == old(session.log) + [query]
      ensures thrown == session.oracle(old(session.log), query)
    {
      thrown := session.Execute(query);
    }

    /** `executeUpdate`: the bound statement goes to the session; when it
        does not throw, the answer is the `[applied]` flag of the first of
        the `rows` it returns. */
    method ExecuteUpdate(statement: string, rows: seq<Row>) returns (applied: Result<bool, UpdateError>)
      requires session != null
      modifies session
      ensures session.oracle == old(session.oracle)
      ensures session.log == old(session.log) + [statement]
      ensures applied == match session.oracle(old(session.log), statement)
        case Some(e) => Failure(Thrown(e))
        case None => FirstRowApplied(rows)
    {
      var e := session.Execute(statement);
      if e.Some? {
        applied := Failure(Thrown(e.value));
        return;
      }
      applied := FirstRowApplied(rows);
    }
  }
}
