# Cassandra persistence service: schema bootstrap and statement filter

This project models the persistence layer of the `hanson` service, the Java
class `CassandraPersistenceService` together with the enum `DbSchemaTags` and
the configuration record `CassandraProperties`, and proves properties of the
model in Dafny.

On start-up the service does three things, in this order:

- It parses the configured read and write consistency names.
- It connects to the cluster.
- It bootstraps the schema (`initDatabase`).

The bootstrap works as follows:

- It reads an XML schema descriptor.
- It sends a `CREATE KEYSPACE IF NOT EXISTS …` statement built from the
  configuration (only when `createKeyspace` is set).
- It sends `USE <keyspace>;`.
- For each schema tag in the enum's declaration order (`keyspace`, `use`,
  `table`, `index`, `sql`), it runs every element with that tag name, in
  document order. Blank elements are skipped. Runs of whitespace are
  collapsed to one space. A failing statement is logged and the loop moves on.

Every string statement goes through `execute(String)`, which works like this:

- It trims the text.
- It drops empty text and `--` comments.
- It swallows an `InvalidQueryException` whose message contains
  "an existing column", and rethrows any other error.

The model is organised as follows:

- `Text` holds the string primitives:
  - `String.trim()`, which removes characters up to U+0020;
  - `replaceAll("\\s+", " ")`, over the six regular-expression `\s` characters;
  - `startsWith` and `contains`.
- `DbSchemaTags`, `ConsistencyLevels` and `Config` hold the enums and the
  configuration record with its defaults.
- `Driver` holds the session. It is a class that records every query it is
  given, in order. An `Oracle` (a function of the queries already run and
  the next query) decides which queries fail and with which exception.
- `StatementFilter` is the specification of `execute(String)`.
- `SchemaBootstrap` is the specification of `initDatabase`, as functions:
  - the keyspace prelude;
  - the per-tag passes and their schedule;
  - the run of the schedule against the oracle;
  - the resulting `Trace`: the queries sent and the errors logged.
- `PersistenceService` is the service itself. It is a class with:
  - the session;
  - the two parsed consistency levels;
  - the error log;
  - imperative methods for the constructor, `connectDatabase`,
    `initDatabase` (its nested loops carry invariants against the
    specification functions), `execute(String)`, `executeSelect` and
    `executeUpdate`.

Two behaviours follow the code as written:

- **A failed `USE` does not stop the bootstrap.** Creation and selection
  share one `try` block. A failing `CREATE KEYSPACE` skips the `USE`, and
  either failure is only logged. The tag loop runs in every case. A cleaner
  design would abort the schema statements when no keyspace is selected;
  the code does not, and neither does the model.
- **A null message is not rethrown.** When an `InvalidQueryException`
  carries a null message, `getMessage().contains(…)` itself throws a
  `NullPointerException`, and that is what escapes. The model keeps this
  (`StatementFilter.Escaping`).

## Model

| member | source | states |
|---|---|---|
| Text.TrimStartSplits | src/main/java/net/metrosystems/data/CassandraPersistenceService.java:187 | trimming the front keeps a suffix, drops only characters up to U+0020, and stops at the first character above U+0020 |
| Text.TrimEndSplits | src/main/java/net/metrosystems/data/CassandraPersistenceService.java:187 | trimming the back keeps a prefix, drops only characters up to U+0020, and stops at the last character above U+0020 |
| Text.Trim | src/main/java/net/metrosystems/data/CassandraPersistenceService.java:187 | the result neither starts nor ends with a character up to U+0020; it is an infix of the input, and everything cut on either side is such characters |
| Text.TrimEmptyIff | src/main/java/net/metrosystems/data/CassandraPersistenceService.java:126 | `trim().isEmpty()` holds exactly when every character is at most U+0020 |
| Text.TrimOfTrimmed | src/main/java/net/metrosystems/data/CassandraPersistenceService.java:187 | trimming an already trimmed string changes nothing |
| Text.TrimSkipsLeadingSpace | src/main/java/net/metrosystems/data/CassandraPersistenceService.java:187 | leading characters up to U+0020 do not change the trimmed text |
| Text.TrimKeepsVisiblePrefix | src/main/java/net/metrosystems/data/CassandraPersistenceService.java:187-188 | a string starting with two visible characters still starts with them after trimming |
| Text.DropRegexSpaces | src/main/java/net/metrosystems/data/CassandraPersistenceService.java:127 | drops exactly the leading run of `\s` characters: everything dropped is `\s` and the rest starts with a non-`\s` character |
| Text.Collapse | src/main/java/net/metrosystems/data/CassandraPersistenceService.java:127 | the result has no run of two `\s` characters and no `\s` other than a plain space, and it starts with whitespace exactly when the input does |
| Text.CollapseKeepsNonSpace | src/main/java/net/metrosystems/data/CassandraPersistenceService.java:127 | collapsing keeps every non-whitespace character, in order |
| Text.CollapseKeepsBlankness | src/main/java/net/metrosystems/data/CassandraPersistenceService.java:126-127 | a text is blank for `trim()` after collapsing exactly when it was blank before (every `\s` character is at most U+0020) |
| Text.CollapseFixpoint | src/main/java/net/metrosystems/data/CassandraPersistenceService.java:127 | a collapsed string is left unchanged |
| Text.CollapseIdempotent | src/main/java/net/metrosystems/data/CassandraPersistenceService.java:127 | collapsing twice is collapsing once |
| Text.DropRegexSpacesRun | src/main/java/net/metrosystems/data/CassandraPersistenceService.java:127 | dropping the leading `\s` characters of a whitespace run followed by a non-`\s` character leaves exactly the rest |
| Text.CollapseRun | src/main/java/net/metrosystems/data/CassandraPersistenceService.java:127 | a maximal run of `\s` characters becomes exactly one space, and collapsing continues after it |
| Text.CollapseKeepsVisible | src/main/java/net/metrosystems/data/CassandraPersistenceService.java:127 | a character that is not `\s` is copied unchanged, and collapsing continues after it |
| Text.ContainsIff | src/main/java/net/metrosystems/data/CassandraPersistenceService.java:193 | `contains` holds exactly when the fragment occurs at some position of the message |
| Text.Contains | src/main/java/net/metrosystems/data/CassandraPersistenceService.java:193 | `message.contains(fragment)`: tries each start position from the left (no contract; characterised by `ContainsIff`) |
| DbSchemaTags.Ordinal | src/main/java/net/metrosystems/data/DbSchemaTags.java:4-8 | each constant's position in `values()` holds that constant |
| DbSchemaTags.ValuesEnumerateTags | src/main/java/net/metrosystems/data/DbSchemaTags.java:4-18 | `values()` has exactly five pairwise distinct constants, in the order keyspace, use, table, index, sql, with those element names |
| DbSchemaTags.TagNamesDistinct | src/main/java/net/metrosystems/data/DbSchemaTags.java:4-8 | distinct constants have distinct element names, so an element is picked up by at most one pass |
| DbSchemaTags.TableBeforeIndex | src/main/java/net/metrosystems/data/DbSchemaTags.java:6-7 | `TABLE` is declared before `INDEX` |
| DbSchemaTags.TagName | src/main/java/net/metrosystems/data/DbSchemaTags.java:4-18 | `getTagName()`: the element name each constant is declared with (no contract; its values are stated by `ValuesEnumerateTags`) |
| ConsistencyLevels.ValueOf | src/main/java/net/metrosystems/data/CassandraPersistenceService.java:53-54 | `valueOf` yields the constant with exactly that name, and fails only when no constant has the name |
| ConsistencyLevels.ValueOfName | src/main/java/net/metrosystems/data/CassandraPersistenceService.java:53-54 | looking up a constant's own name gives that constant back |
| ConsistencyLevels.NamesDistinct | src/main/java/net/metrosystems/data/CassandraPersistenceService.java:53-54 | distinct levels have distinct names |
| ConsistencyLevels.Name | src/main/java/net/metrosystems/data/CassandraPersistenceService.java:53-54 | the name of each of the driver's eleven consistency constants (no contract; `ValueOf` is stated against it) |
| Config.Default | src/main/java/net/metrosystems/data/CassandraProperties.java:14-26 | every field initialiser: endpoints `127.0.0.1`, port 9042, no authentication, replication "1" with SimpleStrategy and `replication_factor`, LOCAL_ONE / ONE, keyspace `poland_prices_dev`, default schema path, createKeyspace on |
| Config.SchemaLocation | src/main/java/net/metrosystems/data/CassandraPersistenceService.java:42-47 | the configured schema path, or the default `classpath:cassandra-schema.xml` when it is null |
| Driver.Session.constructor | src/main/java/net/metrosystems/data/CassandraPersistenceService.java:63 | a fresh session has run no query |
| Driver.Session.Execute | src/main/java/net/metrosystems/data/CassandraPersistenceService.java:190 | the query is appended to the session's log and the call throws what the oracle says |
| StatementFilter.Filter | src/main/java/net/metrosystems/data/CassandraPersistenceService.java:187-188 | a query is sent exactly when its trimmed text is non-empty and does not start with `--`; what is sent is that trimmed text |
| StatementFilter.Escaping | src/main/java/net/metrosystems/data/CassandraPersistenceService.java:192-199 | nothing escapes exactly for an `InvalidQueryException` whose message contains "an existing column"; any other error escapes unchanged, except that a null message escapes as a `NullPointerException` |
| StatementFilter.Execute | src/main/java/net/metrosystems/data/CassandraPersistenceService.java:185-201 | at most the filtered query reaches the session; the call throws exactly when that query fails with an error that is not an already-applied change, and what it throws is that error as `Escaping` passes it on (unchanged, or a `NullPointerException` for a null message) |
| StatementFilter.BlankIsDropped | src/main/java/net/metrosystems/data/CassandraPersistenceService.java:187-188 | a blank query never reaches the session |
| StatementFilter.CommentIsDropped | src/main/java/net/metrosystems/data/CassandraPersistenceService.java:188 | a query whose first visible characters are `--` never reaches the session, whatever follows |
| StatementFilter.FilterIdempotent | src/main/java/net/metrosystems/data/CassandraPersistenceService.java:187-190 | what is sent passes the filter again unchanged |
| StatementFilter.TrimmedQueryIsSent | src/main/java/net/metrosystems/data/CassandraPersistenceService.java:187-190 | a trimmed, non-empty, non-comment query is sent as it is |
| SchemaBootstrap.FramedStatementIsSent | src/main/java/net/metrosystems/data/CassandraPersistenceService.java:108-116 | a statement framed by visible characters, not starting with `-`, passes the filter unchanged |
| SchemaBootstrap.CreateKeyspaceStatement | src/main/java/net/metrosystems/data/CassandraPersistenceService.java:108-110 | the keyspace creation template: prefix, keyspace, then the replication clause with strategy class, option key and replication (no contract; stated by `CreateKeyspaceStatementIsSent`) |
| SchemaBootstrap.UseStatement | src/main/java/net/metrosystems/data/CassandraPersistenceService.java:116 | `USE <keyspace>;` (no contract; stated by `UseStatementIsSent`) |
| SchemaBootstrap.CreateKeyspaceStatementIsSent | src/main/java/net/metrosystems/data/CassandraPersistenceService.java:108-110 | the creation statement is `CREATE KEYSPACE IF NOT EXISTS ` followed by the configured keyspace and more, and `execute` sends it exactly as built |
| SchemaBootstrap.UseStatementIsSent | src/main/java/net/metrosystems/data/CassandraPersistenceService.java:116 | the selection statement is `USE `, the keyspace and `;`, and it is sent exactly as built |
| SchemaBootstrap.ElementsByTagName | src/main/java/net/metrosystems/data/CassandraPersistenceService.java:124 | selecting by tag name yields at most one text per element |
| SchemaBootstrap.ElementsByTagNameConcat | src/main/java/net/metrosystems/data/CassandraPersistenceService.java:124 | selecting by tag name distributes over concatenation, so it keeps document order |
| SchemaBootstrap.ElementsByTagNameSelects | src/main/java/net/metrosystems/data/CassandraPersistenceService.java:124 | a text is selected exactly when an element with that tag name has it as its text content |
| SchemaBootstrap.TagStatements | src/main/java/net/metrosystems/data/CassandraPersistenceService.java:125-127 | a pass yields at most one statement per element |
| SchemaBootstrap.TagStatementsSelects | src/main/java/net/metrosystems/data/CassandraPersistenceService.java:126-127 | a pass yields exactly the collapsed texts of its non-blank texts, each tagged with the pass's tag |
| SchemaBootstrap.TagStatementsShape | src/main/java/net/metrosystems/data/CassandraPersistenceService.java:126-127 | every statement of a pass carries the pass's tag, is non-blank after trimming and has its whitespace collapsed |
| SchemaBootstrap.TagStatementsPrefix | src/main/java/net/metrosystems/data/CassandraPersistenceService.java:125 | the statements of a prefix of the elements are a prefix of the pass |
| SchemaBootstrap.TagStatementAt | src/main/java/net/metrosystems/data/CassandraPersistenceService.java:125-129 | a non-blank element yields exactly its collapsed text as the next statement, at the position counted by the non-blank elements before it |
| SchemaBootstrap.TagStatementsDocumentOrder | src/main/java/net/metrosystems/data/CassandraPersistenceService.java:125-129 | of two non-blank elements, the earlier one's statement comes first and each statement is that element's collapsed text |
| SchemaBootstrap.Pass | src/main/java/net/metrosystems/data/CassandraPersistenceService.java:124-127 | one iteration of the tag loop: the statements of the elements with the tag's name (no contract; stated by `ProjectPass` and `TagStatementsShape`) |
| SchemaBootstrap.Schedule | src/main/java/net/metrosystems/data/CassandraPersistenceService.java:122-127 | the tag loop over a list of tags: the passes one after another (no contract; stated by `ScheduleTags`, `ScheduleSorted` and `ScheduleProjection`) |
| SchemaBootstrap.ScheduleTags | src/main/java/net/metrosystems/data/CassandraPersistenceService.java:122-125 | every statement of a schedule carries one of its tags |
| SchemaBootstrap.SortedAppend | src/main/java/net/metrosystems/data/CassandraPersistenceService.java:122-125 | appending one tag's statements after statements of earlier-declared tags keeps the schedule ordered by tag |
| SchemaBootstrap.ScheduleSorted | src/main/java/net/metrosystems/data/CassandraPersistenceService.java:122-125 | for tags in declaration order, the schedule is ordered by tag: no statement of a later tag precedes one of an earlier tag |
| SchemaBootstrap.ValuesIncreasing | src/main/java/net/metrosystems/data/CassandraPersistenceService.java:122 | `values()` lists the tags in strictly increasing declaration order |
| SchemaBootstrap.TablesBeforeIndexes | src/main/java/net/metrosystems/data/CassandraPersistenceService.java:122-125 | in the bootstrap's schedule every table statement comes before every index statement |
| SchemaBootstrap.ProjectConcat | src/main/java/net/metrosystems/data/CassandraPersistenceService.java:122-125 | keeping one tag's statements distributes over concatenation |
| SchemaBootstrap.ProjectPass | src/main/java/net/metrosystems/data/CassandraPersistenceService.java:124-127 | a pass holds only its own tag's statements |
| SchemaBootstrap.ScheduleProjection | src/main/java/net/metrosystems/data/CassandraPersistenceService.java:122-136 | when no tag is listed twice, a tag's statements in the schedule are exactly its own pass (document order), or none when the tag is not listed |
| SchemaBootstrap.ValuesScheduleProjection | src/main/java/net/metrosystems/data/CassandraPersistenceService.java:122-136 | in the bootstrap's schedule each tag's statements appear exactly as its own pass yields them |
| SchemaBootstrap.Step | src/main/java/net/metrosystems/data/CassandraPersistenceService.java:128-133 | one schema statement in its own `try`: it goes through `execute(String)` and an escaping error is logged (no contract; stated by `RunSendsEveryStatement` and `RunLogsEveryFailure`) |
| SchemaBootstrap.Run | src/main/java/net/metrosystems/data/CassandraPersistenceService.java:122-136 | the statements run one after another from a trace (no contract; stated by `RunSendsEveryStatement`, `RunReportsFailures` and `RunLogsEveryFailure`) |
| SchemaBootstrap.RunElement | src/main/java/net/metrosystems/data/CassandraPersistenceService.java:126-133 | one element of the loop: skipped when blank, otherwise a `Step` on its collapsed text (no contract; stated by `RunNextElement`) |
| SchemaBootstrap.RunConcat | src/main/java/net/metrosystems/data/CassandraPersistenceService.java:122-136 | running two lists of statements runs the second from where the first left off |
| SchemaBootstrap.RunNextTag | src/main/java/net/metrosystems/data/CassandraPersistenceService.java:123-136 | one more iteration of the tag loop runs that tag's pass after the earlier tags |
| SchemaBootstrap.RunNextElement | src/main/java/net/metrosystems/data/CassandraPersistenceService.java:125-134 | one more iteration of the element loop skips a blank element or runs its collapsed text |
| SchemaBootstrap.RunSendsEveryStatement | src/main/java/net/metrosystems/data/CassandraPersistenceService.java:128-133 | whatever the session answers, every statement that passes the filter is sent, in order: a failure stops nothing |
| SchemaBootstrap.SentAll | src/main/java/net/metrosystems/data/CassandraPersistenceService.java:129 | the queries the statements send through the filter, in order (no contract; stated by `RunSendsEveryStatement`) |
| SchemaBootstrap.RunReportsFailures | src/main/java/net/metrosystems/data/CassandraPersistenceService.java:128-133 | the run only appends to the error log, and only failures that are not already-applied changes are logged (the converse, that every escaping failure is logged, is `RunLogsEveryFailure`) |
| SchemaBootstrap.Failures | src/main/java/net/metrosystems/data/CassandraPersistenceService.java:128-133 | the failures of the statements, each met after the queries of those before it (no contract; stated by `RunLogsEveryFailure`) |
| SchemaBootstrap.RunLogsEveryFailure | src/main/java/net/metrosystems/data/CassandraPersistenceService.java:128-133 | the errors a run logs are exactly the escaping failures, one per failing statement, in order, worked out from the queries alone |
| SchemaBootstrap.FailuresAreEscapes | src/main/java/net/metrosystems/data/CassandraPersistenceService.java:128-133 | every logged failure is a query failure whose error escaped the filter, never an already-applied change |
| SchemaBootstrap.FailuresPrefix | src/main/java/net/metrosystems/data/CassandraPersistenceService.java:125-133 | the failures of a prefix of the statements are a prefix of all the failures |
| SchemaBootstrap.FailureIsLogged | src/main/java/net/metrosystems/data/CassandraPersistenceService.java:128-133 | a statement whose error escapes `execute(String)` is logged with that error, and the run goes on |
| SchemaBootstrap.Prelude | src/main/java/net/metrosystems/data/CassandraPersistenceService.java:112-120 | the keyspace `try` block: creation when configured, selection unless creation threw, one log entry for the error that escaped (no contract; stated by `PreludeSent`, `PreludeLog` and `PreludeReports`) |
| SchemaBootstrap.PreludeSent | src/main/java/net/metrosystems/data/CassandraPersistenceService.java:112-120 | with `createKeyspace` set, the creation statement goes first and the selection follows exactly when creation did not throw, so a throwing creation sends only itself; without it only the selection is sent; never more than two queries |
| SchemaBootstrap.PreludeLog | src/main/java/net/metrosystems/data/CassandraPersistenceService.java:112-120 | the keyspace block sends exactly those statements |
| SchemaBootstrap.PreludeReports | src/main/java/net/metrosystems/data/CassandraPersistenceService.java:112-120 | the keyspace block logs one entry naming the keyspace exactly when an error escapes it: the creation's error when creation is configured and throws, otherwise the selection's |
| SchemaBootstrap.UnparseableSendsNothing | src/main/java/net/metrosystems/data/CassandraPersistenceService.java:98-105 | a descriptor that cannot be read sends no query at all and logs the failure |
| SchemaBootstrap.Bootstrap | src/main/java/net/metrosystems/data/CassandraPersistenceService.java:95-137 | `initDatabase`: an unreadable descriptor is logged; otherwise the keyspace block, then the schedule of `values()` (no contract; stated by `UnparseableSendsNothing`, `BootstrapLog` and the lemmas it relies on) |
| SchemaBootstrap.BootstrapLog | src/main/java/net/metrosystems/data/CassandraPersistenceService.java:95-137 | the bootstrap sends the keyspace statements, then every schema statement that passes the filter, tag by tag, even after a failed `USE` |
| SchemaBootstrap.BootstrapReports | src/main/java/net/metrosystems/data/CassandraPersistenceService.java:112-136 | the bootstrap logs the keyspace block's entry, if any, then every escaping schema statement failure, in order |
| SchemaBootstrap.SchemaQueriesIndependentOfSession | src/main/java/net/metrosystems/data/CassandraPersistenceService.java:112-136 | two runs that agree on whether keyspace creation throws send the same queries, whatever else fails |
| PersistenceService.FirstRowApplied | src/main/java/net/metrosystems/data/CassandraPersistenceService.java:208-209 | the answer is the first row's `[applied]` flag, with NULL read as false; no row or no such column is an error |
| PersistenceService.OnlyFirstRowMatters | src/main/java/net/metrosystems/data/CassandraPersistenceService.java:208 | rows after the first never change the answer |
| PersistenceService.DefaultConsistencyNamesParse | src/main/java/net/metrosystems/data/CassandraProperties.java:22-23 | the default consistency names parse to LOCAL_ONE and ONE |
| PersistenceService.CassandraPersistenceService.constructor | src/main/java/net/metrosystems/data/CassandraPersistenceService.java:40-48 | the descriptor location is the configured schema path, or the default when it is null; no session yet |
| PersistenceService.CassandraPersistenceService.ConnectDatabase | src/main/java/net/metrosystems/data/CassandraPersistenceService.java:51-71 | an unparseable consistency name or an unreachable cluster is logged and leaves the session as it was; otherwise both levels are set, a fresh session is opened and the bootstrap runs on it |
| PersistenceService.CassandraPersistenceService.InitDatabase | src/main/java/net/metrosystems/data/CassandraPersistenceService.java:95-137 | the queries sent and errors logged are exactly `Bootstrap` of the configuration, the descriptor and the session |
| PersistenceService.CassandraPersistenceService.RunSchemaElement | src/main/java/net/metrosystems/data/CassandraPersistenceService.java:126-133 | one element: skipped when blank, otherwise its collapsed text is executed and an escaping error is logged |
| PersistenceService.CassandraPersistenceService.CreateKeyspace | src/main/java/net/metrosystems/data/CassandraPersistenceService.java:107-120 | the keyspace block sends and logs exactly `Prelude` |
| PersistenceService.CassandraPersistenceService.Execute | src/main/java/net/metrosystems/data/CassandraPersistenceService.java:185-201 | the queries sent and the exception thrown are exactly `StatementFilter.Execute` |
| PersistenceService.CassandraPersistenceService.ExecuteSelect | src/main/java/net/metrosystems/data/CassandraPersistenceService.java:145-147 | the query is sent as it is, with no trimming or filtering, and any error escapes |
| PersistenceService.CassandraPersistenceService.ExecuteUpdate | src/main/java/net/metrosystems/data/CassandraPersistenceService.java:206-210 | the statement is sent; a session error escapes, otherwise the answer is the first row's `[applied]` flag |

## Left out

- The DataStax driver internals are left out because they are foreign
  library behaviour. This covers:
  - cluster building, contact points, port, SNAPPY compression and
    credentials;
  - codec registration and `MappingManager`.

  `ConnectDatabase` takes a `clusterReachable` flag in their place.
- XML parsing is not modelled: the descriptor arrives already parsed, as
  elements (tag name, text content) in document order, or as unreadable.
- The log text and the log levels are not modelled. Only the errors logged
  are kept, as `Report` values. The debug and info messages of
  `execute(String)` are dropped.
- `disconnectDatabase`, `checkConnection`, `getMappingManager`,
  `getCurrentKeyspace` and the consistency-level getters are left out.
  They only read or close driver objects.
- These other session pass-throughs are left out:
  - `executeSelect` with bound values or a prepared statement;
  - `execute(Statement)`;
  - `execute(String, Object...)` and `execute(PreparedStatement, Object...)`;
  - `execute(String, ConsistencyLevel)` and `prepare`;
  - `selectWithPagination`.

  They only hand their argument to the driver, and binding and paging are
  driver behaviour.
- Null strings are not modelled, except the nullable schema path and the
  nullable exception message.
- Concurrent use of the shared session is not modelled.
- `PersistenceService.CassandraPersistenceService.ConnectDatabase`: a
  failure inside the driver while connecting is folded into
  `clusterReachable`. Every query failure inside `initDatabase` is caught
  there; exceptions from the XML layer (the descriptor's DOM calls, and
  unchecked exceptions from parsing) are left out together with XML parsing.
- `PersistenceService.CassandraPersistenceService.ExecuteUpdate`: the bound
  prepared statement is given as its text, and the rows the session returns
  are a parameter. A missing row is returned as the `NoRow` error (the
  `NullPointerException` the code raises) instead of being required away.
- `PersistenceService.CassandraPersistenceService.InitDatabase` is split
  into `CreateKeyspace` for the keyspace `try` block and `RunSchemaElement`
  for the body of the element loop. The loop structure is otherwise that of
  the source.
