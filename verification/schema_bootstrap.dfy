/** `initDatabase`: what the schema bootstrap sends to the session, as a
    function of the configuration, the parsed schema descriptor and the
    session's failure oracle. */
module SchemaBootstrap {
  import opened Wrappers
  import opened Text
  import opened DbSchemaTags
  import opened Config
  import opened Driver
  import opened StatementFilter

  /** An element of the descriptor: its tag name and its text content. */
  datatype Element = Element(tagName: string, text: string)

  /** The descriptor after parsing: its elements in document order, or a
      parse (or read) failure. */
  datatype SchemaDocument = Parsed(elements: seq<Element>) | Unparseable

  /** A statement of the descriptor, with whitespace already collapsed. */
  datatype SchemaStatement = SchemaStatement(tag: DbSchemaTag, text: string)

  /** The errors the service writes to its log. */
  datatype Report =
    | ConnectFailed
    | SchemaUnreadable
    | KeyspaceNotCreated(keyspace: string, error: QueryException)
    | QueryFailed(statement: string, error: QueryException)

  /** The queries sent to the session so far and the errors logged so far. */
  datatype Trace = Trace(log: seq<string>, reports: seq<Report>)

  const CreateKeyspacePrefix: string := "CREATE KEYSPACE IF NOT EXISTS "

  /** The replication part of the keyspace creation statement. */
  function ReplicationClause(p: CassandraProperties): string {
    " WITH replication = {'class': '" + p.strategyClass + "', '" + p.strategyOption
      + "': '" + p.replication + "'}  AND durable_writes = true"
  }

  /** A statement that starts and ends with characters above U+0020 and does
      not start with `-` is sent exactly as written. */
  lemma FramedStatementIsSent(head: string, middle: string, tail: string)
    requires head != [] && tail != []
    requires !IsTrimSpace(head[0]) && head[0] != '-' && !IsTrimSpace(tail[|tail| - 1])
    ensures Filter(head + middle + tail) == Some(head + middle + tail)
  {
    var s := head + middle + tail;
    assert s[0] == head[0];
    assert s[|s| - 1] == tail[|tail| - 1];
    TrimmedQueryIsSent(s);
  }

  /** The keyspace creation statement templated from the configuration. */
  function CreateKeyspaceStatement(p: CassandraProperties): string {
    CreateKeyspacePrefix + p.keyspace + ReplicationClause(p)
  }

  /** The keyspace selection statement. */
  function UseStatement(p: CassandraProperties): string {
    "USE " + p.keyspace + ";"
  }

  /** The creation statement names the configured keyspace right after its
      fixed prefix, and it is sent exactly as built, whatever the configured
      values. */
  lemma CreateKeyspaceStatementIsSent(p: CassandraProperties)
    ensures var s := CreateKeyspaceStatement(p);
      && |s| > |CreateKeyspacePrefix| + |p.keyspace|
      && s[..|CreateKeyspacePrefix|] == CreateKeyspacePrefix
      && s[|CreateKeyspacePrefix|..|CreateKeyspacePrefix| + |p.keyspace|] == p.keyspace
      && Filter(s) == Some(s)
  {
    var clause := ReplicationClause(p);
    var s := CreateKeyspacePrefix + p.keyspace + clause;
    assert clause[|clause| - 1] == 'e';
    FramedStatementIsSent(CreateKeyspacePrefix, p.keyspace, clause);
    assert s[..|CreateKeyspacePrefix|] == CreateKeyspacePrefix;
    assert s[|CreateKeyspacePrefix|..|CreateKeyspacePrefix| + |p.keyspace|] == p.keyspace;
  }

  /** The selection statement is `USE `, the keyspace and `;`, and it is sent
      exactly as built. */
  lemma UseStatementIsSent(p: CassandraProperties)
    ensures var s := UseStatement(p);
      && |s| == |p.keyspace| + 5
      && StartsWith(s, "USE ") && s[4..4 + |p.keyspace|] == p.keyspace
      && Filter(s) == Some(s)
  {
    FramedStatementIsSent("USE ", p.keyspace, ";");
  }

  /** `getElementsByTagName(name)`: the text of every element with that tag
      name, in document order. */
  function ElementsByTagName(elements: seq<Element>, name: string): (texts: seq<string>)
    ensures |texts| <= |elements|
  {
    if elements == [] then []
    else
      var last := elements[|elements| - 1];
      ElementsByTagName(elements[..|elements| - 1], name)
        + (if last.tagName == name then [last.text] else [])
  }

  /** A text is selected exactly when some element with that tag name has
      it as its text content. */
  lemma {:induction false} ElementsByTagNameSelects(elements: seq<Element>, name: string)
    ensures forall t :: t in ElementsByTagName(elements, name) <==> Element(name, t) in elements
    decreases |elements|
  {
    if elements != [] {
      var init := elements[..|elements| - 1];
      var last := elements[|elements| - 1];
      ElementsByTagNameSelects(init, name);
      assert elements == init + [last];
    }
  }

  /** Selecting by tag name distributes over concatenation of documents, so
      it keeps document order. */
  lemma {:induction false} ElementsByTagNameConcat(a: seq<Element>, b: seq<Element>, name: string)
    ensures ElementsByTagName(a + b, name) == ElementsByTagName(a, name) + ElementsByTagName(b, name)
    decreases |b|
  {
    if b == [] {
      assert a + b == a;
    } else {
      var b' := b[..|b| - 1];
      assert (a + b)[..|a + b| - 1] == a + b';
      ElementsByTagNameConcat(a, b', name);
    }
  }

  /** The statements one tag's pass runs over the texts `texts`: every text
      that is not blank, with its whitespace runs collapsed, in order. A text
      is blank when `trim().isEmpty()` holds of it, that is when all its
      characters are at most U+0020 (see `Text.TrimEmptyIff`). */
  function TagStatements(texts: seq<string>, tag: DbSchemaTag): (r: seq<SchemaStatement>)
    ensures |r| <= |texts|
  {
    if texts == [] then []
    else
      var last := texts[|texts| - 1];
      TagStatements(texts[..|texts| - 1], tag)
        + (if !AllTrimSpace(last) then [SchemaStatement(tag, Collapse(last))] else [])
  }

  /** A pass yields exactly the collapsed texts of its non-blank texts, each
      tagged with the pass's tag. */
  lemma {:induction false} TagStatementsSelects(texts: seq<string>, tag: DbSchemaTag)
    ensures forall s :: s in TagStatements(texts, tag) <==>
      s.tag == tag && exists t :: t in texts && !AllTrimSpace(t) && s.text == Collapse(t)
    decreases |texts|
  {
    if texts != [] {
      var init := texts[..|texts| - 1];
      var last := texts[|texts| - 1];
      TagStatementsSelects(init, tag);
      assert texts == init + [last];
      forall s ensures s in TagStatements(texts, tag) <==>
        s.tag == tag && exists t :: t in texts && !AllTrimSpace(t) && s.text == Collapse(t)
      {
        if s.tag == tag && exists t :: t in texts && !AllTrimSpace(t) && s.text == Collapse(t) {
          var t :| t in texts && !AllTrimSpace(t) && s.text == Collapse(t);
          if t != last {
            assert t in init;
          }
        }
      }
    }
  }

  /** Every statement of a tag's pass carries that tag, is not blank (so it
      does not trim to the empty string), and has its whitespace collapsed. */
  lemma {:induction false} TagStatementsShape(texts: seq<string>, tag: DbSchemaTag)
    ensures forall i :: 0 <= i < |TagStatements(texts, tag)| ==>
      var s := TagStatements(texts, tag)[i];
      s.tag == tag && Trim(s.text) != [] && WhitespaceCollapsed(s.text)
    decreases |texts|
  {
    if texts != [] {
      var last := texts[|texts| - 1];
      var prefix := TagStatements(texts[..|texts| - 1], tag);
      TagStatementsShape(texts[..|texts| - 1], tag);
      var r := TagStatements(texts, tag);
      if !AllTrimSpace(last) {
        CollapseKeepsBlankness(last);
        TrimEmptyIff(Collapse(last));
        assert r == prefix + [SchemaStatement(tag, Collapse(last))];
      } else {
        assert r == prefix;
      }
      forall i | 0 <= i < |r| ensures r[i].tag == tag && Trim(r[i].text) != [] && WhitespaceCollapsed(r[i].text) {
        if i < |prefix| {
          assert r[i] == prefix[i];
        }
      }
    }
  }

  /** The statements of a prefix of the texts are a prefix of the statements
      of all of them. */
  lemma {:induction false} TagStatementsPrefix(texts: seq<string>, m: nat, tag: DbSchemaTag)
    requires m <= |texts|
    ensures |TagStatements(texts[..m], tag)| <= |TagStatements(texts, tag)|
    ensures TagStatements(texts, tag)[..|TagStatements(texts[..m], tag)|] == TagStatements(texts[..m], tag)
    decreases |texts| - m
  {
    if m < |texts| {
      var n := |texts|;
      assert texts[..n - 1][..m] == texts[..m];
      TagStatementsPrefix(texts[..n - 1], m, tag);
    } else {
      assert texts[..m] == texts;
    }
  }

  /** The non-blank text at index `k` yields the statement at position
      `|TagStatements(texts[..k], tag)|`. */
  lemma TagStatementAt(texts: seq<string>, tag: DbSchemaTag, k: nat)
    requires k < |texts| && !AllTrimSpace(texts[k])
    ensures TagStatements(texts[..k + 1], tag) == TagStatements(texts[..k], tag) + [SchemaStatement(tag, Collapse(texts[k]))]
    ensures |TagStatements(texts[..k], tag)| < |TagStatements(texts, tag)|
      && TagStatements(texts, tag)[|TagStatements(texts[..k], tag)|] == SchemaStatement(tag, Collapse(texts[k]))
  {
    var upto := texts[..k + 1];
    assert upto[..|upto| - 1] == texts[..k];
    assert upto[|upto| - 1] == texts[k];
    TagStatementsPrefix(texts, k + 1, tag);
    var all := TagStatements(texts, tag);
    var n := |TagStatements(texts[..k], tag)|;
    assert all[..n + 1] == TagStatements(upto, tag);
    assert all[n] == all[..n + 1][n];
  }

  /** Blank texts are skipped and every other text yields one statement, in
      document order: the non-blank text at index `i` yields the statement at
      position `|TagStatements(texts[..i], tag)|`, and a later text yields a
      later statement. */
  lemma TagStatementsDocumentOrder(texts: seq<string>, tag: DbSchemaTag, i: nat, j: nat)
    requires i < j < |texts|
    requires !AllTrimSpace(texts[i]) && !AllTrimSpace(texts[j])
    ensures |TagStatements(texts[..i], tag)| < |TagStatements(texts[..j], tag)| < |TagStatements(texts, tag)|
    ensures TagStatements(texts, tag)[|TagStatements(texts[..i], tag)|] == SchemaStatement(tag, Collapse(texts[i]))
    ensures TagStatements(texts, tag)[|TagStatements(texts[..j], tag)|] == SchemaStatement(tag, Collapse(texts[j]))
  {
    var before := TagStatements(texts[..i], tag);
    var upto := TagStatements(texts[..j], tag);
    assert |before| < |upto| by {
      TagStatementAt(texts, tag, i);
      assert texts[..j][..i + 1] == texts[..i + 1];
      TagStatementsPrefix(texts[..j], i + 1, tag);
    }
    TagStatementAt(texts, tag, i);
    TagStatementAt(texts, tag, j);
  }

  /** One tag's pass over the whole descriptor. */
  function Pass(elements: seq<Element>, tag: DbSchemaTag): seq<SchemaStatement> {
    TagStatements(ElementsByTagName(elements, TagName(tag)), tag)
  }

  /** The passes of the tags `tags`, one after another; `initDatabase` runs
      the schedule of `values()`. */
  function Schedule(elements: seq<Element>, tags: seq<DbSchemaTag>): seq<SchemaStatement> {
    if tags == [] then []
    else Schedule(elements, tags[..|tags| - 1]) + Pass(elements, tags[|tags| - 1])
  }

  /** Every statement of a schedule carries one of its tags. */
  lemma {:induction false} ScheduleTags(elements: seq<Element>, tags: seq<DbSchemaTag>)
    ensures forall i :: 0 <= i < |Schedule(elements, tags)| ==> Schedule(elements, tags)[i].tag in tags
  {
    if tags != [] {
      var init := tags[..|tags| - 1];
      var last := tags[|tags| - 1];
      ScheduleTags(elements, init);
      TagStatementsShape(ElementsByTagName(elements, TagName(last)), last);
      var before := Schedule(elements, init);
      var these := Pass(elements, last);
      var all := Schedule(elements, tags);
      forall i | 0 <= i < |all| ensures all[i].tag in tags {
        if i < |before| {
          assert all[i] == before[i];
          assert before[i].tag in init;
        } else {
          assert all[i] == these[i - |before|];
        }
      }
    }
  }

  /** Tags in strictly increasing declaration order. */
  predicate Increasing(tags: seq<DbSchemaTag>) {
    forall i, j :: 0 <= i < j < |tags| ==> Ordinal(tags[i]) < Ordinal(tags[j])
  }

  /** Statements ordered by tag in declaration order. */
  predicate SortedByTag(stmts: seq<SchemaStatement>) {
    forall i, j :: 0 <= i < j < |stmts| ==> Ordinal(stmts[i].tag) <= Ordinal(stmts[j].tag)
  }

  /** Appending statements of one tag that is declared after every tag
      already present keeps the order. */
  lemma SortedAppend(before: seq<SchemaStatement>, these: seq<SchemaStatement>, t: DbSchemaTag)
    requires SortedByTag(before)
    requires forall i :: 0 <= i < |before| ==> Ordinal(before[i].tag) < Ordinal(t)
    requires forall i :: 0 <= i < |these| ==> these[i].tag == t
    ensures SortedByTag(before + these)
  {
    var all := before + these;
    forall i, j | 0 <= i < j < |all| ensures Ordinal(all[i].tag) <= Ordinal(all[j].tag) {
      if j < |before| {
        assert all[i] == before[i] && all[j] == before[j];
      } else if i < |before| {
        assert all[i] == before[i] && all[j] == these[j - |before|];
      } else {
        assert all[i] == these[i - |before|] && all[j] == these[j - |before|];
      }
    }
  }

  /** A schedule of tags in declaration order is ordered by tag: a statement
      of an earlier tag never comes after one of a later tag. */
  lemma {:induction false} ScheduleSorted(elements: seq<Element>, tags: seq<DbSchemaTag>)
    requires Increasing(tags)
    ensures SortedByTag(Schedule(elements, tags))
  {
    if tags != [] {
      var init := tags[..|tags| - 1];
      var last := tags[|tags| - 1];
      var before := Schedule(elements, init);
      var these := Pass(elements, last);
      ScheduleSorted(elements, init);
      assert forall i :: 0 <= i < |before| ==> Ordinal(before[i].tag) < Ordinal(last) by {
        ScheduleTags(elements, init);
        forall i | 0 <= i < |before| ensures Ordinal(before[i].tag) < Ordinal(last) {
          var n :| 0 <= n < |init| && init[n] == before[i].tag;
          assert tags[n] == init[n];
        }
      }
      assert forall i :: 0 <= i < |these| ==> these[i].tag == last by {
        TagStatementsShape(ElementsByTagName(elements, TagName(last)), last);
      }
      SortedAppend(before, these, last);
    }
  }

  /** `values()` lists the tags in declaration order. */
  lemma ValuesIncreasing()
    ensures Increasing(Values)
  {
    ValuesEnumerateTags();
  }

  /** Every table statement runs before every index statement. */
  lemma TablesBeforeIndexes(elements: seq<Element>, i: nat, j: nat)
    requires i < |Schedule(elements, Values)| && j < |Schedule(elements, Values)|
    requires Schedule(elements, Values)[i].tag == Table
    requires Schedule(elements, Values)[j].tag == Index
    ensures i < j
  {
    ValuesIncreasing();
    ScheduleSorted(elements, Values);
    TableBeforeIndex();
  }

  /** The statements of `stmts` that carry `tag`, in order. */
  function Project(stmts: seq<SchemaStatement>, tag: DbSchemaTag): seq<SchemaStatement> {
    if stmts == [] then []
    else
      var last := stmts[|stmts| - 1];
      Project(stmts[..|stmts| - 1], tag) + (if last.tag == tag then [last] else [])
  }

  lemma {:induction false} ProjectConcat(a: seq<SchemaStatement>, b: seq<SchemaStatement>, tag: DbSchemaTag)
    ensures Project(a + b, tag) == Project(a, tag) + Project(b, tag)
    decreases |b|
  {
    if b == [] {
      assert a + b == a;
    } else {
      var b' := b[..|b| - 1];
      assert (a + b)[..|a + b| - 1] == a + b';
      ProjectConcat(a, b', tag);
    }
  }

  lemma {:induction false} ProjectAll(stmts: seq<SchemaStatement>, tag: DbSchemaTag)
    requires forall i :: 0 <= i < |stmts| ==> stmts[i].tag == tag
    ensures Project(stmts, tag) == stmts
    decreases |stmts|
  {
    if stmts != [] {
      ProjectAll(stmts[..|stmts| - 1], tag);
    }
  }

  lemma {:induction false} ProjectNone(stmts: seq<SchemaStatement>, tag: DbSchemaTag)
    requires forall i :: 0 <= i < |stmts| ==> stmts[i].tag != tag
    ensures Project(stmts, tag) == []
    decreases |stmts|
  {
    if stmts != [] {
      ProjectNone(stmts[..|stmts| - 1], tag);
    }
  }

  /** A tag's pass holds only statements of that tag. */
  lemma ProjectPass(elements: seq<Element>, t: DbSchemaTag, tag: DbSchemaTag)
    ensures Project(Pass(elements, t), tag) == if t == tag then Pass(elements, t) else []
  {
    TagStatementsShape(ElementsByTagName(elements, TagName(t)), t);
    if t == tag {
      ProjectAll(Pass(elements, t), tag);
    } else {
      ProjectNone(Pass(elements, t), tag);
    }
  }

  /** Within one tag the schedule keeps document order: when no tag is
      listed twice, the statements of `tag` in the schedule are exactly
      those its own pass yields, or none when it is not listed. */
  lemma {:induction false} ScheduleProjection(elements: seq<Element>, tags: seq<DbSchemaTag>, tag: DbSchemaTag)
    requires forall i, j :: 0 <= i < j < |tags| ==> tags[i] != tags[j]
    ensures Project(Schedule(elements, tags), tag) == if tag in tags then Pass(elements, tag) else []
  {
    if tags != [] {
      var init := tags[..|tags| - 1];
      var last := tags[|tags| - 1];
      assert tags == init + [last];
      assert last !in init by {
        forall i | 0 <= i < |init| ensures init[i] != last {
          assert init[i] == tags[i];
        }
      }
      ScheduleProjection(elements, init, tag);
      ProjectPass(elements, last, tag);
      ProjectStep(Schedule(elements, init), Pass(elements, last), init, last, tag, Pass(elements, tag));
    }
  }

  /** The inductive step of `ScheduleProjection`, over plain sequences. */
  lemma ProjectStep(before: seq<SchemaStatement>, pass: seq<SchemaStatement>, init: seq<DbSchemaTag>,
                    last: DbSchemaTag, tag: DbSchemaTag, want: seq<SchemaStatement>)
    requires last !in init
    requires Project(before, tag) == if tag in init then want else []
    requires Project(pass, tag) == if last == tag then want else []
    ensures Project(before + pass, tag) == if tag in init + [last] then want else []
  {
    ProjectConcat(before, pass, tag);
    assert tag in init + [last] <==> tag in init || tag == last;
    if tag != last {
      assert Project(before, tag) + [] == Project(before, tag);
    }
  }

  /** Each tag's statements appear in the bootstrap schedule exactly as its
      own pass yields them. */
  lemma ValuesScheduleProjection(elements: seq<Element>, tag: DbSchemaTag)
    ensures Project(Schedule(elements, Values), tag) == Pass(elements, tag)
  {
    ValuesEnumerateTags();
    ScheduleProjection(elements, Values, tag);
  }

  /** One schema statement inside its own `try`: it goes through
      `execute(String)`, and an error that escapes is logged. */
  function Step(oracle: Oracle, prev: Trace, statement: string): Trace {
    var o := Execute(oracle, prev.log, statement);
    Trace(o.log, prev.reports + if o.thrown.Some? then [QueryFailed(statement, o.thrown.value)] else [])
  }

  /** The schema statements run one after another; an error that escapes
      `execute(String)` is logged and the next statement runs. */
  function Run(oracle: Oracle, start: Trace, stmts: seq<SchemaStatement>): Trace {
    if stmts == [] then start
    else Step(oracle, Run(oracle, start, stmts[..|stmts| - 1]), stmts[|stmts| - 1].text)
  }

  /** One element of a tag's pass: a blank text is skipped, any other text
      runs with its whitespace collapsed. */
  function RunElement(oracle: Oracle, prev: Trace, text: string): Trace {
    if AllTrimSpace(text) then prev else Step(oracle, prev, Collapse(text))
  }

  /** Running two lists of statements is running the second from where the
      first left off. */
  lemma {:induction false} RunConcat(oracle: Oracle, start: Trace, a: seq<SchemaStatement>, b: seq<SchemaStatement>)
    ensures Run(oracle, start, a + b) == Run(oracle, Run(oracle, start, a), b)
    decreases |b|
  {
    if b == [] {
      assert a + b == a;
    } else {
      var b' := b[..|b| - 1];
      assert (a + b)[..|a + b| - 1] == a + b';
      RunConcat(oracle, start, a, b');
    }
  }

  /** Running the schedule one tag further is running that tag's pass from
      where the earlier tags left off. */
  lemma RunNextTag(oracle: Oracle, start: Trace, elements: seq<Element>, tags: seq<DbSchemaTag>, k: nat)
    requires k < |tags|
    ensures Run(oracle, start, Schedule(elements, tags[..k + 1])) ==
      Run(oracle, Run(oracle, start, Schedule(elements, tags[..k])), Pass(elements, tags[k]))
  {
    var upto := tags[..k + 1];
    assert upto[..|upto| - 1] == tags[..k];
    RunConcat(oracle, start, Schedule(elements, tags[..k]), Pass(elements, tags[k]));
  }

  /** Running a tag's pass one element further is `RunElement` on what ran
      before. */
  lemma RunNextElement(oracle: Oracle, start: Trace, texts: seq<string>, tag: DbSchemaTag, i: nat)
    requires i < |texts|
    ensures Run(oracle, start, TagStatements(texts[..i + 1], tag)) ==
      RunElement(oracle, Run(oracle, start, TagStatements(texts[..i], tag)), texts[i])
  {
    var upto := texts[..i + 1];
    assert upto[..|upto| - 1] == texts[..i];
    if !AllTrimSpace(texts[i]) {
      var done := TagStatements(texts[..i], tag);
      var next := done + [SchemaStatement(tag, Collapse(texts[i]))];
      assert TagStatements(upto, tag) == next;
      assert next[..|next| - 1] == done;
    } else {
      assert TagStatements(upto, tag) == TagStatements(texts[..i], tag);
    }
  }

  /** The queries the statements send when each goes through the filter. */
  function SentAll(stmts: seq<SchemaStatement>): seq<string> {
    if stmts == [] then [] else SentAll(stmts[..|stmts| - 1]) + Sent(stmts[|stmts| - 1].text)
  }

  /** A failing statement never stops the run: whatever the session does,
      every statement that passes the filter is sent, in order. */
  lemma {:induction false} RunSendsEveryStatement(oracle: Oracle, start: Trace, stmts: seq<SchemaStatement>)
    ensures Run(oracle, start, stmts).log == start.log + SentAll(stmts)
    decreases |stmts|
  {
    if stmts != [] {
      RunSendsEveryStatement(oracle, start, stmts[..|stmts| - 1]);
    }
  }

  /** The errors a run logs, worked out from the queries alone: each
      statement meets the session after the queries the statements before it
      send (`SentAll`), whatever those answered, and its failure is logged
      when an error escapes `execute(String)`. */
  function Failures(oracle: Oracle, log: seq<string>, stmts: seq<SchemaStatement>): seq<Report> {
    if stmts == [] then []
    else
      var init := stmts[..|stmts| - 1];
      var text := stmts[|stmts| - 1].text;
      var o := Execute(oracle, log + SentAll(init), text);
      Failures(oracle, log, init) + if o.thrown.Some? then [QueryFailed(text, o.thrown.value)] else []
  }

  /** The run logs every failure that escapes, in order, and nothing else. */
  lemma {:induction false} RunLogsEveryFailure(oracle: Oracle, start: Trace, stmts: seq<SchemaStatement>)
    ensures Run(oracle, start, stmts).reports == start.reports + Failures(oracle, start.log, stmts)
    decreases |stmts|
  {
    if stmts != [] {
      var init := stmts[..|stmts| - 1];
      RunLogsEveryFailure(oracle, start, init);
      RunSendsEveryStatement(oracle, start, init);
    }
  }

  /** Every failure logged is an error that escaped `execute(String)`, so
      never an already-applied change. */
  lemma {:induction false} FailuresAreEscapes(oracle: Oracle, log: seq<string>, stmts: seq<SchemaStatement>)
    ensures forall i :: 0 <= i < |Failures(oracle, log, stmts)| ==>
      Failures(oracle, log, stmts)[i].QueryFailed? && !IsAlreadyApplied(Failures(oracle, log, stmts)[i].error)
    decreases |stmts|
  {
    if stmts != [] {
      var init := stmts[..|stmts| - 1];
      FailuresAreEscapes(oracle, log, init);
      var prev := Failures(oracle, log, init);
      var all := Failures(oracle, log, stmts);
      forall i | 0 <= i < |all| ensures all[i].QueryFailed? && !IsAlreadyApplied(all[i].error) {
        if i < |prev| {
          assert all[i] == prev[i];
        }
      }
    }
  }

  /** The run only appends to the error log, and only failures that are not
      already-applied changes get logged. */
  lemma RunReportsFailures(oracle: Oracle, start: Trace, stmts: seq<SchemaStatement>)
    ensures var r := Run(oracle, start, stmts).reports;
      && |start.reports| <= |r| && r[..|start.reports|] == start.reports
      && forall i :: |start.reports| <= i < |r| ==> r[i].QueryFailed? && !IsAlreadyApplied(r[i].error)
  {
    RunLogsEveryFailure(oracle, start, stmts);
    FailuresAreEscapes(oracle, start.log, stmts);
    var f := Failures(oracle, start.log, stmts);
    var r := Run(oracle, start, stmts).reports;
    assert r[..|start.reports|] == start.reports;
    forall i | |start.reports| <= i < |r| ensures r[i].QueryFailed? && !IsAlreadyApplied(r[i].error) {
      assert r[i] == f[i - |start.reports|];
    }
  }

  /** The failures of a prefix of the statements are a prefix of the
      failures of all of them. */
  lemma {:induction false} FailuresPrefix(oracle: Oracle, log: seq<string>, stmts: seq<SchemaStatement>, m: nat)
    requires m <= |stmts|
    ensures |Failures(oracle, log, stmts[..m])| <= |Failures(oracle, log, stmts)|
    ensures Failures(oracle, log, stmts)[..|Failures(oracle, log, stmts[..m])|] == Failures(oracle, log, stmts[..m])
    decreases |stmts| - m
  {
    if m < |stmts| {
      var n := |stmts|;
      assert stmts[..n - 1][..m] == stmts[..m];
      FailuresPrefix(oracle, log, stmts[..n - 1], m);
    } else {
      assert stmts[..m] == stmts;
    }
  }

  /** A schema statement whose error escapes `execute(String)` is logged
      with that error, and the run goes on. */
  lemma FailureIsLogged(oracle: Oracle, start: Trace, stmts: seq<SchemaStatement>, i: nat)
    requires i < |stmts|
    requires Execute(oracle, start.log + SentAll(stmts[..i]), stmts[i].text).thrown.Some?
    ensures QueryFailed(stmts[i].text, Execute(oracle, start.log + SentAll(stmts[..i]), stmts[i].text).thrown.value)
      in Run(oracle, start, stmts).reports
  {
    var upto := stmts[..i + 1];
    assert upto[..|upto| - 1] == stmts[..i];
    var e := Execute(oracle, start.log + SentAll(stmts[..i]), stmts[i].text).thrown.value;
    var mine := Failures(oracle, start.log, upto);
    assert mine[|mine| - 1] == QueryFailed(stmts[i].text, e);
    FailuresPrefix(oracle, start.log, stmts, i + 1);
    var all := Failures(oracle, start.log, stmts);
    assert all[|mine| - 1] == all[..|mine|][|mine| - 1];
    RunLogsEveryFailure(oracle, start, stmts);
    var r := Run(oracle, start, stmts).reports;
    assert r[|start.reports| + |mine| - 1] == all[|mine| - 1];
  }

  /** Keyspace creation (when configured) and selection, in one `try`: a
      failing creation skips the selection, and either failure is logged. */
  function Prelude(p: CassandraProperties, oracle: Oracle, start: Trace): Trace {
    var create := if p.createKeyspace then Execute(oracle, start.log, CreateKeyspaceStatement(p))
                  else Outcome(start.log, None);
    var use := if create.thrown.None? then Execute(oracle, create.log, UseStatement(p)) else create;
    Trace(use.log, start.reports
      + if use.thrown.Some? then [KeyspaceNotCreated(p.keyspace, use.thrown.value)] else [])
  }

  /** The queries the prelude sends: the creation statement first when it is
      configured, then the selection statement unless creation threw. */
  function PreludeSent(p: CassandraProperties, oracle: Oracle, log: seq<string>): (sent: seq<string>)
    ensures p.createKeyspace ==> |sent| >= 1 && sent[0] == CreateKeyspaceStatement(p)
    ensures !p.createKeyspace ==> sent == [UseStatement(p)]
    ensures p.createKeyspace ==>
      ((|sent| == 2 && sent[1] == UseStatement(p)) <==> Execute(oracle, log, CreateKeyspaceStatement(p)).thrown.None?)
    ensures p.createKeyspace && Execute(oracle, log, CreateKeyspaceStatement(p)).thrown.Some? ==>
      sent == [CreateKeyspaceStatement(p)]
    ensures |sent| <= 2
  {
    if !p.createKeyspace then [UseStatement(p)]
    else if Execute(oracle, log, CreateKeyspaceStatement(p)).thrown.Some? then [CreateKeyspaceStatement(p)]
    else [CreateKeyspaceStatement(p), UseStatement(p)]
  }

  /** The prelude sends exactly `PreludeSent`. */
  lemma PreludeLog(p: CassandraProperties, oracle: Oracle, start: Trace)
    ensures Prelude(p, oracle, start).log == start.log + PreludeSent(p, oracle, start.log)
  {
    var c := CreateKeyspaceStatement(p);
    var u := UseStatement(p);
    CreateKeyspaceStatementIsSent(p);
    UseStatementIsSent(p);
    if p.createKeyspace {
      var create := Execute(oracle, start.log, c);
      assert create.log == start.log + [c];
      if create.thrown.None? {
        assert Execute(oracle, create.log, u).log == start.log + [c] + [u];
      }
    } else {
      assert Execute(oracle, start.log, u).log == start.log + [u];
    }
  }

  /** The keyspace block logs one entry, naming the keyspace, exactly when
      an error escapes it: the creation's error when creation is configured
      and throws, otherwise the selection's. */
  lemma PreludeReports(p: CassandraProperties, oracle: Oracle, start: Trace)
    ensures var create := Execute(oracle, start.log, CreateKeyspaceStatement(p));
      var escaped := if p.createKeyspace && create.thrown.Some? then create.thrown
        else Execute(oracle, start.log + (if p.createKeyspace then [CreateKeyspaceStatement(p)] else []), UseStatement(p)).thrown;
      Prelude(p, oracle, start).reports ==
        start.reports + if escaped.Some? then [KeyspaceNotCreated(p.keyspace, escaped.value)] else []
  {
    var c := CreateKeyspaceStatement(p);
    var create := Execute(oracle, start.log, c);
    var escaped := if p.createKeyspace && create.thrown.Some? then create.thrown
      else Execute(oracle, start.log + (if p.createKeyspace then [c] else []), UseStatement(p)).thrown;
    if p.createKeyspace {
      CreateKeyspaceStatementIsSent(p);
      assert create.log == start.log + [c];
      var use := if create.thrown.None? then Execute(oracle, create.log, UseStatement(p)) else create;
      assert use.thrown == escaped;
    } else {
      assert start.log + [] == start.log;
    }
  }

  /** `initDatabase` from the trace `start`. */
  function Bootstrap(p: CassandraProperties, document: SchemaDocument, oracle: Oracle, start: Trace): Trace {
    match document
    case Unparseable => Trace(start.log, start.reports + [SchemaUnreadable])
    case Parsed(elements) => Run(oracle, Prelude(p, oracle, start), Schedule(elements, Values))
  }

  /** When the descriptor cannot be read or parsed no query at all is sent,
      not even the keyspace statements. */
  lemma UnparseableSendsNothing(p: CassandraProperties, oracle: Oracle, start: Trace)
    ensures Bootstrap(p, Unparseable, oracle, start).log == start.log
    ensures Bootstrap(p, Unparseable, oracle, start).reports == start.reports + [SchemaUnreadable]
  {
  }

  /** What the bootstrap sends: the keyspace statements, then every schema
      statement that passes the filter, tag by tag. Only a failing keyspace
      creation changes the sequence (it drops the selection); failures of
      the selection or of schema statements stop nothing. */
  lemma BootstrapLog(p: CassandraProperties, elements: seq<Element>, oracle: Oracle, start: Trace)
    ensures Bootstrap(p, Parsed(elements), oracle, start).log ==
      start.log + PreludeSent(p, oracle, start.log) + SentAll(Schedule(elements, Values))
  {
    PreludeLog(p, oracle, start);
    RunSendsEveryStatement(oracle, Prelude(p, oracle, start), Schedule(elements, Values));
  }

  /** What the bootstrap logs: the keyspace block's entry, if any, then every
      schema statement failure that escapes, in order. */
  lemma BootstrapReports(p: CassandraProperties, elements: seq<Element>, oracle: Oracle, start: Trace)
    ensures Bootstrap(p, Parsed(elements), oracle, start).reports ==
      Prelude(p, oracle, start).reports + Failures(oracle, Prelude(p, oracle, start).log, Schedule(elements, Values))
  {
    RunLogsEveryFailure(oracle, Prelude(p, oracle, start), Schedule(elements, Values));
  }

  /** The queries the schema statements send do not depend on the session's
      answers, so they are the same on every run of the bootstrap. */
  lemma SchemaQueriesIndependentOfSession(p: CassandraProperties, elements: seq<Element>, o1: Oracle, o2: Oracle, start: Trace)
    requires p.createKeyspace ==>
      (Execute(o1, start.log, CreateKeyspaceStatement(p)).thrown.None? <==>
       Execute(o2, start.log, CreateKeyspaceStatement(p)).thrown.None?)
    ensures Bootstrap(p, Parsed(elements), o1, start).log == Bootstrap(p, Parsed(elements), o2, start).log
  {
    BootstrapLog(p, elements, o1, start);
    BootstrapLog(p, elements, o2, start);
  }
}
