/** `execute(String)`: the filter every string statement passes before it
    reaches the session, and the classification of the session's errors. */
module StatementFilter {
  import opened Wrappers
  import opened Text
  import opened Driver

  const CommentPrefix: string := "--"

  /** The message fragment of an `InvalidQueryException` that marks a schema
      change that was already applied. */
  const AlreadyAppliedMarker: string := "an existing column"

  /** The text sent to the session for `query`, if any: the query trimmed,
      unless that is empty or a comment. */
  function Filter(query: string): (sent: Option<string>)
    ensures sent.Some? <==> Trim(query) != [] && !StartsWith(Trim(query), CommentPrefix)
    ensures sent.Some? ==> sent.value == Trim(query)
    ensures sent.Some? ==> IsTrimmed(sent.value) && sent.value != []
  {
    var q := Trim(query);
    if q != [] && !StartsWith(q, CommentPrefix) then Some(q) else None
  }

  /** An already-applied schema change: an `InvalidQueryException` whose
      message contains the marker. */
  predicate IsAlreadyApplied(e: QueryException) {
    e.InvalidQuery? && e.message.Some? && Contains(e.message.value, AlreadyAppliedMarker)
  }

  /** What `execute(String)` lets escape when the session raises `e`: nothing
      for an already-applied change, `e` itself otherwise, except that a null
      message makes `getMessage().contains` raise a `NullPointerException`. */
  function Escaping(e: QueryException): (r: Option<QueryException>)
    ensures r.None? <==> IsAlreadyApplied(e)
    ensures r.Some? && r.value != e ==> e == InvalidQuery(None) && r.value == NullPointer
    ensures e == InvalidQuery(None) ==> r == Some(NullPointer)
  {
    match e
    case InvalidQuery(None) => Some(NullPointer)
    case InvalidQuery(Some(message)) =>
      if Contains(message, AlreadyAppliedMarker) then None else Some(e)
    case _ => Some(e)
  }

  datatype Outcome = Outcome(log: seq<string>, thrown: Option<QueryException>)

  /** The queries sent to the session by one call of `execute(String)`: the
      filtered text, or nothing. */
  function Sent(query: string): seq<string> {
    match Filter(query)
    case Some(q) => [q]
    case None => []
  }

  /** One call of `execute(String)` on a session that has run `log`. At most
      one query reaches the session, and the call throws exactly when that
      query fails with an error that is not an already-applied change. */
  function Execute(oracle: Oracle, log: seq<string>, query: string): (o: Outcome)
    ensures o.log == log + Sent(query)
    ensures o.thrown.Some? <==>
      Filter(query).Some? && oracle(log, Filter(query).value).Some?
      && !IsAlreadyApplied(oracle(log, Filter(query).value).value)
    ensures o.thrown.Some? ==> !IsAlreadyApplied(o.thrown.value)
    ensures o.thrown == if Filter(query).Some? && oracle(log, Filter(query).value).Some?
      then Escaping(oracle(log, Filter(query).value).value) else None
  {
    match Filter(query)
    case None => Outcome(log, None)
    case Some(q) =>
      var thrown := match oracle(log, q) case None => None case Some(e) => Escaping(e);
      Outcome(log + [q], thrown)
  }

  /** A query made only of characters `trim()` removes never reaches the
      session. */
  lemma BlankIsDropped(query: string)
    requires AllTrimSpace(query)
    ensures Filter(query) == None
  {
    TrimEmptyIff(query);
  }

  /** A query whose first visible characters are `--` never reaches the
      session, whatever follows. */
  lemma CommentIsDropped(ws: string, rest: string)
    requires AllTrimSpace(ws)
    ensures Filter(ws + CommentPrefix + rest) == None
  {
    assert ws + CommentPrefix + rest == ws + (CommentPrefix + rest);
    TrimSkipsLeadingSpace(ws, CommentPrefix + rest);
    TrimKeepsVisiblePrefix(CommentPrefix + rest, CommentPrefix);
  }

  /** The text that reaches the session passes the filter unchanged: sending
      it through `execute(String)` again would send exactly it. */
  lemma FilterIdempotent(query: string)
    requires Filter(query).Some?
    ensures Filter(Filter(query).value) == Filter(query)
  {
    TrimOfTrimmed(Filter(query).value);
  }

  /** A query that is already trimmed, non-empty and not a comment is sent as
      it is. */
  lemma TrimmedQueryIsSent(query: string)
    requires IsTrimmed(query) && query != [] && !StartsWith(query, CommentPrefix)
    ensures Filter(query) == Some(query)
  {
    TrimOfTrimmed(query);
  }
}
