/** The database session, seen from the service: every query handed to it is
    recorded in order, and an oracle decides which of them fail and how. */
module Driver {
  import opened Wrappers

  /** The exceptions a query can end in. `InvalidQuery` is the driver's
      `InvalidQueryException`, whose message may be null (`None`). */
  datatype QueryException =
    | InvalidQuery(message: Option<string>)
    | OtherQueryError(message: Option<string>)
    | NullPointer

  /** Given the queries already executed and the next one, the exception the
      database raises for it, if any. */
  type Oracle = (seq<string>, string) -> Option<QueryException>

  class Session {
    /** The queries sent to the database, in order. */
    var log: seq<string>
    const oracle: Oracle

    constructor (oracle: Oracle)
      ensures log == [] && this.oracle == oracle
    {
      log := [];
      this.oracle := oracle;
    }

    /** `session.execute(query)`. */
    method Execute(query: string) returns (thrown: Option<QueryException>)
      modifies this
      ensures log == old(log) + [query]
      ensures thrown == oracle(old(log), query)
    {
      thrown := oracle(log, query);
      log := log + [query];
    }
  }
}
