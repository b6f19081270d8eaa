/** The `execute` handler of the chat route's `db` tool: it asks the query
    guard for a verdict and runs the model's query only when the guard
    admits it. */
module DbTool {
  import opened QueryGuard

  /** What the handler returns to the model: the guard's two messages on a
      refusal, a fixed confirmation after running the query. */
  datatype ToolResult =
    | Refused(result: string, fixSuggestion: string)
    | Executed(result: string)

  const SuccessMessage: string := "Query executed successfully."

  /** The database collaborator, reduced to the statements it was asked to
      run, in order. */
  class Database {
    ghost var executed: seq<string>

    constructor ()
      ensures executed == []
    {
      executed := [];
    }

    /** `db.run(sql)`: the statement is executed as given. */
    method Run(sql: string)
      modifies this
      ensures executed == old(executed) + [sql]
    {
      executed := executed + [sql];
    }
  }

  /** The `db` tool's `execute`: a rejected query is answered with the
      verdict's messages and nothing runs; an admitted query runs exactly
      once, verbatim (not its trimmed or lower-cased form), and the answer
      is the fixed confirmation. */
  method HandleDbTool(db: Database, query: string) returns (r: ToolResult)
    modifies db
    ensures GuardRails(query).isValid ==>
      r == Executed(SuccessMessage) && db.executed == old(db.executed) + [query]
    ensures !GuardRails(query).isValid ==>
      r == Refused(RejectMessage, RejectFix) && db.executed == old(db.executed)
  {
    var verdict := GuardRails(query);
    if !verdict.isValid {
      return Refused(verdict.errorMessage, verdict.fixSuggestion);
    }
    db.Run(query);
    r := Executed(SuccessMessage);
  }
}
