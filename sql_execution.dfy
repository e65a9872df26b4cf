/**
 * The SQL executor the toolkit talks to, made abstract: every statement is appended to a
 * log together with its answer, and the answer comes from an oracle that may look at the
 * whole log before it. A database's state follows from the log: a successful
 * ALTER DATABASE ... SET OFFLINE takes it offline, a successful SET ONLINE brings it back.
 */
module SqlExecution {
  import opened SqlCommands

  /** The answer to one statement: its affected-row count and result rows, or the exception. */
  datatype Response = Done(affected: int, rows: seq<FileListRow>) | Failed(message: string)

  /** One issued statement and how the server answered it. */
  datatype Entry = Entry(command: Command, response: Response)

  /**
   * How the server answers a statement, given everything issued before it. Connection
   * failures and cancellation are further ways for it to fail.
   */
  type Responder = (seq<Entry>, Command) -> Response

  datatype DbState = Online | Offline

  /** The state of a database after the logged statements; every database starts online. */
  function StateOf(log: seq<Entry>, databaseName: string): DbState {
    if log == [] then Online
    else
      var last := log[|log| - 1];
      if last.response.Done? && Recognize(last.command.sql) == TakesOffline(databaseName) then Offline
      else if last.response.Done? && Recognize(last.command.sql) == BringsOnline(databaseName) then Online
      else StateOf(log[..|log| - 1], databaseName)
  }

  /** A statement that changes no database state leaves every state as it was. */
  lemma StateOfNoEffect(log: seq<Entry>, e: Entry, databaseName: string)
    requires e.response.Failed? || Recognize(e.command.sql) == NoEffect
    ensures StateOf(log + [e], databaseName) == StateOf(log, databaseName)
  {
    assert (log + [e])[..|log|] == log;
  }

  /** Issuing one statement: the log grows by it and its answer. */
  function Issue(log: seq<Entry>, respond: Responder, cmd: Command): (seq<Entry>, Response) {
    var response := respond(log, cmd);
    (log + [Entry(cmd, response)], response)
  }

  /** The server behind the connection string. */
  class Server {
    var log: seq<Entry>
    const respond: Responder

    constructor (respond: Responder)
      ensures this.respond == respond && log == []
    {
      this.respond := respond;
      log := [];
    }

    /** Executes one statement on the server (ExecuteAsync and QueryAsync alike). */
    method Execute(cmd: Command) returns (response: Response)
      modifies this
      ensures (log, response) == Issue(old(log), respond, cmd)
    {
      response := respond(log, cmd);
      log := log + [Entry(cmd, response)];
    }
  }
}
