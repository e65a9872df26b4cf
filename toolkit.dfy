/**
 * The backup/restore orchestrator: a full backup of every configured database, or a
 * restore of every database with its files relocated into the restore directory, one
 * database at a time in configuration order, stopping at the first exception.
 *
 * The functions give the meaning of each step on the log of statements a server has answered;
 * the methods of SqlDatabaseToolkit perform the steps against a Server and are proved to agree
 * with them.
 */
module Toolkit {
  import opened Results
  import opened SqlDatabases
  import opened SqlCommands
  import opened SqlExecution

  /** The server after an operation, and whether the operation completed or what it raised. */
  type Run = (seq<Entry>, Outcome<string>)

  /** One full backup: a single BACKUP statement; its exception is rethrown unchanged. */
  function BackupCore(log: seq<Entry>, respond: Responder, databaseName: string, backupFilePath: string, timeout: int): Run {
    var issued := Issue(log, respond, BackupCommand(databaseName, backupFilePath, timeout));
    (issued.0, if issued.1.Failed? then Failure(issued.1.message) else Success)
  }

  /** RESTORE FILELISTONLY, its rows mapped to file pairs relocated into the restore directory. */
  function GetFilePairs(log: seq<Entry>, respond: Responder, backupFilePath: string, restoreDirectoryPath: string, timeout: int)
    : (seq<Entry>, Result<seq<FilePair>, string>)
  {
    var issued := Issue(log, respond, FileListCommand(backupFilePath, timeout));
    (issued.0, if issued.1.Failed? then Err(issued.1.message) else Ok(FilePairs(issued.1.rows, restoreDirectoryPath)))
  }

  /** Offline, restore with one MOVE per pair, online: three statements, stopping at the first exception. */
  function RestoreCurrently(log: seq<Entry>, respond: Responder, databaseName: string, backupFilePath: string,
                            filePairs: seq<FilePair>, timeout: int): Run
  {
    var offline := Issue(log, respond, SetOfflineCommand(databaseName, timeout));
    if offline.1.Failed? then (offline.0, Failure(offline.1.message)) else
    var restore := Issue(offline.0, respond, RestoreCommand(databaseName, backupFilePath, filePairs, timeout));
    if restore.1.Failed? then (restore.0, Failure(restore.1.message)) else
    var online := Issue(restore.0, respond, SetOnlineCommand(databaseName, timeout));
    (online.0, if online.1.Failed? then Failure(online.1.message) else Success)
  }

  /** The restore of one database: the file list first, then the three-statement sequence. */
  function RestoreCore(log: seq<Entry>, respond: Responder, databaseName: string, backupFilePath: string,
                       restoreDirectoryPath: string, timeout: int): Run
  {
    var pairs := GetFilePairs(log, respond, backupFilePath, restoreDirectoryPath, timeout);
    if pairs.1.Err? then (pairs.0, Failure(pairs.1.error))
    else RestoreCurrently(pairs.0, respond, databaseName, backupFilePath, pairs.1.value, timeout)
  }

  datatype Operation = BackupOperation | RestoreOperation

  /** What either run does for one configured database, with the paths and timeout the options give. */
  function ProcessDatabase(op: Operation, options: SqlDatabaseOptions, respond: Responder, db: SqlDatabase, log: seq<Entry>): Run {
    var backupFilePath := db.ResolveBackupFilePath(options.BackupDirectory);
    match op
    case BackupOperation => BackupCore(log, respond, db.Name, backupFilePath, options.CommandTimeoutSeconds)
    case RestoreOperation => RestoreCore(log, respond, db.Name, backupFilePath, options.RestoreDirectory, options.CommandTimeoutSeconds)
  }

  /** What is done for one database, starting from the statements logged so far. */
  type Step = (SqlDatabase, seq<Entry>) -> Run

  /** The step either run takes for each configured database. */
  function DatabaseStep(op: Operation, options: SqlDatabaseOptions, respond: Responder): Step {
    (db: SqlDatabase, log: seq<Entry>) => ProcessDatabase(op, options, respond, db, log)
  }

  /** The databases one after another; the first exception ends the run. */
  function ProcessAll(step: Step, dbs: seq<SqlDatabase>, log: seq<Entry>): Run
    decreases |dbs|
  {
    if dbs == [] then (log, Success)
    else
      var first := step(dbs[0], log);
      if first.1.Failure? then first else ProcessAll(step, dbs[1..], first.0)
  }

  // ------------------------------------------------------------------ one database

  /** A backup issues exactly one statement, changes no database state and rethrows its exception. */
  lemma BackupCoreIssuesOneStatement(log: seq<Entry>, respond: Responder, databaseName: string, backupFilePath: string, timeout: int)
    ensures var cmd := BackupCommand(databaseName, backupFilePath, timeout);
      var response := respond(log, cmd);
      var run := BackupCore(log, respond, databaseName, backupFilePath, timeout);
      run.0 == log + [Entry(cmd, response)] &&
      (forall name :: StateOf(run.0, name) == StateOf(log, name)) &&
      run.1 == (if response.Failed? then Failure(response.message) else Success)
  {
    var cmd := BackupCommand(databaseName, backupFilePath, timeout);
    RecognizeBackup(databaseName, backupFilePath, timeout);
    forall name {
      StateOfNoEffect(log, Entry(cmd, respond(log, cmd)), name);
    }
  }

  /** A failed file-list query ends the restore before any ALTER: every database stays as it was. */
  lemma RestoreStopsAtFileList(log: seq<Entry>, respond: Responder, databaseName: string, backupFilePath: string,
                               restoreDirectoryPath: string, timeout: int)
    requires respond(log, FileListCommand(backupFilePath, timeout)).Failed?
    ensures var fileList := FileListCommand(backupFilePath, timeout);
      var response := respond(log, fileList);
      var run := RestoreCore(log, respond, databaseName, backupFilePath, restoreDirectoryPath, timeout);
      run.0 == log + [Entry(fileList, response)] &&
      (forall name :: StateOf(run.0, name) == StateOf(log, name)) &&
      run.1 == Failure(response.message)
  {
    var fileList := FileListCommand(backupFilePath, timeout);
    forall name {
      StateOfNoEffect(log, Entry(fileList, respond(log, fileList)), name);
    }
  }

  /**
   * A RESTORE that fails after SET OFFLINE succeeded leaves the database offline: no SET ONLINE
   * is issued and the exception propagates.
   */
  lemma RestoreFailureLeavesOffline(log: seq<Entry>, respond: Responder, databaseName: string, backupFilePath: string,
                                    restoreDirectoryPath: string, timeout: int)
    requires var fileList := FileListCommand(backupFilePath, timeout);
      var e0 := Entry(fileList, respond(log, fileList));
      var offline := SetOfflineCommand(databaseName, timeout);
      var e1 := Entry(offline, respond(log + [e0], offline));
      e0.response.Done? && e1.response.Done? &&
      var restore := RestoreCommand(databaseName, backupFilePath, FilePairs(e0.response.rows, restoreDirectoryPath), timeout);
      respond(log + [e0] + [e1], restore).Failed?
    ensures var fileList := FileListCommand(backupFilePath, timeout);
      var e0 := Entry(fileList, respond(log, fileList));
      var offline := SetOfflineCommand(databaseName, timeout);
      var e1 := Entry(offline, respond(log + [e0], offline));
      var restore := RestoreCommand(databaseName, backupFilePath, FilePairs(e0.response.rows, restoreDirectoryPath), timeout);
      var e2 := Entry(restore, respond(log + [e0] + [e1], restore));
      var run := RestoreCore(log, respond, databaseName, backupFilePath, restoreDirectoryPath, timeout);
      run.0 == log + [e0] + [e1] + [e2] &&
      StateOf(run.0, databaseName) == Offline &&
      run.1 == Failure(e2.response.message)
  {
    var fileList := FileListCommand(backupFilePath, timeout);
    var e0 := Entry(fileList, respond(log, fileList));
    var offline := SetOfflineCommand(databaseName, timeout);
    var e1 := Entry(offline, respond(log + [e0], offline));
    var restore := RestoreCommand(databaseName, backupFilePath, FilePairs(e0.response.rows, restoreDirectoryPath), timeout);
    var e2 := Entry(restore, respond(log + [e0] + [e1], restore));
    RecognizeSetOffline(databaseName, timeout);
    assert StateOf(log + [e0] + [e1], databaseName) == Offline;
    StateOfNoEffect(log + [e0] + [e1], e2, databaseName);
  }

  /**
   * Taking a database offline, restoring and bringing it online, when all three complete,
   * issue exactly these three statements in this order, each answered without exception.
   */
  lemma RestoreCurrentlySucceeds(log: seq<Entry>, respond: Responder, databaseName: string, backupFilePath: string,
                                 filePairs: seq<FilePair>, timeout: int)
    requires RestoreCurrently(log, respond, databaseName, backupFilePath, filePairs, timeout).1 == Success
    ensures var run := RestoreCurrently(log, respond, databaseName, backupFilePath, filePairs, timeout).0;
      var n := |log|;
      |run| == n + 3 && log <= run &&
      (forall k :: n <= k < n + 3 ==> run[k].response.Done?) &&
      run[n].command == SetOfflineCommand(databaseName, timeout) &&
      run[n + 1].command == RestoreCommand(databaseName, backupFilePath, filePairs, timeout) &&
      run[n + 2].command == SetOnlineCommand(databaseName, timeout)
  {
  }

  /**
   * A restore that completes issues, in this order, the file-list query, SET OFFLINE, the
   * RESTORE with the relocated pairs and SET ONLINE, each answered without exception.
   */
  lemma RestoreSucceedsInOrder(log: seq<Entry>, respond: Responder, databaseName: string, backupFilePath: string,
                               restoreDirectoryPath: string, timeout: int)
    requires RestoreCore(log, respond, databaseName, backupFilePath, restoreDirectoryPath, timeout).1 == Success
    ensures var run := RestoreCore(log, respond, databaseName, backupFilePath, restoreDirectoryPath, timeout).0;
      var n := |log|;
      |run| == n + 4 && log <= run &&
      (forall k :: n <= k < n + 4 ==> run[k].response.Done?) &&
      run[n].command == FileListCommand(backupFilePath, timeout) &&
      run[n + 1].command == SetOfflineCommand(databaseName, timeout) &&
      run[n + 2].command == RestoreCommand(databaseName, backupFilePath,
                                           FilePairs(run[n].response.rows, restoreDirectoryPath), timeout) &&
      run[n + 3].command == SetOnlineCommand(databaseName, timeout)
  {
    var fileList := Issue(log, respond, FileListCommand(backupFilePath, timeout));
    var pairs := FilePairs(fileList.1.rows, restoreDirectoryPath);
    RestoreCurrentlySucceeds(fileList.0, respond, databaseName, backupFilePath, pairs, timeout);
    var run := RestoreCurrently(fileList.0, respond, databaseName, backupFilePath, pairs, timeout).0;
    assert run[|log|] == fileList.0[|log|];
  }

  /** A restore that completes leaves the database online. */
  lemma RestoreSucceedsOnline(log: seq<Entry>, respond: Responder, databaseName: string, backupFilePath: string,
                              restoreDirectoryPath: string, timeout: int)
    requires RestoreCore(log, respond, databaseName, backupFilePath, restoreDirectoryPath, timeout).1 == Success
    ensures StateOf(RestoreCore(log, respond, databaseName, backupFilePath, restoreDirectoryPath, timeout).0, databaseName) == Online
  {
    var run := RestoreCore(log, respond, databaseName, backupFilePath, restoreDirectoryPath, timeout).0;
    RecognizeSetOnline(databaseName, timeout);
    assert run[|run| - 1].command == SetOnlineCommand(databaseName, timeout);
  }

  /** For a backup, the step of one database is its full backup into the configured backup directory. */
  lemma BackupStep(options: SqlDatabaseOptions, respond: Responder, db: SqlDatabase, log: seq<Entry>)
    ensures DatabaseStep(BackupOperation, options, respond)(db, log)
         == BackupCore(log, respond, db.Name, db.ResolveBackupFilePath(options.BackupDirectory), options.CommandTimeoutSeconds)
  {
  }

  /** For a restore, the step of one database restores its backup into the configured restore directory. */
  lemma RestoreStep(options: SqlDatabaseOptions, respond: Responder, db: SqlDatabase, log: seq<Entry>)
    ensures DatabaseStep(RestoreOperation, options, respond)(db, log)
         == RestoreCore(log, respond, db.Name, db.ResolveBackupFilePath(options.BackupDirectory),
                        options.RestoreDirectory, options.CommandTimeoutSeconds)
  {
  }

  /**
   * A statement carries the given timeout and, when it binds a backup file path at all,
   * binds the given one.
   */
  predicate Binds(cmd: Command, timeout: int, backupFilePath: string) {
    cmd.timeout == timeout &&
    ("backupFilePath" in cmd.parameters ==> cmd.parameters["backupFilePath"] == backupFilePath)
  }

  /** Every statement logged from position `from` on binds as above. */
  predicate IssuedBinding(log: seq<Entry>, from: nat, timeout: int, backupFilePath: string) {
    forall k :: from <= k < |log| ==> Binds(log[k].command, timeout, backupFilePath)
  }

  /** Issuing one statement appends exactly it. */
  lemma IssueBinding(log: seq<Entry>, respond: Responder, cmd: Command, timeout: int, backupFilePath: string)
    requires Binds(cmd, timeout, backupFilePath)
    ensures var l := Issue(log, respond, cmd).0;
      log <= l && IssuedBinding(l, |log|, timeout, backupFilePath)
  {
  }

  /** Two stretches of such statements, one after the other. */
  lemma BindingChain(a: seq<Entry>, b: seq<Entry>, c: seq<Entry>, timeout: int, backupFilePath: string)
    requires a <= b && b <= c
    requires IssuedBinding(b, |a|, timeout, backupFilePath) && IssuedBinding(c, |b|, timeout, backupFilePath)
    ensures a <= c && IssuedBinding(c, |a|, timeout, backupFilePath)
  {
    forall k | |a| <= k < |b| ensures c[k] == b[k] {
      assert c[..|b|] == b;
    }
  }

  /** The three statements of RestoreCurrently carry the timeout and backup file path they are given. */
  lemma RestoreCurrentlyBinding(log: seq<Entry>, respond: Responder, databaseName: string, backupFilePath: string,
                                filePairs: seq<FilePair>, timeout: int)
    ensures var run := RestoreCurrently(log, respond, databaseName, backupFilePath, filePairs, timeout);
      log <= run.0 && IssuedBinding(run.0, |log|, timeout, backupFilePath)
  {
    var offlineCommand := SetOfflineCommand(databaseName, timeout);
    var offline := Issue(log, respond, offlineCommand);
    IssueBinding(log, respond, offlineCommand, timeout, backupFilePath);
    if offline.1.Done? {
      var restoreCommand := RestoreCommand(databaseName, backupFilePath, filePairs, timeout);
      var restore := Issue(offline.0, respond, restoreCommand);
      IssueBinding(offline.0, respond, restoreCommand, timeout, backupFilePath);
      BindingChain(log, offline.0, restore.0, timeout, backupFilePath);
      if restore.1.Done? {
        var onlineCommand := SetOnlineCommand(databaseName, timeout);
        var online := Issue(restore.0, respond, onlineCommand);
        IssueBinding(restore.0, respond, onlineCommand, timeout, backupFilePath);
        BindingChain(log, restore.0, online.0, timeout, backupFilePath);
      }
    }
  }

  /** The restore of one database issues only statements with its timeout and backup file path. */
  lemma RestoreCoreBinding(log: seq<Entry>, respond: Responder, databaseName: string, backupFilePath: string,
                           restoreDirectoryPath: string, timeout: int)
    ensures var run := RestoreCore(log, respond, databaseName, backupFilePath, restoreDirectoryPath, timeout);
      log <= run.0 && IssuedBinding(run.0, |log|, timeout, backupFilePath)
  {
    var fileListCommand := FileListCommand(backupFilePath, timeout);
    var fileList := Issue(log, respond, fileListCommand);
    IssueBinding(log, respond, fileListCommand, timeout, backupFilePath);
    if fileList.1.Done? {
      var pairs := FilePairs(fileList.1.rows, restoreDirectoryPath);
      var run := RestoreCurrently(fileList.0, respond, databaseName, backupFilePath, pairs, timeout);
      RestoreCurrentlyBinding(fileList.0, respond, databaseName, backupFilePath, pairs, timeout);
      BindingChain(log, fileList.0, run.0, timeout, backupFilePath);
    }
  }

  /**
   * Every statement either run issues for a database carries the configured command timeout,
   * and every one that binds a backup file path binds the database's `<BackupDirectory>/<Name>.bak`.
   */
  lemma ProcessDatabaseBinding(op: Operation, options: SqlDatabaseOptions, respond: Responder, db: SqlDatabase, log: seq<Entry>)
    ensures var run := ProcessDatabase(op, options, respond, db, log);
      log <= run.0 &&
      IssuedBinding(run.0, |log|, options.CommandTimeoutSeconds, db.ResolveBackupFilePath(options.BackupDirectory))
  {
    var timeout := options.CommandTimeoutSeconds;
    var backupFilePath := db.ResolveBackupFilePath(options.BackupDirectory);
    match op
    case BackupOperation =>
      IssueBinding(log, respond, BackupCommand(db.Name, backupFilePath, timeout), timeout, backupFilePath);
    case RestoreOperation =>
      RestoreCoreBinding(log, respond, db.Name, backupFilePath, options.RestoreDirectory, timeout);
  }

  /** All statements logged from position `from` on carry the given timeout. */
  predicate IssuedWithTimeout(log: seq<Entry>, from: nat, timeout: int) {
    forall k :: from <= k < |log| ==> log[k].command.timeout == timeout
  }

  // ------------------------------------------------------------------ all databases

  /** A step that only appends to the log. */
  ghost predicate Appends(step: Step) {
    forall db, log :: log <= step(db, log).0
  }

  /** A step whose every statement carries the given timeout. */
  ghost predicate IssuesWithTimeout(step: Step, timeout: int) {
    forall db, log :: IssuedWithTimeout(step(db, log).0, |log|, timeout)
  }

  /** Either run's step only appends, and every statement it issues carries the configured timeout. */
  lemma DatabaseStepProperties(op: Operation, options: SqlDatabaseOptions, respond: Responder)
    ensures Appends(DatabaseStep(op, options, respond))
    ensures IssuesWithTimeout(DatabaseStep(op, options, respond), options.CommandTimeoutSeconds)
  {
    forall db, log {
      ProcessDatabaseBinding(op, options, respond, db, log);
    }
  }

  /** Running the databases one after another only appends to the log. */
  lemma {:induction false} ProcessAllAppends(step: Step, dbs: seq<SqlDatabase>, log: seq<Entry>)
    requires Appends(step)
    ensures log <= ProcessAll(step, dbs, log).0
    decreases |dbs|
  {
    if dbs != [] {
      var first := step(dbs[0], log);
      if first.1.Success? {
        ProcessAllAppends(step, dbs[1..], first.0);
      }
    }
  }

  /** Processing one more database continues from where the previous ones left off, unless they failed. */
  lemma {:induction false} ProcessAllSnoc(step: Step, dbs: seq<SqlDatabase>, db: SqlDatabase, log: seq<Entry>)
    ensures ProcessAll(step, dbs + [db], log) ==
      var run := ProcessAll(step, dbs, log);
      if run.1.Failure? then run else step(db, run.0)
    decreases |dbs|
  {
    if dbs == [] {
      assert [db][1..] == [];
    } else {
      assert (dbs + [db])[1..] == dbs[1..] + [db];
      var first := step(dbs[0], log);
      if first.1.Success? {
        ProcessAllSnoc(step, dbs[1..], db, first.0);
      }
    }
  }

  /** After a failure nothing more is issued, however many databases follow. */
  lemma {:induction false} ProcessAllFailureStable(step: Step, dbs: seq<SqlDatabase>, rest: seq<SqlDatabase>, log: seq<Entry>)
    requires ProcessAll(step, dbs, log).1.Failure?
    ensures ProcessAll(step, dbs + rest, log) == ProcessAll(step, dbs, log)
    decreases |dbs|
  {
    assert dbs != [];
    assert (dbs + rest)[0] == dbs[0] && (dbs + rest)[1..] == dbs[1..] + rest;
    var first := step(dbs[0], log);
    if first.1.Success? {
      ProcessAllFailureStable(step, dbs[1..], rest, first.0);
    }
  }

  /** The run over the first i + 1 databases is the run over the first i, then database i's step. */
  lemma ProcessAllPrefixStep(step: Step, dbs: seq<SqlDatabase>, i: nat, log: seq<Entry>)
    requires i < |dbs|
    ensures ProcessAll(step, dbs[..i + 1], log) ==
      var run := ProcessAll(step, dbs[..i], log);
      if run.1.Failure? then run else step(dbs[i], run.0)
  {
    assert dbs[..i + 1] == dbs[..i] + [dbs[i]];
    ProcessAllSnoc(step, dbs[..i], dbs[i], log);
  }

  /** A run whose first i databases failed is the run over all of them. */
  lemma ProcessAllPrefixFailure(step: Step, dbs: seq<SqlDatabase>, i: nat, log: seq<Entry>)
    requires i <= |dbs| && ProcessAll(step, dbs[..i], log).1.Failure?
    ensures ProcessAll(step, dbs, log) == ProcessAll(step, dbs[..i], log)
  {
    ProcessAllFailureStable(step, dbs[..i], dbs[i..], log);
    assert dbs[..i] + dbs[i..] == dbs;
  }

  /**
   * A failed run failed at one database k: the databases before it completed, and the run
   * ends exactly where database k's own step ended; later databases get no statements.
   */
  lemma {:induction false} ProcessAllFirstFailure(step: Step, dbs: seq<SqlDatabase>, log: seq<Entry>) returns (k: nat)
    requires ProcessAll(step, dbs, log).1.Failure?
    ensures k < |dbs|
    ensures ProcessAll(step, dbs[..k], log).1 == Success
    ensures step(dbs[k], ProcessAll(step, dbs[..k], log).0) == ProcessAll(step, dbs, log)
    decreases |dbs|
  {
    var first := step(dbs[0], log);
    if first.1.Failure? {
      k := 0;
    } else {
      var k' := ProcessAllFirstFailure(step, dbs[1..], first.0);
      k := k' + 1;
      assert dbs[..k][0] == dbs[0] && dbs[..k][1..] == dbs[1..][..k'];
    }
  }

  /** A completed run completed every database's step, each continuing from the previous one. */
  lemma {:induction false} ProcessAllSuccess(step: Step, dbs: seq<SqlDatabase>, log: seq<Entry>, k: nat)
    requires ProcessAll(step, dbs, log).1 == Success
    requires k < |dbs|
    ensures step(dbs[k], ProcessAll(step, dbs[..k], log).0).1 == Success
    decreases |dbs|
  {
    var first := step(dbs[0], log);
    if k > 0 {
      ProcessAllSuccess(step, dbs[1..], first.0, k - 1);
      assert dbs[..k][0] == dbs[0] && dbs[..k][1..] == dbs[1..][..k - 1];
    }
  }

  /** Every statement of a run carries the timeout its step gives every statement. */
  lemma {:induction false} ProcessAllTimeout(step: Step, timeout: int, dbs: seq<SqlDatabase>, log: seq<Entry>)
    requires Appends(step) && IssuesWithTimeout(step, timeout)
    ensures IssuedWithTimeout(ProcessAll(step, dbs, log).0, |log|, timeout)
    decreases |dbs|
  {
    if dbs != [] {
      var first := step(dbs[0], log);
      if first.1.Success? {
        ProcessAllTimeout(step, timeout, dbs[1..], first.0);
        ProcessAllAppends(step, dbs[1..], first.0);
      }
    }
  }

  /** Every statement either run of the toolkit issues carries the configured command timeout. */
  lemma RunTimeout(op: Operation, options: SqlDatabaseOptions, respond: Responder, log: seq<Entry>)
    ensures IssuedWithTimeout(ProcessAll(DatabaseStep(op, options, respond), options.Databases, log).0,
                              |log|, options.CommandTimeoutSeconds)
  {
    DatabaseStepProperties(op, options, respond);
    ProcessAllTimeout(DatabaseStep(op, options, respond), options.CommandTimeoutSeconds, options.Databases, log);
  }

  // ------------------------------------------------------------------ the toolkit

  class SqlDatabaseToolkit {
    const options: SqlDatabaseOptions
    const server: Server

    constructor (options: SqlDatabaseOptions, server: Server)
      ensures this.options == options && this.server == server
    {
      this.options := options;
      this.server := server;
    }

    /** Backs up every configured database in order; the first exception aborts the rest. */
    method BackupAsync() returns (r: Outcome<string>)
      modifies server
      ensures (server.log, r) == ProcessAll(DatabaseStep(BackupOperation, options, server.respond), options.Databases, old(server.log))
    {
      ghost var v0 := server.log;
      ghost var step := DatabaseStep(BackupOperation, options, server.respond);
      var databases := options.Databases;
      var i := 0;
      while i < |databases|
        invariant 0 <= i <= |databases|
        invariant (server.log, Success) == ProcessAll(step, databases[..i], v0)
      {
        var database := databases[i];
        var backupFilePath := database.ResolveBackupFilePath(options.BackupDirectory);
        ghost var before := server.log;
        ProcessAllPrefixStep(step, databases, i, v0);
        BackupStep(options, server.respond, database, before);
        r := BackupCoreAsync(database.Name, backupFilePath);
        assert (server.log, r) == step(database, before);
        if r.Failure? {
          ProcessAllPrefixFailure(step, databases, i + 1, v0);
          return;
        }
        i := i + 1;
      }
      assert databases[..i] == databases;
      r := Success;
    }

    /** Restores every configured database in order; the first exception aborts the rest. */
    method RestoreAsync() returns (r: Outcome<string>)
      modifies server
      ensures (server.log, r) == ProcessAll(DatabaseStep(RestoreOperation, options, server.respond), options.Databases, old(server.log))
    {
      ghost var v0 := server.log;
      ghost var step := DatabaseStep(RestoreOperation, options, server.respond);
      var databases := options.Databases;
      var i := 0;
      while i < |databases|
        invariant 0 <= i <= |databases|
        invariant (server.log, Success) == ProcessAll(step, databases[..i], v0)
      {
        var database := databases[i];
        var backupFilePath := database.ResolveBackupFilePath(options.BackupDirectory);
        ghost var before := server.log;
        ProcessAllPrefixStep(step, databases, i, v0);
        RestoreStep(options, server.respond, database, before);
        r := RestoreCoreAsync(database.Name, backupFilePath, options.RestoreDirectory);
        assert (server.log, r) == step(database, before);
        if r.Failure? {
          ProcessAllPrefixFailure(step, databases, i + 1, v0);
          return;
        }
        i := i + 1;
      }
      assert databases[..i] == databases;
      r := Success;
    }

    method BackupCoreAsync(databaseName: string, backupFilePath: string) returns (r: Outcome<string>)
      modifies server
      ensures (server.log, r) == BackupCore(old(server.log), server.respond, databaseName, backupFilePath, options.CommandTimeoutSeconds)
    {
      var response := server.Execute(BackupCommand(databaseName, backupFilePath, options.CommandTimeoutSeconds));
      if response.Failed? {
        return Failure(response.message);
      }
      r := Success;
    }

    method RestoreCoreAsync(databaseName: string, backupFilePath: string, restoreDirectoryPath: string) returns (r: Outcome<string>)
      modifies server
      ensures (server.log, r) == RestoreCore(old(server.log), server.respond, databaseName, backupFilePath,
                                                restoreDirectoryPath, options.CommandTimeoutSeconds)
    {
      var commandTimeoutSeconds := options.CommandTimeoutSeconds;
      var pairs := GetFilePairsAsync(backupFilePath, restoreDirectoryPath, commandTimeoutSeconds);
      if pairs.Err? {
        return Failure(pairs.error);
      }
      r := RestoreCurrentlyAsync(databaseName, backupFilePath, pairs.value, commandTimeoutSeconds);
    }

    method GetFilePairsAsync(backupFilePath: string, restoreDirectoryPath: string, commandTimeoutSeconds: int)
      returns (r: Result<seq<FilePair>, string>)
      modifies server
      ensures (server.log, r) == GetFilePairs(old(server.log), server.respond, backupFilePath, restoreDirectoryPath, commandTimeoutSeconds)
    {
      var response := server.Execute(FileListCommand(backupFilePath, commandTimeoutSeconds));
      if response.Failed? {
        return Err(response.message);
      }
      r := Ok(FilePairs(response.rows, restoreDirectoryPath));
    }

    /** Builds the RESTORE text clause by clause, then issues offline, restore and online. */
    method RestoreCurrentlyAsync(databaseName: string, backupFilePath: string, filePairs: seq<FilePair>, commandTimeoutSeconds: int)
      returns (r: Outcome<string>)
      modifies server
      ensures (server.log, r) == RestoreCurrently(old(server.log), server.respond, databaseName, backupFilePath,
                                                     filePairs, commandTimeoutSeconds)
    {
      var sql := RestorePrefix;
      var i := 0;
      while i < |filePairs|
        invariant 0 <= i <= |filePairs|
        invariant sql == RestorePrefix + MoveClauses(filePairs[..i])
      {
        assert filePairs[..i + 1][..i] == filePairs[..i];
        sql := sql + MoveClause(filePairs[i]);
        i := i + 1;
      }
      assert filePairs[..i] == filePairs;
      var response := server.Execute(SetOfflineCommand(databaseName, commandTimeoutSeconds));
      if response.Failed? {
        return Failure(response.message);
      }
      response := server.Execute(Command(sql, map["databaseName" := databaseName, "backupFilePath" := backupFilePath], commandTimeoutSeconds));
      if response.Failed? {
        return Failure(response.message);
      }
      response := server.Execute(SetOnlineCommand(databaseName, commandTimeoutSeconds));
      if response.Failed? {
        return Failure(response.message);
      }
      r := Success;
    }
  }
}
