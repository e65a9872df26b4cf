/**
 * The statements the toolkit sends to SQL Server, as exact text plus bound parameters,
 * and the relocation of a backup's files into the restore directory.
 */
module SqlCommands {
  import opened Paths

  /** One statement as issued: its text, its named parameters and its command timeout. */
  datatype Command = Command(sql: string, parameters: map<string, string>, timeout: int)

  /** One row of RESTORE FILELISTONLY (the two columns the toolkit reads). */
  datatype FileListRow = FileListRow(LogicalName: string, PhysicalName: string)

  /** A file of the backup and the path it is moved to on restore. */
  datatype FilePair = FilePair(LogicalName: string, PhysicalName: string, MoveToFilePath: string)

  // ---------------------------------------------------------------- full backup

  /** The pieces are appended in this order; together they read "BACKUP DATABASE @databaseName TO DISK = @backupFilePath WITH NOFORMAT, NAME = @description, NOINIT, SKIP, NOREWIND, NOUNLOAD, STATS = 10". */
  const BackupSql := "BACKUP DATABASE @databaseName" + " TO DISK = @backupFilePath WITH NOFORMAT" +
    ", NAME = @description" + ", NOINIT" + ", SKIP" + ", NOREWIND" + ", NOUNLOAD" + ", STATS = 10"

  const BackupDescriptionSuffix := " - 完全バックアップ"

  /** The full-backup statement: a constant text; the name, description and path are parameters. */
  function BackupCommand(databaseName: string, backupFilePath: string, timeout: int): Command {
    Command(BackupSql,
      map["databaseName" := databaseName,
          "description" := databaseName + BackupDescriptionSuffix,
          "backupFilePath" := backupFilePath],
      timeout)
  }

  /** Whatever the database, the backup text is the same and no argument is spliced into it. */
  lemma BackupCommandShape(databaseName: string, backupFilePath: string, timeout: int)
    ensures var c := BackupCommand(databaseName, backupFilePath, timeout);
      c.sql == BackupSql && c.timeout == timeout &&
      c.parameters.Keys == {"databaseName", "description", "backupFilePath"} &&
      c.parameters["databaseName"] == databaseName &&
      c.parameters["description"] == databaseName + BackupDescriptionSuffix &&
      c.parameters["backupFilePath"] == backupFilePath
  {
  }

  // ---------------------------------------------------------------- file list

  const FileListSql := "RESTORE FILELISTONLY" + " FROM DISK = @backupFilePath"

  function FileListCommand(backupFilePath: string, timeout: int): Command {
    Command(FileListSql, map["backupFilePath" := backupFilePath], timeout)
  }

  /** The path a physical file is moved to: its own file name inside the restore directory. */
  function ResolveNewPhysicalPath(originalFilePath: string, moveToDirectory: string): string {
    Combine(moveToDirectory, GetFileName(originalFilePath))
  }

  /**
   * A move target starts with the restore directory, ends with the original file name and,
   * when that name is not empty, has it as its own file name.
   */
  lemma ResolveNewPhysicalPathProperties(originalFilePath: string, moveToDirectory: string)
    ensures var r := ResolveNewPhysicalPath(originalFilePath, moveToDirectory);
      |moveToDirectory| <= |r| && r[..|moveToDirectory|] == moveToDirectory &&
      EndsWith(r, GetFileName(originalFilePath)) &&
      (GetFileName(originalFilePath) != "" ==> GetFileName(r) == GetFileName(originalFilePath))
  {
    var name := GetFileName(originalFilePath);
    if name != "" {
      GetFileNameProperties(originalFilePath);
      FileNameOfCombine(moveToDirectory, name);
    }
  }

  /** The file-list rows mapped to pairs, row by row and in row order. */
  function FilePairs(rows: seq<FileListRow>, restoreDirectoryPath: string): (pairs: seq<FilePair>)
    ensures |pairs| == |rows|
    ensures forall i :: 0 <= i < |rows| ==>
      pairs[i].LogicalName == rows[i].LogicalName &&
      pairs[i].PhysicalName == rows[i].PhysicalName &&
      pairs[i].MoveToFilePath == ResolveNewPhysicalPath(rows[i].PhysicalName, restoreDirectoryPath)
  {
    seq(|rows|, i requires 0 <= i < |rows| =>
      FilePair(rows[i].LogicalName, rows[i].PhysicalName,
               ResolveNewPhysicalPath(rows[i].PhysicalName, restoreDirectoryPath)))
  }

  /** Every move target lies in the restore directory and keeps the original file name. */
  lemma FilePairsRelocate(rows: seq<FileListRow>, restoreDirectoryPath: string, i: nat)
    requires i < |rows| && GetFileName(rows[i].PhysicalName) != ""
    ensures var target := FilePairs(rows, restoreDirectoryPath)[i].MoveToFilePath;
      |restoreDirectoryPath| <= |target| && target[..|restoreDirectoryPath|] == restoreDirectoryPath &&
      GetFileName(target) == GetFileName(rows[i].PhysicalName)
  {
    ResolveNewPhysicalPathProperties(rows[i].PhysicalName, restoreDirectoryPath);
  }

  // ---------------------------------------------------------------- offline / online

  const AlterPrefix := "ALTER DATABASE ["
  const OfflineSuffix := "] SET OFFLINE WITH ROLLBACK IMMEDIATE"
  const OnlineSuffix := "] SET ONLINE"

  /** The name is spliced into the text between brackets, without escaping. */
  function SetOfflineCommand(databaseName: string, timeout: int): Command {
    Command(AlterPrefix + databaseName + OfflineSuffix, map[], timeout)
  }

  function SetOnlineCommand(databaseName: string, timeout: int): Command {
    Command(AlterPrefix + databaseName + OnlineSuffix, map[], timeout)
  }

  // ---------------------------------------------------------------- restore

  /** Reads "RESTORE DATABASE @databaseName FROM DISK = @backupFilePath WITH REPLACE,NOUNLOAD,STATS = 5". */
  const RestorePrefix := "RESTORE DATABASE @databaseName" + " FROM DISK = @backupFilePath WITH REPLACE" +
    ",NOUNLOAD" + ",STATS = 5"

  /** One relocation clause; the names are spliced in without escaping. */
  function MoveClause(pair: FilePair): string {
    ",MOVE N'" + pair.LogicalName + "' TO N'" + pair.MoveToFilePath + "'"
  }

  /** The clauses of all pairs, in pair order. */
  function MoveClauses(pairs: seq<FilePair>): string {
    if pairs == [] then "" else MoveClauses(pairs[..|pairs| - 1]) + MoveClause(pairs[|pairs| - 1])
  }

  function RestoreSql(pairs: seq<FilePair>): string {
    RestorePrefix + MoveClauses(pairs)
  }

  function RestoreCommand(databaseName: string, backupFilePath: string, pairs: seq<FilePair>, timeout: int): Command {
    Command(RestoreSql(pairs), map["databaseName" := databaseName, "backupFilePath" := backupFilePath], timeout)
  }

  lemma AppendAssociative(a: string, b: string, c: string)
    ensures (a + b) + c == a + (b + c)
  {
  }

  /** The clauses of a sequence of pairs are those of any prefix followed by those of the rest. */
  lemma {:induction false} MoveClausesSplit(pairs: seq<FilePair>, k: nat)
    requires k <= |pairs|
    ensures MoveClauses(pairs) == MoveClauses(pairs[..k]) + MoveClauses(pairs[k..])
  {
    if k == |pairs| {
      assert pairs[..k] == pairs;
      assert pairs[k..] == [];
    } else {
      var n := |pairs|;
      var init, rest := pairs[..n - 1], pairs[k..];
      assert init[..k] == pairs[..k];
      assert rest[..|rest| - 1] == init[k..];
      var front, back, last := MoveClauses(pairs[..k]), MoveClauses(init[k..]), MoveClause(pairs[n - 1]);
      MoveClausesSplit(init, k);
      assert MoveClauses(pairs) == (front + back) + last;
      AppendAssociative(front, back, last);
      assert MoveClauses(rest) == back + last;
    }
  }

  /**
   * The restore text is the fixed prefix followed by exactly one clause per pair, in pair
   * order: the k-th clause is the k-th pair's, preceded by the clauses of the pairs before it.
   */
  lemma RestoreSqlClauses(pairs: seq<FilePair>, k: nat)
    requires k < |pairs|
    ensures RestoreSql(pairs) == RestorePrefix + MoveClauses(pairs[..k]) + MoveClause(pairs[k]) + MoveClauses(pairs[k + 1..])
  {
    var rest := pairs[k..];
    MoveClausesSplit(pairs, k);
    MoveClausesSplit(rest, 1);
    assert rest[..1][..0] == [];
    assert MoveClauses(rest[..1]) == MoveClause(pairs[k]);
    assert rest[1..] == pairs[k + 1..];
    var front := MoveClauses(pairs[..k]);
    AppendAssociative(RestorePrefix, front, MoveClause(pairs[k]) + MoveClauses(pairs[k + 1..]));
    AppendAssociative(RestorePrefix + front, MoveClause(pairs[k]), MoveClauses(pairs[k + 1..]));
  }

  /** No pairs, no clauses: the bare prefix. */
  lemma RestoreSqlNoPairs()
    ensures RestoreSql([]) == RestorePrefix
  {
  }

  // ---------------------------------------------------------------- what the server reads from a text

  /** The effect of a statement on the state of a database, as SQL Server reads the text. */
  datatype Effect = NoEffect | TakesOffline(database: string) | BringsOnline(database: string)

  predicate Encloses(s: string, prefix: string, suffix: string) {
    |prefix| + |suffix| <= |s| && s[..|prefix|] == prefix && s[|s| - |suffix|..] == suffix
  }

  function Recognize(sql: string): Effect {
    if Encloses(sql, AlterPrefix, OfflineSuffix) then TakesOffline(sql[|AlterPrefix|..|sql| - |OfflineSuffix|])
    else if Encloses(sql, AlterPrefix, OnlineSuffix) then BringsOnline(sql[|AlterPrefix|..|sql| - |OnlineSuffix|])
    else NoEffect
  }

  lemma RecognizeSetOffline(databaseName: string, timeout: int)
    ensures Recognize(SetOfflineCommand(databaseName, timeout).sql) == TakesOffline(databaseName)
  {
    var s := SetOfflineCommand(databaseName, timeout).sql;
    assert s[..|AlterPrefix|] == AlterPrefix;
    assert s[|s| - |OfflineSuffix|..] == OfflineSuffix;
    assert s[|AlterPrefix|..|s| - |OfflineSuffix|] == databaseName;
  }

  lemma RecognizeSetOnline(databaseName: string, timeout: int)
    ensures Recognize(SetOnlineCommand(databaseName, timeout).sql) == BringsOnline(databaseName)
  {
    var s := SetOnlineCommand(databaseName, timeout).sql;
    assert s[|s| - 2] == 'N';
    assert s[..|AlterPrefix|] == AlterPrefix;
    assert s[|s| - |OnlineSuffix|..] == OnlineSuffix;
    assert s[|AlterPrefix|..|s| - |OnlineSuffix|] == databaseName;
  }

  /** A text that does not start like ALTER DATABASE changes no database state. */
  lemma RecognizeOther(sql: string)
    requires sql != "" && sql[0] != 'A'
    ensures Recognize(sql) == NoEffect
  {
    if |sql| >= |AlterPrefix| {
      assert sql[..|AlterPrefix|][0] == sql[0];
    }
  }

  /** The backup text is no ALTER: it changes no database's state. */
  lemma RecognizeBackup(databaseName: string, backupFilePath: string, timeout: int)
    ensures Recognize(BackupCommand(databaseName, backupFilePath, timeout).sql) == NoEffect
  {
    RecognizeOther(BackupSql);
  }

  /** The file-list query is no ALTER: it changes no database's state. */
  lemma RecognizeFileList(backupFilePath: string, timeout: int)
    ensures Recognize(FileListCommand(backupFilePath, timeout).sql) == NoEffect
  {
    RecognizeOther(FileListSql);
  }

  /** The restore text is no ALTER, whatever its MOVE clauses: it changes no database's state. */
  lemma RecognizeRestore(databaseName: string, backupFilePath: string, pairs: seq<FilePair>, timeout: int)
    ensures Recognize(RestoreCommand(databaseName, backupFilePath, pairs, timeout).sql) == NoEffect
  {
    assert RestoreSql(pairs)[0] == RestorePrefix[0];
    RecognizeOther(RestoreSql(pairs));
  }
}
