# DbBackupRestore in Dafny

A model of the SQL Server backup/restore toolkit of DbBackupRestore and of the backup bundle
upload that follows a backup, with proofs of what each operation does.

The toolkit runs over the configured databases one at a time, in configuration order. A
backup issues one full `BACKUP DATABASE` statement per database. A restore works per database:

- it reads the backup's file list;
- it relocates every physical file into the restore directory;
- it takes the database offline, issues `RESTORE DATABASE` with one `MOVE` clause per file, and
  brings the database online.

The first exception is rethrown, which ends the run. If a RESTORE fails after SET OFFLINE
succeeded, the database stays offline.

The backup store packs the configured `.bak` files that exist into one zip archive named
`yyyyMMddHHmm.zip` in the backup directory. It first removes a stale bundle, best-effort. It
then copies the bundle to the archive directory without overwriting, and always removes the
local bundle afterwards. The connection extensions merge parameter sets, default the command
timeout to five seconds and hand back the executor's affected-row count.

Files, one module each:

- `results.dfy`: `Option`, `Outcome` and `Result`, the values that stand for nullable
  references and rethrown exceptions.
- `paths.dfy`: `Path.Combine` and `Path.GetFileName`, for a relative second argument.
- `timestamps.dfy`: `DateTime` as calendar fields, and the `yyyyMMddHHmm` rendering.
- `sql_databases.dfy`: a configured database, its `<Name>.bak` path, and the option set.
- `sql_commands.dfy`: the exact statement texts and parameters, the file-list relocation, and
  how the server reads a text (which ALTER affects which database).
- `sql_execution.dfy`: the abstract executor. Every statement is appended to a log with its
  answer, and the answer comes from an oracle (`Responder`) that may look at the whole log so
  far. A database's online/offline state is a function of the log.
- `toolkit.dfy`: the orchestration. Functions give each step's meaning on the log. The
  `SqlDatabaseToolkit` class performs the steps against a `Server` object with loops, and its
  methods are proved equal to those functions.
- `db_connection_extensions.dfy`: parameter merging, timeout defaulting, `ExecuteSql`.
- `file_system.dfy`: files as a map from path to content (bytes or zip entries) plus
  last-write time. Every primitive operation is recorded in a history. A fault oracle decides
  which attempts fail for outside reasons. The `FileSystem` class has one method per primitive.
- `backup_file_store.dfy`: the bundle upload. Functions give its meaning on a `Disk` value, the
  `BackupFileStore` class performs it on a `FileSystem`, and lemmas state what changes and
  what stays.

Facts about the program that shape the model:

- The bundle is named `yyyyMMddHHmm.zip`.
- The copy to the archive directory does not overwrite: it fails when the destination exists.
  Nothing removes the destination first, and nothing creates the archive directory.
- The program has no retention purge. An empty archive directory setting is not treated
  specially.
- `IBackupFileStore` declares `Download()`, but `BackupFileStore` does not implement it.
  Nothing downloads, and the model has no download operation.
- The backup description is bound as the `@description` parameter (`<Name> - 完全バックアップ`).
- The backup store reads an `ArchiveDirectory` setting that the options class does not declare.
  The model's option record carries it.
- The extension methods default a missing timeout to 5 seconds. The toolkit always passes the
  options' `CommandTimeoutSeconds`, whose default in the options class is 60.

## Model

| member | source | states |
|---|---|---|
| Paths.Combine | src/SqlDatabaseToolkit/SqlDatabase.cs:50 | the result starts with the directory and ends with the name; at most one character, a separator, lies between them; an empty name gives the directory |
| Paths.CombineJoins | src/SqlDatabaseToolkit/SqlDatabase.cs:50 | no separator is inserted when the directory is empty (the result is the name) or already ends in one (the result is directory + name) |
| Paths.GetFileName | src/SqlDatabaseToolkit/SqlDatabaseToolkit.cs:214 | the file name: the text after the last separator. GetFileNameProperties and FileNameUnique characterise it completely |
| Paths.GetFileNameProperties | src/SqlDatabaseToolkit/SqlDatabaseToolkit.cs:214 | GetFileName returns a suffix of the path with no separator that is either the whole path or preceded by a separator, that is, the text after the last `\` or `/` |
| Paths.FileNameUnique | src/SqlDatabaseToolkit/SqlDatabaseToolkit.cs:214 | any suffix with those three properties is GetFileName's result |
| Paths.FileNameOfCombine | src/SqlDatabaseToolkit/BackupFileStore.cs:161-162 | taking the file name of a directory combined with a non-empty separator-free name gives the name back |
| SqlDatabases.SqlDatabase.BackupFileName | src/SqlDatabaseToolkit/SqlDatabase.cs:34 | the file name is the database name followed by `.bak`; it is separator-free when the name is |
| SqlDatabases.SqlDatabase.ResolveBackupFilePath | src/SqlDatabaseToolkit/SqlDatabase.cs:50 | the path lies in the given directory and ends with `<Name>.bak` |
| SqlDatabases.BackupPathEndsWithBak | src/SqlDatabaseToolkit/SqlDatabase.cs:50 | every resolved backup path ends in `.bak` |
| SqlDatabases.BackupPathFileName | src/SqlDatabaseToolkit/SqlDatabase.cs:34-50 | for a separator-free name, the file name of the resolved path is `<Name>.bak` (what names the bundle entries) |
| SqlDatabases.DistinctNamesDistinctPaths | src/SqlDatabaseToolkit/SqlDatabase.cs:34-50 | in one directory, distinct separator-free names resolve to distinct paths |
| Timestamps.Digits | src/SqlDatabaseToolkit/BackupFileStore.cs:40 | a zero-padded field has exactly its width in decimal digits |
| Timestamps.DigitsRoundTrip | src/SqlDatabaseToolkit/BackupFileStore.cs:40 | a padded field that fits its width reads back as the number it renders |
| Timestamps.FormatMinute | src/SqlDatabaseToolkit/BackupFileStore.cs:40 | `yyyyMMddHHmm` is twelve decimal digits |
| Timestamps.FormatMinuteFields | src/SqlDatabaseToolkit/BackupFileStore.cs:40 | the twelve digits are the `yyyyMMddHHmm` fields: characters 0-3 read back as the year, 4-5 as the month, 6-7 as the day, 8-9 as the hour and 10-11 as the minute |
| Timestamps.FormatMinuteInjective | src/SqlDatabaseToolkit/BackupFileStore.cs:40 | two timestamps render alike exactly when they agree down to the minute |
| SqlCommands.BackupCommand | src/SqlDatabaseToolkit/SqlDatabaseToolkit.cs:120-142 | the BACKUP DATABASE statement of one database. BackupCommandShape gives its text, parameters and timeout, and RecognizeBackup shows it changes no database's state |
| SqlCommands.FileListCommand | src/SqlDatabaseToolkit/SqlDatabaseToolkit.cs:226-236 | the `RESTORE FILELISTONLY` query, binding only the backup file path. RecognizeFileList shows it changes no database's state, and RestoreCoreBinding shows it carries the timeout |
| SqlCommands.ResolveNewPhysicalPath | src/SqlDatabaseToolkit/SqlDatabaseToolkit.cs:213-214 | moves a file under the restore directory, keeping its file name. ResolveNewPhysicalPathProperties proves this |
| SqlCommands.SetOfflineCommand | src/SqlDatabaseToolkit/SqlDatabaseToolkit.cs:280-284 | the `SET OFFLINE WITH ROLLBACK IMMEDIATE` statement. RecognizeSetOffline shows it takes exactly that database offline |
| SqlCommands.SetOnlineCommand | src/SqlDatabaseToolkit/SqlDatabaseToolkit.cs:291-295 | the `SET ONLINE` statement. RecognizeSetOnline shows it brings exactly that database online |
| SqlCommands.MoveClause | src/SqlDatabaseToolkit/SqlDatabaseToolkit.cs:271 | one `,MOVE N'<logical>' TO N'<target>'` clause, without escaping. RestoreSqlClauses places one per pair in the restore text |
| SqlCommands.MoveClauses | src/SqlDatabaseToolkit/SqlDatabaseToolkit.cs:269-273 | the MOVE clauses of the pairs in pair order. MoveClausesSplit splits them at any point, and the loop of RestoreCurrentlyAsync is proved to build exactly them |
| SqlCommands.RestoreCommand | src/SqlDatabaseToolkit/SqlDatabaseToolkit.cs:285-290 | the RESTORE statement, binding `databaseName` and `backupFilePath`, with the given timeout. RestoreSucceedsInOrder shows a completed restore issues it with the pairs relocated from the file list. RecognizeRestore shows it changes no database's state, and RestoreCurrentlyBinding shows it binds only the given backup path |
| SqlCommands.RestoreSql | src/SqlDatabaseToolkit/SqlDatabaseToolkit.cs:264-275 | the RESTORE text. RestoreSqlClauses and RestoreSqlNoPairs show it is the fixed prefix followed by the pairs' clauses in order |
| SqlCommands.BackupCommandShape | src/SqlDatabaseToolkit/SqlDatabaseToolkit.cs:120-142 | the backup text is the same constant for every database; the name, description (`<Name> - 完全バックアップ`) and path are the only parameters; the timeout is the one given |
| SqlCommands.ResolveNewPhysicalPathProperties | src/SqlDatabaseToolkit/SqlDatabaseToolkit.cs:213-214 | a move target lies in the restore directory, ends with the original file name, and has that name as its own file name when it is not empty |
| SqlCommands.FilePairs | src/SqlDatabaseToolkit/SqlDatabaseToolkit.cs:238-247 | one pair per file-list row, in row order; the logical and physical names are kept and the move target is the relocated physical path |
| SqlCommands.FilePairsRelocate | src/SqlDatabaseToolkit/SqlDatabaseToolkit.cs:244 | every move target lies in the restore directory under its file's original name |
| SqlCommands.MoveClausesSplit | src/SqlDatabaseToolkit/SqlDatabaseToolkit.cs:269-273 | the clauses of a pair list are those of any prefix followed by those of the rest |
| SqlCommands.RestoreSqlClauses | src/SqlDatabaseToolkit/SqlDatabaseToolkit.cs:264-275 | the restore text is the fixed prefix followed by exactly one unescaped `,MOVE N'<logical>' TO N'<target>'` per pair, the k-th clause being the k-th pair's |
| SqlCommands.RestoreSqlNoPairs | src/SqlDatabaseToolkit/SqlDatabaseToolkit.cs:264-268 | zero pairs give the bare prefix |
| SqlCommands.RecognizeSetOffline | src/SqlDatabaseToolkit/SqlDatabaseToolkit.cs:281 | the offline text takes exactly the named database offline |
| SqlCommands.RecognizeSetOnline | src/SqlDatabaseToolkit/SqlDatabaseToolkit.cs:292 | the online text brings exactly the named database online |
| SqlCommands.RecognizeBackup | src/SqlDatabaseToolkit/SqlDatabaseToolkit.cs:120-130 | the backup text changes no database's online state |
| SqlCommands.RecognizeFileList | src/SqlDatabaseToolkit/SqlDatabaseToolkit.cs:226-236 | the file-list text changes no database's online state |
| SqlCommands.RecognizeRestore | src/SqlDatabaseToolkit/SqlDatabaseToolkit.cs:264-275 | the restore text, whatever its MOVE clauses, changes no database's online state |
| SqlExecution.Issue | src/SqlDatabaseToolkit/SqlDatabaseToolkit.cs:137-143 | one statement sent to the server: the statement and the server's answer are appended to the log. Server.Execute performs it, and BackupCoreIssuesOneStatement builds on it |
| SqlExecution.StateOf | src/SqlDatabaseToolkit/SqlDatabaseToolkit.cs:279-295 | a database is offline exactly when the last completed ALTER naming it took it offline; before any, it is online. StateOfNoEffect, RestoreFailureLeavesOffline and RestoreSucceedsOnline are stated with it |
| SqlExecution.StateOfNoEffect | src/SqlDatabaseToolkit/SqlDatabaseToolkit.cs:285-290 | a failed statement, or one that is no ALTER, leaves every database's state as it was |
| SqlExecution.Server.Execute | src/SqlDatabaseToolkit/SqlDatabaseToolkit.cs:137-143 | executing a statement appends it and the server's answer to the log |
| Toolkit.BackupCore | src/SqlDatabaseToolkit/SqlDatabaseToolkit.cs:132-150 | one backup on the log. BackupCoreIssuesOneStatement shows it issues exactly its statement and rethrows that statement's exception |
| Toolkit.GetFilePairs | src/SqlDatabaseToolkit/SqlDatabaseToolkit.cs:224-248 | the file-list query and the mapping of its rows through FilePairs. RestoreStopsAtFileList and RestoreSucceedsInOrder cover its failure and success |
| Toolkit.RestoreCurrently | src/SqlDatabaseToolkit/SqlDatabaseToolkit.cs:264-296 | the offline, restore and online statements, stopping at the first exception. RestoreCurrentlySucceeds, RestoreFailureLeavesOffline and RestoreCurrentlyBinding state what it issues |
| Toolkit.RestoreCore | src/SqlDatabaseToolkit/SqlDatabaseToolkit.cs:179-194 | one restore: the file list, then the three-statement sequence on the relocated pairs. RestoreStopsAtFileList, RestoreFailureLeavesOffline, RestoreSucceedsInOrder, RestoreSucceedsOnline and RestoreCoreBinding state what it does |
| Toolkit.ProcessDatabase | src/SqlDatabaseToolkit/SqlDatabaseToolkit.cs:54-77 | the loop body of either run: BackupCore or RestoreCore on the database's resolved backup path. ProcessDatabaseBinding shows every statement it issues carries `CommandTimeoutSeconds` and binds only that path |
| Toolkit.DatabaseStep | src/SqlDatabaseToolkit/SqlDatabaseToolkit.cs:54-77 | one database's step of either run. BackupStep and RestoreStep unfold it, and DatabaseStepProperties and ProcessDatabaseBinding state what it promises |
| Toolkit.ProcessAll | src/SqlDatabaseToolkit/SqlDatabaseToolkit.cs:52-78 | the steps over the databases in order, ending at the first failure. The ProcessAll* lemmas state its order, prefix, first-failure and timeout properties |
| Toolkit.BackupCoreIssuesOneStatement | src/SqlDatabaseToolkit/SqlDatabaseToolkit.cs:132-150 | a backup appends exactly its one statement, changes no database's state, and rethrows that statement's exception |
| Toolkit.RestoreStopsAtFileList | src/SqlDatabaseToolkit/SqlDatabaseToolkit.cs:180-186 | a failed file-list query is the only statement issued: no ALTER follows, every database stays as it was, and the exception propagates |
| Toolkit.RestoreFailureLeavesOffline | src/SqlDatabaseToolkit/SqlDatabaseToolkit.cs:279-295 | a RESTORE that fails after SET OFFLINE succeeded ends the sequence with the database offline and propagates the RESTORE's exception |
| Toolkit.RestoreCurrentlySucceeds | src/SqlDatabaseToolkit/SqlDatabaseToolkit.cs:279-295 | a completed sequence issued SET OFFLINE, the RESTORE and SET ONLINE, in that order, each answered without exception |
| Toolkit.RestoreSucceedsInOrder | src/SqlDatabaseToolkit/SqlDatabaseToolkit.cs:180-194 | a completed restore issued exactly the file-list query, SET OFFLINE, the RESTORE with the pairs relocated from that query's rows, and SET ONLINE |
| Toolkit.RestoreSucceedsOnline | src/SqlDatabaseToolkit/SqlDatabaseToolkit.cs:291-295 | a completed restore leaves the database online |
| Toolkit.BackupStep | src/SqlDatabaseToolkit/SqlDatabaseToolkit.cs:54-58 | an unfolding helper: the backup step is BackupCore on the database's name and `ResolveBackupFilePath(BackupDirectory)`, with the configured timeout. DatabaseStepProperties and ProcessDatabaseBinding state what the step promises |
| Toolkit.RestoreStep | src/SqlDatabaseToolkit/SqlDatabaseToolkit.cs:71-77 | an unfolding helper: the restore step is RestoreCore on `ResolveBackupFilePath(BackupDirectory)` and `RestoreDirectory`, with the configured timeout. DatabaseStepProperties and ProcessDatabaseBinding state what the step promises |
| Toolkit.RestoreCurrentlyBinding | src/SqlDatabaseToolkit/SqlDatabaseToolkit.cs:279-295 | the three-statement sequence only appends to the log; each statement carries the given timeout, and any that binds a backup file path binds the given one |
| Toolkit.RestoreCoreBinding | src/SqlDatabaseToolkit/SqlDatabaseToolkit.cs:179-194 | one restore only appends to the log; each of its statements carries its timeout, and any that binds a backup file path binds its own |
| Toolkit.ProcessDatabaseBinding | src/SqlDatabaseToolkit/SqlDatabaseToolkit.cs:71-75 | for either run, every statement issued for a database carries `CommandTimeoutSeconds`, and every one binding a backup file path binds that database's `<BackupDirectory>/<Name>.bak` |
| Toolkit.DatabaseStepProperties | src/SqlDatabaseToolkit/SqlDatabaseToolkit.cs:52-78 | either run's per-database step only appends to the log, and issues statements with the configured timeout only |
| Toolkit.ProcessAllAppends | src/SqlDatabaseToolkit/SqlDatabaseToolkit.cs:52-60 | running the databases one after another only appends to the log |
| Toolkit.ProcessAllSnoc | src/SqlDatabaseToolkit/SqlDatabaseToolkit.cs:52-60 | one more database continues from where the previous ones left off, unless they failed |
| Toolkit.ProcessAllFailureStable | src/SqlDatabaseToolkit/SqlDatabaseToolkit.cs:146-150 | after a failure nothing more is issued, however many databases follow |
| Toolkit.ProcessAllPrefixStep | src/SqlDatabaseToolkit/SqlDatabaseToolkit.cs:52-60 | the run over the first i + 1 databases is the run over the first i followed by database i's step |
| Toolkit.ProcessAllPrefixFailure | src/SqlDatabaseToolkit/SqlDatabaseToolkit.cs:202-211 | when the first i databases end in a failure, the whole run is that run |
| Toolkit.ProcessAllFirstFailure | src/SqlDatabaseToolkit/SqlDatabaseToolkit.cs:52-78 | a failed run failed at one database k: every database before it completed, and the run ends where k's own step ended, so later databases get no statements |
| Toolkit.ProcessAllSuccess | src/SqlDatabaseToolkit/SqlDatabaseToolkit.cs:52-78 | in a completed run every database's step completed, each continuing from the previous one |
| Toolkit.ProcessAllTimeout | src/SqlDatabaseToolkit/SqlDatabaseToolkit.cs:52-78 | a run issues only statements with the timeout its step uses |
| Toolkit.RunTimeout | src/SqlDatabaseToolkit/SqlDatabaseToolkit.cs:133-142 | every statement of a backup or restore run carries the configured `CommandTimeoutSeconds` |
| Toolkit.SqlDatabaseToolkit.BackupAsync | src/SqlDatabaseToolkit/SqlDatabaseToolkit.cs:48-61 | the loop over the databases leaves the log and outcome of the backup run over all configured databases |
| Toolkit.SqlDatabaseToolkit.RestoreAsync | src/SqlDatabaseToolkit/SqlDatabaseToolkit.cs:65-79 | the loop over the databases leaves the log and outcome of the restore run over all configured databases |
| Toolkit.SqlDatabaseToolkit.BackupCoreAsync | src/SqlDatabaseToolkit/SqlDatabaseToolkit.cs:115-155 | issues the backup statement and rethrows its exception |
| Toolkit.SqlDatabaseToolkit.RestoreCoreAsync | src/SqlDatabaseToolkit/SqlDatabaseToolkit.cs:165-211 | queries the file list, then runs the three-statement sequence; the first exception is rethrown |
| Toolkit.SqlDatabaseToolkit.GetFilePairsAsync | src/SqlDatabaseToolkit/SqlDatabaseToolkit.cs:216-254 | issues the file-list query and maps its rows to relocated pairs |
| Toolkit.SqlDatabaseToolkit.RestoreCurrentlyAsync | src/SqlDatabaseToolkit/SqlDatabaseToolkit.cs:256-301 | builds the restore text clause by clause, which gives exactly the prefix-plus-clauses text, then issues offline, restore and online, stopping at the first exception |
| DbConnectionExtensions.EffectiveTimeout | src/SqlDatabaseToolkit/DbConnectionExtensions.cs:27 | a given timeout is used as is; a missing one becomes 5 seconds |
| DbConnectionExtensions.Combined | src/SqlDatabaseToolkit/DbConnectionExtensions.cs:46-60 | without an output set the input set is kept; without an input set the output set is used; with both, the keys are the union and each name owned by one set keeps its value |
| DbConnectionExtensions.CombineParameters | src/SqlDatabaseToolkit/DbConnectionExtensions.cs:46-60 | the imperative merge returns the combined set |
| DbConnectionExtensions.ExecuteSql | src/SqlDatabaseToolkit/DbConnectionExtensions.cs:17-44 | a null connection fails with an argument error before anything is issued; otherwise exactly one statement is issued, with the merged parameters and the effective timeout, and the executor's exception or affected-row count is returned unchanged |
| FileSystems.Apply | src/SqlDatabaseToolkit/BackupFileStore.cs:85 | every attempt is recorded in the history; a failed attempt leaves the files unchanged |
| FileSystems.ApplyFrame | src/SqlDatabaseToolkit/BackupFileStore.cs:163 | an attempt writes at most its target path |
| FileSystems.FileSystem.Exists | src/SqlDatabaseToolkit/BackupFileStore.cs:77 | true exactly when the path holds a file |
| FileSystems.FileSystem.Delete | src/SqlDatabaseToolkit/BackupFileStore.cs:85 | one delete attempt on the current state |
| FileSystems.FileSystem.Create | src/SqlDatabaseToolkit/BackupFileStore.cs:109-110 | one create/truncate attempt that leaves an empty archive |
| FileSystems.FileSystem.AddEntry | src/SqlDatabaseToolkit/BackupFileStore.cs:113-125 | one entry attempt; a missing source fails with FileNotFound and leaves the archive as it was |
| FileSystems.FileSystem.Copy | src/SqlDatabaseToolkit/BackupFileStore.cs:163 | one non-overwriting copy attempt; an existing destination fails with FileExists |
| BackupFileStores.BundlePath | src/SqlDatabaseToolkit/BackupFileStore.cs:40-41 | the bundle lies in the backup directory under BundleName. BackupPathIsNotBundle and BundleNotSelected show no backup file is the bundle |
| BackupFileStores.ArchivePath | src/SqlDatabaseToolkit/BackupFileStore.cs:161-162 | the archive directory combined with the bundle's file name. ArchivePathOfBundle shows it is `Combine(ArchiveDirectory, BundleName)` |
| BackupFileStores.BundleName | src/SqlDatabaseToolkit/BackupFileStore.cs:40 | the bundle name is the timestamp's `yyyyMMddHHmm` rendering (FormatMinute, whose field layout FormatMinuteFields proves) followed by `.zip`: sixteen characters, with no separator |
| BackupFileStores.BundleNameMinute | src/SqlDatabaseToolkit/BackupFileStore.cs:40 | two uploads name their bundles alike exactly when their timestamps share the minute |
| BackupFileStores.ArchivePathOfBundle | src/SqlDatabaseToolkit/BackupFileStore.cs:161-162 | the archive copy is `Combine(ArchiveDirectory, <bundle name>)` and ends in `.zip` |
| BackupFileStores.BackupFilePaths | src/SqlDatabaseToolkit/BackupFileStore.cs:43-44 | one backup path per configured database, in configuration order |
| BackupFileStores.SelectExisting | src/SqlDatabaseToolkit/BackupFileStore.cs:43-47 | a path is selected exactly when it is configured and exists; nothing is added |
| BackupFileStores.SelectExistingAppend | src/SqlDatabaseToolkit/BackupFileStore.cs:43-47 | selection keeps the configuration order |
| BackupFileStores.SelectAllExisting | src/SqlDatabaseToolkit/BackupFileStore.cs:43-47 | when every configured file exists, none is skipped |
| BackupFileStores.EntryOf | src/SqlDatabaseToolkit/BackupFileStore.cs:113-125 | the entry made from one file: its file name, last-write time and content. AddEntryApplied shows a completed addition appends exactly it |
| BackupFileStores.BundleEntries | src/SqlDatabaseToolkit/BackupFileStore.cs:111-144 | the entries made from the files, in order. BundleEntriesIndex gives it entry by entry, and CompressContent and UploadSuccess show it is the bundle's content |
| BackupFileStores.BundleEntriesIndex | src/SqlDatabaseToolkit/BackupFileStore.cs:111-114 | the bundle has one entry per file, the i-th made from the i-th file |
| BackupFileStores.SafelyDeleted | src/SqlDatabaseToolkit/BackupFileStore.cs:75-92 | nothing happens to an absent path; a present one gets one delete attempt; afterwards the path is absent unless that delete failed, in which case nothing else changed |
| BackupFileStores.SafelyDeletedFrame | src/SqlDatabaseToolkit/BackupFileStore.cs:75-92 | a safe delete writes no other path |
| BackupFileStores.AddEntries | src/SqlDatabaseToolkit/BackupFileStore.cs:111-144 | adding entries only appends to the history |
| BackupFileStores.AddEntriesFrame | src/SqlDatabaseToolkit/BackupFileStore.cs:111-144 | adding entries writes nothing but the archive, and attempts only entry additions |
| BackupFileStores.AddEntriesFailureStable | src/SqlDatabaseToolkit/BackupFileStore.cs:118-143 | once an entry fails, the remaining files are not attempted |
| BackupFileStores.AddEntryApplied | src/SqlDatabaseToolkit/BackupFileStore.cs:113-125 | a completed entry addition appends an entry with the file's name, last-write time and content |
| BackupFileStores.AddEntriesContent | src/SqlDatabaseToolkit/BackupFileStore.cs:111-125 | entries added one by one land after the archive's existing ones, one per file, in order |
| BackupFileStores.Compress | src/SqlDatabaseToolkit/BackupFileStore.cs:101-153 | a create, then one entry addition per file until the first failure. CompressContent, CompressFrame and CompressAttempts state its outcome, what it writes and what it attempts |
| BackupFileStores.CompressContent | src/SqlDatabaseToolkit/BackupFileStore.cs:109-125 | a completed compression changes only the bundle path, which then holds a fresh archive with one entry per file, whatever was there before |
| BackupFileStores.CompressFrame | src/SqlDatabaseToolkit/BackupFileStore.cs:106-152 | a compression writes at most the bundle path |
| BackupFileStores.CompressAttempts | src/SqlDatabaseToolkit/BackupFileStore.cs:109-113 | a compression attempts the create first and then only entry additions |
| BackupFileStores.UploadBundle | src/SqlDatabaseToolkit/BackupFileStore.cs:48-68 | the stale-bundle delete, the compression, the copy, and the final delete. The UploadBundle* lemmas state its frame, its order of attempts, its failure cases and its success |
| BackupFileStores.Upload | src/SqlDatabaseToolkit/BackupFileStore.cs:38-69 | UploadBundle on the existing configured `.bak` files, the bundle path and the archive path. UploadKeepsBackupFiles, UploadSuccess and UploadRefusesExistingArchive state what it promises |
| BackupFileStores.UploadBundleFrame | src/SqlDatabaseToolkit/BackupFileStore.cs:38-69 | the upload steps write no path but the bundle and its archive copy, and only append to the history |
| BackupFileStores.UploadBundleKeeps | src/SqlDatabaseToolkit/BackupFileStore.cs:38-69 | every other file comes through unchanged |
| BackupFileStores.UploadBundleRemovesBundle | src/SqlDatabaseToolkit/BackupFileStore.cs:61-68 | afterwards the local bundle is gone, unless the last attempt, deleting it, failed |
| BackupFileStores.UploadBundleDeletesStaleFirst | src/SqlDatabaseToolkit/BackupFileStore.cs:50-51 | a stale bundle gets a delete attempt before anything else, and the create comes next |
| BackupFileStores.UploadBundleCompressionFailure | src/SqlDatabaseToolkit/BackupFileStore.cs:54-58 | a compression failure is returned as it was and no copy is attempted |
| BackupFileStores.UploadBundleSuccess | src/SqlDatabaseToolkit/BackupFileStore.cs:61-68 | a completed upload puts a bundle with one entry per file, stamped with the current time, at an archive path that did not exist before |
| BackupFileStores.UploadBundleRefusesExisting | src/SqlDatabaseToolkit/BackupFileStore.cs:159-164 | an existing archive path, or one equal to the bundle path, makes a compressed bundle fail to upload with FileExists |
| BackupFileStores.BackupPathIsNotBundle | src/SqlDatabaseToolkit/BackupFileStore.cs:40-44 | no backup path is the bundle path or its archive copy (`.bak` is not `.zip`) |
| BackupFileStores.BundleNotSelected | src/SqlDatabaseToolkit/BackupFileStore.cs:40-47 | the bundle is never among the files packed, and every packed file exists |
| BackupFileStores.UploadKeepsBackupFiles | src/SqlDatabaseToolkit/BackupFileStore.cs:38-69 | an upload neither changes nor removes any configured `.bak` file |
| BackupFileStores.UploadSuccess | src/SqlDatabaseToolkit/BackupFileStore.cs:38-69 | a completed upload leaves, at `Combine(ArchiveDirectory, yyyyMMddHHmm.zip)`, a new bundle with one entry per existing configured `.bak` file, in configuration order, each carrying the file's name, last-write time and content |
| BackupFileStores.UploadRefusesExistingArchive | src/SqlDatabaseToolkit/BackupFileStore.cs:159-164 | an archive path that already exists makes the upload fail with FileExists once the bundle is compressed |
| BackupFileStores.BackupFileStore.UploadAsync | src/SqlDatabaseToolkit/BackupFileStore.cs:38-69 | the method leaves the files, history and outcome of the upload function |
| BackupFileStores.BackupFileStore.DeleteSafely | src/SqlDatabaseToolkit/BackupFileStore.cs:75-92 | checks existence, then makes one delete attempt whose failure is swallowed |
| BackupFileStores.BackupFileStore.CompressCoreAsync | src/SqlDatabaseToolkit/BackupFileStore.cs:101-153 | opens the archive, then adds the files one by one in a loop, stopping at the first failure |
| BackupFileStores.CopiedToArchive | src/SqlDatabaseToolkit/BackupFileStore.cs:161-163 | one non-overwriting copy of the bundle to ArchivePath. UploadCore performs it, and ArchivePathOfBundle gives its destination for the bundle of an upload |
| BackupFileStores.BackupFileStore.UploadCore | src/SqlDatabaseToolkit/BackupFileStore.cs:159-164 | one non-overwriting copy to `Combine(ArchiveDirectory, GetFileName(bundle))` |

## Left out

- `PrepareDirectory`, which creates a directory and edits its access rules through Windows security APIs, is not modelled. Neither run models the directory existing afterwards.
- Opening and disposing connections, and Dapper's `ExecuteAsync`/`QueryAsync`, are replaced by the abstract `Server`. The responder decides each answer, including connection failures and cancellation.
- The file-list rows carry only `LogicalName` and `PhysicalName`, the two columns the toolkit reads.
- The executor's view of a database's state is derived from the texts of the ALTER statements. What a RESTORE does to the database's files is not modelled.
- Async/await and `CancellationToken` are not modelled. A cancelled statement or file operation is one more failure decided by the responder or the fault oracle.
- Logging, `Stopwatch`, and the difference between logging and rethrowing are left out. A failure is modelled by the value it propagates.
- DEFLATE, the zip container format and stream copying are left out. An entry holds the source file's bytes, so compression is exact.
- BackupFileStores.AddEntryApplied: an entry keeps the file's exact last-write time. A zip entry stores DOS time, with 2-second resolution, and setting `LastWriteTime` outside 1980–2107 throws (BackupFileStore.cs:114). Neither the rounding nor that exception is modelled.
- Failure of the archive's final write-out when it is disposed is not modelled. Nor is the partially written entry left behind when the source open fails after the entry is created. In both cases the bundle is deleted on the failure path anyway.
- `FileInfo` caching is not modelled. The existence check and the last-write times are taken from the state at the start of the upload, and nothing in between changes the `.bak` files.
- Paths are compared as plain strings. Windows' case-insensitive names, `.` and `..` segments, and two spellings of one file (relative and absolute) are not modelled. UploadSuccess and UploadRefusesExistingArchive rely on distinct strings being distinct files.
- `yyyyMMddHHmm` is rendered with the Gregorian calendar. The source formats with the current culture's calendar.
- `Combine` and `GetFileName`: rooted second arguments, drive letters, and `:` as a separator are not modelled, nor are invalid path characters.
- DbConnectionExtensions.Combined: which value a name present in both parameter sets receives is left unspecified. The body keeps the output set's value.
- DbConnectionExtensions.ExecuteSql: "no parameter object" binds the empty map, and the transaction argument is dropped. `ExecuteSqlAsync` is the same method, because awaiting changes nothing in the model.
- The interfaces, dependency-injection wiring, the two `Program.cs` entry points and their exit codes are not part of this model.
