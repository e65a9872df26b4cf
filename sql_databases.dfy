/** The configuration values: one database entry and the option set the toolkit reads. */
module SqlDatabases {
  import opened Paths

  const BackupExtension := ".bak"

  /** One configured database. */
  datatype SqlDatabase = SqlDatabase(Name: string) {

    /** `<Name>.bak`. */
    function BackupFileName(): (r: string)
      ensures |r| == |Name| + |BackupExtension| && EndsWith(r, BackupExtension) && r[..|Name|] == Name
      ensures HasNoSeparator(Name) ==> r != "" && HasNoSeparator(r)
    {
      Name + BackupExtension
    }

    /** The backup file of this database inside the given directory. */
    function ResolveBackupFilePath(directory: string): (r: string)
      ensures EndsWith(r, BackupFileName()) && |directory| <= |r| && r[..|directory|] == directory
    {
      Combine(directory, BackupFileName())
    }
  }

  /**
   * The option set. ArchiveDirectory is read by the backup store although the options
   * class of the source does not declare it.
   */
  datatype SqlDatabaseOptions = SqlDatabaseOptions(
    ConnectionString: string,
    BackupDirectory: string,
    RestoreDirectory: string,
    ArchiveDirectory: string,
    CommandTimeoutSeconds: int,
    Databases: seq<SqlDatabase>)

  /** Every resolved backup path ends in ".bak". */
  lemma BackupPathEndsWithBak(db: SqlDatabase, directory: string)
    ensures EndsWith(db.ResolveBackupFilePath(directory), BackupExtension)
  {
    EndsWithTransitive(db.ResolveBackupFilePath(directory), db.BackupFileName(), BackupExtension);
  }

  /** For a separator-free name, the file name of the resolved path is `<Name>.bak`. */
  lemma BackupPathFileName(db: SqlDatabase, directory: string)
    requires HasNoSeparator(db.Name)
    ensures GetFileName(db.ResolveBackupFilePath(directory)) == db.BackupFileName()
  {
    FileNameOfCombine(directory, db.BackupFileName());
  }

  /** In one directory, distinct separator-free names resolve to distinct paths. */
  lemma DistinctNamesDistinctPaths(a: SqlDatabase, b: SqlDatabase, directory: string)
    requires HasNoSeparator(a.Name) && HasNoSeparator(b.Name) && a.Name != b.Name
    ensures a.ResolveBackupFilePath(directory) != b.ResolveBackupFilePath(directory)
  {
    BackupPathFileName(a, directory);
    BackupPathFileName(b, directory);
    var fa, fb := a.BackupFileName(), b.BackupFileName();
    assert fa[..|fa| - 4] == a.Name && fb[..|fb| - 4] == b.Name;
  }
}
