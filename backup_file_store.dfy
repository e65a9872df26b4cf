/**
 * The backup bundle upload: the configured databases' backup files that exist are packed
 * into one zip archive named after the minute of the backup, the archive is copied into the
 * archive directory without overwriting, and the local archive is removed again.
 *
 * The functions give the meaning of each step on a Disk value; the methods of BackupFileStore
 * perform the steps on a FileSystem and are proved to agree with them.
 */
module BackupFileStores {
  import opened Results
  import opened Paths
  import opened Timestamps
  import opened SqlDatabases
  import opened FileSystems

  const ZipExtension := ".zip"

  // ------------------------------------------------------------------ naming

  /** `yyyyMMddHHmm.zip`: twelve zero-padded digits and the zip extension. */
  function BundleName(timestamp: Timestamp): (r: string)
    ensures |r| == 16 && r[..12] == FormatMinute(timestamp) && AllDigits(r[..12]) && r[12..] == ZipExtension
    ensures EndsWith(r, ZipExtension) && HasNoSeparator(r)
  {
    var digits := FormatMinute(timestamp);
    assert (digits + ZipExtension)[..12] == digits;
    digits + ZipExtension
  }

  /** Two uploads name their bundles alike exactly when their timestamps share the minute. */
  lemma BundleNameMinute(a: Timestamp, b: Timestamp)
    ensures BundleName(a) == BundleName(b) <==> SameMinute(a, b)
  {
    FormatMinuteInjective(a, b);
    assert BundleName(a)[..12] == FormatMinute(a) && BundleName(b)[..12] == FormatMinute(b);
  }

  /** The local bundle, in the backup directory. */
  function BundlePath(options: SqlDatabaseOptions, timestamp: Timestamp): Path {
    Combine(options.BackupDirectory, BundleName(timestamp))
  }

  /** Where a bundle is copied: the archive directory, under the bundle's own file name. */
  function ArchivePath(options: SqlDatabaseOptions, zipFilePath: Path): Path {
    Combine(options.ArchiveDirectory, GetFileName(zipFilePath))
  }

  /** The archive copy of a bundle carries the bundle's name. */
  lemma ArchivePathOfBundle(options: SqlDatabaseOptions, timestamp: Timestamp)
    ensures ArchivePath(options, BundlePath(options, timestamp)) == Combine(options.ArchiveDirectory, BundleName(timestamp))
    ensures EndsWith(ArchivePath(options, BundlePath(options, timestamp)), ZipExtension)
  {
    FileNameOfCombine(options.BackupDirectory, BundleName(timestamp));
    EndsWithTransitive(ArchivePath(options, BundlePath(options, timestamp)), BundleName(timestamp), ZipExtension);
  }

  /** The backup file path of every configured database, in configuration order. */
  function BackupFilePaths(options: SqlDatabaseOptions): (r: seq<Path>)
    ensures |r| == |options.Databases|
    ensures forall i :: 0 <= i < |r| ==> r[i] == options.Databases[i].ResolveBackupFilePath(options.BackupDirectory)
  {
    seq(|options.Databases|, i requires 0 <= i < |options.Databases| =>
      options.Databases[i].ResolveBackupFilePath(options.BackupDirectory))
  }

  /** Every path of the list exists. */
  predicate AllPresent(paths: seq<Path>, files: map<Path, FileData>) {
    forall i :: 0 <= i < |paths| ==> paths[i] in files
  }

  /** The paths that exist, in their original order. */
  function SelectExisting(paths: seq<Path>, files: map<Path, FileData>): (r: seq<Path>)
    ensures forall p :: p in r <==> p in paths && p in files
    ensures |r| <= |paths|
  {
    if paths == [] then []
    else
      var rest := SelectExisting(paths[..|paths| - 1], files);
      assert paths == paths[..|paths| - 1] + [paths[|paths| - 1]];
      if paths[|paths| - 1] in files then rest + [paths[|paths| - 1]] else rest
  }

  /** Selecting from two lists one after the other keeps the order of both. */
  lemma {:induction false} SelectExistingAppend(a: seq<Path>, b: seq<Path>, files: map<Path, FileData>)
    ensures SelectExisting(a + b, files) == SelectExisting(a, files) + SelectExisting(b, files)
    decreases |b|
  {
    if b != [] {
      var b' := b[..|b| - 1];
      assert (a + b)[..|a + b| - 1] == a + b';
      SelectExistingAppend(a, b', files);
    } else {
      assert a + b == a;
    }
  }

  /** When every path exists nothing is skipped. */
  lemma {:induction false} SelectAllExisting(paths: seq<Path>, files: map<Path, FileData>)
    requires AllPresent(paths, files)
    ensures SelectExisting(paths, files) == paths
    decreases |paths|
  {
    if paths != [] {
      SelectAllExisting(paths[..|paths| - 1], files);
      assert paths == paths[..|paths| - 1] + [paths[|paths| - 1]];
    }
  }

  // ------------------------------------------------------------------ the bundle

  /** The entry a file becomes: its file name, its last-write time and its content. */
  function EntryOf(files: map<Path, FileData>, path: Path): ZipEntry
    requires path in files
  {
    ZipEntry(GetFileName(path), files[path].lastWriteTime, files[path].content)
  }

  /** One entry per file, in order. */
  function BundleEntries(sources: seq<Path>, files: map<Path, FileData>): seq<ZipEntry>
    requires AllPresent(sources, files)
  {
    if sources == [] then []
    else BundleEntries(sources[..|sources| - 1], files) + [EntryOf(files, sources[|sources| - 1])]
  }

  /** The bundle holds exactly one entry per file, the i-th entry made from the i-th file. */
  lemma {:induction false} BundleEntriesIndex(sources: seq<Path>, files: map<Path, FileData>)
    requires AllPresent(sources, files)
    ensures |BundleEntries(sources, files)| == |sources|
    ensures forall i :: 0 <= i < |sources| ==> BundleEntries(sources, files)[i] == EntryOf(files, sources[i])
    decreases |sources|
  {
    if sources != [] {
      BundleEntriesIndex(sources[..|sources| - 1], files);
    }
  }

  /** DeleteSafely: nothing when the path is absent; otherwise one delete attempt whose failure is swallowed. */
  function SafelyDeleted(disk: Disk, env: Env, path: Path): (r: Disk)
    ensures path !in disk.files ==> r == disk
    ensures path in disk.files ==> r == Apply(disk, env, DeleteOp(path)).0
    ensures path in r.files ==> path in disk.files && r.files == disk.files &&
                                r.history == disk.history + [Attempt(DeleteOp(path), false)]
  {
    if path !in disk.files then disk else Apply(disk, env, DeleteOp(path)).0
  }

  /** The entries added one by one to an open archive; the first failure ends the loop. */
  function AddEntries(disk: Disk, env: Env, zipFilePath: Path, sources: seq<Path>): (r: (Disk, Outcome<FsError>))
    ensures disk.history <= r.0.history
    decreases |sources|
  {
    if sources == [] then (disk, Success)
    else
      var prev := AddEntries(disk, env, zipFilePath, sources[..|sources| - 1]);
      if prev.1.Failure? then prev
      else
        var source := sources[|sources| - 1];
        Apply(prev.0, env, AddEntryOp(zipFilePath, GetFileName(source), source))
  }

  /** DeleteSafely writes at most the path it deletes. */
  lemma SafelyDeletedFrame(disk: Disk, env: Env, path: Path)
    ensures AgreeOutside(disk.files, SafelyDeleted(disk, env, path).files, {path})
  {
    ApplyFrame(disk, env, DeleteOp(path));
  }

  /** Adding entries writes at most the archive, and attempts nothing but entry additions. */
  lemma {:induction false} AddEntriesFrame(disk: Disk, env: Env, zipFilePath: Path, sources: seq<Path>)
    ensures var r := AddEntries(disk, env, zipFilePath, sources).0;
      AgreeOutside(disk.files, r.files, {zipFilePath}) &&
      forall k :: |disk.history| <= k < |r.history| ==> r.history[k].op.AddEntryOp?
    decreases |sources|
  {
    if sources != [] {
      var shorter := sources[..|sources| - 1];
      var source := sources[|sources| - 1];
      var prev := AddEntries(disk, env, zipFilePath, shorter);
      AddEntriesFrame(disk, env, zipFilePath, shorter);
      if prev.1.Success? {
        ApplyFrame(prev.0, env, AddEntryOp(zipFilePath, GetFileName(source), source));
        AgreeOutsideTrans(disk.files, prev.0.files, AddEntries(disk, env, zipFilePath, sources).0.files, {zipFilePath}, {zipFilePath});
        assert {zipFilePath} + {zipFilePath} == {zipFilePath};
      }
    }
  }

  /** Once adding an entry has failed, the remaining files are not attempted. */
  lemma {:induction false} AddEntriesFailureStable(disk: Disk, env: Env, zipFilePath: Path, sources: seq<Path>, i: nat)
    requires i <= |sources| && AddEntries(disk, env, zipFilePath, sources[..i]).1.Failure?
    ensures AddEntries(disk, env, zipFilePath, sources) == AddEntries(disk, env, zipFilePath, sources[..i])
    decreases |sources| - i
  {
    if i < |sources| {
      var shorter := sources[..|sources| - 1];
      assert shorter[..i] == sources[..i];
      AddEntriesFailureStable(disk, env, zipFilePath, shorter, i);
    } else {
      assert sources[..i] == sources;
    }
  }

  /** CompressCoreAsync: the archive is opened with create/truncate, then every entry is added. */
  function Compress(disk: Disk, env: Env, zipFilePath: Path, sources: seq<Path>): (r: (Disk, Outcome<FsError>))
  {
    var created := Apply(disk, env, CreateOp(zipFilePath));
    if created.1.Failure? then created else AddEntries(created.0, env, zipFilePath, sources)
  }

  /** UploadCore: a copy that does not overwrite, from the bundle to its archive path. */
  function CopiedToArchive(disk: Disk, env: Env, options: SqlDatabaseOptions, zipFilePath: Path): (Disk, Outcome<FsError>) {
    Apply(disk, env, CopyOp(zipFilePath, ArchivePath(options, zipFilePath)))
  }

  /**
   * The file operations of an upload, for a bundle path, its archive path and the files to
   * pack: a stale bundle is removed, the bundle is compressed (on failure it is removed again
   * and the failure returned), copied to the archive, and the local bundle removed whatever
   * the copy's outcome.
   */
  function UploadBundle(disk: Disk, env: Env, zipFilePath: Path, destination: Path, sources: seq<Path>): (Disk, Outcome<FsError>) {
    var cleared := SafelyDeleted(disk, env, zipFilePath);
    var compressed := Compress(cleared, env, zipFilePath, sources);
    if compressed.1.Failure? then (SafelyDeleted(compressed.0, env, zipFilePath), compressed.1)
    else
      var copied := Apply(compressed.0, env, CopyOp(zipFilePath, destination));
      (SafelyDeleted(copied.0, env, zipFilePath), copied.1)
  }

  /** UploadAsync: the existing backup files are selected first, then packed, copied and cleaned up. */
  function Upload(disk: Disk, env: Env, options: SqlDatabaseOptions, timestamp: Timestamp): (Disk, Outcome<FsError>) {
    var zipFilePath := BundlePath(options, timestamp);
    UploadBundle(disk, env, zipFilePath, ArchivePath(options, zipFilePath),
                 SelectExisting(BackupFilePaths(options), disk.files))
  }

  // ------------------------------------------------------------------ what a compression holds

  /** A file list's entries depend only on the files it names. */
  lemma {:induction false} BundleEntriesFrame(sources: seq<Path>, a: map<Path, FileData>, b: map<Path, FileData>, written: Path)
    requires AllPresent(sources, a) && written !in sources
    requires AgreeOutside(a, b, {written})
    ensures AllPresent(sources, b)
    ensures BundleEntries(sources, a) == BundleEntries(sources, b)
    decreases |sources|
  {
    forall i | 0 <= i < |sources| ensures sources[i] in b {
      AgreeOutsideAt(a, b, {written}, sources[i]);
    }
    if sources != [] {
      var shorter := sources[..|sources| - 1];
      BundleEntriesFrame(shorter, a, b, written);
      AgreeOutsideAt(a, b, {written}, sources[|sources| - 1]);
    }
  }

  /** One entry addition that completes appends the source's entry to the open archive. */
  lemma AddEntryApplied(disk: Disk, env: Env, zipFilePath: Path, source: Path)
    requires Apply(disk, env, AddEntryOp(zipFilePath, GetFileName(source), source)).1 == Success
    ensures source in disk.files && zipFilePath in disk.files && disk.files[zipFilePath].content.Archive?
    ensures Apply(disk, env, AddEntryOp(zipFilePath, GetFileName(source), source)).0.files
         == disk.files[zipFilePath := FileData(Archive(disk.files[zipFilePath].content.entries + [EntryOf(disk.files, source)]), env.now)]
  {
  }

  /** A list whose last path and all paths before it exist has only existing paths. */
  lemma AllPresentSnoc(paths: seq<Path>, files: map<Path, FileData>)
    requires paths != [] && AllPresent(paths[..|paths| - 1], files) && paths[|paths| - 1] in files
    ensures AllPresent(paths, files)
  {
    forall i | 0 <= i < |paths| - 1 ensures paths[i] in files {
      assert paths[..|paths| - 1][i] == paths[i];
    }
  }

  /** One more completed entry addition extends the archive by the next file's entry. */
  lemma AddEntriesStep(disk: Disk, prev: Disk, env: Env, zipFilePath: Path, sources: seq<Path>)
    requires sources != [] && sources[|sources| - 1] != zipFilePath
    requires zipFilePath in disk.files && disk.files[zipFilePath].content.Archive?
    requires AgreeOutside(disk.files, prev.files, {zipFilePath})
    requires AllPresent(sources[..|sources| - 1], disk.files)
    requires zipFilePath in prev.files &&
             prev.files[zipFilePath].content
               == Archive(disk.files[zipFilePath].content.entries + BundleEntries(sources[..|sources| - 1], disk.files))
    requires var source := sources[|sources| - 1];
      Apply(prev, env, AddEntryOp(zipFilePath, GetFileName(source), source)).1 == Success
    ensures AllPresent(sources, disk.files)
    ensures var source := sources[|sources| - 1];
      var files := Apply(prev, env, AddEntryOp(zipFilePath, GetFileName(source), source)).0.files;
      zipFilePath in files && files[zipFilePath].lastWriteTime == env.now &&
      files[zipFilePath].content == Archive(disk.files[zipFilePath].content.entries + BundleEntries(sources, disk.files))
  {
    var shorter := sources[..|sources| - 1];
    var source := sources[|sources| - 1];
    AddEntryApplied(prev, env, zipFilePath, source);
    AgreeOutsideAt(disk.files, prev.files, {zipFilePath}, source);
    AllPresentSnoc(sources, disk.files);
    var entry := EntryOf(disk.files, source);
    var old_entries := disk.files[zipFilePath].content.entries;
    assert BundleEntries(sources, disk.files) == BundleEntries(shorter, disk.files) + [entry];
    assert old_entries + BundleEntries(sources, disk.files) == (old_entries + BundleEntries(shorter, disk.files)) + [entry];
  }

  /** Entries added one by one to an archive land after its existing entries, one per file, in order. */
  lemma {:induction false} AddEntriesContent(disk: Disk, env: Env, zipFilePath: Path, sources: seq<Path>)
    requires zipFilePath in disk.files && disk.files[zipFilePath].content.Archive? && zipFilePath !in sources
    requires AddEntries(disk, env, zipFilePath, sources).1 == Success
    ensures AllPresent(sources, disk.files)
    ensures var files := AddEntries(disk, env, zipFilePath, sources).0.files;
      zipFilePath in files &&
      files[zipFilePath].content == Archive(disk.files[zipFilePath].content.entries + BundleEntries(sources, disk.files)) &&
      files[zipFilePath].lastWriteTime == (if sources == [] then disk.files[zipFilePath].lastWriteTime else env.now)
    decreases |sources|
  {
    if sources == [] {
      assert disk.files[zipFilePath].content.entries + [] == disk.files[zipFilePath].content.entries;
    } else {
      var shorter := sources[..|sources| - 1];
      var prev := AddEntries(disk, env, zipFilePath, shorter);
      assert prev.1 == Success;
      AddEntriesContent(disk, env, zipFilePath, shorter);
      AddEntriesFrame(disk, env, zipFilePath, shorter);
      AddEntriesStep(disk, prev.0, env, zipFilePath, sources);
    }
  }

  /**
   * A completed compression leaves exactly one change: the bundle path holds a fresh archive
   * with one entry per source file. Whatever stood at the bundle path before is gone, so a
   * rerun in the same minute regenerates the bundle rather than appending to it.
   */
  lemma CompressContent(disk: Disk, env: Env, zipFilePath: Path, sources: seq<Path>)
    requires zipFilePath !in sources
    requires Compress(disk, env, zipFilePath, sources).1 == Success
    ensures AllPresent(sources, disk.files)
    ensures Compress(disk, env, zipFilePath, sources).0.files
         == disk.files[zipFilePath := FileData(Archive(BundleEntries(sources, disk.files)), env.now)]
  {
    var created := Apply(disk, env, CreateOp(zipFilePath));
    var files := Compress(disk, env, zipFilePath, sources).0.files;
    AddEntriesContent(created.0, env, zipFilePath, sources);
    AddEntriesFrame(created.0, env, zipFilePath, sources);
    assert [] + BundleEntries(sources, created.0.files) == BundleEntries(sources, created.0.files);
    ApplyFrame(disk, env, CreateOp(zipFilePath));
    BundleEntriesFrame(sources, created.0.files, disk.files, zipFilePath);
    AgreeOutsideTrans(disk.files, created.0.files, files, {zipFilePath}, {zipFilePath});
    assert {zipFilePath} + {zipFilePath} == {zipFilePath};
    AgreeOutsideUpdate(disk.files, files, zipFilePath);
  }

  /** A compression writes at most the bundle path. */
  lemma CompressFrame(disk: Disk, env: Env, zipFilePath: Path, sources: seq<Path>)
    ensures AgreeOutside(disk.files, Compress(disk, env, zipFilePath, sources).0.files, {zipFilePath})
  {
    var created := Apply(disk, env, CreateOp(zipFilePath));
    ApplyFrame(disk, env, CreateOp(zipFilePath));
    if created.1.Success? {
      AddEntriesFrame(created.0, env, zipFilePath, sources);
      AgreeOutsideTrans(disk.files, created.0.files, Compress(disk, env, zipFilePath, sources).0.files,
                        {zipFilePath}, {zipFilePath});
      AgreeOutsideWiden(disk.files, Compress(disk, env, zipFilePath, sources).0.files,
                        {zipFilePath} + {zipFilePath}, {zipFilePath});
    }
  }

  /** A compression attempts the create first and then only entry additions. */
  lemma CompressAttempts(disk: Disk, env: Env, zipFilePath: Path, sources: seq<Path>)
    ensures var h := Compress(disk, env, zipFilePath, sources).0.history;
      |disk.history| < |h| && h[..|disk.history|] == disk.history &&
      h[|disk.history|].op == CreateOp(zipFilePath) &&
      forall k :: |disk.history| < k < |h| ==> h[k].op.AddEntryOp?
  {
    var created := Apply(disk, env, CreateOp(zipFilePath));
    AddEntriesFrame(created.0, env, zipFilePath, sources);
  }

  // ------------------------------------------------------------------ what the file operations of an upload do

  /** An upload writes no path but the bundle and its archive copy, and only appends to the history. */
  lemma UploadBundleFrame(disk: Disk, env: Env, zipFilePath: Path, destination: Path, sources: seq<Path>)
    ensures var r := UploadBundle(disk, env, zipFilePath, destination, sources).0;
      AgreeOutside(disk.files, r.files, {zipFilePath, destination}) && disk.history <= r.history
  {
    var cleared := SafelyDeleted(disk, env, zipFilePath);
    var compressed := Compress(cleared, env, zipFilePath, sources);
    var r := UploadBundle(disk, env, zipFilePath, destination, sources).0;
    var z, zd := {zipFilePath}, {zipFilePath, destination};
    SafelyDeletedFrame(disk, env, zipFilePath);
    CompressFrame(cleared, env, zipFilePath, sources);
    AgreeOutsideTrans(disk.files, cleared.files, compressed.0.files, z, z);
    if compressed.1.Failure? {
      SafelyDeletedFrame(compressed.0, env, zipFilePath);
      AgreeOutsideTrans(disk.files, compressed.0.files, r.files, z + z, z);
    } else {
      var copied := Apply(compressed.0, env, CopyOp(zipFilePath, destination));
      ApplyFrame(compressed.0, env, CopyOp(zipFilePath, destination));
      SafelyDeletedFrame(copied.0, env, zipFilePath);
      AgreeOutsideTrans(disk.files, compressed.0.files, copied.0.files, z + z, {destination});
      AgreeOutsideTrans(disk.files, copied.0.files, r.files, z + z + {destination}, z);
    }
    AgreeOutsideWiden(disk.files, r.files, if compressed.1.Failure? then z + z + z else z + z + {destination} + z, zd);
  }

  /** Files at any other paths come through an upload unchanged. */
  lemma UploadBundleKeeps(disk: Disk, env: Env, zipFilePath: Path, destination: Path, sources: seq<Path>, kept: seq<Path>)
    requires forall p :: p in kept ==> p != zipFilePath && p != destination
    ensures var r := UploadBundle(disk, env, zipFilePath, destination, sources).0;
      forall p :: p in kept ==> (p in r.files <==> p in disk.files) && (p in disk.files ==> r.files[p] == disk.files[p])
  {
    var r := UploadBundle(disk, env, zipFilePath, destination, sources).0;
    UploadBundleFrame(disk, env, zipFilePath, destination, sources);
    forall p | p in kept
      ensures (p in r.files <==> p in disk.files) && (p in disk.files ==> r.files[p] == disk.files[p])
    {
      AgreeOutsideAt(disk.files, r.files, {zipFilePath, destination}, p);
    }
  }

  /** The local bundle is gone after an upload unless the last thing attempted, deleting it, failed. */
  lemma UploadBundleRemovesBundle(disk: Disk, env: Env, zipFilePath: Path, destination: Path, sources: seq<Path>)
    ensures var r := UploadBundle(disk, env, zipFilePath, destination, sources).0;
      zipFilePath in r.files ==> |r.history| > 0 && r.history[|r.history| - 1] == Attempt(DeleteOp(zipFilePath), false)
  {
  }

  /** A stale bundle is deleted before anything else is attempted, and the bundle is created next. */
  lemma UploadBundleDeletesStaleFirst(disk: Disk, env: Env, zipFilePath: Path, destination: Path, sources: seq<Path>)
    ensures var h := UploadBundle(disk, env, zipFilePath, destination, sources).0.history;
      var n := |disk.history|;
      if zipFilePath in disk.files then n + 1 < |h| && h[n].op == DeleteOp(zipFilePath) && h[n + 1].op == CreateOp(zipFilePath)
      else n < |h| && h[n].op == CreateOp(zipFilePath)
  {
    var cleared := SafelyDeleted(disk, env, zipFilePath);
    var compressed := Compress(cleared, env, zipFilePath, sources);
    CompressAttempts(cleared, env, zipFilePath, sources);
    var r := UploadBundle(disk, env, zipFilePath, destination, sources).0;
    assert compressed.0.history <= r.history;
  }

  /** When compression fails the upload fails with the same error and no copy is attempted. */
  lemma UploadBundleCompressionFailure(disk: Disk, env: Env, zipFilePath: Path, destination: Path, sources: seq<Path>)
    requires Compress(SafelyDeleted(disk, env, zipFilePath), env, zipFilePath, sources).1.Failure?
    ensures var r := UploadBundle(disk, env, zipFilePath, destination, sources);
      r.1 == Compress(SafelyDeleted(disk, env, zipFilePath), env, zipFilePath, sources).1 &&
      forall k :: |disk.history| <= k < |r.0.history| ==> !r.0.history[k].op.CopyOp?
  {
    var cleared := SafelyDeleted(disk, env, zipFilePath);
    CompressAttempts(cleared, env, zipFilePath, sources);
  }

  /**
   * A completed upload leaves at the archive path, which did not exist before, a bundle with
   * one entry per source file, in order.
   */
  lemma UploadBundleSuccess(disk: Disk, env: Env, zipFilePath: Path, destination: Path, sources: seq<Path>)
    requires zipFilePath !in sources && AllPresent(sources, disk.files)
    requires UploadBundle(disk, env, zipFilePath, destination, sources).1 == Success
    ensures var r := UploadBundle(disk, env, zipFilePath, destination, sources).0;
      destination != zipFilePath && destination !in disk.files && destination in r.files &&
      r.files[destination] == FileData(Archive(BundleEntries(sources, disk.files)), env.now)
  {
    var cleared := SafelyDeleted(disk, env, zipFilePath);
    var compressed := Compress(cleared, env, zipFilePath, sources);
    assert compressed.1 == Success;
    CompressContent(cleared, env, zipFilePath, sources);
    SafelyDeletedFrame(disk, env, zipFilePath);
    BundleEntriesFrame(sources, disk.files, cleared.files, zipFilePath);
    var copied := Apply(compressed.0, env, CopyOp(zipFilePath, destination));
    assert copied.1 == Success;
    assert destination !in compressed.0.files;
    AgreeOutsideAt(disk.files, cleared.files, {zipFilePath}, destination);
  }

  /**
   * The copy never overwrites: when the archive path already exists, or is the bundle path
   * itself, a compressed bundle fails to upload with FileExists.
   */
  lemma UploadBundleRefusesExisting(disk: Disk, env: Env, zipFilePath: Path, destination: Path, sources: seq<Path>)
    requires zipFilePath !in sources
    requires Compress(SafelyDeleted(disk, env, zipFilePath), env, zipFilePath, sources).1 == Success
    requires destination in disk.files || destination == zipFilePath
    ensures UploadBundle(disk, env, zipFilePath, destination, sources).1 == Failure(FileExists)
  {
    var cleared := SafelyDeleted(disk, env, zipFilePath);
    CompressContent(cleared, env, zipFilePath, sources);
    SafelyDeletedFrame(disk, env, zipFilePath);
    if destination != zipFilePath {
      AgreeOutsideAt(disk.files, cleared.files, {zipFilePath}, destination);
    }
  }

  // ------------------------------------------------------------------ what an upload does

  /** A backup file path can never be the bundle path or its archive copy: ".bak" is not ".zip". */
  lemma BackupPathIsNotBundle(options: SqlDatabaseOptions, timestamp: Timestamp, p: Path)
    requires p in BackupFilePaths(options)
    ensures p != BundlePath(options, timestamp)
    ensures p != ArchivePath(options, BundlePath(options, timestamp))
  {
    var i :| 0 <= i < |options.Databases| && BackupFilePaths(options)[i] == p;
    BackupPathEndsWithBak(options.Databases[i], options.BackupDirectory);
    var zipFilePath := BundlePath(options, timestamp);
    EndsWithTransitive(zipFilePath, BundleName(timestamp), ZipExtension);
    ArchivePathOfBundle(options, timestamp);
    var destination := ArchivePath(options, zipFilePath);
    assert p[|p| - 1] == 'k';
    assert zipFilePath[|zipFilePath| - 1] == 'p';
    assert destination[|destination| - 1] == 'p';
  }

  /** The bundle is never among the files packed into it, and every file packed exists. */
  lemma BundleNotSelected(options: SqlDatabaseOptions, timestamp: Timestamp, files: map<Path, FileData>)
    ensures var selected := SelectExisting(BackupFilePaths(options), files);
      BundlePath(options, timestamp) !in selected && AllPresent(selected, files)
  {
    var selected := SelectExisting(BackupFilePaths(options), files);
    if BundlePath(options, timestamp) in selected {
      BackupPathIsNotBundle(options, timestamp, BundlePath(options, timestamp));
    }
    forall i | 0 <= i < |selected| ensures selected[i] in files {
      assert selected[i] in selected;
    }
  }

  /** An upload neither changes nor removes any configured database's backup file. */
  lemma UploadKeepsBackupFiles(disk: Disk, env: Env, options: SqlDatabaseOptions, timestamp: Timestamp)
    ensures var r := Upload(disk, env, options, timestamp).0;
      forall p :: p in BackupFilePaths(options) ==>
        (p in r.files <==> p in disk.files) && (p in disk.files ==> r.files[p] == disk.files[p])
  {
    var zipFilePath := BundlePath(options, timestamp);
    forall p | p in BackupFilePaths(options) {
      BackupPathIsNotBundle(options, timestamp, p);
    }
    UploadBundleKeeps(disk, env, zipFilePath, ArchivePath(options, zipFilePath),
                      SelectExisting(BackupFilePaths(options), disk.files), BackupFilePaths(options));
  }

  /**
   * A completed upload leaves in the archive directory, under the bundle's name and at a path
   * that did not exist before, a bundle holding one entry per configured backup file that
   * exists, in configuration order, each named after its file and carrying the file's
   * last-write time and content.
   */
  lemma UploadSuccess(disk: Disk, env: Env, options: SqlDatabaseOptions, timestamp: Timestamp)
    requires Upload(disk, env, options, timestamp).1 == Success
    ensures var destination := Combine(options.ArchiveDirectory, BundleName(timestamp));
      var selected := SelectExisting(BackupFilePaths(options), disk.files);
      var r := Upload(disk, env, options, timestamp).0;
      destination !in disk.files && destination in r.files &&
      r.files[destination] == FileData(Archive(BundleEntries(selected, disk.files)), env.now)
  {
    var zipFilePath := BundlePath(options, timestamp);
    var destination := ArchivePath(options, zipFilePath);
    var selected := SelectExisting(BackupFilePaths(options), disk.files);
    BundleNotSelected(options, timestamp, disk.files);
    UploadBundleSuccess(disk, env, zipFilePath, destination, selected);
    ArchivePathOfBundle(options, timestamp);
  }

  /**
   * The copy never overwrites: once the bundle is compressed, an archive path that already
   * exists, or that is the bundle path itself, makes the upload fail with FileExists.
   */
  lemma UploadRefusesExistingArchive(disk: Disk, env: Env, options: SqlDatabaseOptions, timestamp: Timestamp)
    requires var zipFilePath := BundlePath(options, timestamp);
      var destination := ArchivePath(options, zipFilePath);
      var selected := SelectExisting(BackupFilePaths(options), disk.files);
      Compress(SafelyDeleted(disk, env, zipFilePath), env, zipFilePath, selected).1 == Success &&
      (destination in disk.files || destination == zipFilePath)
    ensures Upload(disk, env, options, timestamp).1 == Failure(FileExists)
  {
    var zipFilePath := BundlePath(options, timestamp);
    var selected := SelectExisting(BackupFilePaths(options), disk.files);
    BundleNotSelected(options, timestamp, disk.files);
    UploadBundleRefusesExisting(disk, env, zipFilePath, ArchivePath(options, zipFilePath), selected);
  }

  // ------------------------------------------------------------------ the store

  class BackupFileStore {
    const options: SqlDatabaseOptions
    const fs: FileSystem

    constructor (options: SqlDatabaseOptions, fs: FileSystem)
      ensures this.options == options && this.fs == fs
    {
      this.options := options;
      this.fs := fs;
    }

    method UploadAsync(timestamp: Timestamp) returns (r: Outcome<FsError>)
      modifies fs
      ensures (fs.State(), r) == Upload(old(fs.State()), fs.env, options, timestamp)
    {
      var zipFileName := BundleName(timestamp);
      var zipFilePath := Combine(options.BackupDirectory, zipFileName);
      var backupFilePaths := SelectExisting(BackupFilePaths(options), fs.files);
      DeleteSafely(fs, zipFilePath);
      r := CompressCoreAsync(zipFilePath, backupFilePaths);
      if r.Failure? {
        DeleteSafely(fs, zipFilePath);
        return;
      }
      r := UploadCore(zipFilePath);
      DeleteSafely(fs, zipFilePath);
    }

    static method DeleteSafely(fs: FileSystem, filePath: Path)
      modifies fs
      ensures fs.State() == SafelyDeleted(old(fs.State()), fs.env, filePath)
    {
      var present := fs.Exists(filePath);
      if !present {
        return;
      }
      var ignored := fs.Delete(filePath);
    }

    method CompressCoreAsync(zipFilePath: Path, backupFilePaths: seq<Path>) returns (r: Outcome<FsError>)
      modifies fs
      ensures (fs.State(), r) == Compress(old(fs.State()), fs.env, zipFilePath, backupFilePaths)
    {
      r := fs.Create(zipFilePath);
      if r.Failure? {
        return;
      }
      ghost var created := fs.State();
      var i := 0;
      while i < |backupFilePaths|
        invariant 0 <= i <= |backupFilePaths|
        invariant (fs.State(), Success) == AddEntries(created, fs.env, zipFilePath, backupFilePaths[..i])
      {
        var source := backupFilePaths[i];
        assert backupFilePaths[..i + 1][..i] == backupFilePaths[..i];
        r := fs.AddEntry(zipFilePath, GetFileName(source), source);
        if r.Failure? {
          AddEntriesFailureStable(created, fs.env, zipFilePath, backupFilePaths, i + 1);
          return;
        }
        i := i + 1;
      }
      assert backupFilePaths[..i] == backupFilePaths;
      r := Success;
    }

    method UploadCore(zipFilePath: Path) returns (r: Outcome<FsError>)
      modifies fs
      ensures (fs.State(), r) == CopiedToArchive(old(fs.State()), fs.env, options, zipFilePath)
    {
      var zipFileName := GetFileName(zipFilePath);
      var filePathToUpload := Combine(options.ArchiveDirectory, zipFileName);
      r := fs.Copy(zipFilePath, filePathToUpload);
    }
  }
}
