/**
 * The part of the file system the bundle upload touches: a map from path to file, each file
 * holding either plain bytes or the entries of a zip archive, plus its last-write time.
 *
 * Every primitive operation is an attempt that is recorded in a history. Whether an attempt
 * fails for a reason outside the program (a locked file, a full disk, a cancelled task) is
 * decided by a fault oracle that may look at everything attempted before; the reasons the
 * program can see (a missing source, an existing destination) are decided by the map itself.
 */
module FileSystems {
  import opened Results
  import opened Timestamps

  type Path = string

  datatype ZipEntry = ZipEntry(name: string, lastWriteTime: Timestamp, content: Content)

  datatype Content = Bytes(data: seq<bv8>) | Archive(entries: seq<ZipEntry>)

  datatype FileData = FileData(content: Content, lastWriteTime: Timestamp)

  datatype FsOp =
    | DeleteOp(path: Path)
    | CreateOp(path: Path)
    | AddEntryOp(archive: Path, entryName: string, source: Path)
    | CopyOp(source: Path, destination: Path)

  /** One attempted operation and whether it completed. */
  datatype Attempt = Attempt(op: FsOp, ok: bool)

  datatype FsError = IoFailure | FileNotFound | FileExists

  /** The environment: which attempts fail for outside reasons, and the clock files are stamped with. */
  datatype Env = Env(fault: (seq<Attempt>, FsOp) -> bool, now: Timestamp)

  datatype Disk = Disk(files: map<Path, FileData>, history: seq<Attempt>)

  /** The one path an operation may write. */
  function Target(op: FsOp): Path {
    match op
    case DeleteOp(path) => path
    case CreateOp(path) => path
    case AddEntryOp(archive, _, _) => archive
    case CopyOp(_, destination) => destination
  }

  /** Whether an operation can complete on these files, given whether the environment fails it. */
  function Check(files: map<Path, FileData>, faulted: bool, op: FsOp): Outcome<FsError> {
    match op
    case DeleteOp(_) => if faulted then Failure(IoFailure) else Success
    case CreateOp(_) => if faulted then Failure(IoFailure) else Success
    case AddEntryOp(archive, _, source) =>
      if source !in files then Failure(FileNotFound)
      else if archive !in files || !files[archive].content.Archive? || faulted then Failure(IoFailure)
      else Success
    case CopyOp(source, destination) =>
      if source !in files then Failure(FileNotFound)
      else if destination in files then Failure(FileExists)
      else if faulted then Failure(IoFailure)
      else Success
  }

  /**
   * The files after an operation completes: a delete removes the path (a missing path is no
   * error), a create makes or truncates an empty archive, an added entry carries the source's
   * name, last-write time and content, and a copy duplicates the source, time included.
   */
  function Effect(files: map<Path, FileData>, now: Timestamp, op: FsOp): map<Path, FileData> {
    match op
    case DeleteOp(path) => files - {path}
    case CreateOp(path) => files[path := FileData(Archive([]), now)]
    case AddEntryOp(archive, entryName, source) =>
      if archive in files && files[archive].content.Archive? && source in files then
        var entry := ZipEntry(entryName, files[source].lastWriteTime, files[source].content);
        files[archive := FileData(Archive(files[archive].content.entries + [entry]), now)]
      else files
    case CopyOp(source, destination) =>
      if source in files then files[destination := files[source]] else files
  }

  /** One attempt: recorded in the history, and applied to the files only when it completes. */
  function Apply(disk: Disk, env: Env, op: FsOp): (r: (Disk, Outcome<FsError>))
    ensures r.0.history == disk.history + [Attempt(op, r.1.Success?)]
    ensures r.1.Failure? ==> r.0.files == disk.files
  {
    var outcome := Check(disk.files, env.fault(disk.history, op), op);
    var files := if outcome.Success? then Effect(disk.files, env.now, op) else disk.files;
    (Disk(files, disk.history + [Attempt(op, outcome.Success?)]), outcome)
  }

  /** Two file maps that agree on every path outside `written`. */
  predicate AgreeOutside(a: map<Path, FileData>, b: map<Path, FileData>, written: set<Path>) {
    a - written == b - written
  }

  /** What agreement outside a set says about one path outside it. */
  lemma AgreeOutsideAt(a: map<Path, FileData>, b: map<Path, FileData>, written: set<Path>, p: Path)
    requires AgreeOutside(a, b, written) && p !in written
    ensures p in a <==> p in b
    ensures p in a ==> a[p] == b[p]
  {
    assert p in a <==> p in a - written;
    assert p in b <==> p in b - written;
    if p in a {
      assert (a - written)[p] == a[p] && (b - written)[p] == b[p];
    }
  }

  /** A map that agrees with another everywhere but at one path it holds is that map updated there. */
  lemma AgreeOutsideUpdate(a: map<Path, FileData>, b: map<Path, FileData>, p: Path)
    requires AgreeOutside(a, b, {p}) && p in b
    ensures b == a[p := b[p]]
  {
    forall q | q != p {
      AgreeOutsideAt(a, b, {p}, q);
    }
  }

  /** Agreement outside a set is transitive, the sets adding up. */
  lemma AgreeOutsideTrans(a: map<Path, FileData>, b: map<Path, FileData>, c: map<Path, FileData>, s: set<Path>, t: set<Path>)
    requires AgreeOutside(a, b, s) && AgreeOutside(b, c, t)
    ensures AgreeOutside(a, c, s + t)
  {
    assert a - (s + t) == (a - s) - t;
    assert b - (s + t) == (b - s) - t == (b - t) - s;
    assert c - (s + t) == (c - t) - s;
  }

  /** Agreement outside a set implies agreement outside any larger set. */
  lemma AgreeOutsideWiden(a: map<Path, FileData>, b: map<Path, FileData>, s: set<Path>, t: set<Path>)
    requires AgreeOutside(a, b, s) && s <= t
    ensures AgreeOutside(a, b, t)
  {
    assert a - t == (a - s) - t;
    assert b - t == (b - s) - t;
  }

  /** An attempt writes at most its target path. */
  lemma ApplyFrame(disk: Disk, env: Env, op: FsOp)
    ensures AgreeOutside(disk.files, Apply(disk, env, op).0.files, {Target(op)})
  {
    var files := Apply(disk, env, op).0.files;
    var w := {Target(op)};
    assert forall p :: p in disk.files - w <==> p in files - w;
  }

  class FileSystem {
    var files: map<Path, FileData>
    var history: seq<Attempt>
    const env: Env

    constructor (files: map<Path, FileData>, env: Env)
      ensures this.files == files && history == [] && this.env == env
    {
      this.files := files;
      history := [];
      this.env := env;
    }

    function State(): Disk
      reads this
    {
      Disk(files, history)
    }

    method Exists(path: Path) returns (b: bool)
      ensures b <==> path in files
    {
      b := path in files;
    }

    method Delete(path: Path) returns (r: Outcome<FsError>)
      modifies this
      ensures (State(), r) == Apply(old(State()), env, DeleteOp(path))
    {
      if env.fault(history, DeleteOp(path)) {
        history := history + [Attempt(DeleteOp(path), false)];
        return Failure(IoFailure);
      }
      files := files - {path};
      history := history + [Attempt(DeleteOp(path), true)];
      r := Success;
    }

    /** Opens a path with create/truncate and starts an empty archive on it. */
    method Create(path: Path) returns (r: Outcome<FsError>)
      modifies this
      ensures (State(), r) == Apply(old(State()), env, CreateOp(path))
    {
      if env.fault(history, CreateOp(path)) {
        history := history + [Attempt(CreateOp(path), false)];
        return Failure(IoFailure);
      }
      files := files[path := FileData(Archive([]), env.now)];
      history := history + [Attempt(CreateOp(path), true)];
      r := Success;
    }

    /** Creates an entry in an open archive and copies a file's bytes and last-write time into it. */
    method AddEntry(archive: Path, entryName: string, source: Path) returns (r: Outcome<FsError>)
      modifies this
      ensures (State(), r) == Apply(old(State()), env, AddEntryOp(archive, entryName, source))
    {
      var op := AddEntryOp(archive, entryName, source);
      if source !in files {
        r := Failure(FileNotFound);
      } else if archive !in files || !files[archive].content.Archive? || env.fault(history, op) {
        r := Failure(IoFailure);
      } else {
        var entry := ZipEntry(entryName, files[source].lastWriteTime, files[source].content);
        files := files[archive := FileData(Archive(files[archive].content.entries + [entry]), env.now)];
        r := Success;
      }
      history := history + [Attempt(op, r.Success?)];
    }

    /** Copies a file to a new path; an existing destination is not overwritten. */
    method Copy(source: Path, destination: Path) returns (r: Outcome<FsError>)
      modifies this
      ensures (State(), r) == Apply(old(State()), env, CopyOp(source, destination))
    {
      var op := CopyOp(source, destination);
      if source !in files {
        r := Failure(FileNotFound);
      } else if destination in files {
        r := Failure(FileExists);
      } else if env.fault(history, op) {
        r := Failure(IoFailure);
      } else {
        files := files[destination := files[source]];
        r := Success;
      }
      history := history + [Attempt(op, r.Success?)];
    }
  }
}
