/**
 * The operating-system filesystem as the pipeline sees it through Python's
 * `os`, `os.path` and `shutil`: regular files with byte contents, directories,
 * and a counter of operations. Another process (the game client, a virus
 * scanner) may hold a path open at any moment; `OsModel.held` says at which
 * operation it does, and an operation touching a held path raises `OSError`.
 */
module Os {

  type Bytes = seq<int>

  /** What the modelled code can raise. */
  datatype Exception =
    | OSError(path: string)
    | FileNotFoundError(message: string)
    | ValueError(message: string)
    | AttributeError(message: string)
    | UnboundLocalError(name: string)
    | LoadError(path: string)

  datatype Disk = Disk(files: map<string, Bytes>, dirs: set<string>, clock: nat)

  /**
   * `held(p, t)`: another process holds `p` open at the `t`-th operation.
   * `replaceOnRename`: `os.rename` overwrites an existing destination (POSIX)
   * rather than raising `FileExistsError` (Windows).
   */
  datatype OsModel = OsModel(held: (string, nat) -> bool, replaceOnRename: bool)

  /** A path is a regular file or a directory, never both. */
  ghost predicate Valid(d: Disk) {
    d.files.Keys !! d.dirs
  }

  /** `os.path.exists`. */
  predicate Exists(d: Disk, p: string) {
    p in d.files || p in d.dirs
  }

  function Tick(d: Disk): (d': Disk)
    ensures d'.files == d.files && d'.dirs == d.dirs && d'.clock == d.clock + 1
  {
    d.(clock := d.clock + 1)
  }

  /** `is_file_locked`: opening `p` with mode 'r+b' fails. */
  predicate LockedNow(d: Disk, os: OsModel, p: string) {
    p !in d.files || os.held(p, d.clock)
  }

  predicate CanRename(d: Disk, os: OsModel, src: string, dst: string) {
    && src in d.files
    && !os.held(src, d.clock)
    && !os.held(dst, d.clock)
    && dst !in d.dirs
    && (os.replaceOnRename || dst !in d.files)
  }

  /** `os.rename(src, dst)`; the flag is false when it raises. */
  function Renamed(d: Disk, os: OsModel, src: string, dst: string): (r: (Disk, bool))
    ensures r.1 == CanRename(d, os, src, dst)
    ensures r.0.clock == d.clock + 1 && r.0.dirs == d.dirs
    ensures r.1 ==> r.0.files == (d.files - {src})[dst := d.files[src]]
    ensures !r.1 ==> r.0.files == d.files
  {
    if CanRename(d, os, src, dst) then
      (Disk((d.files - {src})[dst := d.files[src]], d.dirs, d.clock + 1), true)
    else (Tick(d), false)
  }

  /** `os.replace`: a rename that overwrites an existing destination on every platform. */
  function Overwriting(os: OsModel): (r: OsModel)
    ensures r.held == os.held && r.replaceOnRename
  {
    os.(replaceOnRename := true)
  }

  predicate CanRemove(d: Disk, os: OsModel, p: string) {
    p in d.files && !os.held(p, d.clock)
  }

  /** `os.remove(p)`. */
  function Removed(d: Disk, os: OsModel, p: string): (r: (Disk, bool))
    ensures r.1 == CanRemove(d, os, p)
    ensures r.0.clock == d.clock + 1 && r.0.dirs == d.dirs
    ensures r.1 ==> r.0.files == d.files - {p}
    ensures !r.1 ==> r.0.files == d.files
  {
    if CanRemove(d, os, p) then (Disk(d.files - {p}, d.dirs, d.clock + 1), true)
    else (Tick(d), false)
  }

  predicate CanCopy(d: Disk, os: OsModel, src: string, dst: string) {
    src in d.files && !os.held(src, d.clock) && !os.held(dst, d.clock) && dst !in d.dirs
  }

  /** `shutil.copy2(src, dst)`: the destination is overwritten, the source kept. */
  function Copied(d: Disk, os: OsModel, src: string, dst: string): (r: (Disk, bool))
    ensures r.1 == CanCopy(d, os, src, dst)
    ensures r.0.clock == d.clock + 1 && r.0.dirs == d.dirs
    ensures r.1 ==> r.0.files == d.files[dst := d.files[src]]
    ensures !r.1 ==> r.0.files == d.files
  {
    if CanCopy(d, os, src, dst) then (Disk(d.files[dst := d.files[src]], d.dirs, d.clock + 1), true)
    else (Tick(d), false)
  }

  predicate CanWrite(d: Disk, os: OsModel, p: string) {
    !os.held(p, d.clock) && p !in d.dirs
  }

  /** `open(p, "wb").write(data)`. */
  function Written(d: Disk, os: OsModel, p: string, data: Bytes): (r: (Disk, bool))
    ensures r.1 == CanWrite(d, os, p)
    ensures r.0.clock == d.clock + 1 && r.0.dirs == d.dirs
    ensures r.1 ==> r.0.files == d.files[p := data]
    ensures !r.1 ==> r.0.files == d.files
  {
    if CanWrite(d, os, p) then (Disk(d.files[p := data], d.dirs, d.clock + 1), true)
    else (Tick(d), false)
  }

  /** Writing through a handle already open on `p`: no new check, no tick. */
  function Stored(d: Disk, p: string, data: Bytes): (d': Disk)
    ensures d'.files == d.files[p := data] && d'.dirs == d.dirs && d'.clock == d.clock
  {
    d.(files := d.files[p := data])
  }

  /** The filesystem the running program changes in place. */
  class FileSystem {
    var files: map<string, Bytes>
    var dirs: set<string>
    var clock: nat
    const os: OsModel

    function State(): Disk
      reads this
    {
      Disk(files, dirs, clock)
    }

    constructor (d: Disk, os: OsModel)
      ensures State() == d && this.os == os
    {
      files, dirs, clock := d.files, d.dirs, d.clock;
      this.os := os;
    }

    method Set(d: Disk)
      modifies this
      ensures State() == d
    {
      files, dirs, clock := d.files, d.dirs, d.clock;
    }

    method IsFileLocked(p: string) returns (locked: bool)
      modifies this
      ensures locked == LockedNow(old(State()), os, p)
      ensures State() == Tick(old(State()))
    {
      locked := p !in files || os.held(p, clock);
      clock := clock + 1;
    }

    method Rename(src: string, dst: string) returns (ok: bool)
      modifies this
      ensures (State(), ok) == Renamed(old(State()), os, src, dst)
    {
      var r := Renamed(State(), os, src, dst);
      Set(r.0);
      ok := r.1;
    }

    method Replace(src: string, dst: string) returns (ok: bool)
      modifies this
      ensures (State(), ok) == Renamed(old(State()), Overwriting(os), src, dst)
    {
      var r := Renamed(State(), Overwriting(os), src, dst);
      Set(r.0);
      ok := r.1;
    }

    method Remove(p: string) returns (ok: bool)
      modifies this
      ensures (State(), ok) == Removed(old(State()), os, p)
    {
      var r := Removed(State(), os, p);
      Set(r.0);
      ok := r.1;
    }

    method Copy(src: string, dst: string) returns (ok: bool)
      modifies this
      ensures (State(), ok) == Copied(old(State()), os, src, dst)
    {
      var r := Copied(State(), os, src, dst);
      Set(r.0);
      ok := r.1;
    }

    method Store(p: string, data: Bytes)
      modifies this
      ensures State() == Stored(old(State()), p, data)
    {
      files := files[p := data];
    }

    method Write(p: string, data: Bytes) returns (ok: bool)
      modifies this
      ensures (State(), ok) == Written(old(State()), os, p, data)
    {
      var r := Written(State(), os, p, data);
      Set(r.0);
      ok := r.1;
    }
  }
}
