/**
  The HDFS name space and the few libhdfs calls the plugin builds on. A file system maps the path
  of every directory and file to its entry. Paths are compared as they are written.
*/
module Hdfs {
  import opened Results
  import opened Posix

  type Path = string

  datatype Entry = Dir | File(bytes: Bytes)

  type FileSystem = map<Path, Entry>

  predicate IsFile(fs: FileSystem, p: Path) {
    p in fs && fs[p].File?
  }

  predicate IsDir(fs: FileSystem, p: Path) {
    p in fs && fs[p].Dir?
  }

  /** The entry at `p`, if any; what an observer of one path sees. */
  function At(fs: FileSystem, p: Path): Option<Entry> {
    if p in fs then Some(fs[p]) else None
  }

  /** `a` is a directory on the way to `p`. */
  predicate Ancestor(a: Path, p: Path) {
    0 < |a| < |p| && p[..|a|] == a && p[|a|] == '/'
  }

  /** `p` and its ancestors. */
  function Chain(p: Path): (chain: set<Path>)
    ensures forall q :: q in chain <==> (q == p && p != "") || Ancestor(q, p)
  {
    var chain := set i | 0 < i <= |p| && (i == |p| || p[i] == '/') :: p[..i];
    assert p != "" ==> p[..|p|] == p && p in chain;
    assert forall q :: Ancestor(q, p) ==> p[..|q|] in chain;
    chain
  }

  function LastSlash(p: Path): (slash: Option<nat>)
    ensures slash.Some? ==> slash.value < |p| && p[slash.value] == '/'
  {
    if p == "" then None
    else if p[|p| - 1] == '/' then Some(|p| - 1)
    else LastSlash(p[..|p| - 1])
  }

  lemma {:induction false} LastSlashIsLast(p: Path)
    ensures LastSlash(p).None? ==> '/' !in p
    ensures LastSlash(p).Some? ==> '/' !in p[LastSlash(p).value + 1..]
  {
    if p != "" && p[|p| - 1] != '/' {
      var front := p[..|p| - 1];
      LastSlashIsLast(front);
      assert p == front + [p[|p| - 1]];
      if LastSlash(p).Some? {
        var i := LastSlash(p).value;
        assert p[i + 1..] == front[i + 1..] + [p[|p| - 1]];
      }
    }
  }

  /** The part after the last slash; everything when there is none. */
  function Basename(p: Path): string {
    match LastSlash(p)
    case None => p
    case Some(i) => p[i + 1..]
  }

  function WithDirectories(fs: FileSystem, p: Path): FileSystem {
    fs + (map q | q in Chain(p) :: Dir)
  }

  // ----- What the calls do when they succeed; None when they cannot -----

  /** `hdfsCreateDirectory`: the directory with all its parents, or nothing when a file is in the way. */
  function DirectoryCreated(fs: FileSystem, p: Path): Option<FileSystem> {
    if p == "" || (exists q :: q in Chain(p) && IsFile(fs, q)) then None
    else Some(WithDirectories(fs, p))
  }

  /** `hdfsOpenFile` for writing: an empty file with all its parents, or an existing file to append to. */
  function OpenedForWrite(fs: FileSystem, p: Path, append: bool): Option<FileSystem> {
    if append then
      if IsFile(fs, p) then Some(fs) else None
    else if p == "" || IsDir(fs, p) || (exists q :: q in Chain(p) && q != p && IsFile(fs, q)) then None
    else Some(WithDirectories(fs, p)[p := File([])])
  }

  /** Bytes written through a handle on `p`; nothing arrives once the file is gone. */
  function Appended(fs: FileSystem, p: Path, data: Bytes): FileSystem {
    if IsFile(fs, p) then fs[p := File(fs[p].bytes + data)] else fs
  }

  /** A directory as destination means: into that directory. */
  function RenameTarget(fs: FileSystem, src: Path, dst: Path): Path {
    if IsDir(fs, dst) then dst + "/" + Basename(src) else dst
  }

  /** `hdfsRename` of a file: atomic, never over an existing entry, never into a missing directory. */
  function Renamed(fs: FileSystem, src: Path, dst: Path): Option<FileSystem> {
    var target := RenameTarget(fs, src, dst);
    if !IsFile(fs, src) || dst == "" then None
    else if target == src then Some(fs)
    else if target in fs || (exists q :: q in Chain(target) && q != target && !IsDir(fs, q)) then None
    else Some((fs - {src})[target := fs[src]])
  }

  /** `hdfsDelete` */
  function Deleted(fs: FileSystem, p: Path, recursive: bool): Option<FileSystem> {
    var below := set q | q in fs && Ancestor(p, q);
    if p !in fs || (!recursive && below != {}) then None
    else Some(fs - ({p} + below))
  }

  /** The effect of a call whose return value nobody looks at. */
  function Effect(fs: FileSystem, outcome: Option<FileSystem>): FileSystem {
    if outcome.Some? then outcome.value else fs
  }

  /** `hdfsGetPathInfo`: a directory has size 0. */
  datatype Info = Info(isDir: bool, size: nat)

  function InfoOf(e: Entry): Info {
    match e
    case Dir => Info(true, 0)
    case File(bytes) => Info(false, |bytes|)
  }

  /** Why `hdfsWrite` returned -1. */
  datatype Errno = Interrupted | Failed

  /** A connection to the cluster, shared by everyone who uses it. */
  class Cluster {
    var fs: FileSystem
    var listing: map<Path, seq<string>>  // the entry names of each directory, in listing order
    const reliable: bool                 // no call fails, and no read ends early, without a reason in `fs`
    var capacity: int                    // bytes the cluster can hold, negative when it cannot tell
    var used: int                        // bytes it holds, likewise
    var stalls: nat                      // how often `hdfsWrite` may still take nothing or be interrupted
    ghost var writeCalls: nat            // how often `hdfsWrite` has been called

    constructor (fs: FileSystem, listing: map<Path, seq<string>>, reliable: bool, capacity: int, used: int, stalls: nat)
      ensures this.fs == fs && this.listing == listing && this.reliable == reliable
      ensures this.capacity == capacity && this.used == used
      ensures this.stalls == stalls && writeCalls == 0
    {
      this.fs, this.listing, this.reliable := fs, listing, reliable;
      this.capacity, this.used := capacity, used;
      this.stalls, writeCalls := stalls, 0;
    }

    /** Did a call fail for a reason outside the file system? */
    method Flaky() returns (fails: bool)
      ensures reliable ==> !fails
    {
      var any: bool := *;
      fails := any && !reliable;
    }

    predicate Exists(p: Path)
      reads this`fs
    {
      p in fs
    }

    method GetPathInfo(p: Path) returns (info: Option<Info>)
      ensures info.Some? ==> p in fs && info.value == InfoOf(fs[p])
      ensures info.None? && reliable ==> p !in fs
    {
      var fails := Flaky();
      info := if fails || p !in fs then None else Some(InfoOf(fs[p]));
    }

    method OpenFile(p: Path, write: bool, append: bool) returns (ok: bool)
      modifies this`fs
      ensures ok && write ==> OpenedForWrite(old(fs), p, append) == Some(fs)
      ensures ok && !write ==> IsFile(fs, p) && fs == old(fs)
      ensures !ok ==> fs == old(fs)
      ensures !ok && reliable ==> if write then OpenedForWrite(fs, p, append).None? else !IsFile(fs, p)
    {
      var fails := Flaky();
      if fails {
        return false;
      }
      if !write {
        return IsFile(fs, p);
      }
      var result := OpenedForWrite(fs, p, append);
      ok := result.Some?;
      if ok {
        fs := result.value;
      }
    }

    /**
      `hdfsWrite(file, buf + from, count)`: appends any part of the data. Taking nothing and being
      interrupted use up one of the stalls the environment has left.
    */
    method Write(p: Path, buf: array<Byte>, from: nat, count: nat) returns (n: int, errno: Errno)
      requires from + count <= buf.Length && count > 0
      modifies this`fs, this`stalls, this`writeCalls
      ensures -1 <= n <= count
      ensures writeCalls == old(writeCalls) + 1
      ensures n >= 0 ==> IsFile(old(fs), p)
      ensures n == -1 && errno == Failed && reliable ==> !IsFile(old(fs), p)
      ensures fs == if n > 0 then Appended(old(fs), p, buf[from..from + n]) else old(fs)
      ensures if n == 0 || (n == -1 && errno == Interrupted) then stalls + 1 == old(stalls)
              else stalls == old(stalls)
    {
      writeCalls := writeCalls + 1;
      if !IsFile(fs, p) {
        return -1, Failed;
      }
      n, errno := -1, Failed;
      if
      case true =>
        n :| 0 < n <= count;
        fs := Appended(fs, p, buf[from..from + n]);
      case stalls > 0 =>
        n, stalls := 0, stalls - 1;
      case stalls > 0 =>
        errno, stalls := Interrupted, stalls - 1;
      case !reliable =>
    }

    /** `hdfsRead` on a stream at `pos`: any part of what is left, or -1. */
    method Read(p: Path, pos: nat, buf: array<Byte>, count: nat) returns (n: int)
      requires count <= buf.Length
      modifies buf
      ensures -1 <= n <= count
      ensures n >= 0 ==> IsFile(fs, p) && pos + n <= |fs[p].bytes| && buf[..n] == fs[p].bytes[pos..pos + n]
      ensures reliable && IsFile(fs, p) && pos <= |fs[p].bytes| ==>
                n == count || (n < count && pos + n == |fs[p].bytes|)
    {
      var fails := Flaky();
      if fails || !IsFile(fs, p) || pos > |fs[p].bytes| {
        return -1;
      }
      var bytes := fs[p].bytes;
      n := if count <= |bytes| - pos then count else |bytes| - pos;
      if !reliable {
        n :| 0 <= n <= count && pos + n <= |bytes|;
      }
      forall i | 0 <= i < n {
        buf[i] := bytes[pos + i];
      }
    }

    method Rename(src: Path, dst: Path) returns (r: int)
      modifies this`fs
      ensures r == 0 ==> Renamed(old(fs), src, dst) == Some(fs)
      ensures r != 0 ==> fs == old(fs) && (reliable ==> Renamed(fs, src, dst).None?)
    {
      var fails := Flaky();
      var renamed := Renamed(fs, src, dst);
      if fails || renamed.None? {
        return -1;
      }
      fs := renamed.value;
      return 0;
    }

    method Delete(p: Path, recursive: bool) returns (r: int)
      modifies this`fs
      ensures r == 0 ==> Deleted(old(fs), p, recursive) == Some(fs)
      ensures r != 0 ==> fs == old(fs) && (reliable ==> Deleted(fs, p, recursive).None?)
    {
      var fails := Flaky();
      var deleted := Deleted(fs, p, recursive);
      if fails || deleted.None? {
        return -1;
      }
      fs := deleted.value;
      return 0;
    }

    method CreateDirectory(p: Path) returns (r: int)
      modifies this`fs
      ensures r == 0 ==> DirectoryCreated(old(fs), p) == Some(fs)
      ensures r != 0 ==> fs == old(fs) && (reliable ==> DirectoryCreated(fs, p).None?)
    {
      var fails := Flaky();
      var created := DirectoryCreated(fs, p);
      if fails || created.None? {
        return -1;
      }
      fs := created.value;
      return 0;
    }

    /** `hdfsListDirectory` */
    function ListDirectory(p: Path): seq<string>
      reads this`listing
    {
      if p in listing then listing[p] else []
    }
  }
}
