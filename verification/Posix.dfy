/**
  The local disk that holds the temp files, as far as POSIX.1-2008 promises it: `open`, `read`,
  `write`, `lseek`, `close`, `remove` and `mkdir`. The environment picks sizes and failures freely.
*/
module Posix {

  newtype Byte = b: int | 0 <= b < 256

  type Bytes = seq<Byte>

  /** Largest value of a 64-bit signed `off_t`. */
  const OFF_MAX: int := 0x7fff_ffff_ffff_ffff

  datatype Whence = SeekSet | SeekCur | SeekEnd

  /** The bytes of a file together with the offset of one open description of it. */
  datatype Cursor = Cursor(bytes: Bytes, pos: nat)

  /** `file` with zeros added at the end until it has at least `size` bytes. */
  function ZeroFilled(file: Bytes, size: nat): Bytes {
    if |file| < size then file + seq(size - |file|, _ => 0) else file
  }

  /** `write` at offset `pos`: a gap is zero-filled, an empty write changes nothing. */
  function WriteAt(file: Bytes, pos: nat, data: Bytes): Bytes {
    if data == [] then file else
      var end := pos + |data|;
      var padded := ZeroFilled(file, end);
      padded[..pos] + data + padded[end..]
  }

  /** Where `lseek` would move, possibly an invalid offset. */
  function SeekTarget(size: nat, pos: nat, offset: int, whence: Whence): int {
    match whence
    case SeekSet => offset
    case SeekCur => pos + offset
    case SeekEnd => size + offset
  }

  /** EINVAL for a negative offset, EOVERFLOW for one that no `off_t` can hold. */
  predicate ValidOffset(target: int) {
    0 <= target <= OFF_MAX
  }

  /** One open file description. */
  datatype Description = Description(path: string, pos: nat, writable: bool)

  /** Does `path` name an existing directory's child (or a root-level name)? */
  predicate ParentExists(dirs: set<string>, path: string) {
    forall i :: 0 < i < |path| && path[i] == '/' && '/' !in path[i + 1..] ==> path[..i] in dirs
  }

  /** When `mkdir` succeeds, given enough permissions. */
  predicate CanMkdir(dirs: set<string>, files: set<string>, path: string) {
    path != "" && path !in dirs && path !in files && ParentExists(dirs, path)
  }

  /** When `open` with O_CREAT succeeds, given enough permissions. */
  predicate CanCreate(dirs: set<string>, files: set<string>, path: string) {
    path != "" && (path in files || (path !in dirs && ParentExists(dirs, path)))
  }

  class LocalDisk {
    const reliable: bool               // no call fails without a reason, and none writes less than it is given
    var files: map<string, Bytes>
    var dirs: set<string>
    var fds: map<int, Description>
    var nextFd: nat
    ghost var mkdirCalls: seq<string>  // every path `mkdir` was called with, in order

    ghost predicate Valid()
      reads this
    {
      && "" !in files
      && forall fd :: fd in fds ==> 0 <= fd < nextFd
    }

    constructor (reliable: bool)
      ensures this.reliable == reliable
      ensures Valid() && files == map[] && dirs == {} && fds == map[] && mkdirCalls == []
    {
      this.reliable := reliable;
      files, dirs, fds, nextFd, mkdirCalls := map[], {}, map[], 0, [];
    }

    /** Did a call fail for a reason outside the disk's contents? */
    method Flaky() returns (fails: bool)
      ensures reliable ==> !fails
    {
      var any: bool := *;
      fails := any && !reliable;
    }

    /** `stat(path) == 0` */
    predicate Exists(path: string)
      reads this
    {
      path in dirs || path in files
    }

    /** `open(path, O_CREAT | O_WRONLY)`: an existing file keeps its bytes, there is no O_TRUNC. */
    method OpenForWrite(path: string) returns (fd: int)
      requires Valid()
      modifies this`files, this`fds, this`nextFd
      ensures Valid()
      ensures fd != -1 ==> CanCreate(dirs, old(files).Keys, path)
      ensures fd == -1 && reliable ==> !CanCreate(dirs, files.Keys, path)
      ensures fd == -1 ==> files == old(files) && fds == old(fds)
      ensures fd != -1 ==>
                && fd !in old(fds) && fd >= 0
                && files == old(files)[path := if path in old(files) then old(files[path]) else []]
                && fds == old(fds)[fd := Description(path, 0, true)]
    {
      var fails := Flaky();
      if !CanCreate(dirs, files.Keys, path) || fails {
        return -1;
      }
      fd := nextFd;
      nextFd := nextFd + 1;
      files := files[path := if path in files then files[path] else []];
      fds := fds[fd := Description(path, 0, true)];
    }

    /** `open(path, O_RDONLY)` */
    method OpenForRead(path: string) returns (fd: int)
      requires Valid()
      modifies this`fds, this`nextFd
      ensures Valid()
      ensures path !in files ==> fd == -1
      ensures path in files && reliable ==> fd != -1
      ensures fd == -1 ==> fds == old(fds)
      ensures fd != -1 ==> fd !in old(fds) && fd >= 0 && fds == old(fds)[fd := Description(path, 0, false)]
    {
      var fails := Flaky();
      if path !in files || fails {
        return -1;
      }
      fd := nextFd;
      nextFd := nextFd + 1;
      fds := fds[fd := Description(path, 0, false)];
    }

    /** `write`: accepts any part of the data, or fails and changes nothing. */
    method Write(fd: int, data: Bytes) returns (n: int)
      requires Valid()
      requires fd in fds ==> fds[fd].path in files
      modifies this`files, this`fds
      ensures Valid()
      ensures -1 <= n <= |data|
      ensures fd !in old(fds) || !old(fds)[fd].writable ==> n == -1
      ensures fd in old(fds) && old(fds)[fd].writable && reliable ==> n == |data|
      ensures n == -1 ==> files == old(files) && fds == old(fds)
      ensures n >= 0 ==>
                var d := old(fds)[fd];
                && files == old(files)[d.path := WriteAt(old(files)[d.path], d.pos, data[..n])]
                && fds == old(fds)[fd := d.(pos := d.pos + n)]
    {
      var fails := Flaky();
      if fd !in fds || !fds[fd].writable || fails {
        return -1;
      }
      n :| 0 <= n <= |data| && (reliable ==> n == |data|);
      var d := fds[fd];
      files := files[d.path := WriteAt(files[d.path], d.pos, data[..n])];
      fds := fds[fd := d.(pos := d.pos + n)];
    }

    /** `read`: any non-empty part of what is left, 0 exactly at the end of the file, or -1. */
    method Read(fd: int, buf: array<Byte>) returns (n: int)
      requires Valid() && buf.Length > 0
      requires fd in fds ==> fds[fd].path in files
      modifies this`fds, buf
      ensures Valid()
      ensures -1 <= n <= buf.Length
      ensures fd !in old(fds) ==> n == -1
      ensures fd in old(fds) && reliable ==> n >= 0
      ensures n == -1 ==> fds == old(fds)
      ensures n >= 0 ==>
                var d := old(fds)[fd];
                && (n == 0 <==> d.pos >= |files[d.path]|)
                && (n > 0 ==> d.pos + n <= |files[d.path]| && buf[..n] == files[d.path][d.pos..d.pos + n])
                && fds == old(fds)[fd := d.(pos := d.pos + n)]
    {
      var fails := Flaky();
      if fd !in fds || fails {
        return -1;
      }
      var d := fds[fd];
      var bytes := files[d.path];
      if d.pos >= |bytes| {
        fds := fds[fd := d];
        return 0;
      }
      n :| 0 < n <= buf.Length && d.pos + n <= |bytes|;
      forall i | 0 <= i < n {
        buf[i] := bytes[d.pos + i];
      }
      fds := fds[fd := d.(pos := d.pos + n)];
    }

    /** `lseek`: fails on a bad descriptor or an offset that is negative or too large. */
    method Seek(fd: int, offset: int, whence: Whence) returns (r: int)
      requires Valid()
      requires fd in fds ==> fds[fd].path in files
      modifies this`fds
      ensures Valid()
      ensures r == -1 <==>
              fd !in old(fds) ||
              !ValidOffset(SeekTarget(|files[old(fds)[fd].path]|, old(fds)[fd].pos, offset, whence))
      ensures r == -1 ==> fds == old(fds)
      ensures r != -1 ==>
                && r == SeekTarget(|files[old(fds)[fd].path]|, old(fds)[fd].pos, offset, whence)
                && fds == old(fds)[fd := old(fds)[fd].(pos := r)]
    {
      if fd !in fds {
        return -1;
      }
      r := SeekTarget(|files[fds[fd].path]|, fds[fd].pos, offset, whence);
      if !ValidOffset(r) {
        return -1;
      }
      fds := fds[fd := fds[fd].(pos := r)];
    }

    /** `close`: a bad descriptor is only reported, and the plugin never looks. */
    method Close(fd: int)
      requires Valid()
      modifies this`fds
      ensures Valid()
      ensures fds == old(fds) - {fd}
    {
      fds := fds - {fd};
    }

    /** `remove` */
    method Remove(path: string)
      requires Valid()
      modifies this`files
      ensures Valid()
      ensures files == old(files) - {path}
    {
      files := files - {path};
    }

    /** `mkdir(path, S_IRWXU)` */
    method Mkdir(path: string) returns (r: int)
      modifies this`dirs, this`mkdirCalls
      ensures mkdirCalls == old(mkdirCalls) + [path]
      ensures r == (if CanMkdir(old(dirs), files.Keys, path) then 0 else -1)
      ensures dirs == (if r == 0 then old(dirs) + {path} else old(dirs))
    {
      mkdirCalls := mkdirCalls + [path];
      if CanMkdir(dirs, files.Keys, path) {
        dirs := dirs + {path};
        return 0;
      }
      return -1;
    }
  }
}
