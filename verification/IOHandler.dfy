/**
  `HdfsIOHandler`: one open file. Reads go to HDFS; writes and seeks go to a temp file on the
  local disk, which `close` replays into HDFS.
*/
module IOHandler {
  import opened Results
  import opened Posix
  import opened Hdfs
  import opened Names
  import Buffer
  import opened Writers
  import opened Readers
  import Util

  const O_WRONLY: bv32 := 0x1
  const O_RDWR: bv32 := 0x2
  const O_CREAT: bv32 := 0x40
  const O_APPEND: bv32 := 0x400

  const COPY_BUFFER := 8096
  const PATH_MAX := 4096
  const SIZE_MAX: nat := 0xffff_ffff_ffff_ffff

  /** The flags HDFS is asked for: it knows no O_RDWR. The second branch can never be taken. */
  function OpenFlags(flags: bv32): bv32 {
    if flags & (O_RDWR | O_CREAT) != 0 then (flags & !O_RDWR) | O_WRONLY
    else if flags & O_RDWR != 0 then flags & !O_RDWR
    else flags
  }

  predicate ForWriting(flags: bv32) {
    OpenFlags(flags) & O_WRONLY != 0
  }

  /** Any of the three flags opens for writing, O_RDWR alone included; HDFS never sees O_RDWR. */
  lemma WritingFlags(flags: bv32)
    ensures ForWriting(flags) <==> flags & 0x43 != 0
    ensures OpenFlags(flags) & 0x2 == 0
    ensures OpenFlags(flags) & !0x3 == flags & !0x3
  {
    if flags & (O_RDWR | O_CREAT) == 0 {
      assert flags & O_RDWR == 0;
    }
  }

  /** `hdfsFile`: null, or a handle with the position of its stream. */
  datatype HdfsFile = Null | Handle(pos: nat)

  class HdfsIOHandler {
    const cluster: Cluster
    const disk: LocalDisk
    const path: Path
    const isWriting: bool
    var file: HdfsFile
    var isEof: bool
    var tempFd: int
    var tempPath: string

    constructor (cluster: Cluster, disk: LocalDisk, path: Path, isWriting: bool, tempFd: int, tempPath: string)
      ensures this.cluster == cluster && this.disk == disk && this.path == path && this.isWriting == isWriting
      ensures file == Handle(0) && !isEof && this.tempFd == tempFd && this.tempPath == tempPath
    {
      this.cluster, this.disk, this.path, this.isWriting := cluster, disk, path, isWriting;
      file, isEof, this.tempFd, this.tempPath := Handle(0), false, tempFd, tempPath;
    }

    /** A writer owns its temp file through its descriptor until it is closed, and neither afterwards. */
    ghost predicate Valid()
      reads this, disk
    {
      && disk.Valid()
      && (isWriting ==>
            if file.Handle? then
              && tempFd in disk.fds && disk.fds[tempFd].path == tempPath && disk.fds[tempFd].writable
              && tempPath in disk.files
            else tempFd == -1 && tempPath !in disk.files)
    }

    /** This handler as a state of the writer machine. */
    ghost function Model(): Writer
      requires Valid() && isWriting
      reads this, disk, cluster`fs
    {
      Writer(path,
             if file.Handle? then Some(Cursor(disk.files[tempPath], disk.fds[tempFd].pos)) else None,
             cluster.fs)
    }

    /**
      Opening a file: HDFS first, then for a writer the temp file. The temp file keeps whatever
      bytes it had, so only a fresh name gives an empty one.
    */
    static method Open(
      cluster: Cluster, disk: LocalDisk, tmpFolder: string, random: string, uri: string, flags: bv32)
      returns (r: Result<HdfsIOHandler>)
      requires disk.Valid()
      requires '\0' !in tmpFolder && |TempPath(tmpFolder, random, StripHost(uri))| < PATH_MAX
      modifies cluster`fs, disk
      ensures r.Ok? ==>
                var h, temp := r.value, TempPath(tmpFolder, random, StripHost(uri));
                && fresh(h) && h.Valid() && h.cluster == cluster && h.disk == disk && h.path == StripHost(uri)
                && h.isWriting == ForWriting(flags) && h.file == Handle(0) && !h.isEof
                && (if h.isWriting then
                      && h.tempPath == temp && h.tempFd !in old(disk.fds)
                      && OpenedForWrite(old(cluster.fs), h.path, flags & 0x400 != 0) == Some(cluster.fs)
                      && h.Model().temp
                         == Some(Cursor(if temp in old(disk.files) then old(disk.files[temp]) else [], 0))
                      && disk.files == old(disk.files)[temp := h.Model().temp.value.bytes]
                      && disk.fds == old(disk.fds)[h.tempFd := Description(temp, 0, true)]
                    else
                      && IsFile(cluster.fs, h.path) && cluster.fs == old(cluster.fs)
                      && disk.files == old(disk.files) && disk.fds == old(disk.fds))
      ensures r.Err? ==>
                && disk.Valid() && disk.files == old(disk.files) && disk.fds == old(disk.fds)
                && (cluster.fs == old(cluster.fs) ||
                    (ForWriting(flags) &&
                     OpenedForWrite(old(cluster.fs), StripHost(uri), flags & 0x400 != 0) == Some(cluster.fs)))
      ensures disk.dirs == old(disk.dirs) || disk.dirs == FolderMade(old(disk.dirs), old(disk.files).Keys, tmpFolder).0
      ensures r.Ok? && ForWriting(flags) ==>
                disk.dirs == FolderMade(old(disk.dirs), old(disk.files).Keys, tmpFolder).0
      ensures cluster.reliable && disk.reliable && ForWriting(flags) ==>
                (r.Ok? <==>
                  && OpenedForWrite(old(cluster.fs), StripHost(uri), flags & 0x400 != 0).Some?
                  && var (dirs, made) := FolderMade(old(disk.dirs), old(disk.files).Keys, tmpFolder);
                     made == 0 && CanCreate(dirs, old(disk.files).Keys, TempPath(tmpFolder, random, StripHost(uri))))
      ensures cluster.reliable && disk.reliable && ForWriting(flags) && '/' !in random
              && TempPath(tmpFolder, random, StripHost(uri)) !in old(disk.files).Keys + old(disk.dirs)
              && (forall q :: q in old(disk.files).Keys ==>
                    q != tmpFolder + "/hdfs-io-temp" && !Ancestor(q, tmpFolder + "/hdfs-io-temp")) ==>
                (r.Ok? <==>
                  && OpenedForWrite(old(cluster.fs), StripHost(uri), flags & 0x400 != 0).Some?
                  && (tmpFolder + "/hdfs-io-temp" in old(disk.dirs) || |tmpFolder| + 13 < 256))
      ensures cluster.reliable && !ForWriting(flags) ==> (r.Ok? <==> IsFile(old(cluster.fs), StripHost(uri)))
    {
      WritingFlags(flags);
      var p := StripHost(uri);
      OpeningCondition(disk.dirs, disk.files.Keys, tmpFolder, random, p);
      var isWriting := OpenFlags(flags) & O_WRONLY != 0;
      var ok := cluster.OpenFile(p, isWriting, OpenFlags(flags) & O_APPEND != 0);
      if !ok {
        return Err(NoEntry);
      }
      var tempFd, tempPath := -1, "";
      if isWriting {
        var made := MakeTempFolder(disk, tmpFolder);
        assert (disk.dirs, made) == FolderMade(old(disk.dirs), old(disk.files).Keys, tmpFolder);
        if made == -1 {
          return Err(SystemError);
        }
        tempPath := TempPath(tmpFolder, random, p);
        tempFd := disk.OpenForWrite(tempPath);
        if tempFd == -1 {
          return Err(SystemError);
        }
      }
      var h := new HdfsIOHandler(cluster, disk, p, isWriting, tempFd, tempPath);
      return Ok(h);
    }

    /** The directories after the temp folder has been asked for, and the answer. */
    static function FolderMade(dirs: set<string>, files: set<string>, tmpFolder: string): (set<string>, int) {
      var folder := TempFolder(tmpFolder);
      if folder in dirs || folder in files then (dirs, 0) else Util.MkdirChain(dirs, files, Util.Working(folder))
    }

    /**
      With no file in the way the temp folder is there afterwards exactly when it was there before or `mkdirs` does
      not cut its name off: it has at most 255 characters, 13 of them the plugin's own.
    */
    static lemma TempFolderCondition(dirs: set<string>, files: set<string>, t: string)
      requires var folder := t + "/hdfs-io-temp"; forall q :: q in files ==> q != folder && !Ancestor(q, folder)
      ensures var folder, (after, made) := t + "/hdfs-io-temp", FolderMade(dirs, files, t);
              && (folder in after <==> folder in dirs || |t| + 13 < 256)
              && (folder in after ==> made == 0)
              && forall q :: q in after && |q| > |folder| ==> q in dirs
    {
      var folder := t + "/hdfs-io-temp";
      if folder !in dirs {
        var p := Util.Working(folder);
        Util.MkdirChainStaysShort(dirs, files, p);
        if |folder| < 256 {
          assert folder[|folder| - 1] == 'p';
          assert forall q :: Util.OnTheWay(q, folder, 1) ==> Ancestor(q, folder);
          Util.MkdirsCreatesTheChain(dirs, files, folder);
        }
      }
    }

    /** The temp file can be created in a folder that is there. */
    static lemma TempFileCondition(dirs: set<string>, files: set<string>, t: string, random: string, uri: Path)
      requires '/' !in random && TempPath(t, random, uri) !in files && TempPath(t, random, uri) !in dirs
      ensures CanCreate(dirs, files, TempPath(t, random, uri)) <==> t + "/hdfs-io-temp" in dirs
    {
      TempPathIsInFolder(t, random, uri);
    }

    /** Both together, for a temp path that is not taken. */
    static lemma OpeningCondition(dirs: set<string>, files: set<string>, t: string, random: string, uri: Path)
      ensures '/' !in random && TempPath(t, random, uri) !in files + dirs
              && (forall q :: q in files ==> q != t + "/hdfs-io-temp" && !Ancestor(q, t + "/hdfs-io-temp")) ==>
                var (after, made) := FolderMade(dirs, files, t);
                made == 0 && CanCreate(after, files, TempPath(t, random, uri))
                <==> t + "/hdfs-io-temp" in dirs || |t| + 13 < 256
    {
      if '/' !in random && TempPath(t, random, uri) !in files + dirs
         && (forall q :: q in files ==> q != t + "/hdfs-io-temp" && !Ancestor(q, t + "/hdfs-io-temp")) {
        TempFolderCondition(dirs, files, t);
        TempPathIsInFolder(t, random, uri);
        TempFileCondition(FolderMade(dirs, files, t).0, files, t, random, uri);
      }
    }

    /** `stat`, and `mkdirs` when there is nothing. */
    static method MakeTempFolder(disk: LocalDisk, tmpFolder: string) returns (r: int)
      requires '\0' !in tmpFolder
      modifies disk`dirs, disk`mkdirCalls
      ensures (disk.dirs, r) == FolderMade(old(disk.dirs), disk.files.Keys, tmpFolder)
    {
      r := 0;
      var folder := TempFolder(tmpFolder);
      if !disk.Exists(folder) {
        r := Util.Mkdirs(disk, folder);
      }
    }

    /** `write` on a write handler: the temp file takes any part of the data, HDFS nothing. */
    method Write(data: Bytes) returns (r: Result<nat>)
      requires Valid() && isWriting
      modifies disk`files, disk`fds
      ensures Valid()
      ensures var e := Do(Buffer.Write(data, if r.Ok? then r.value else -1));
              && Model() == Step(old(Model()), e)
              && (r.Ok? <==> Returns(old(Model()), e))
      ensures old(file) == Null ==> r.Err?
      ensures r.Err? ==> Model() == old(Model())
      ensures r.Ok? ==>
                var before, after := old(Model()).temp.value, Model().temp.value;
                && r.value <= |data| && after.pos == before.pos + r.value
                && |after.bytes| == (if r.value > 0 && after.pos > |before.bytes| then after.pos else |before.bytes|)
                && forall i :: 0 <= i < |after.bytes| ==>
                     after.bytes[i] == if before.pos <= i < after.pos then data[i - before.pos]
                                       else if i < |before.bytes| then before.bytes[i] else 0
      ensures old(file).Handle? && disk.reliable ==> r == Ok(|data|)
      ensures disk.files.Keys == old(disk.files.Keys) && disk.fds.Keys == old(disk.fds.Keys)
      ensures disk.files - {tempPath} == old(disk.files) - {tempPath}
      ensures disk.fds - {tempFd} == old(disk.fds) - {tempFd}
    {
      var n := disk.Write(tempFd, data);
      if n < 0 {
        return Err(SystemError);
      }
      return Ok(n);
    }

    /** `seek` on a write handler. */
    method Seek(offset: int, whence: Whence) returns (r: Result<()>)
      requires Valid() && isWriting
      modifies disk`fds
      ensures Valid()
      ensures var e := Do(Buffer.Seek(offset, whence));
              && Model() == Step(old(Model()), e)
              && (r.Ok? <==> Returns(old(Model()), e))
      ensures old(file) == Null ==> r.Err?
      ensures old(file).Handle? ==>
                var before, after := old(Model()).temp.value, Model().temp.value;
                var base := if whence == SeekSet then 0 else if whence == SeekCur then before.pos else |before.bytes|;
                && (r.Ok? <==> 0 <= base + offset <= 0x7fff_ffff_ffff_ffff)
                && after == Cursor(before.bytes, if r.Ok? then base + offset else before.pos)
      ensures disk.fds.Keys == old(disk.fds.Keys)
      ensures disk.fds - {tempFd} == old(disk.fds) - {tempFd}
    {
      var moved := disk.Seek(tempFd, offset, whence);
      if moved == -1 {
        return Err(SystemError);
      }
      return Ok(());
    }

    /**
      The copy loop. Whatever sizes, interruptions and failures come, the bytes that reached HDFS are a
      prefix of the temp file in order, all of it when the result is 0, and no descriptor stays open.
    */
    method CopyToHdfs() returns (r: int, ghost attempts: seq<Attempt>)
      requires Valid() && isWriting
      modifies cluster`fs, cluster`stalls, cluster`writeCalls, disk`fds, disk`nextFd
      ensures Valid() && disk.fds == old(disk.fds)
      ensures r == 0 || r == -1
      ensures tempPath !in disk.files ==> r == -1 && attempts == []
      ensures tempPath in disk.files ==>
                && Delivered(attempts) <= |disk.files[tempPath]|
                && cluster.fs == Appended(old(cluster.fs), path, disk.files[tempPath][..Delivered(attempts)])
                && (r == 0 ==> Delivered(attempts) == |disk.files[tempPath]|)
      ensures attempts == [] ==> cluster.fs == old(cluster.fs)
      ensures tempPath in disk.files && disk.files[tempPath] == [] ==> attempts == []
      ensures Delivered(attempts) > 0 ==> IsFile(old(cluster.fs), path)
      ensures cluster.writeCalls == old(cluster.writeCalls) + |attempts|
      ensures cluster.stalls + Stalled(attempts) == old(cluster.stalls)
      ensures Broken(attempts) <= if r == 0 then 0 else 1
      ensures disk.reliable && tempPath in disk.files ==> (r == 0 <==> Broken(attempts) == 0)
      ensures cluster.reliable && IsFile(old(cluster.fs), path) ==> Broken(attempts) == 0
      ensures |attempts| <= Delivered(attempts) + (old(cluster.stalls) - cluster.stalls) + if r == 0 then 0 else 1
    {
      AppendNothing(cluster.fs, path);
      var fdFrom := disk.OpenForRead(tempPath);
      if fdFrom < 0 {
        return -1, [];
      }
      r, attempts := CopyFrom(fdFrom);
      disk.Close(fdFrom);
      assert disk.fds == old(disk.fds);
      AttemptsAreBounded(attempts);
    }

    /** The outer loop: `read` a chunk and send it, until the file ends or something fails. */
    method CopyFrom(fdFrom: int) returns (r: int, ghost attempts: seq<Attempt>)
      requires disk.Valid() && tempPath in disk.files
      requires fdFrom in disk.fds && disk.fds[fdFrom] == Description(tempPath, 0, false)
      modifies cluster`fs, cluster`stalls, cluster`writeCalls, disk`fds
      ensures disk.Valid() && fdFrom in disk.fds && disk.fds - {fdFrom} == old(disk.fds) - {fdFrom}
      ensures r == 0 || r == -1
      ensures Copied(old(cluster.fs), cluster.fs, disk.files[tempPath], attempts)
      ensures r == 0 ==> Delivered(attempts) == |disk.files[tempPath]|
      ensures attempts == [] ==> cluster.fs == old(cluster.fs)
      ensures disk.files[tempPath] == [] ==> attempts == []
      ensures cluster.writeCalls == old(cluster.writeCalls) + |attempts|
      ensures cluster.stalls + Stalled(attempts) == old(cluster.stalls)
      ensures Broken(attempts) <= if r == 0 then 0 else 1
      ensures disk.reliable ==> (r == 0 <==> Broken(attempts) == 0)
      ensures cluster.reliable && IsFile(old(cluster.fs), path) ==> Broken(attempts) == 0
    {
      ghost var bytes, fs0 := disk.files[tempPath], cluster.fs;
      attempts := [];
      AppendNothing(fs0, path);
      assert bytes[..0] == [];
      var buf := new Byte[COPY_BUFFER](_ => 0);
      var sent := true;
      var nread := disk.Read(fdFrom, buf);
      ghost var done := 0;  // how much of the file has been sent
      while nread > 0 && sent
        invariant disk.Valid() && fdFrom in disk.fds && disk.fds - {fdFrom} == old(disk.fds) - {fdFrom}
        invariant -1 <= nread <= buf.Length
        invariant 0 <= done && disk.fds[fdFrom] == Description(tempPath, done + if nread > 0 then nread else 0, false)
        invariant done + nread <= |bytes|
        invariant Copied(fs0, cluster.fs, bytes, attempts)
        invariant bytes == [] ==> attempts == []
        invariant sent ==> Delivered(attempts) == done
        invariant sent && nread > 0 ==> buf[..nread] == bytes[done..done + nread]
        invariant if sent then nread == 0 ==> done == |bytes| else nread > 0
        invariant disk.reliable ==> nread >= 0
        invariant cluster.reliable && IsFile(fs0, path) ==> sent
        invariant cluster.writeCalls == old(cluster.writeCalls) + |attempts|
        invariant cluster.stalls + Stalled(attempts) == old(cluster.stalls)
        invariant Broken(attempts) == if sent then 0 else 1
        decreases |bytes| - done, nread, sent
      {
        sent, attempts := SendChunk(buf, nread, bytes, fs0, attempts);
        if sent {
          done := done + nread;
          nread := disk.Read(fdFrom, buf);
        }
      }
      r := if nread == 0 then 0 else -1;
    }

    /** The inner loop: `hdfsWrite` again and again, from where it stopped, until the chunk is through. */
    method SendChunk(
      buf: array<Byte>, count: nat, ghost bytes: Bytes, ghost fs0: FileSystem, ghost before: seq<Attempt>)
      returns (sent: bool, ghost attempts: seq<Attempt>)
      requires 0 < count <= buf.Length && Delivered(before) + count <= |bytes|
      requires buf[..][..count] == bytes[Delivered(before)..Delivered(before) + count]
      requires Copied(fs0, cluster.fs, bytes, before)
      modifies cluster`fs, cluster`stalls, cluster`writeCalls
      ensures Copied(fs0, cluster.fs, bytes, attempts)
      ensures sent ==> Delivered(attempts) == Delivered(before) + count
      ensures cluster.writeCalls + |before| == old(cluster.writeCalls) + |attempts|
      ensures cluster.stalls + Stalled(attempts) == old(cluster.stalls) + Stalled(before)
      ensures Broken(attempts) == Broken(before) + if sent then 0 else 1
      ensures cluster.reliable && IsFile(fs0, path) ==> sent
    {
      attempts := before;
      ghost var start, all := Delivered(before), buf[..];
      var nread, out := count, 0;
      while nread > 0
        invariant 0 <= nread && 0 <= out && out + nread == count
        invariant Delivered(attempts) == start + out
        invariant buf[..] == all
        invariant Copied(fs0, cluster.fs, bytes, attempts)
        invariant cluster.writeCalls + |before| == old(cluster.writeCalls) + |attempts|
        invariant cluster.stalls + Stalled(attempts) == old(cluster.stalls) + Stalled(before)
        invariant Broken(attempts) == Broken(before)
        decreases nread, cluster.stalls
      {
        ghost var done := Delivered(attempts);
        var nwritten, errno := cluster.Write(path, buf, out, nread);
        ghost var a := AttemptOf(nwritten, errno);
        OneMoreAttempt(attempts, a);
        if nwritten > 0 {
          ChunkSlice(buf[..], bytes, start, count, out, nwritten);
          AppendInTwo(fs0, path, bytes, done, done + nwritten);
        }
        attempts := attempts + [a];
        if nwritten >= 0 {
          nread := nread - nwritten;
          out := out + nwritten;
        } else if errno != Interrupted {
          return false, attempts;
        }
      }
      return true, attempts;
    }

    /** A part of a buffer that holds a chunk of `bytes` is a part of `bytes`. */
    static lemma ChunkSlice(buf: Bytes, bytes: Bytes, start: nat, count: nat, out: nat, n: nat)
      requires count <= |buf| && start + count <= |bytes| && buf[..count] == bytes[start..start + count]
      requires out + n <= count
      ensures buf[out..out + n] == bytes[start + out..start + out + n]
    {
      var part, whole := buf[out..out + n], bytes[start + out..start + out + n];
      forall k | 0 <= k < n ensures part[k] == whole[k] {
        assert buf[..count][out + k] == bytes[start..start + count][out + k];
      }
    }

    /** What has been copied so far is what the attempts delivered, from the start of the file. */
    ghost predicate Copied(before: FileSystem, now: FileSystem, bytes: Bytes, attempts: seq<Attempt>) {
      && Delivered(attempts) <= |bytes|
      && now == Appended(before, path, bytes[..Delivered(attempts)])
      && (Delivered(attempts) > 0 ==> IsFile(before, path))
    }

    static ghost function AttemptOf(nwritten: int, errno: Errno): Attempt {
      if nwritten >= 0 then Sent(nwritten) else if errno == Interrupted then Retried else Broke
    }

    /**
      `close`. A writer's temp file is replayed and then gone, whatever the outcome; the HDFS handle is
      null and the temp descriptor -1. Only an incomplete copy makes it throw, so for a writer that is
      closed already it throws again. On a reader it never throws.
    */
    method Close() returns (r: Result<()>, ghost attempts: seq<Attempt>)
      requires Valid()
      modifies this`file, this`tempFd, cluster`fs, cluster`stalls, cluster`writeCalls
      modifies disk`files, disk`fds, disk`nextFd
      ensures Valid() && file == Null
      ensures isWriting ==>
                var e := Writers.Close(attempts, r.Ok?);
                && Possible(old(Model()), e)
                && Model() == Step(old(Model()), e)
                && (r.Ok? <==> Returns(old(Model()), e))
                && tempFd == -1
                && disk.files == old(disk.files) - {tempPath} && disk.fds == old(disk.fds) - {old(tempFd)}
      ensures isWriting ==> r == Ok(()) || r == Err(CopyFailed)
      ensures isWriting && old(file) == Null ==> r.Err? && cluster.fs == old(cluster.fs)
      ensures isWriting && old(file).Handle? && disk.reliable ==> (r.Ok? <==> Broken(attempts) == 0)
      ensures isWriting && old(file).Handle? && disk.reliable && cluster.reliable ==>
                (r.Ok? <==> IsFile(old(cluster.fs), path) || old(disk.files)[tempPath] == [])
      ensures isWriting && r.Ok? ==>
                if IsFile(old(cluster.fs), path) then
                  cluster.fs
                  == old(cluster.fs)[path := File(old(cluster.fs)[path].bytes + old(disk.files)[tempPath])]
                else
                  cluster.fs == old(cluster.fs)
      ensures !isWriting ==>
                && r.Ok? && cluster.fs == old(cluster.fs)
                && disk.files == old(disk.files) && disk.fds == old(disk.fds)
    {
      attempts := [];
      var ret := 0;
      if isWriting {
        ret, attempts := CopyToHdfs();
        assert tempPath in disk.files ==> disk.files[tempPath][..|disk.files[tempPath]|] == disk.files[tempPath];
      }
      file := Null;
      if isWriting {
        disk.Close(tempFd);
        tempFd := -1;
        disk.Remove(tempPath);
      }
      if isWriting && ret == -1 {
        return Err(CopyFailed), attempts;
      }
      return Ok(()), attempts;
    }

    /** The destructor: lets go of everything and copies nothing, closed or not. It removes the temp path either way. */
    method Destroy()
      requires Valid()
      modifies this`file, this`tempPath, this`tempFd, disk`files, disk`fds
      ensures Valid() && file == Null
      ensures isWriting ==>
                && Model() == Step(old(Model()), Writers.Destroy)
                && disk.files == old(disk.files) - {old(tempPath)}
                && disk.fds == old(disk.fds) - (if old(file).Handle? then {old(tempFd)} else {})
                && tempFd == -1 && tempPath == ""
      ensures !isWriting ==> disk.files == old(disk.files) && disk.fds == old(disk.fds)
    {
      file := Null;
      if isWriting {
        if tempFd != -1 {
          disk.Close(tempFd);
        }
        disk.Remove(tempPath);
        tempPath := "";
        tempFd := -1;
      }
    }

    /** The file being read, with the stream position and the end-of-file flag. */
    ghost function Stream(): Reader
      requires !isWriting && IsFile(cluster.fs, path) && file.Handle?
      reads this, cluster`fs
    {
      Reader(cluster.fs[path].bytes, file.pos, isEof)
    }

    /**
      `read`. The result is a `size_t`, so a failure comes back as a huge number. Anything below
      the HDFS buffer size raises the end-of-file flag, at the end or not.
    */
    method Read(buf: array<Byte>, count: nat) returns (bytesRead: nat)
      requires count <= buf.Length
      modifies this`file, this`isEof, buf
      ensures bytesRead <= count || bytesRead == 0xffff_ffff_ffff_ffff
      ensures isEof == (old(isEof) || bytesRead < 65536)
      ensures bytesRead == 0xffff_ffff_ffff_ffff && count < 0xffff_ffff_ffff_ffff ==>
                file == old(file) && isEof == old(isEof)
      ensures old(file) == Null || isWriting ==> bytesRead == 0xffff_ffff_ffff_ffff && file == old(file)
      ensures bytesRead <= count < 0xffff_ffff_ffff_ffff ==>
                && !isWriting && IsFile(cluster.fs, path) && file.Handle?
                && CanRead(old(Stream()), bytesRead)
                && Stream() == AfterRead(old(Stream()), bytesRead)
                && buf[..bytesRead] == Stream().bytes[old(file).pos..file.pos]
      ensures cluster.reliable && !isWriting && old(file).Handle? && IsFile(cluster.fs, path)
              && old(file).pos <= |cluster.fs[path].bytes| ==>
                var left := |cluster.fs[path].bytes| - old(file).pos;
                bytesRead == (if count < left then count else left) && file == Handle(old(file).pos + bytesRead)
    {
      var n := -1;
      if file.Handle? && !isWriting {
        n := cluster.Read(path, file.pos, buf, count);
      }
      if n >= 0 {
        file := Handle(file.pos + n);
      }
      bytesRead := if n < 0 then SIZE_MAX else n;
      if bytesRead < BUFF_SIZE {
        isEof := true;
      }
    }

    predicate Eof()
      reads this`isEof
    {
      isEof
    }
  }
}
