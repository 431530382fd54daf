/** A client of the write handler: open, any calls, close, destroy. It sees nothing but the contracts. */
module Client {
  import opened Results
  import opened Posix
  import opened Hdfs
  import opened Names
  import opened Buffer
  import opened Writers
  import opened IOHandler

  datatype ClientCall =
    | WriteCall(data: Bytes)
    | SeekCall(offset: int, whence: Whence)

  /** `op` is `call` with its outcome. */
  predicate IsOutcomeOf(op: Op, call: ClientCall) {
    match call
    case WriteCall(data) => op.Write? && op.data == data && -1 <= op.accepted <= |data|
    case SeekCall(offset, whence) => op == Buffer.Seek(offset, whence)
  }

  predicate AreOutcomesOf(ops: seq<Op>, calls: seq<ClientCall>) {
    |ops| == |calls| && forall i :: 0 <= i < |ops| ==> IsOutcomeOf(ops[i], calls[i])
  }

  /** Every write was taken whole. */
  predicate AllTaken(ops: seq<Op>) {
    forall i :: 0 <= i < |ops| && ops[i].Write? ==> ops[i].accepted == |ops[i].data|
  }

  /** One call on an open handler. */
  method MakeCall(h: HdfsIOHandler, call: ClientCall) returns (ghost op: Op)
    requires h.isWriting && h.Valid() && h.file.Handle?
    modifies h.disk`files, h.disk`fds
    ensures h.Valid() && IsOutcomeOf(op, call)
    ensures h.disk.reliable && call.WriteCall? ==> op.accepted == |call.data|
    ensures h.Model() == Step(old(h.Model()), Do(op))
    ensures h.disk.files - {h.tempPath} == old(h.disk.files) - {h.tempPath}
    ensures h.disk.fds - {h.tempFd} == old(h.disk.fds) - {h.tempFd}
  {
    match call {
      case WriteCall(data) =>
        var written := h.Write(data);
        op := Buffer.Write(data, if written.Ok? then written.value else -1);
      case SeekCall(offset, whence) =>
        var _ := h.Seek(offset, whence);
        op := Buffer.Seek(offset, whence);
    }
  }

  /** All the calls, whether or not they succeed. */
  method MakeCalls(h: HdfsIOHandler, calls: seq<ClientCall>) returns (ghost ops: seq<Op>)
    requires h.isWriting && h.Valid() && h.file.Handle? && h.Model().temp == Some(Posix.Cursor([], 0))
    modifies h.disk`files, h.disk`fds
    ensures h.Valid() && AreOutcomesOf(ops, calls)
    ensures h.disk.reliable ==> AllTaken(ops)
    ensures h.Model() == old(h.Model()).(temp := Some(PerformAll(Posix.Cursor([], 0), ops)))
    ensures h.disk.files - {h.tempPath} == old(h.disk.files) - {h.tempPath}
    ensures h.disk.fds - {h.tempFd} == old(h.disk.fds) - {h.tempFd}
  {
    ops := [];
    var i := 0;
    while i < |calls|
      invariant 0 <= i <= |calls| && AreOutcomesOf(ops, calls[..i])
      invariant h.disk.reliable ==> AllTaken(ops)
      invariant h.Valid()
      invariant h.Model() == old(h.Model()).(temp := Some(PerformAll(Posix.Cursor([], 0), ops)))
      invariant h.disk.files - {h.tempPath} == old(h.disk.files) - {h.tempPath}
      invariant h.disk.fds - {h.tempFd} == old(h.disk.fds) - {h.tempFd}
    {
      ghost var op := MakeCall(h, calls[i]);
      assert (ops + [op])[..|ops|] == ops;
      ops, i := ops + [op], i + 1;
    }
    assert calls[..i] == calls;
  }

  /** The calls, `close` and the destructor, on a handler that has just been opened. */
  method CallAndClose(h: HdfsIOHandler, calls: seq<ClientCall>)
    returns (r: Result<()>, ghost ops: seq<Op>, ghost sent: nat)
    requires h.isWriting && h.Valid() && h.file.Handle? && h.Model().temp == Some(Posix.Cursor([], 0))
    modifies h, h.cluster`fs, h.cluster`stalls, h.cluster`writeCalls
    modifies h.disk`files, h.disk`fds, h.disk`nextFd
    ensures AreOutcomesOf(ops, calls) && sent <= |Described(ops)|
    ensures h.cluster.fs == Appended(old(h.cluster.fs), h.path, Described(ops)[..sent])
    ensures r.Ok? ==> sent == |Described(ops)|
    ensures h.disk.reliable ==> AllTaken(ops)
    ensures h.disk.reliable && h.cluster.reliable && IsFile(old(h.cluster.fs), h.path) ==> r.Ok?
    ensures h.Valid() && h.file == Null
    ensures h.disk.files == old(h.disk.files) - {old(h.tempPath)} && h.disk.fds == old(h.disk.fds) - {old(h.tempFd)}
  {
    ghost var temp, fd := h.tempPath, h.tempFd;
    ops := MakeCalls(h, calls);
    ContentsAreDescribed(ops);
    ghost var attempts;
    r, attempts := h.Close();
    sent := Delivered(attempts);
    h.Destroy();
  }

  /** A new HDFS file behind a fresh temp file. */
  method Start(cluster: Cluster, disk: LocalDisk, tmpFolder: string, random: string, uri: string, flags: bv32)
    returns (r: Result<HdfsIOHandler>)
    requires disk.Valid() && flags & 0x43 != 0 && flags & 0x400 == 0
    requires '\0' !in tmpFolder && |TempPath(tmpFolder, random, StripHost(uri))| < PATH_MAX
    requires TempPath(tmpFolder, random, StripHost(uri)) !in disk.files
    modifies cluster`fs, disk
    ensures r.Ok? ==>
              var h, created := r.value, OpenedForWrite(old(cluster.fs), StripHost(uri), false);
              && fresh(h) && h.Valid() && h.cluster == cluster && h.disk == disk && h.path == StripHost(uri)
              && h.isWriting && h.file.Handle? && h.Model().temp == Some(Posix.Cursor([], 0))
              && disk.files - {h.tempPath} == old(disk.files) && disk.fds - {h.tempFd} == old(disk.fds)
              && created == Some(cluster.fs)
              && h.path in cluster.fs && cluster.fs[h.path] == File([])
    ensures r.Err? ==> disk.Valid() && disk.files == old(disk.files) && disk.fds == old(disk.fds)
    ensures disk.reliable && cluster.reliable && '/' !in random
            && TempPath(tmpFolder, random, StripHost(uri)) !in old(disk.dirs)
            && (forall q :: q in old(disk.files) ==>
                  q != tmpFolder + "/hdfs-io-temp" && !Ancestor(q, tmpFolder + "/hdfs-io-temp")) ==>
              (r.Ok? <==>
                && OpenedForWrite(old(cluster.fs), StripHost(uri), false).Some?
                && (tmpFolder + "/hdfs-io-temp" in old(disk.dirs) || |tmpFolder| + 13 < 256))
  {
    WritingFlags(flags);
    r := HdfsIOHandler.Open(cluster, disk, tmpFolder, random, uri, flags);
  }

  /**
    On a fresh temp path, `close` returns only with the described bytes in the new HDFS file; when it throws the
    file has a prefix of them. The local disk is as it was, and no other HDFS path has changed since the opening.
    With a reliable disk and name node every write is taken whole, and `close` returns whenever the opening did.
  */
  method Upload(cluster: Cluster, disk: LocalDisk, tmpFolder: string, random: string, uri: string, flags: bv32,
                calls: seq<ClientCall>)
    returns (r: Result<()>, started: bool, ghost ops: seq<Op>, ghost sent: nat)
    requires disk.Valid() && flags & 0x43 != 0 && flags & 0x400 == 0
    requires '\0' !in tmpFolder && |TempPath(tmpFolder, random, StripHost(uri))| < PATH_MAX
    requires TempPath(tmpFolder, random, StripHost(uri)) !in disk.files
    modifies cluster, disk
    ensures started ==>
              var p, created := StripHost(uri), OpenedForWrite(old(cluster.fs), StripHost(uri), false);
              && AreOutcomesOf(ops, calls) && sent <= |Described(ops)|
              && created.Some? && cluster.fs == created.value[p := File(Described(ops)[..sent])]
    ensures r.Ok? ==> started && sent == |Described(ops)|
    ensures disk.reliable && cluster.reliable ==> AllTaken(ops) && (started ==> r.Ok?)
    ensures disk.reliable && cluster.reliable && '/' !in random
            && TempPath(tmpFolder, random, StripHost(uri)) !in old(disk.dirs)
            && (forall q :: q in old(disk.files) ==>
                  q != tmpFolder + "/hdfs-io-temp" && !Ancestor(q, tmpFolder + "/hdfs-io-temp")) ==>
              (started <==>
                && OpenedForWrite(old(cluster.fs), StripHost(uri), false).Some?
                && (tmpFolder + "/hdfs-io-temp" in old(disk.dirs) || |tmpFolder| + 13 < 256))
    ensures disk.Valid() && disk.files == old(disk.files) && disk.fds == old(disk.fds)
  {
    started, ops, sent := false, [], 0;
    var opening := Start(cluster, disk, tmpFolder, random, uri, flags);
    if opening.Err? {
      return Err(opening.error), started, ops, sent;
    }
    started := true;
    r, ops, sent := CallAndClose(opening.value, calls);
    assert [] + Described(ops)[..sent] == Described(ops)[..sent];
  }
}
