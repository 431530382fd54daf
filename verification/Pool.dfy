/** `HdfsPoolHandler`: where uploads are staged, cancelled and removed, and how much room there is. */
module Pool {
  import opened Results
  import opened Hdfs
  import opened Names
  import opened Catalogs
  import opened Promotion
  import Util

  /** One piece of a location; the plugin always hands out exactly one. */
  datatype Chunk = Chunk(domain: string, path: Path, offset: nat, size: nat)

  type Location = seq<Chunk>

  // ----- What the operations do to HDFS when the name node fails no call without reason -----

  function ReservedFs(fs: FileSystem, fn: Path): FileSystem {
    Effect(fs, DirectoryCreated(fs, ParentPath(fn)))
  }

  /** `removeReplica`, when the name node answers the first and the second delete or not. */
  function RemovedIf(fs: FileSystem, replica: Replica, first: bool, second: bool): FileSystem {
    var fs1 := if replica.status == BeingPopulated && first
               then Effect(fs, Deleted(fs, Staged(replica.rfn), false)) else fs;
    if second then Effect(fs1, Deleted(fs1, replica.rfn, false)) else fs1
  }

  /** `removeReplica`; the first case of its switch falls through to the second. */
  function RemovedFs(fs: FileSystem, replica: Replica): FileSystem {
    RemovedIf(fs, replica, true, true)
  }

  /** `cancelWrite` on the path of an upload. */
  function CancelledFs(c: Catalog, fs: FileSystem, path: Path): Result<FileSystem> {
    match Lookup(c, fs, path)
    case None => Err(NoReplicas)
    case Some(replica) => Ok(RemovedFs(fs, replica))
  }

  /** Without recursion a delete takes one entry or nothing. */
  lemma DeleteTakesOne(fs: FileSystem, p: Path)
    ensures Deleted(fs, p, false).Some? ==> Deleted(fs, p, false).value == fs - {p}
    ensures IsFile(fs, p) && (forall q :: q in fs ==> !Ancestor(p, q)) ==> Deleted(fs, p, false).Some?
  {
  }

  /** Removing an upload that was never finished takes the staging file and the final one. */
  lemma RemovingUnfinished(fs: FileSystem, fn: Path)
    requires forall p, q :: p in {fn, Staged(fn)} && q in fs && Ancestor(p, q) ==> false
    ensures RemovedFs(fs, Replica(fn, BeingPopulated)) == fs - {Staged(fn), fn}
  {
    var fs1 := Effect(fs, Deleted(fs, Staged(fn), false));
    assert fs1 == fs - {Staged(fn)};
    assert forall q :: q in fs1 ==> q in fs && !Ancestor(fn, q);
    assert RemovedFs(fs, Replica(fn, BeingPopulated)) == fs1 - {fn};
  }

  lemma RemovingTakes(fs: FileSystem, replica: Replica)
    ensures (forall q :: q in fs ==> !Ancestor(replica.rfn, q) && !Ancestor(replica.rfn + ".upload", q)) ==>
              RemovedFs(fs, replica) == fs - (if replica.status == BeingPopulated
                                              then {replica.rfn, replica.rfn + ".upload"} else {replica.rfn})
  {
    if forall q :: q in fs ==> !Ancestor(replica.rfn, q) && !Ancestor(replica.rfn + ".upload", q) {
      if replica.status == BeingPopulated {
        RemovingUnfinished(fs, replica.rfn);
      } else {
        RemovingFinished(fs, replica.rfn, replica.status);
      }
    }
  }

  /** Removing any other replica, one being deleted included, takes its file alone. */
  lemma RemovingFinished(fs: FileSystem, rfn: Path, status: Status)
    requires status != BeingPopulated && forall q :: q in fs ==> !Ancestor(rfn, q)
    ensures RemovedFs(fs, Replica(rfn, status)) == fs - {rfn}
  {
    assert rfn !in fs ==> fs == fs - {rfn};
  }

  /**
    With a catalog that keeps records, `cancelWrite` does not find the replica `whereToWrite` registered:
    it asks for the staging path, so it throws unless somebody registered that one too.
  */
  lemma RegistryDoesNotFindUploads(records: map<string, Record>, fs: FileSystem, fn: Path)
    ensures var registered := WithReplica(Registry(records), Replica(fn, BeingPopulated));
            CancelledFs(registered, fs, Staged(fn)).Err? <==> Staged(fn) !in records
  {
    assert |Staged(fn)| > |fn|;
  }

  /** The `st_size` of `extendedStat`: 4096 for a directory. */
  function StatSize(e: Entry): nat {
    match e
    case Dir => 4096
    case File(bytes) => |bytes|
  }

  // ----- Space -----

  const UINT64: int := 0x1_0000_0000_0000_0000

  /** The subtraction of two `uint64_t`. */
  function FreeSpace(total: nat, used: nat): nat {
    (total - used) % UINT64
  }

  /** Scaling both figures down by the replication factor keeps the books balanced. */
  lemma SpaceIsAccountedFor(capacity: nat, used: nat, replication: nat)
    requires used <= capacity < 0x1_0000_0000_0000_0000 && replication > 0
    ensures var free := FreeSpace(capacity / replication, used / replication);
            && used / replication + free == capacity / replication
            && (capacity - used) / replication <= free <= (capacity - used) / replication + 1
  {
    FloorsAdd(capacity, used, replication,
              capacity / replication, used / replication, (capacity - used) / replication);
  }

  /** The arithmetic behind it, for quotients given by their bounds. */
  lemma FloorsAdd(c: nat, u: nat, r: nat, total: nat, taken: nat, rest: nat)
    requires r * total <= c < r * (total + 1)
    requires r * taken <= u < r * (taken + 1)
    requires r * rest <= c - u < r * (rest + 1)
    ensures taken + rest <= total <= taken + rest + 1 && total <= c
  {
    assert r * (rest + taken) == r * rest + r * taken;
    Divide(r, rest + taken, total + 1);
    assert r * (rest + taken + 2) == r * (rest + 1) + r * (taken + 1);
    Divide(r, total, rest + taken + 2);
    Multiply(total, r, 1);
  }

  lemma Multiply(r: nat, a: nat, b: nat)
    requires a >= b
    ensures r * a >= r * b
  {
    assert r * a == r * b + r * (a - b);
  }

  lemma Divide(r: nat, a: nat, b: nat)
    requires r * a < r * b
    ensures a < b
  {
    if a >= b {
      Multiply(r, a, b);
    }
  }

  // ----- The handler -----

  class HdfsPoolHandler {
    const cluster: Cluster
    const stack: Stack
    const gateways: seq<string>
    const mode: string
    const replication: nat

    constructor (cluster: Cluster, stack: Stack, gateways: seq<string>, mode: string, replication: nat)
      ensures this.cluster == cluster && this.stack == stack && this.gateways == gateways
      ensures this.mode == mode && this.replication == replication
    {
      this.cluster, this.stack, this.gateways := cluster, stack, gateways;
      this.mode, this.replication := mode, replication;
    }

    method GetTotalSpace() returns (r: Result<nat>)
      requires replication > 0
      ensures r == if cluster.capacity < 0 then Err(SystemError) else Ok(cluster.capacity / replication)
    {
      if cluster.capacity < 0 {
        return Err(SystemError);
      }
      assert cluster.capacity / replication >= 0;
      return Ok(cluster.capacity / replication);
    }

    method GetUsedSpace() returns (r: Result<nat>)
      requires replication > 0
      ensures r == if cluster.used < 0 then Err(SystemError) else Ok(cluster.used / replication)
    {
      if cluster.used < 0 {
        return Err(SystemError);
      }
      return Ok(cluster.used / replication);
    }

    /** The three figures add up: see `SpaceIsAccountedFor`. */
    method GetFreeSpace() returns (r: Result<nat>)
      requires replication > 0
      ensures r.Ok? <==> cluster.capacity >= 0 && cluster.used >= 0
      ensures 0 <= cluster.used <= cluster.capacity < 0x1_0000_0000_0000_0000 ==>
                && r.Ok? && cluster.used / replication + r.value == cluster.capacity / replication
                && var rest := (cluster.capacity - cluster.used) / replication; rest <= r.value <= rest + 1
    {
      var total := GetTotalSpace();
      if total.Err? {
        return total;
      }
      var taken := GetUsedSpace();
      if taken.Err? {
        return taken;
      }
      if cluster.used <= cluster.capacity < UINT64 {
        SpaceIsAccountedFor(cluster.capacity, cluster.used, replication);
      }
      return Ok(FreeSpace(total.value, taken.value));
    }

    /** Lazy promotion; `fault` is the call that failed without reason, if one did. */
    method ReplicaIsAvailable(replica: Replica) returns (r: Result<bool>, ghost fault: Fault)
      modifies stack
      ensures (stack.catalog, r) == Lazy(old(stack.catalog), cluster.fs, replica, fault)
      ensures stack.reliable && cluster.reliable ==> fault == NoFault
      ensures r == Ok(true) ==> replica.status != BeingDeleted && StripHost(replica.rfn) in cluster.fs
      ensures replica.status == Available ==>
                r == Ok(StripHost(replica.rfn) in cluster.fs) && stack.catalog == old(stack.catalog)
      ensures replica.status == BeingDeleted ==> r == Ok(false) && stack.catalog == old(stack.catalog)
      ensures replica.status == BeingPopulated ==> (r == Ok(false) <==> StripHost(replica.rfn) !in cluster.fs)
      ensures r == Ok(false) ==> stack.catalog == old(stack.catalog)
      ensures replica.status == BeingPopulated && old(stack.catalog).NameSpace? ==>
                && stack.catalog.NameSpace?
                && (r == Ok(true) <==> StripHost(replica.rfn) in cluster.fs && fault == NoFault)
      ensures replica.status == BeingPopulated && old(stack.catalog).Registry? ==>
                var rfn, p, records := replica.rfn, StripHost(replica.rfn), old(stack.catalog).records;
                && (r == Ok(true) <==> p in cluster.fs && fault == NoFault && rfn in records && p in records)
                && (r == Ok(true) ==>
                      var size := if cluster.fs[p].File? then |cluster.fs[p].bytes| else 0;
                      var status := if rfn == p then Available else records[p].status;
                      stack.catalog
                      == Registry(records[rfn := Record(Available, records[rfn].size)][p := Record(status, size)]))
                && (r.Err? ==>
                      stack.catalog
                      == Registry(if rfn !in records || fault == StatusFault then records
                                  else records[rfn := Record(Available, records[rfn].size)]))
    {
      fault := NoFault;
      var p := StripHost(replica.rfn);
      match replica.status
      case BeingPopulated =>
        if !cluster.Exists(p) {
          return Ok(false), fault;
        }
        var ok, failed := stack.UpdateReplica(replica.(status := Available));
        if !ok {
          return Err(SystemError), if failed then StatusFault else NoFault;
        }
        var info := cluster.GetPathInfo(p);
        if info.None? {
          return Err(SystemError), InfoFault;
        }
        ok, failed := stack.SetSize(p, info.value.size);
        if !ok {
          return Err(SystemError), if failed then SizeFault else NoFault;
        }
        return Ok(true), fault;
      case Available =>
        return Ok(cluster.Exists(p)), fault;
      case BeingDeleted =>
        return Ok(false), fault;
    }

    method WhereToRead(replica: Replica) returns (r: Result<Location>)
      requires gateways != []
      ensures r.Ok? ==>
                var p := StripHost(replica.rfn);
                && p in cluster.fs
                && var size := if cluster.fs[p].File? then |cluster.fs[p].bytes| else 4096;
                   exists domain :: domain in gateways && r.value == [Chunk(domain, p, 0, size)]
      ensures r.Err? && cluster.reliable ==> r.error == NoEntry && StripHost(replica.rfn) !in cluster.fs
    {
      var p := StripHost(replica.rfn);
      var domain := Util.GetRandomGateway(gateways);
      var info := cluster.GetPathInfo(p);
      if info.None? {
        return Err(NoEntry);
      }
      var size := if info.value.isDir then 4096 else info.value.size;
      return Ok([Chunk(domain, p, 0, size)]);
    }

    /**
      Deletes the replica's file, and for an unfinished upload the staging file before it; `first` and `second`
      tell which of the two the name node carried out, and nobody looks at that.
    */
    method RemoveReplica(replica: Replica) returns (r: Result<()>, ghost first: bool, ghost second: bool)
      modifies cluster`fs, stack
      ensures cluster.fs == RemovedIf(old(cluster.fs), replica, first, second)
      ensures cluster.reliable ==> cluster.fs == RemovedFs(old(cluster.fs), replica)
      ensures forall p :: p != replica.rfn && p != Staged(replica.rfn) ==> At(cluster.fs, p) == At(old(cluster.fs), p)
      ensures cluster.reliable && (forall q :: q in old(cluster.fs) ==>
                                     !Ancestor(replica.rfn, q) && !Ancestor(replica.rfn + ".upload", q)) ==>
                cluster.fs == old(cluster.fs) - (if replica.status == BeingPopulated
                                                 then {replica.rfn, replica.rfn + ".upload"} else {replica.rfn})
      ensures stack.catalog == if r.Ok? then WithoutReplica(old(stack.catalog), replica) else old(stack.catalog)
      ensures r.Ok? && old(stack.catalog).Registry? ==>
                stack.catalog == Registry(old(stack.catalog).records - {replica.rfn})
      ensures stack.catalog.NameSpace? || stack.reliable ==> r.Ok?
    {
      RemovingTakes(cluster.fs, replica);
      first := true;
      if replica.status == BeingPopulated {
        DeleteTakesOne(cluster.fs, Staged(replica.rfn));
        var failed := cluster.Delete(Staged(replica.rfn), false);
        first := failed == 0;
      }
      DeleteTakesOne(cluster.fs, replica.rfn);
      var failed := cluster.Delete(replica.rfn, false);
      second := failed == 0;
      var ok := stack.DeleteReplica(replica);
      if !ok {
        return Err(SystemError), first, second;
      }
      return Ok(()), first, second;
    }

    /** Prepares the directory, registers the replica under its final name and hands out the staging path. */
    method WhereToWrite(fn: Path) returns (r: Result<Location>)
      requires gateways != []
      modifies cluster`fs, stack
      ensures cluster.reliable ==> cluster.fs == ReservedFs(old(cluster.fs), fn)
      ensures cluster.fs == old(cluster.fs) || cluster.fs == ReservedFs(old(cluster.fs), fn)
      ensures r.Ok? ==> exists domain :: domain in gateways && r.value == [Chunk(domain, fn + ".upload", 0, 0)]
      ensures stack.catalog ==
              if r.Ok? then WithReplica(old(stack.catalog), Replica(fn, BeingPopulated)) else old(stack.catalog)
      ensures r.Ok? && old(stack.catalog).Registry? ==>
                stack.catalog == Registry(old(stack.catalog).records[fn := Record(BeingPopulated, 0)])
      ensures stack.catalog.NameSpace? || stack.reliable ==> r.Ok?
    {
      var _ := cluster.CreateDirectory(ParentPath(fn));
      var domain := Util.GetRandomGateway(gateways);
      var single := Chunk(domain, Staged(fn), 0, 0);
      var ok := stack.AddReplica(Replica(fn, BeingPopulated));
      if !ok {
        return Err(SystemError);
      }
      return Ok([single]);
    }

    /** Looks the staging path up as a replica and removes that; without one it throws and nothing happens. */
    method CancelWrite(loc: Location) returns (r: Result<()>)
      modifies cluster`fs, stack
      ensures loc == [] ==> r == Err(InvalidArgument)
      ensures loc == [] || CancelledFs(old(stack.catalog), old(cluster.fs), loc[0].path).Err? ==>
                r.Err? && cluster.fs == old(cluster.fs) && stack.catalog == old(stack.catalog)
      ensures loc != [] && cluster.reliable && r.Ok? ==>
                CancelledFs(old(stack.catalog), old(cluster.fs), loc[0].path) == Ok(cluster.fs)
      ensures stack.catalog.NameSpace? && r.Err? ==> cluster.fs == old(cluster.fs)
      ensures loc != [] && stack.reliable ==>
                (r.Ok? <==> if old(stack.catalog).NameSpace? then loc[0].path in old(cluster.fs)
                            else loc[0].path in old(stack.catalog).records)
      ensures r.Err? && stack.reliable ==> r.error == if loc == [] then InvalidArgument else NoReplicas
      ensures r.Ok? && old(stack.catalog).Registry? ==>
                stack.catalog == Registry(old(stack.catalog).records - {loc[0].path})
      ensures r.Ok? && cluster.reliable
              && (forall q :: q in old(cluster.fs) ==>
                    !Ancestor(loc[0].path, q) && !Ancestor(loc[0].path + ".upload", q)) ==>
                var path, c := loc[0].path, old(stack.catalog);
                cluster.fs == old(cluster.fs) - (if c.Registry? && c.records[path].status == BeingPopulated
                                                 then {path, path + ".upload"} else {path})
      ensures loc != [] ==>
                forall p :: p != loc[0].path && p != Staged(loc[0].path) ==> At(cluster.fs, p) == At(old(cluster.fs), p)
    {
      if loc == [] {
        return Err(InvalidArgument);
      }
      var found, _ := stack.GetReplicaByRFN(cluster, loc[0].path);
      if found.None? {
        return Err(NoReplicas);
      }
      ghost var first, second;
      r, first, second := RemoveReplica(found.value);
    }
  }
}
