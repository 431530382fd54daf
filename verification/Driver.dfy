/** `HdfsIODriver::doneWriting`: publish an upload by renaming its staging file, then promote it. */
module Driver {
  import opened Results
  import opened Hdfs
  import opened Names
  import opened Catalogs
  import opened Promotion
  import opened Pool

  class HdfsIODriver {
    const cluster: Cluster
    const stack: Stack

    constructor (cluster: Cluster, stack: Stack)
      ensures this.cluster == cluster && this.stack == stack
    {
      this.cluster, this.stack := cluster, stack;
    }

    /**
      The rename happens or nothing does; afterwards the catalog is promoted, and a failure there
      does not undo the rename. Nobody asks whether the upload was complete.
    */
    method DoneWriting(loc: Location) returns (r: Result<()>, ghost renamed: bool, ghost fault: Fault)
      modifies cluster`fs, stack
      ensures loc == [] ==> r == Err(InvalidArgument) && !renamed
      ensures renamed ==>
                && loc != [] && Renamed(old(cluster.fs), loc[0].path, DropUpload(loc[0].path)) == Some(cluster.fs)
                && (stack.catalog, r) == Eager(old(stack.catalog), cluster.fs, DropUpload(loc[0].path), fault)
      ensures !renamed ==> r.Err? && cluster.fs == old(cluster.fs) && stack.catalog == old(stack.catalog)
      ensures !renamed && loc != [] && cluster.reliable ==>
                Renamed(cluster.fs, loc[0].path, DropUpload(loc[0].path)).None?
      ensures loc != [] && |loc[0].path| > 7 && IsFile(old(cluster.fs), loc[0].path) && cluster.reliable ==>
                var staged, final := loc[0].path, loc[0].path[..|loc[0].path| - 7];
                final !in old(cluster.fs) && (forall q :: Ancestor(q, final) ==> IsDir(old(cluster.fs), q)) ==>
                  renamed && cluster.fs == (old(cluster.fs) - {staged})[final := old(cluster.fs)[staged]]
      ensures renamed && |loc[0].path| > 7 ==> !IsFile(old(cluster.fs), loc[0].path[..|loc[0].path| - 7])
      ensures loc != [] && |loc[0].path| <= 7 ==> cluster.fs == old(cluster.fs)
      ensures stack.reliable && cluster.reliable ==> fault == NoFault
      ensures renamed && fault == NoFault && |loc[0].path| > 7 ==>
                var staged, final := loc[0].path, loc[0].path[..|loc[0].path| - 7];
                final !in old(cluster.fs) && ':' !in final ==>
                  match old(stack.catalog)
                  case NameSpace => r.Ok? && stack.catalog == NameSpace
                  case Registry(records) =>
                    && IsFile(old(cluster.fs), staged)
                    && r == (if final in records then Ok(()) else Err(NoReplicas))
                    && stack.catalog == Registry(
                         if final in records
                         then records[final := Record(Available, |old(cluster.fs)[staged].bytes|)] else records)
    {
      renamed, fault := false, NoFault;
      if loc == [] {
        return Err(InvalidArgument), renamed, fault;
      }
      var final := DropUpload(loc[0].path);
      StripHostOfPlainPath(final);
      var failed := cluster.Rename(loc[0].path, final);
      if failed != 0 {
        return Err(SystemError), renamed, fault;
      }
      renamed := true;
      r, fault := UpdateReplica(final);
    }

    /** Eager promotion; `fault` is the call that failed without reason, if one did. */
    method UpdateReplica(final: string) returns (r: Result<()>, ghost fault: Fault)
      modifies stack
      ensures (stack.catalog, r) == Eager(old(stack.catalog), cluster.fs, final, fault)
      ensures stack.reliable && cluster.reliable ==> fault == NoFault
      ensures old(stack.catalog).NameSpace? ==>
                stack.catalog.NameSpace? && (r.Ok? <==> fault == NoFault && StripHost(final) in cluster.fs)
      ensures old(stack.catalog).Registry? ==>
                var p, records := StripHost(final), old(stack.catalog).records;
                && (r.Ok? <==> fault == NoFault && p in records && p in cluster.fs)
                && (p !in records ==> r == Err(NoReplicas))
                && stack.catalog == Registry(
                     if p !in records || fault in {LookupFault, StatusFault} then records
                     else if r.Err? then records[p := Record(Available, records[p].size)]
                     else if cluster.fs[p].File? then records[p := Record(Available, |cluster.fs[p].bytes|)]
                     else records[p := Record(Available, 0)])
    {
      fault := NoFault;
      var p := StripHost(final);
      var found, lost := stack.GetReplicaByRFN(cluster, p);
      if found.None? {
        return Err(NoReplicas), if lost then LookupFault else NoFault;
      }
      var ok, failed := stack.UpdateReplica(found.value.(status := Available));
      if !ok {
        return Err(SystemError), if failed then StatusFault else NoFault;
      }
      var info := cluster.GetPathInfo(p);
      if info.None? {
        return Err(SystemError), if cluster.Exists(p) then InfoFault else NoFault;
      }
      ok, failed := stack.SetSize(p, info.value.size);
      if !ok {
        return Err(SystemError), if failed then SizeFault else NoFault;
      }
      return Ok(()), fault;
    }
  }
}
