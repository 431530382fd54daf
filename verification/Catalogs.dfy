/** The two catalogs the plugin runs with: the HDFS name space itself, and one that keeps records. */
module Catalogs {
  import opened Results
  import opened Hdfs

  datatype Status = Available | BeingPopulated | BeingDeleted

  datatype Replica = Replica(rfn: string, status: Status)

  datatype Record = Record(status: Status, size: nat)

  /** `NameSpace` is `HdfsNS`: it stores nothing and answers from HDFS. */
  datatype Catalog = NameSpace | Registry(records: map<string, Record>)

  function WithReplica(c: Catalog, replica: Replica): Catalog {
    match c
    case NameSpace => c
    case Registry(records) => Registry(records[replica.rfn := Record(replica.status, 0)])
  }

  function WithoutReplica(c: Catalog, replica: Replica): Catalog {
    match c
    case NameSpace => c
    case Registry(records) => Registry(records - {replica.rfn})
  }

  predicate Knows(c: Catalog, rfn: string) {
    c.NameSpace? || rfn in c.records
  }

  function WithStatus(c: Catalog, replica: Replica): Catalog
    requires Knows(c, replica.rfn)
  {
    match c
    case NameSpace => c
    case Registry(records) => Registry(records[replica.rfn := records[replica.rfn].(status := replica.status)])
  }

  function WithSize(c: Catalog, rfn: string, size: nat): Catalog
    requires Knows(c, rfn)
  {
    match c
    case NameSpace => c
    case Registry(records) => Registry(records[rfn := records[rfn].(size := size)])
  }

  /** `getReplicaByRFN`: in the name space, everything that exists is an available replica. */
  function Lookup(c: Catalog, fs: FileSystem, rfn: string): Option<Replica> {
    match c
    case NameSpace => if rfn in fs then Some(Replica(rfn, Available)) else None
    case Registry(records) => if rfn in records then Some(Replica(rfn, records[rfn].status)) else None
  }

  /** The catalog of a running stack; any call that needs its database may throw. */
  class Stack {
    var catalog: Catalog
    const reliable: bool  // the database answers every call

    constructor (catalog: Catalog, reliable: bool)
      ensures this.catalog == catalog && this.reliable == reliable
    {
      this.catalog, this.reliable := catalog, reliable;
    }

    /** Does the database answer? */
    method Answers() returns (ok: bool)
      ensures reliable ==> ok
    {
      ok := *;
      ok := ok || reliable;
    }

    method AddReplica(replica: Replica) returns (ok: bool)
      modifies this
      ensures catalog == if ok then WithReplica(old(catalog), replica) else old(catalog)
      ensures catalog.NameSpace? || reliable ==> ok
    {
      ok := Answers();
      ok := ok || catalog.NameSpace?;
      if ok {
        catalog := WithReplica(catalog, replica);
      }
    }

    method DeleteReplica(replica: Replica) returns (ok: bool)
      modifies this
      ensures catalog == if ok then WithoutReplica(old(catalog), replica) else old(catalog)
      ensures catalog.NameSpace? || reliable ==> ok
    {
      ok := Answers();
      ok := ok || catalog.NameSpace?;
      if ok {
        catalog := WithoutReplica(catalog, replica);
      }
    }

    /** `fault` tells a failing database from a replica it does not know. */
    method UpdateReplica(replica: Replica) returns (ok: bool, ghost fault: bool)
      modifies this
      ensures ok <==> Knows(old(catalog), replica.rfn) && !fault
      ensures catalog == if ok then WithStatus(old(catalog), replica) else old(catalog)
      ensures reliable ==> !fault
    {
      ok := Answers();
      fault := !ok;
      ok := ok && Knows(catalog, replica.rfn);
      if ok {
        catalog := WithStatus(catalog, replica);
      }
    }

    method SetSize(rfn: string, size: nat) returns (ok: bool, ghost fault: bool)
      modifies this
      ensures ok <==> Knows(old(catalog), rfn) && !fault
      ensures catalog == if ok then WithSize(old(catalog), rfn, size) else old(catalog)
      ensures reliable ==> !fault
    {
      ok := Answers();
      fault := !ok;
      ok := ok && Knows(catalog, rfn);
      if ok {
        catalog := WithSize(catalog, rfn, size);
      }
    }

    method GetReplicaByRFN(cluster: Cluster, rfn: string) returns (replica: Option<Replica>, ghost fault: bool)
      ensures replica == if fault then None else Lookup(catalog, cluster.fs, rfn)
      ensures replica.Some? ==> Lookup(catalog, cluster.fs, rfn) == replica
      ensures reliable ==> !fault
    {
      var ok := Answers();
      fault := !ok;
      replica := if ok then Lookup(catalog, cluster.fs, rfn) else None;
    }
  }
}
