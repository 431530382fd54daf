/**
  From "being populated" to "available": eagerly when the client reports the end of its upload, lazily
  when somebody asks for the replica. Both touch the catalog in two steps, and either step can fail.
*/
module Promotion {
  import opened Results
  import opened Posix
  import opened Hdfs
  import opened Names
  import opened Catalogs

  /** The call that fails although nothing is wrong with its arguments. */
  datatype Fault = NoFault | LookupFault | StatusFault | InfoFault | SizeFault

  function SizeAt(fs: FileSystem, p: Path): nat
    requires p in fs
  {
    InfoOf(fs[p]).size
  }

  /** The two catalog steps: the status under `rfn`, then the size HDFS reports for `p` under `p`. */
  function Promoted(c: Catalog, fs: FileSystem, rfn: string, p: Path, fault: Fault): (Catalog, Result<()>) {
    if fault == StatusFault || !Knows(c, rfn) then (c, Err(SystemError)) else
      var c1 := WithStatus(c, Replica(rfn, Available));
      if fault == InfoFault || p !in fs || fault == SizeFault || !Knows(c1, p) then (c1, Err(SystemError))
      else (WithSize(c1, p, SizeAt(fs, p)), Ok(()))
  }

  /** `HdfsIODriver::updateReplica` */
  function Eager(c: Catalog, fs: FileSystem, final: string, fault: Fault): (Catalog, Result<()>) {
    var p := StripHost(final);
    if fault == LookupFault || Lookup(c, fs, p).None? then (c, Err(NoReplicas))
    else Promoted(c, fs, p, p, fault)
  }

  /** `HdfsPoolHandler::replicaIsAvailable` */
  function Lazy(c: Catalog, fs: FileSystem, replica: Replica, fault: Fault): (Catalog, Result<bool>) {
    var p := StripHost(replica.rfn);
    match replica.status
    case BeingPopulated =>
      if p !in fs then (c, Ok(false)) else
        var (c1, r) := Promoted(c, fs, replica.rfn, p, fault);
        (c1, if r.Ok? then Ok(true) else Err(r.error))
    case Available => (c, Ok(p in fs))
    case BeingDeleted => (c, Ok(false))
  }

  // ----- Properties -----

  /** A plain name registered for an upload that HDFS holds under its final name. */
  predicate Uploaded(records: map<string, Record>, fs: FileSystem, rfn: Path) {
    && ':' !in rfn && rfn in fs && rfn in records
    && records[rfn].status != BeingDeleted
  }

  /** The record every promotion works towards. */
  function Finished(fs: FileSystem, rfn: Path): Record
    requires rfn in fs
  {
    Record(Available, if fs[rfn].File? then |fs[rfn].bytes| else 0)
  }

  /** A promotion attempt; `stale` is a lazy one on a replica read while it was still being populated. */
  datatype Call = EagerCall | LazyCall | StaleLazyCall

  function After(c: Catalog, fs: FileSystem, rfn: Path, call: Call, fault: Fault): Catalog
    requires c.Registry? && rfn in c.records
  {
    match call
    case EagerCall => Eager(c, fs, rfn, fault).0
    case LazyCall => Lazy(c, fs, Replica(rfn, c.records[rfn].status), fault).0
    case StaleLazyCall => Lazy(c, fs, Replica(rfn, BeingPopulated), fault).0
  }

  function AfterAll(c: Catalog, fs: FileSystem, rfn: Path, calls: seq<Call>): (after: Catalog)
    requires c.Registry? && rfn in c.records && ':' !in rfn
    ensures after.Registry? && after.records.Keys == c.records.Keys
    decreases calls
  {
    if calls == [] then c else
      var before := AfterAll(c, fs, rfn, calls[..|calls| - 1]);
      StripHostOfPlainPath(rfn);
      After(before, fs, rfn, calls[|calls| - 1], NoFault)
  }

  /**
    Eager and lazy promotion agree: after any number of attempts of either kind, at least one, in any
    order, the replica's record is available with the size of the HDFS file, and no other record moved.
  */
  lemma {:induction false} PromotionsAgree(records: map<string, Record>, fs: FileSystem, rfn: Path, calls: seq<Call>)
    requires Uploaded(records, fs, rfn) && records[rfn].status == BeingPopulated
    ensures AfterAll(Registry(records), fs, rfn, calls)
         == Registry(if calls == [] then records
                     else records[rfn := Record(Available, if fs[rfn].File? then |fs[rfn].bytes| else 0)])
  {
    StripHostOfPlainPath(rfn);
    if calls != [] {
      PromotionsAgree(records, fs, rfn, calls[..|calls| - 1]);
    }
  }

  /** Of an uploaded file every promotion records the number of its bytes, whatever was recorded before. */
  lemma PromotionRecordsFileSize(
    records: map<string, Record>, fs: FileSystem, rfn: Path, size: nat, bytes: Bytes, calls: seq<Call>)
    requires ':' !in rfn && calls != []
    ensures AfterAll(Registry(records[rfn := Record(BeingPopulated, size)]), fs[rfn := File(bytes)], rfn, calls)
         == Registry(records[rfn := Record(Available, |bytes|)])
  {
    var before := records[rfn := Record(BeingPopulated, size)];
    PromotionsAgree(before, fs[rfn := File(bytes)], rfn, calls);
    assert before[rfn := Record(Available, |bytes|)] == records[rfn := Record(Available, |bytes|)];
  }

  // ----- With faults -----

  datatype Attempt = Attempt(call: Call, fault: Fault)

  function AfterAttempts(c: Catalog, fs: FileSystem, rfn: Path, attempts: seq<Attempt>): (after: Catalog)
    requires c.Registry? && rfn in c.records && ':' !in rfn
    ensures after.Registry? && after.records.Keys == c.records.Keys
    decreases attempts
  {
    if attempts == [] then c else
      var a := attempts[|attempts| - 1];
      StripHostOfPlainPath(rfn);
      After(AfterAttempts(c, fs, rfn, attempts[..|attempts| - 1]), fs, rfn, a.call, a.fault)
  }

  /** The attempt gets as far as writing the status; a lazy one does not look the replica up. */
  predicate Marks(a: Attempt) {
    a.fault != StatusFault && (a.call == EagerCall ==> a.fault != LookupFault)
  }

  /** It also gets as far as writing the size. */
  predicate Completes(a: Attempt) {
    Marks(a) && a.fault != InfoFault && a.fault != SizeFault
  }

  /** Some attempt writes the status. */
  predicate Marked(attempts: seq<Attempt>) {
    exists i :: 0 <= i < |attempts| && Marks(attempts[i])
  }

  /** Attempt `i` writes the size: a lazy one only while no attempt before it has written the status. */
  predicate SizesAt(attempts: seq<Attempt>, i: nat)
    requires i < |attempts|
  {
    Completes(attempts[i]) && (attempts[i].call == LazyCall ==> !Marked(attempts[..i]))
  }

  predicate Sized(attempts: seq<Attempt>) {
    exists i :: 0 <= i < |attempts| && SizesAt(attempts, i)
  }

  lemma OneMoreAttempt(attempts: seq<Attempt>)
    requires attempts != []
    ensures var front, n := attempts[..|attempts| - 1], |attempts| - 1;
            && (Marked(attempts) <==> Marked(front) || Marks(attempts[n]))
            && (Sized(attempts) <==> Sized(front) || SizesAt(attempts, n))
  {
    var front, n := attempts[..|attempts| - 1], |attempts| - 1;
    assert forall i :: 0 <= i < n ==> front[i] == attempts[i] && front[..i] == attempts[..i];
    if Marked(front) {
      var i :| 0 <= i < n && Marks(front[i]);
      assert Marks(attempts[i]);
    }
    if Marked(attempts) {
      var i :| 0 <= i < |attempts| && Marks(attempts[i]);
      assert i < n ==> Marks(front[i]);
    }
    if Sized(front) {
      var i :| 0 <= i < n && SizesAt(front, i);
      assert SizesAt(attempts, i);
    }
    if Sized(attempts) {
      var i :| 0 <= i < |attempts| && SizesAt(attempts, i);
      assert i < n ==> SizesAt(front, i);
    }
  }

  /** A lazy attempt looks no further when the record says available. */
  predicate Heeded(a: Attempt, status: Status) {
    a.call == LazyCall ==> status != Available
  }

  lemma RecordAfterAttempt(records: map<string, Record>, fs: FileSystem, rfn: Path, a: Attempt)
    requires Uploaded(records, fs, rfn)
    ensures After(Registry(records), fs, rfn, a.call, a.fault)
         == Registry(records[rfn := Record(if Marks(a) then Available else records[rfn].status,
                                           if Completes(a) && Heeded(a, records[rfn].status)
                                           then SizeAt(fs, rfn) else records[rfn].size)])
  {
    StripHostOfPlainPath(rfn);
    assert records[rfn := records[rfn]] == records;
  }

  /**
    Any sequence of promotions with any faults: the record is available iff some attempt wrote the status, and its
    size is that of the HDFS file iff some attempt wrote the size or it was right before. No other record moves.
  */
  lemma {:induction false} PromotionsWithFaults(
    records: map<string, Record>, fs: FileSystem, rfn: Path, attempts: seq<Attempt>)
    requires Uploaded(records, fs, rfn) && records[rfn].status == BeingPopulated
    ensures AfterAttempts(Registry(records), fs, rfn, attempts)
         == Registry(records[rfn := Record(if Marked(attempts) then Available else BeingPopulated,
                                           if !Sized(attempts) then records[rfn].size
                                           else if fs[rfn].File? then |fs[rfn].bytes| else 0)])
  {
    if attempts == [] {
      assert records[rfn := records[rfn]] == records;
    } else {
      var front, a := attempts[..|attempts| - 1], attempts[|attempts| - 1];
      PromotionsWithFaults(records, fs, rfn, front);
      RecordAfterAttempt(AfterAttempts(Registry(records), fs, rfn, front).records, fs, rfn, a);
      OneMoreAttempt(attempts);
    }
  }

  /** So the promotion is finished iff a status was written, and a size too unless it was right from the start. */
  lemma FinishedCondition(records: map<string, Record>, fs: FileSystem, rfn: Path, attempts: seq<Attempt>)
    requires Uploaded(records, fs, rfn) && records[rfn].status == BeingPopulated
    ensures AfterAttempts(Registry(records), fs, rfn, attempts).records[rfn] == Finished(fs, rfn)
       <==> Marked(attempts) && (Sized(attempts) || records[rfn].size == Finished(fs, rfn).size)
  {
    PromotionsWithFaults(records, fs, rfn, attempts);
  }

  /** A fault in an eager promotion, and then a lazy one without fault. */
  function RepairedRecord(records: map<string, Record>, fs: FileSystem, rfn: Path, fault: Fault): Record
    requires Uploaded(records, fs, rfn)
  {
    StripHostOfPlainPath(rfn);
    var c := After(Registry(records), fs, rfn, EagerCall, fault);
    After(c, fs, rfn, LazyCall, NoFault).records[rfn]
  }

  /**
    The lazy promotion repairs a failed eager one exactly when the failure came before the status was
    written, or the recorded size was right anyway: once the status says available, nobody sets the size.
  */
  lemma RepairCondition(records: map<string, Record>, fs: FileSystem, rfn: Path, fault: Fault)
    requires Uploaded(records, fs, rfn) && records[rfn].status == BeingPopulated
    ensures RepairedRecord(records, fs, rfn, fault) == Finished(fs, rfn)
       <==> fault in {NoFault, LookupFault, StatusFault} || records[rfn].size == Finished(fs, rfn).size
  {
    StripHostOfPlainPath(rfn);
  }

  /** The other half for good: no number of lazy calls ever corrects the size of an available record. */
  lemma {:induction false} StaleSizeStays(records: map<string, Record>, fs: FileSystem, rfn: Path, calls: seq<Call>)
    requires ':' !in rfn && rfn in records && records[rfn].status == Available
    requires forall i :: 0 <= i < |calls| ==> calls[i] == LazyCall
    ensures AfterAll(Registry(records), fs, rfn, calls) == Registry(records)
  {
    if calls != [] {
      StaleSizeStays(records, fs, rfn, calls[..|calls| - 1]);
    }
  }

  /** An upload of one byte whose eager promotion failed between status and size: it stays recorded as empty. */
  lemma UnrepairedUpload(rfn: Path)
    requires ':' !in rfn
    ensures var records, fs := map[rfn := Record(BeingPopulated, 0)], map[rfn := File([1])];
            Uploaded(records, fs, rfn) && RepairedRecord(records, fs, rfn, InfoFault) == Record(Available, 0)
  {
    StripHostOfPlainPath(rfn);
  }
}
