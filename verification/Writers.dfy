/**
  The life of one write handler as a state machine over its events. The class `HdfsIOHandler` is
  proved to move exactly like this; here its whole runs are reasoned about.
*/
module Writers {
  import opened Results
  import opened Posix
  import opened Hdfs
  import opened Buffer

  /** One `hdfsWrite` of the copy loop: bytes taken (possibly none), EINTR, or any other failure. */
  datatype Attempt = Sent(n: nat) | Retried | Broke

  function Delivered(attempts: seq<Attempt>): nat {
    if attempts == [] then 0 else
      var a := attempts[|attempts| - 1];
      Delivered(attempts[..|attempts| - 1]) + if a.Sent? then a.n else 0
  }

  /** How many attempts got nowhere without failing. */
  function Stalled(attempts: seq<Attempt>): nat {
    if attempts == [] then 0 else
      var a := attempts[|attempts| - 1];
      Stalled(attempts[..|attempts| - 1]) + if a == Sent(0) || a.Retried? then 1 else 0
  }

  function Broken(attempts: seq<Attempt>): nat {
    if attempts == [] then 0 else
      Broken(attempts[..|attempts| - 1]) + if attempts[|attempts| - 1].Broke? then 1 else 0
  }

  /** Every attempt moves a byte, uses up a stall, or fails. */
  lemma {:induction false} AttemptsAreBounded(attempts: seq<Attempt>)
    ensures |attempts| <= Delivered(attempts) + Stalled(attempts) + Broken(attempts)
  {
    if attempts != [] {
      AttemptsAreBounded(attempts[..|attempts| - 1]);
    }
  }

  lemma OneMoreAttempt(attempts: seq<Attempt>, a: Attempt)
    ensures Delivered(attempts + [a]) == Delivered(attempts) + if a.Sent? then a.n else 0
    ensures Stalled(attempts + [a]) == Stalled(attempts) + if a == Sent(0) || a.Retried? then 1 else 0
    ensures Broken(attempts + [a]) == Broken(attempts) + if a.Broke? then 1 else 0
  {
    assert (attempts + [a])[..|attempts|] == attempts;
  }

  lemma AppendInTwo(fs: FileSystem, p: Path, bytes: Bytes, i: nat, j: nat)
    requires i <= j <= |bytes|
    ensures Appended(Appended(fs, p, bytes[..i]), p, bytes[i..j]) == Appended(fs, p, bytes[..j])
  {
    if IsFile(fs, p) {
      assert fs[p].bytes + bytes[..i] + bytes[i..j] == fs[p].bytes + bytes[..j];
    }
  }

  lemma AppendNothing(fs: FileSystem, p: Path)
    ensures Appended(fs, p, []) == fs
  {
    if IsFile(fs, p) {
      assert fs[p].bytes + [] == fs[p].bytes;
    }
  }

  // ----- The machine -----

  /** `temp` is the temp file with the handler's offset, None once the handler has let go of it. */
  datatype Writer = Writer(path: Path, temp: Option<Cursor>, fs: FileSystem)

  /** `complete` says that the copy loop returned 0. */
  datatype Event =
    | Do(op: Op)
    | Close(attempts: seq<Attempt>, complete: bool)
    | Destroy

  function Step(w: Writer, e: Event): Writer {
    match e
    case Do(op) => if w.temp.Some? then w.(temp := Some(Perform(w.temp.value, op))) else w
    case Close(attempts, _) =>
      if w.temp.Some? && Delivered(attempts) <= |w.temp.value.bytes|
      then Writer(w.path, None, Appended(w.fs, w.path, w.temp.value.bytes[..Delivered(attempts)]))
      else w
    case Destroy => w.(temp := None)
  }

  /** Does the call come back without an exception? */
  predicate Returns(w: Writer, e: Event) {
    match e
    case Do(op) => w.temp.Some? && Succeeds(w.temp.value, op)
    case Close(_, complete) => w.temp.Some? && complete
    case Destroy => true
  }

  /** What the environment can do: send part of the temp file, and all of it if the copy is complete. */
  predicate Possible(w: Writer, e: Event) {
    e.Close? && w.temp.Some? ==>
      && Delivered(e.attempts) <= |w.temp.value.bytes|
      && (e.complete ==> Delivered(e.attempts) == |w.temp.value.bytes|)
      && (Delivered(e.attempts) > 0 ==> IsFile(w.fs, w.path))
  }

  function Run(w: Writer, es: seq<Event>): Writer {
    if es == [] then w else Step(Run(w, es[..|es| - 1]), es[|es| - 1])
  }

  predicate PossibleRun(w: Writer, es: seq<Event>) {
    es == [] || (PossibleRun(w, es[..|es| - 1]) && Possible(Run(w, es[..|es| - 1]), es[|es| - 1]))
  }

  function OpsOf(es: seq<Event>): seq<Op> {
    if es == [] then [] else
      OpsOf(es[..|es| - 1]) + if es[|es| - 1].Do? then [es[|es| - 1].op] else []
  }

  /** A writer that has just been opened on an empty temp file. */
  predicate JustOpened(w: Writer) {
    w.temp == Some(Cursor([], 0)) && IsFile(w.fs, w.path)
  }

  /** The first `close` or destruction in a run, if there is one. */
  predicate EndsAt(es: seq<Event>, k: nat) {
    k < |es| && !es[k].Do? && forall i :: 0 <= i < k ==> es[i].Do?
  }

  /** Before it is closed, a handler only ever touches its temp file. */
  lemma {:induction false} NothingReachesHdfsBeforeClose(w: Writer, es: seq<Event>)
    requires JustOpened(w)
    requires forall i :: 0 <= i < |es| ==> es[i].Do?
    ensures Run(w, es) == w.(temp := Some(PerformAll(Cursor([], 0), OpsOf(es))))
  {
    if es != [] {
      NothingReachesHdfsBeforeClose(w, es[..|es| - 1]);
      var ops := OpsOf(es[..|es| - 1]);
      assert (ops + [es[|es| - 1].op])[..|ops|] == ops;
    }
  }

  /** Once the temp file is gone, every call but destruction throws and HDFS stays as it is. */
  lemma {:induction false} ClosedForGood(w: Writer, es: seq<Event>, k: nat)
    requires k <= |es| && Run(w, es[..k]).temp.None?
    ensures Run(w, es) == Run(w, es[..k])
    ensures forall i :: k <= i < |es| && Returns(Run(w, es[..i]), es[i]) ==> es[i].Destroy?
  {
    if k == |es| {
      assert es[..k] == es;
    } else {
      var front := es[..|es| - 1];
      assert front[..k] == es[..k];
      ClosedForGood(w, front, k);
      forall i | k <= i < |es| && Returns(Run(w, es[..i]), es[i]) ensures es[i].Destroy? {
        if i < |front| {
          assert front[..i] == es[..i];
          assert front[i] == es[i];
        }
      }
    }
  }

  lemma {:induction false} PrefixIsPossible(w: Writer, es: seq<Event>, n: nat)
    requires PossibleRun(w, es) && n <= |es|
    ensures PossibleRun(w, es[..n])
    ensures n < |es| ==> Possible(Run(w, es[..n]), es[n])
  {
    if n == |es| {
      assert es[..n] == es;
    } else {
      var front := es[..|es| - 1];
      PrefixIsPossible(w, front, n);
      assert front[..n] == es[..n];
      if n < |front| {
        assert front[n] == es[n];
      }
    }
  }

  /**
    The whole story of a handler. Let `k` be its first `close` or destruction. What HDFS holds after
    the run is what was there, plus a prefix of the byte string described by the calls before `k`:
    nothing if `k` destroys the handler, everything if `k` is a `close` that returns.
  */
  lemma HandlerLifecycle(w: Writer, es: seq<Event>, k: nat)
    requires JustOpened(w) && PossibleRun(w, es) && EndsAt(es, k)
    ensures var described := Described(OpsOf(es[..k]));
            var sent := if es[k].Close? then Delivered(es[k].attempts) else 0;
            && sent <= |described|
            && Run(w, es) == Writer(w.path, None, Appended(w.fs, w.path, described[..sent]))
            && (es[k].Close? ==> (Returns(Run(w, es[..k]), es[k]) <==> es[k].complete))
            && (es[k].Close? && es[k].complete ==> sent == |described|)
    ensures forall i :: k < i < |es| && Returns(Run(w, es[..i]), es[i]) ==> es[i].Destroy?
  {
    var before := es[..k];
    assert forall i :: 0 <= i < k ==> before[i] == es[i];
    NothingReachesHdfsBeforeClose(w, before);
    ContentsAreDescribed(OpsOf(before));
    PrefixIsPossible(w, es, k);
    assert es[..k + 1][..k] == before && es[..k + 1][k] == es[k];
    AppendNothing(w.fs, w.path);
    ClosedForGood(w, es, k + 1);
  }

  /**
    Random-access writes on an append-only file system: whatever calls are made on a new HDFS file, and
    however the copy is cut up, a `close` that returns leaves exactly the byte string they describe,
    and a `close` that throws leaves a prefix of it. No other path changes.
  */
  lemma BufferedWritesRefineDirectWrites(w: Writer, es: seq<Event>, attempts: seq<Attempt>, complete: bool)
    requires JustOpened(w) && w.fs[w.path] == File([])
    requires forall i :: 0 <= i < |es| ==> es[i].Do?
    requires PossibleRun(w, es + [Close(attempts, complete)])
    ensures var described, after := Described(OpsOf(es)), Run(w, es + [Close(attempts, complete)]).fs;
            && Delivered(attempts) <= |described|
            && after == w.fs[w.path := File(described[..Delivered(attempts)])]
            && (complete ==> after[w.path] == File(described))
  {
    var run := es + [Close(attempts, complete)];
    assert run[..|es|] == es;
    HandlerLifecycle(w, run, |es|);
    var described := Described(OpsOf(es));
    assert [] + described[..Delivered(attempts)] == described[..Delivered(attempts)];
    assert described[..|described|] == described;
  }
}
