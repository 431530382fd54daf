/**
  What is uploaded. As long as every temp path is fresh when a handler opens it, each session's bytes are its
  client's own, over all interleaved runs; two handlers on one temp path publish each other's bytes.
*/
module Uploads {
  import opened Results
  import opened Posix
  import opened Hdfs
  import opened Names
  import opened Buffer
  import Writers
  import opened Tree
  import opened Protocol

  // ----- The invariant of exclusive runs -----

  /** The part of `ops`' contents that a handler in `close` has sent so far. */
  predicate SentSoFar(h: Handler, ops: seq<Op>)
    requires h.Copying?
  {
    && |h.chunk| <= h.offset <= |Contents(ops)|
    && h.chunk == Contents(ops)[h.offset - |h.chunk|..h.offset]
  }

  predicate IsPrefix(a: Bytes, b: Bytes) {
    |a| <= |b| && a == b[..|a|]
  }

  /** The temp path is the handler's, and the file behind it holds what its calls have left there. */
  predicate TempOk(d: Disk, s: Session) {
    match s.handler
    case Writing(temp, inode, _) =>
      && temp in d.names && d.names[temp] == inode
      && CursorOf(d, s.handler) == PerformAll(Cursor([], 0), s.ops)
    case Copying(temp, inode, source, _, _) =>
      && temp in d.names && d.names[temp] == inode == source
      && BytesOf(d, inode) == Contents(s.ops)
      && SentSoFar(s.handler, s.ops)
    case _ => true
  }

  /** The staging file holds what has been sent, a published one everything. */
  predicate SentOk(fs: FileSystem, fn: Path, s: Session) {
    match s.stage
    case Opened =>
      IsFile(fs, Staged(fn)) &&
      var staged := fs[Staged(fn)].bytes;
      if s.handler.Writing? then staged == []
      else if s.handler.Copying? then
        SentSoFar(s.handler, s.ops) && staged == Contents(s.ops)[..s.handler.offset - |s.handler.chunk|]
      else IsPrefix(staged, Contents(s.ops)) && (s.normal ==> staged == Contents(s.ops))
    case Published => At(fs, fn) == Some(File(Contents(s.ops)))
    case _ => true
  }

  predicate ContentOk(w: World, fn: Path) {
    fn in w.sessions ==> TempOk(w.disk, w.sessions[fn]) && SentOk(w.fs, fn, w.sessions[fn])
  }

  /** No two handlers have a claim on the same temp path. */
  ghost predicate Exclusive(w: World) {
    forall f, g :: f in w.sessions && g in w.sessions && f != g
                   && Holds(w.sessions[f].handler) && Holds(w.sessions[g].handler) ==>
      w.sessions[f].handler.temp != w.sessions[g].handler.temp
  }

  ghost predicate ExclusiveInv(names: set<Path>, w: World) {
    && Inv(names, w) && DiskOk(w.disk) && Exclusive(w)
    && (forall f :: f in w.sessions ==> f in names)
    && (forall f :: f in w.sessions ==> ContentOk(w, f))
  }

  // ----- A step and its own session -----

  lemma OpenKeepsContent(w: World, e: Event)
    requires WellFormed(w.fs) && NameOk(w, e.fn) && Enabled(w, e) && e.Open? && ':' !in e.fn
    requires DiskOk(w.disk) && OpensFresh(w, e)
    ensures ContentOk(Next(w, e), e.fn)
  {
    OpenIsOk(w, e);
  }

  lemma CallKeepsContent(w: World, fn: Path, op: Op)
    requires NameOk(w, fn) && ContentOk(w, fn) && Enabled(w, Call(fn, op))
    ensures ContentOk(Next(w, Call(fn, op)), fn)
  {
    var ops := w.sessions[fn].ops;
    assert (ops + [op])[..|ops|] == ops;
  }

  lemma CloseKeepsContent(w: World, e: Event)
    requires NameOk(w, e.fn) && ContentOk(w, e.fn) && Enabled(w, e)
    requires e.StartClose? || e.ReadChunk? || e.FinishClose? || e.Destroy?
    ensures ContentOk(Next(w, e), e.fn)
  {
    var all := Contents(w.sessions[e.fn].ops);
    assert all[..0] == [] && all[..|all|] == all;
    if e.ReadChunk? {
      var h := w.sessions[e.fn].handler;
      assert all[h.offset..h.offset + e.n] == all[(h.offset + e.n) - e.n..h.offset + e.n];
    }
  }

  lemma SendKeepsContent(w: World, fn: Path, a: Writers.Attempt)
    requires NameOk(w, fn) && ContentOk(w, fn) && Enabled(w, Attempted(fn, a)) && ':' !in fn
    ensures ContentOk(Next(w, Attempted(fn, a)), fn)
  {
    PlainStagingPath(fn);
    if a.Sent? {
      var h, all := w.sessions[fn].handler, Contents(w.sessions[fn].ops);
      var from := h.offset - |h.chunk|;
      assert h.chunk[..a.n] == all[from..from + a.n];
      assert all[..from] + all[from..from + a.n] == all[..from + a.n];
      assert h.chunk[a.n..] == all[from + a.n..h.offset];
    }
  }

  lemma PublishKeepsContent(w: World, fn: Path)
    requires WellFormed(w.fs) && NameOk(w, fn) && ContentOk(w, fn) && Enabled(w, DoneWriting(fn)) && fn != ""
    ensures ContentOk(Next(w, DoneWriting(fn)), fn)
  {
    PublishIsOk(w, fn);
  }

  lemma StepKeepsOwnContent(names: set<Path>, w: World, e: Event)
    requires Compatible(names) && ExclusiveInv(names, w) && e.fn in names && Enabled(w, e) && OpensFresh(w, e)
    ensures ContentOk(Next(w, e), e.fn)
  {
    assert NameOk(w, e.fn);
    match e
    case Open(_, _, _) => OpenKeepsContent(w, e);
    case Call(fn, op) => CallKeepsContent(w, fn, op);
    case Attempted(fn, a) => SendKeepsContent(w, fn, a);
    case DoneWriting(fn) => PublishKeepsContent(w, fn);
    case Reserve(_, _) =>
    case Cancel(_) =>
    case Remove(_) =>
    case _ => CloseKeepsContent(w, e);
  }

  // ----- A step and the other sessions -----

  /** What a handler can see of the local disk. */
  ghost predicate SameTemp(d: Disk, d': Disk, h: Handler) {
    Active(h) && h.temp in d.names ==>
      && h.temp in d'.names && d'.names[h.temp] == d.names[h.temp]
      && BytesOf(d', d.names[h.temp]) == BytesOf(d, d.names[h.temp])
  }

  lemma StepSparesOtherTemps(names: set<Path>, w: World, e: Event, g: Path)
    requires ExclusiveInv(names, w) && Enabled(w, e) && OpensFresh(w, e)
    requires g in w.sessions && g != e.fn
    ensures SameTemp(w.disk, DiskAfter(w, e), w.sessions[g].handler)
  {
    if e.fn in w.sessions {
      assert ContentOk(w, e.fn);
    }
  }

  lemma SameTempIsEnough(d: Disk, d': Disk, s: Session)
    requires TempOk(d, s) && SameTemp(d, d', s.handler)
    ensures TempOk(d', s)
  {
  }

  lemma StepKeepsOtherContent(names: set<Path>, w: World, e: Event, g: Path)
    requires Compatible(names) && ExclusiveInv(names, w) && e.fn in names && Enabled(w, e) && OpensFresh(w, e)
    requires g in w.sessions && g != e.fn
    ensures ContentOk(Next(w, e), g)
  {
    StepIsOk(names, w, e);
    ConfinedSparesOthers(names, w.fs, FsAfter(w, e), e.fn, g);
    StepSparesOtherTemps(names, w, e, g);
    assert ContentOk(w, g);
    SameTempIsEnough(w.disk, DiskAfter(w, e), w.sessions[g]);
  }

  lemma StepKeepsDisk(w: World, e: Event)
    requires DiskOk(w.disk) && Enabled(w, e)
    ensures DiskOk(DiskAfter(w, e))
  {
  }

  /** No step but `Open` makes a session claim a temp path. */
  lemma StepKeepsClaim(w: World, e: Event)
    requires Enabled(w, e) && !e.Open? && Holds(SessionAfter(w, e).handler)
    ensures e.fn in w.sessions && Holds(w.sessions[e.fn].handler)
    ensures SessionAfter(w, e).handler.temp == w.sessions[e.fn].handler.temp
  {
  }

  lemma StepKeepsExclusive(w: World, e: Event)
    requires Exclusive(w) && Enabled(w, e) && OpensFresh(w, e)
    ensures Exclusive(Next(w, e))
  {
    if Holds(SessionAfter(w, e).handler) {
      var s := SessionAfter(w, e);
      if !e.Open? {
        StepKeepsClaim(w, e);
      }
      assert forall g :: g in w.sessions && g != e.fn && Holds(w.sessions[g].handler) ==>
               w.sessions[g].handler.temp != s.handler.temp;
    }
  }

  lemma StepKeepsExclusiveInv(names: set<Path>, w: World, e: Event)
    requires Compatible(names) && ExclusiveInv(names, w) && e.fn in names && Enabled(w, e) && OpensFresh(w, e)
    ensures ExclusiveInv(names, Next(w, e))
  {
    StepKeepsInv(names, w, e);
    StepKeepsDisk(w, e);
    StepKeepsExclusive(w, e);
    StepKeepsOwnContent(names, w, e);
    forall g | g in Next(w, e).sessions ensures ContentOk(Next(w, e), g) {
      if g != e.fn {
        StepKeepsOtherContent(names, w, e, g);
      }
    }
  }

  lemma {:induction false} RunKeepsExclusiveInv(names: set<Path>, w: World, es: seq<Event>)
    requires Compatible(names) && ExclusiveInv(names, w) && CanRun(names, true, w, es)
    ensures ExclusiveInv(names, Run(names, true, w, es))
    decreases es
  {
    if es != [] {
      StepKeepsExclusiveInv(names, w, es[0]);
      RunKeepsExclusiveInv(names, Next(w, es[0]), es[1..]);
    }
  }

  lemma ReachableIsExclusive(names: set<Path>, now: World)
    requires Compatible(names) && Reachable(names, true, now)
    ensures ExclusiveInv(names, now)
  {
    var w, es :| Initial(names, w) && CanRun(names, true, w, es) && Run(names, true, w, es) == now;
    RunKeepsExclusiveInv(names, w, es);
  }

  // ----- Results for runs in which every temp path is fresh -----

  /**
    Publication safety. Whatever exists under a final name is the whole byte string its session's client
    described, and the session has been published.
  */
  lemma PublicationSafety(names: set<Path>, now: World, fn: Path)
    requires Compatible(names) && Reachable(names, true, now) && fn in names
    ensures fn in now.fs ==>
              && fn in now.sessions && now.sessions[fn].stage == Published
              && now.fs[fn] == File(Described(now.sessions[fn].ops))
  {
    ReachableIsExclusive(names, now);
    assert NameOk(now, fn);
    if fn in now.fs {
      assert ContentOk(now, fn);
      ContentsAreDescribed(now.sessions[fn].ops);
    }
  }

  /** From publication until its removal, a final name keeps the described bytes through every further run. */
  lemma PublishedStays(names: set<Path>, now: World, es: seq<Event>, fn: Path)
    requires Compatible(names) && Reachable(names, true, now) && CanRun(names, true, now, es) && fn in names
    requires fn in now.sessions && now.sessions[fn].stage == Published
    requires Remove(fn) !in es
    ensures At(Run(names, true, now, es).fs, fn) == Some(File(Described(now.sessions[fn].ops)))
  {
    ReachableIsExclusive(names, now);
    assert ContentOk(now, fn);
    ContentsAreDescribed(now.sessions[fn].ops);
    PublishedSurvives(names, true, now, es, fn);
  }

  /** Non-interference on the local disk: a step of one session leaves the temp files of all others alone. */
  lemma TempFilesDoNotInterfere(names: set<Path>, now: World, e: Event, g: Path)
    requires Compatible(names) && Reachable(names, true, now) && e.fn in names && Enabled(now, e) && OpensFresh(now, e)
    requires g in now.sessions && g != e.fn && Active(now.sessions[g].handler)
    ensures var h, d, d' := now.sessions[g].handler, now.disk, DiskAfter(now, e);
            && h.temp in d.names && h.temp in d'.names && d'.names[h.temp] == d.names[h.temp] == h.inode
            && BytesOf(d', h.inode) == BytesOf(d, h.inode) == Contents(now.sessions[g].ops)
  {
    ReachableIsExclusive(names, now);
    assert ContentOk(now, g);
    StepSparesOtherTemps(names, now, e, g);
  }

  /**
    `doneWriting` itself does not ask how the close went. On any upload whose handler is closed or gone its rename
    succeeds and publishes the staging file, which is whole exactly when it has the described length; after a
    close that returned it has.
  */
  lemma UncheckedDoneWriting(names: set<Path>, now: World, fn: Path)
    requires Compatible(names) && Reachable(names, true, now) && fn in names
    requires fn in now.sessions && now.sessions[fn].stage == Opened && !Active(now.sessions[fn].handler)
    ensures IsFile(now.fs, Staged(fn))
    ensures var described, staged := Described(now.sessions[fn].ops), now.fs[Staged(fn)].bytes;
            var outcome := Renamed(now.fs, Staged(fn), DropUpload(Staged(fn)));
            && outcome.Some? && At(outcome.value, fn) == Some(File(staged)) && IsPrefix(staged, described)
            && (At(outcome.value, fn) == Some(File(described)) <==> |staged| == |described|)
            && (now.sessions[fn].normal ==> |staged| == |described|)
  {
    ReachableIsExclusive(names, now);
    assert NameOk(now, fn) && ContentOk(now, fn);
    RenamingIsConfined(now.fs, fn);
    ContentsAreDescribed(now.sessions[fn].ops);
    var described := Described(now.sessions[fn].ops);
    assert described[..|described|] == described;
  }
}
