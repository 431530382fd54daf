/**
  Staged uploads, many at a time. A session goes from `whereToWrite` through a handler's life to
  `doneWriting` or `cancelWrite`; the steps of different sessions interleave freely, down to the single `read`s
  and `hdfsWrite`s of a `close`. The catalog is the name space itself, so all lasting state is in HDFS.
  The temp files are part of the world and may be shared; this module proves what holds even then.
*/
module Protocol {
  import opened Results
  import opened Posix
  import opened Hdfs
  import opened Names
  import opened Buffer
  import opened Writers
  import opened Catalogs
  import opened Pool
  import opened Tree

  /** The temp files. A removed name leaves the bytes to whoever has them open, as in POSIX. */
  datatype Disk = Disk(names: map<string, nat>, bytes: map<nat, Bytes>, next: nat)

  datatype Handler =
    | NoHandler
    | Writing(temp: string, inode: nat, pos: nat)
    | Copying(temp: string, inode: nat, source: nat, offset: nat, chunk: Bytes)  // in `close`
    | Closed(temp: string)                                                       // and not yet destroyed

  datatype Stage =
    | Reserved    // whereToWrite has returned
    | Opened      // a handler has created the staging file
    | Published
    | Cancelled
    | Removed

  /** `ops` are the calls on the latest handler; `normal` says that its `close` has returned without throwing. */
  datatype Session = Session(stage: Stage, handler: Handler, normal: bool, ops: seq<Op>)

  datatype World = World(fs: FileSystem, disk: Disk, sessions: map<Path, Session>)

  datatype Event =
    | Reserve(fn: Path, made: bool)             // whether creating the parent directories worked
    | Open(fn: Path, temp: string, ok: bool)    // whether the temp file could be opened
    | Call(fn: Path, op: Op)
    | StartClose(fn: Path, found: bool)         // whether the temp file could be opened again
    | ReadChunk(fn: Path, n: nat)
    | Attempted(fn: Path, attempt: Attempt)
    | FinishClose(fn: Path, normal: bool)
    | Destroy(fn: Path)
    | DoneWriting(fn: Path)
    | Cancel(fn: Path)
    | Remove(fn: Path)

  // ----- Temp files -----

  function BytesOf(d: Disk, inode: nat): Bytes {
    if inode in d.bytes then d.bytes[inode] else []
  }

  /** `open` with O_CREAT and neither O_EXCL nor O_TRUNC. */
  function OpenTemp(d: Disk, temp: string): Disk {
    if temp in d.names then d else Disk(d.names[temp := d.next], d.bytes[d.next := []], d.next + 1)
  }

  function RemoveTemp(d: Disk, temp: string): Disk {
    d.(names := d.names - {temp})
  }

  predicate Active(h: Handler) {
    h.Writing? || h.Copying?
  }

  /** The handler will still remove its temp path, in `close` or in its destructor. */
  predicate Holds(h: Handler) {
    !h.NoHandler?
  }

  // ----- Steps -----

  /** The client calls things in order, on one handler at a time. */
  predicate InOrder(w: World, e: Event) {
    if e.Reserve? then
      e.fn !in w.sessions ||
      (w.sessions[e.fn].stage in {Cancelled, Removed} && w.sessions[e.fn].handler.NoHandler?)
    else e.fn in w.sessions && match e {
      case Reserve(_, _) => true
      case Open(_, _, _) => w.sessions[e.fn].stage in {Reserved, Opened} && w.sessions[e.fn].handler.NoHandler?
      case Call(_, _) => w.sessions[e.fn].handler.Writing?
      case StartClose(_, _) => w.sessions[e.fn].handler.Writing?
      case ReadChunk(_, _) => w.sessions[e.fn].handler.Copying?
      case Attempted(_, _) => w.sessions[e.fn].handler.Copying?
      case FinishClose(_, _) => w.sessions[e.fn].handler.Copying?
      case Destroy(_) => w.sessions[e.fn].handler.Writing? || w.sessions[e.fn].handler.Closed?
      case DoneWriting(_) =>
        w.sessions[e.fn].stage == Opened && !Active(w.sessions[e.fn].handler) && w.sessions[e.fn].normal
      case Cancel(_) => w.sessions[e.fn].stage in {Reserved, Opened}
      case Remove(_) => w.sessions[e.fn].stage == Published
    }
  }

  /** What the plugin, the disk and HDFS require for the step; a call that throws is no step and changes nothing. */
  predicate Enabled(w: World, e: Event) {
    InOrder(w, e) && match e {
      case Reserve(fn, _) => fn !in w.fs
      case Open(fn, _, _) => OpenedForWrite(w.fs, HandlerPath(fn), false).Some?
      case StartClose(fn, found) => found ==> w.sessions[fn].handler.temp in w.disk.names
      case ReadChunk(fn, n) =>
        var h := w.sessions[fn].handler;
        h.chunk == [] && 0 < n && h.offset + n <= |BytesOf(w.disk, h.source)|
      case Attempted(fn, a) =>
        a.Sent? ==> IsFile(w.fs, HandlerPath(fn)) && a.n <= |w.sessions[fn].handler.chunk|
      case FinishClose(fn, normal) =>
        var h := w.sessions[fn].handler;
        normal ==> h.chunk == [] && h.offset >= |BytesOf(w.disk, h.source)|
      case DoneWriting(fn) => Renamed(w.fs, Staged(fn), DropUpload(Staged(fn))).Some?
      case Cancel(fn) => CancelledFs(NameSpace, w.fs, Staged(fn)).Ok?
      case _ => true
    }
  }

  function FsAfter(w: World, e: Event): FileSystem
    requires Enabled(w, e)
  {
    match e
    case Reserve(fn, made) => if made then ReservedFs(w.fs, fn) else w.fs
    case Open(fn, _, _) => OpenedForWrite(w.fs, HandlerPath(fn), false).value
    case Attempted(fn, Sent(n)) => Appended(w.fs, HandlerPath(fn), w.sessions[fn].handler.chunk[..n])
    case DoneWriting(fn) => Renamed(w.fs, Staged(fn), DropUpload(Staged(fn))).value
    case Cancel(fn) => CancelledFs(NameSpace, w.fs, Staged(fn)).value
    case Remove(fn) => RemovedFs(w.fs, Replica(fn, Available))
    case _ => w.fs
  }

  /** The temp file as the handler's calls see it. */
  function CursorOf(d: Disk, h: Handler): Cursor
    requires h.Writing?
  {
    Cursor(BytesOf(d, h.inode), h.pos)
  }

  function DiskAfter(w: World, e: Event): Disk
    requires Enabled(w, e)
  {
    match e
    case Open(_, temp, ok) => if ok then OpenTemp(w.disk, temp) else w.disk
    case Call(fn, op) =>
      var h := w.sessions[fn].handler;
      w.disk.(bytes := w.disk.bytes[h.inode := Perform(CursorOf(w.disk, h), op).bytes])
    case StartClose(fn, found) => if found then w.disk else RemoveTemp(w.disk, w.sessions[fn].handler.temp)
    case FinishClose(fn, _) => RemoveTemp(w.disk, w.sessions[fn].handler.temp)
    case Destroy(fn) => RemoveTemp(w.disk, w.sessions[fn].handler.temp)
    case _ => w.disk
  }

  function HandlerAfter(w: World, e: Event): Handler
    requires Enabled(w, e) && !e.Reserve?
  {
    var h := w.sessions[e.fn].handler;
    match e
    case Open(_, temp, ok) => if ok then Writing(temp, OpenTemp(w.disk, temp).names[temp], 0) else NoHandler
    case Call(_, op) => h.(pos := Perform(CursorOf(w.disk, h), op).pos)
    case StartClose(_, found) =>
      if found then Copying(h.temp, h.inode, w.disk.names[h.temp], 0, []) else Closed(h.temp)
    case ReadChunk(_, n) =>
      h.(offset := h.offset + n, chunk := BytesOf(w.disk, h.source)[h.offset..h.offset + n])
    case Attempted(_, a) => if a.Sent? then h.(chunk := h.chunk[a.n..]) else h
    case FinishClose(_, _) => Closed(h.temp)
    case Destroy(_) => NoHandler
    case _ => h
  }

  function SessionAfter(w: World, e: Event): Session
    requires Enabled(w, e)
  {
    if e.Reserve? then Session(Reserved, NoHandler, false, []) else
      var s := w.sessions[e.fn].(handler := HandlerAfter(w, e));
      match e
      case Open(_, _, _) => s.(stage := Opened, normal := false, ops := [])
      case Call(_, op) => s.(ops := s.ops + [op])
      case FinishClose(_, normal) => s.(normal := normal)
      case DoneWriting(_) => s.(stage := Published)
      case Cancel(_) => s.(stage := Cancelled)
      case Remove(_) => s.(stage := Removed)
      case _ => s
  }

  function Next(w: World, e: Event): World
    requires Enabled(w, e)
  {
    World(FsAfter(w, e), DiskAfter(w, e), w.sessions[e.fn := SessionAfter(w, e)])
  }

  /** No handler has a claim on the temp path of an `Open`, and there is no file of that name. */
  ghost predicate OpensFresh(w: World, e: Event) {
    e.Open? && e.ok ==>
      e.temp !in w.disk.names &&
      forall g :: g in w.sessions && Holds(w.sessions[g].handler) ==> w.sessions[g].handler.temp != e.temp
  }

  /** `es` can happen from `w`, with uploads of `names` only; if `exclusive`, every temp path is fresh. */
  ghost predicate CanRun(names: set<Path>, exclusive: bool, w: World, es: seq<Event>)
    decreases es
  {
    es == [] ||
    (&& es[0].fn in names && Enabled(w, es[0]) && (exclusive ==> OpensFresh(w, es[0]))
     && CanRun(names, exclusive, Next(w, es[0]), es[1..]))
  }

  ghost function Run(names: set<Path>, exclusive: bool, w: World, es: seq<Event>): World
    requires CanRun(names, exclusive, w, es)
    decreases es
  {
    if es == [] then w else Run(names, exclusive, Next(w, es[0]), es[1..])
  }

  ghost predicate DiskOk(d: Disk) {
    && (forall t :: t in d.names ==> d.names[t] < d.next)
    && (forall t, u :: t in d.names && u in d.names && t != u ==> d.names[t] != d.names[u])
  }

  /** No session yet, and none of the names or their staging paths taken by something else. */
  ghost predicate Initial(names: set<Path>, w: World) {
    && w.sessions == map[]
    && WellFormed(w.fs) && DiskOk(w.disk)
    && forall f :: f in names ==> Untouched(w.fs, f)
  }

  /** `now` is what some run of uploads of `names` leads to. */
  ghost predicate Reachable(names: set<Path>, exclusive: bool, now: World) {
    exists w, es :: Initial(names, w) && CanRun(names, exclusive, w, es) && Run(names, exclusive, w, es) == now
  }

  // ----- The invariant of all runs -----

  predicate Untouched(fs: FileSystem, fn: Path) {
    fn !in fs && !IsDir(fs, Staged(fn))
  }

  predicate SessionOk(fs: FileSystem, fn: Path, s: Session) {
    && (s.normal ==> !Active(s.handler))
    && match s.stage
       case Reserved => Untouched(fs, fn) && s.handler.NoHandler? && !s.normal
       case Opened => fn !in fs && IsFile(fs, Staged(fn))
       case Published => IsFile(fs, fn) && Staged(fn) !in fs && !Active(s.handler)
       case Cancelled => fn !in fs && Staged(fn) !in fs
       case Removed => fn !in fs && Staged(fn) !in fs && !Active(s.handler)
  }

  predicate NameOk(w: World, fn: Path) {
    if fn in w.sessions then SessionOk(w.fs, fn, w.sessions[fn]) else Untouched(w.fs, fn)
  }

  ghost predicate Inv(names: set<Path>, w: World) {
    WellFormed(w.fs) && forall f :: f in names ==> NameOk(w, f)
  }

  /** A step leaves its own session in order, and everything else in HDFS alone. */
  ghost predicate StepOk(w: World, e: Event)
    requires Enabled(w, e)
  {
    SessionOk(FsAfter(w, e), e.fn, SessionAfter(w, e)) && Confined(w.fs, FsAfter(w, e), e.fn)
  }

  lemma ReserveIsOk(w: World, fn: Path, made: bool)
    requires WellFormed(w.fs) && NameOk(w, fn) && Enabled(w, Reserve(fn, made)) && '/' in fn && Clean(fn)
    ensures StepOk(w, Reserve(fn, made))
  {
    ReservingIsConfined(w.fs, fn);
  }

  lemma OpenIsOk(w: World, e: Event)
    requires WellFormed(w.fs) && NameOk(w, e.fn) && Enabled(w, e) && e.Open? && ':' !in e.fn
    ensures StepOk(w, e) && At(FsAfter(w, e), Staged(e.fn)) == Some(File([]))
  {
    OpeningIsConfined(w.fs, e.fn);
  }

  /** The steps that leave HDFS alone. */
  predicate Quiet(e: Event) {
    e.Call? || e.StartClose? || e.ReadChunk? || e.FinishClose? || e.Destroy? || (e.Attempted? && !e.attempt.Sent?)
  }

  lemma QuietStepIsOk(w: World, e: Event)
    requires WellFormed(w.fs) && NameOk(w, e.fn) && Enabled(w, e) && Quiet(e)
    ensures StepOk(w, e) && FsAfter(w, e) == w.fs
  {
  }

  lemma SendIsOk(w: World, fn: Path, n: nat)
    requires WellFormed(w.fs) && NameOk(w, fn) && Enabled(w, Attempted(fn, Sent(n))) && ':' !in fn
    ensures StepOk(w, Attempted(fn, Sent(n)))
  {
    PlainStagingPath(fn);
    AppendingIsConfined(w.fs, fn, w.sessions[fn].handler.chunk[..n]);
    assert |Staged(fn)| > |fn|;
  }

  lemma PublishIsOk(w: World, fn: Path)
    requires WellFormed(w.fs) && NameOk(w, fn) && Enabled(w, DoneWriting(fn)) && fn != ""
    ensures StepOk(w, DoneWriting(fn))
    ensures At(FsAfter(w, DoneWriting(fn)), fn) == At(w.fs, Staged(fn))
  {
    RenamingIsConfined(w.fs, fn);
    assert |Staged(fn)| > |fn|;
  }

  lemma CancelIsOk(w: World, fn: Path)
    requires WellFormed(w.fs) && NameOk(w, fn) && Enabled(w, Cancel(fn))
    ensures StepOk(w, Cancel(fn))
  {
    CancelDeletesStaging(w.fs, fn);
  }

  lemma RemoveIsOk(w: World, fn: Path)
    requires WellFormed(w.fs) && NameOk(w, fn) && Enabled(w, Remove(fn))
    ensures StepOk(w, Remove(fn))
  {
    DeletingIsConfined(w.fs, fn, fn);
  }

  lemma StepIsOk(names: set<Path>, w: World, e: Event)
    requires Compatible(names) && Inv(names, w) && e.fn in names && Enabled(w, e)
    ensures StepOk(w, e)
  {
    assert NameOk(w, e.fn);
    if Quiet(e) {
      QuietStepIsOk(w, e);
    } else {
      match e
      case Reserve(fn, made) => ReserveIsOk(w, fn, made);
      case Open(_, _, _) => OpenIsOk(w, e);
      case Attempted(fn, a) => SendIsOk(w, fn, a.n);
      case DoneWriting(fn) => PublishIsOk(w, fn);
      case Cancel(fn) => CancelIsOk(w, fn);
      case Remove(fn) => RemoveIsOk(w, fn);
    }
  }

  /** `cancelWrite` on an upload deletes its staging file and nothing else; without one it throws. */
  lemma CancelDeletesStaging(fs: FileSystem, fn: Path)
    requires WellFormed(fs) && !IsDir(fs, Staged(fn))
    ensures CancelledFs(NameSpace, fs, Staged(fn))
         == if Staged(fn) in fs then Ok(fs - {Staged(fn)}) else Err(NoReplicas)
    ensures Staged(fn) in fs ==> Confined(fs, fs - {Staged(fn)}, fn)
  {
    if Staged(fn) in fs {
      DeletingIsConfined(fs, fn, Staged(fn));
    }
  }

  /** What is confined to one upload leaves the staging and final paths of all others alone. */
  lemma ConfinedSparesOthers(names: set<Path>, before: FileSystem, after: FileSystem, f: Path, g: Path)
    requires Compatible(names) && f in names && g in names && f != g && Confined(before, after, f)
    ensures At(after, g) == At(before, g) && At(after, Staged(g)) == At(before, Staged(g))
  {
    ChainAvoids(names, g, f);
    ChainAvoids(names, f, g);
  }

  lemma StepKeepsInv(names: set<Path>, w: World, e: Event)
    requires Compatible(names) && Inv(names, w) && e.fn in names && Enabled(w, e)
    ensures Inv(names, Next(w, e))
  {
    StepIsOk(names, w, e);
    forall g | g in names ensures NameOk(Next(w, e), g) {
      if g != e.fn {
        assert NameOk(w, g);
        ConfinedSparesOthers(names, w.fs, FsAfter(w, e), e.fn, g);
      }
    }
  }

  lemma {:induction false} RunKeepsInv(names: set<Path>, exclusive: bool, w: World, es: seq<Event>)
    requires Compatible(names) && Inv(names, w) && CanRun(names, exclusive, w, es)
    ensures Inv(names, Run(names, exclusive, w, es))
    decreases es
  {
    if es != [] {
      StepKeepsInv(names, w, es[0]);
      RunKeepsInv(names, exclusive, Next(w, es[0]), es[1..]);
    }
  }

  lemma ReachableIsOk(names: set<Path>, exclusive: bool, now: World)
    requires Compatible(names) && Reachable(names, exclusive, now)
    ensures Inv(names, now)
  {
    var w, es :| Initial(names, w) && CanRun(names, exclusive, w, es) && Run(names, exclusive, w, es) == now;
    RunKeepsInv(names, exclusive, w, es);
  }

  // ----- Results for all runs, with shared temp files or not -----

  /** A final name exists exactly while its session is published, and it is a file then. */
  lemma ExistsIffPublished(names: set<Path>, exclusive: bool, now: World, fn: Path)
    requires Compatible(names) && Reachable(names, exclusive, now) && fn in names
    ensures fn in now.fs <==> fn in now.sessions && now.sessions[fn].stage == Published
    ensures !IsDir(now.fs, fn)
  {
    ReachableIsOk(names, exclusive, now);
    assert NameOk(now, fn);
  }

  /** A final name appears at its own session's rename after a normal close, and at no other step. */
  lemma AppearsOnlyByRename(names: set<Path>, exclusive: bool, now: World, e: Event, fn: Path)
    requires Compatible(names) && Reachable(names, exclusive, now) && fn in names && e.fn in names && Enabled(now, e)
    requires fn !in now.fs && fn in Next(now, e).fs
    ensures e == DoneWriting(fn) && now.sessions[fn].normal
    ensures At(Next(now, e).fs, fn) == At(now.fs, Staged(fn))
  {
    ReachableIsOk(names, exclusive, now);
    StepIsOk(names, now, e);
    assert NameOk(now, fn);
    if e.fn != fn {
      ConfinedSparesOthers(names, now.fs, FsAfter(now, e), e.fn, fn);
    } else if e.DoneWriting? {
      PublishIsOk(now, fn);
    }
  }

  lemma PublishedSurvivesStep(names: set<Path>, w: World, e: Event, fn: Path)
    requires Compatible(names) && Inv(names, w) && e.fn in names && Enabled(w, e) && fn in names
    requires fn in w.sessions && w.sessions[fn].stage == Published && e != Remove(fn)
    ensures At(FsAfter(w, e), fn) == At(w.fs, fn)
    ensures var s := Next(w, e).sessions;
            fn in s && s[fn].stage == Published && s[fn].ops == w.sessions[fn].ops
  {
    assert NameOk(w, fn);
    if e.fn != fn {
      StepIsOk(names, w, e);
      ConfinedSparesOthers(names, w.fs, FsAfter(w, e), e.fn, fn);
    } else {
      assert e.Destroy?;
    }
  }

  /** From publication until its removal, a final name keeps its bytes through every further run. */
  lemma {:induction false} PublishedSurvives(names: set<Path>, exclusive: bool, w: World, es: seq<Event>, fn: Path)
    requires Compatible(names) && Inv(names, w) && CanRun(names, exclusive, w, es) && fn in names
    requires fn in w.sessions && w.sessions[fn].stage == Published
    requires Remove(fn) !in es
    ensures At(Run(names, exclusive, w, es).fs, fn) == At(w.fs, fn)
    ensures var s := Run(names, exclusive, w, es).sessions;
            fn in s && s[fn].stage == Published && s[fn].ops == w.sessions[fn].ops
    decreases es
  {
    if es != [] {
      var e := es[0];
      assert e in es && e != Remove(fn);
      PublishedSurvivesStep(names, w, e, fn);
      StepKeepsInv(names, w, e);
      PublishedSurvives(names, exclusive, Next(w, e), es[1..], fn);
    }
  }

  /**
    Non-interference in HDFS. In every reachable world, a step of one session leaves the staging and final files
    of every other session as they are, and of all other paths it touches none but missing parents.
  */
  lemma SessionsDoNotInterfere(names: set<Path>, exclusive: bool, now: World, e: Event, g: Path, p: Path)
    requires Compatible(names) && Reachable(names, exclusive, now) && e.fn in names && Enabled(now, e)
    requires g in names && g != e.fn
    ensures At(FsAfter(now, e), g) == At(now.fs, g)
    ensures At(FsAfter(now, e), Staged(g)) == At(now.fs, Staged(g))
    ensures p != e.fn && p != Staged(e.fn) ==>
              At(FsAfter(now, e), p) == At(now.fs, p) ||
              (Ancestor(p, e.fn) && p !in now.fs && IsDir(FsAfter(now, e), p))
  {
    ReachableIsOk(names, exclusive, now);
    StepIsOk(names, now, e);
    ConfinedSparesOthers(names, now.fs, FsAfter(now, e), e.fn, g);
  }

  /**
    Cancellation, from every reachable world in which the session is not published: the staging file and
    nothing else goes, or there is none and the call throws. The final name is free before and after.
  */
  lemma CancelIsExact(names: set<Path>, exclusive: bool, now: World, fn: Path)
    requires Compatible(names) && Reachable(names, exclusive, now) && fn in names
    requires fn in now.sessions && now.sessions[fn].stage != Published
    ensures fn !in now.fs
    ensures CancelledFs(NameSpace, now.fs, Staged(fn))
         == if Staged(fn) in now.fs then Ok(now.fs - {Staged(fn)}) else Err(NoReplicas)
  {
    ReachableIsOk(names, exclusive, now);
    assert NameOk(now, fn);
    CancelDeletesStaging(now.fs, fn);
  }

  /** A published file can always be removed, and nothing else goes with it. */
  lemma RemovalIsExact(names: set<Path>, exclusive: bool, now: World, fn: Path)
    requires Compatible(names) && Reachable(names, exclusive, now) && fn in names
    requires fn in now.sessions && now.sessions[fn].stage == Published
    ensures Enabled(now, Remove(fn)) && fn in now.fs && Next(now, Remove(fn)).fs == now.fs - {fn}
  {
    ReachableIsOk(names, exclusive, now);
    assert NameOk(now, fn);
    DeletingIsConfined(now.fs, fn, fn);
  }

  // ----- Why the names have to be compatible -----

  /**
    With no file in the way, `whereToWrite(g)` makes `f` a directory exactly when `f` is an ancestor of `g`,
    or is `g` itself and has no slash: then the "parent" the plugin creates is the final name.
  */
  lemma ReservingMakesDirectories(fs: FileSystem, g: Path, f: Path)
    requires g != "" && forall q :: q in Chain(ParentPath(g)) ==> !IsFile(fs, q)
    ensures IsDir(ReservedFs(fs, g), f) <==> IsDir(fs, f) || Ancestor(f, g) || (f == g && '/' !in g)
  {
    if '/' in g {
      ParentChain(g);
      if ParentPath(g) == "" {
        assert forall q :: Ancestor(q, g) ==> q in Chain(ParentPath(g));
      }
    } else {
      assert LastSlash(g).None?;
    }
  }

  /** A final name that is a directory is never published: the rename moves the upload into it instead. */
  lemma DirectoryIsNotReplaced(fs: FileSystem, fn: Path, data: Bytes)
    requires IsDir(fs, fn) && At(fs, Staged(fn)) == Some(File(data))
    requires Renamed(fs, Staged(fn), fn).Some?
    ensures var after := Renamed(fs, Staged(fn), fn).value;
            && IsDir(after, fn)
            && At(after, fn + "/" + Basename(Staged(fn))) == Some(File(data))
  {
    assert |fn + "/" + Basename(Staged(fn))| > |fn|;
  }

  /** No step but the removal of its own name, or the cancellation of an upload staged there, takes a directory. */
  lemma StepKeepsDirectory(w: World, e: Event, d: Path)
    requires IsDir(w.fs, d) && Enabled(w, e) && e != Remove(d) && (e.Cancel? ==> Staged(e.fn) != d)
    ensures IsDir(FsAfter(w, e), d)
  {
    if e.Cancel? {
      DeleteTakesOne(w.fs, Staged(e.fn));
    } else if e.Remove? {
      DeleteTakesOne(w.fs, e.fn);
    }
  }

  lemma {:induction false} DirectoryStays(names: set<Path>, exclusive: bool, w: World, es: seq<Event>, d: Path)
    requires IsDir(w.fs, d) && CanRun(names, exclusive, w, es) && Remove(d) !in es
    requires forall g :: g in names ==> Staged(g) != d
    ensures IsDir(Run(names, exclusive, w, es).fs, d)
    decreases es
  {
    if es != [] {
      assert es[0] in es;
      StepKeepsDirectory(w, es[0], d);
      DirectoryStays(names, exclusive, Next(w, es[0]), es[1..], d);
    }
  }

  /**
    An upload without a slash in its name is never published. Whatever the other names are, once `whereToWrite`
    has created its "parent", the name is a directory through every run that does not remove it.
  */
  lemma SlashlessNameIsNeverAFile(names: set<Path>, exclusive: bool, w: World, fn: Path, es: seq<Event>)
    requires fn != "" && '/' !in fn && !EndsInUpload(fn)
    requires Enabled(w, Reserve(fn, true))
    requires CanRun(names, exclusive, Next(w, Reserve(fn, true)), es) && Remove(fn) !in es
    ensures IsDir(Run(names, exclusive, Next(w, Reserve(fn, true)), es).fs, fn)
  {
    assert LastSlash(fn).None?;
    assert forall q :: q in Chain(fn) <==> q == fn;
    ReservingMakesDirectories(w.fs, fn, fn);
    forall g | g in names ensures Staged(g) != fn {
      StagedIsUndone(g);
    }
    DirectoryStays(names, exclusive, Next(w, Reserve(fn, true)), es, fn);
  }
}
