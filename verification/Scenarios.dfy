/** Runs that exist: a close as single steps, an upload from start to end, and the two ways to publish wrong bytes. */
module Scenarios {
  import opened Results
  import opened Posix
  import opened Hdfs
  import opened Names
  import opened Buffer
  import Writers
  import opened Tree
  import opened Protocol
  import opened Uploads

  /** `es` can happen from `from` and ends in `to`. */
  ghost predicate Leads(names: set<Path>, exclusive: bool, from: World, es: seq<Event>, to: World) {
    CanRun(names, exclusive, from, es) && Run(names, exclusive, from, es) == to
  }

  lemma {:induction false} LeadsFurther(
    names: set<Path>, exclusive: bool, from: World, first: seq<Event>, mid: World, second: seq<Event>, to: World)
    requires Leads(names, exclusive, from, first, mid) && Leads(names, exclusive, mid, second, to)
    ensures Leads(names, exclusive, from, first + second, to)
    decreases first
  {
    if first == [] {
      assert first + second == second;
    } else {
      assert (first + second)[1..] == first[1..] + second;
      LeadsFurther(names, exclusive, Next(from, first[0]), first[1..], mid, second, to);
    }
  }

  lemma LeadsOneStep(names: set<Path>, exclusive: bool, from: World, es: seq<Event>, to: World, e: Event)
    requires Leads(names, exclusive, from, es, to)
    requires e.fn in names && Enabled(to, e) && (exclusive ==> OpensFresh(to, e))
    ensures Leads(names, exclusive, from, es + [e], Next(to, e))
  {
    var single, next := [e], Next(to, e);
    assert single[0] == e && single[1..] == [];
    assert CanRun(names, exclusive, next, []);
    calc {
      Run(names, exclusive, to, single);
      Run(names, exclusive, Next(to, single[0]), single[1..]);
      Run(names, exclusive, next, []);
      next;
    }
    LeadsFurther(names, exclusive, from, es, to, single, next);
  }

  // ----- One close of the handler machine is a run of single steps -----

  /** The world when `sent` bytes have been copied since `w`, after reading everything at once. */
  function CopyWorld(w: World, fn: Path, sent: nat): World
    requires fn in w.sessions && w.sessions[fn].handler.Writing? && sent <= |Contents(w.sessions[fn].ops)|
  {
    var s, all := w.sessions[fn], Contents(w.sessions[fn].ops);
    var h := s.handler;
    World(Appended(w.fs, HandlerPath(fn), all[..sent]), w.disk,
          w.sessions[fn := s.(handler := Copying(h.temp, h.inode, h.inode, |all|, all[sent..]))])
  }

  function StartEvents(fn: Path, size: nat): seq<Event> {
    [StartClose(fn, true)] + if size > 0 then [ReadChunk(fn, size)] else []
  }

  function AttemptEvents(fn: Path, attempts: seq<Writers.Attempt>): seq<Event> {
    if attempts == [] then []
    else AttemptEvents(fn, attempts[..|attempts| - 1]) + [Attempted(fn, attempts[|attempts| - 1])]
  }

  lemma CloseStarts(names: set<Path>, w: World, fn: Path)
    requires fn in names && fn in w.sessions && w.sessions[fn].handler.Writing? && ContentOk(w, fn)
    ensures Leads(names, true, w, StartEvents(fn, |Contents(w.sessions[fn].ops)|), CopyWorld(w, fn, 0))
  {
    var size := |Contents(w.sessions[fn].ops)|;
    var e := StartClose(fn, true);
    CopyWorldIsRead(w, fn);
    LeadsOneStep(names, true, w, [], w, e);
    assert [] + [e] == [e];
    if size > 0 {
      LeadsOneStep(names, true, w, [e], Next(w, e), ReadChunk(fn, size));
    }
  }

  lemma CopyWorldIsRead(w: World, fn: Path)
    requires fn in w.sessions && w.sessions[fn].handler.Writing? && ContentOk(w, fn)
    ensures var size, e := |Contents(w.sessions[fn].ops)|, StartClose(fn, true);
            && Enabled(w, e)
            && (size == 0 ==> Next(w, e) == CopyWorld(w, fn, 0))
            && (size > 0 ==>
                  && Enabled(Next(w, e), ReadChunk(fn, size))
                  && Next(Next(w, e), ReadChunk(fn, size)) == CopyWorld(w, fn, 0))
  {
    var all := Contents(w.sessions[fn].ops);
    Writers.AppendNothing(w.fs, HandlerPath(fn));
    assert all[..0] == [] && all[0..] == all && all[0..|all|] == all;
  }

  lemma OneAttempt(w: World, fn: Path, sent: nat, a: Writers.Attempt)
    requires fn in w.sessions && w.sessions[fn].handler.Writing? && IsFile(w.fs, HandlerPath(fn))
    requires sent + (if a.Sent? then a.n else 0) <= |Contents(w.sessions[fn].ops)|
    ensures var now, e := CopyWorld(w, fn, sent), Attempted(fn, a);
            Enabled(now, e) && Next(now, e) == CopyWorld(w, fn, sent + if a.Sent? then a.n else 0)
  {
    if a.Sent? {
      var all := Contents(w.sessions[fn].ops);
      Writers.AppendInTwo(w.fs, HandlerPath(fn), all, sent, sent + a.n);
      assert all[sent..][..a.n] == all[sent..sent + a.n];
      assert all[sent..][a.n..] == all[sent + a.n..];
    }
  }

  lemma {:induction false} AttemptsRun(names: set<Path>, w: World, fn: Path, attempts: seq<Writers.Attempt>)
    requires fn in names && fn in w.sessions && w.sessions[fn].handler.Writing? && IsFile(w.fs, HandlerPath(fn))
    requires Writers.Delivered(attempts) <= |Contents(w.sessions[fn].ops)|
    ensures Leads(names, true, CopyWorld(w, fn, 0), AttemptEvents(fn, attempts),
                  CopyWorld(w, fn, Writers.Delivered(attempts)))
  {
    if attempts != [] {
      var front, a := attempts[..|attempts| - 1], attempts[|attempts| - 1];
      var sent := Writers.Delivered(front);
      AttemptsRun(names, w, fn, front);
      OneAttempt(w, fn, sent, a);
      LeadsOneStep(names, true, CopyWorld(w, fn, 0), AttemptEvents(fn, front), CopyWorld(w, fn, sent),
                   Attempted(fn, a));
    }
  }

  function CloseEvents(fn: Path, size: nat, attempts: seq<Writers.Attempt>, complete: bool): seq<Event> {
    StartEvents(fn, size) + AttemptEvents(fn, attempts) + [FinishClose(fn, complete)]
  }

  /** The handler machine's view of an open session. */
  function WriterOf(w: World, fn: Path): Writers.Writer
    requires fn in w.sessions
  {
    Writers.Writer(Staged(fn), Some(PerformAll(Cursor([], 0), w.sessions[fn].ops)), w.fs)
  }

  /**
    A whole `close` of the handler machine on a session's staging file is a possible run of the protocol: cut into
    its single steps it has the same effect on HDFS, and other sessions may step in between.
  */
  lemma CloseIsARunOfSteps(
    names: set<Path>, w: World, fn: Path, attempts: seq<Writers.Attempt>, complete: bool) returns (end: World)
    requires Compatible(names) && fn in names && fn in w.sessions && NameOk(w, fn) && ContentOk(w, fn)
    requires w.sessions[fn].handler.Writing? && w.sessions[fn].stage == Opened
    requires Writers.Possible(WriterOf(w, fn), Writers.Close(attempts, complete))
    ensures Leads(names, true, w, CloseEvents(fn, |Contents(w.sessions[fn].ops)|, attempts, complete), end)
    ensures end.fs == Writers.Step(WriterOf(w, fn), Writers.Close(attempts, complete)).fs
    ensures end.sessions == w.sessions[fn := w.sessions[fn].(handler := Closed(w.sessions[fn].handler.temp),
                                                             normal := complete)]
  {
    PlainStagingPath(fn);
    var size, sent := |Contents(w.sessions[fn].ops)|, Writers.Delivered(attempts);
    CloseStarts(names, w, fn);
    AttemptsRun(names, w, fn, attempts);
    var es := StartEvents(fn, size) + AttemptEvents(fn, attempts);
    LeadsFurther(names, true, w, StartEvents(fn, size), CopyWorld(w, fn, 0), AttemptEvents(fn, attempts),
                 CopyWorld(w, fn, sent));
    FinishIsEnabled(w, fn, sent, complete);
    end := Next(CopyWorld(w, fn, sent), FinishClose(fn, complete));
    LeadsOneStep(names, true, w, es, CopyWorld(w, fn, sent), FinishClose(fn, complete));
  }

  lemma FinishIsEnabled(w: World, fn: Path, sent: nat, complete: bool)
    requires fn in w.sessions && w.sessions[fn].handler.Writing? && ContentOk(w, fn)
    requires sent <= |Contents(w.sessions[fn].ops)| && (complete ==> sent == |Contents(w.sessions[fn].ops)|)
    ensures var now, e := CopyWorld(w, fn, sent), FinishClose(fn, complete);
            && Enabled(now, e) && Next(now, e).fs == now.fs
            && Next(now, e).sessions == w.sessions[fn := w.sessions[fn].(handler := Closed(w.sessions[fn].handler.temp),
                                                                         normal := complete)]
  {
    assert complete ==> Contents(w.sessions[fn].ops)[sent..] == [];
  }

  // ----- Starting uploads -----

  /** No file stands where the upload needs a directory. */
  ghost predicate NoFileAbove(fs: FileSystem, fn: Path) {
    forall q :: Ancestor(q, fn) ==> !IsFile(fs, q)
  }

  lemma NoFileAboveStays(names: set<Path>, w: World, e: Event, fn: Path)
    requires Compatible(names) && Inv(names, w) && e.fn in names && fn in names && Enabled(w, e)
    requires NoFileAbove(w.fs, fn)
    ensures NoFileAbove(FsAfter(w, e), fn)
  {
    StepIsOk(names, w, e);
    ChainAvoids(names, e.fn, fn);
    forall q | Ancestor(q, fn) ensures !IsFile(FsAfter(w, e), q) {
      assert At(FsAfter(w, e), q) == At(w.fs, q) || IsDir(FsAfter(w, e), q);
    }
  }

  /** A reserved name can be opened whenever no file stands above it. */
  lemma ReservedCanOpen(names: set<Path>, w: World, e: Event)
    requires Compatible(names) && Inv(names, w) && e.Open? && e.fn in names && e.fn in w.sessions
    requires w.sessions[e.fn].stage == Reserved && NoFileAbove(w.fs, e.fn)
    ensures Enabled(w, e)
  {
    assert NameOk(w, e.fn);
    PlainStagingPath(e.fn);
    StagedHasSameAncestors(e.fn);
    assert forall q :: q in Chain(Staged(e.fn)) && q != Staged(e.fn) ==> Ancestor(q, e.fn);
  }

  /** The handler of `fn` is open at the start of the file behind `temp`, and its staging file is empty. */
  predicate FreshlyOpened(w: World, fn: Path, temp: string) {
    && fn in w.sessions && temp in w.disk.names
    && w.sessions[fn] == Session(Opened, Writing(temp, w.disk.names[temp], 0), false, [])
    && At(w.fs, Staged(fn)) == Some(File([]))
  }

  lemma OpenIsFresh(names: set<Path>, w: World, fn: Path, temp: string)
    requires Compatible(names) && Inv(names, w) && fn in names && fn in w.sessions
    requires w.sessions[fn].stage == Reserved && NoFileAbove(w.fs, fn)
    ensures Enabled(w, Open(fn, temp, true)) && FreshlyOpened(Next(w, Open(fn, temp, true)), fn, temp)
  {
    ReservedCanOpen(names, w, Open(fn, temp, true));
    assert NameOk(w, fn);
    OpenIsOk(w, Open(fn, temp, true));
  }

  /** From a free name to an open handler on a temp path. */
  lemma UploadCanStart(names: set<Path>, exclusive: bool, now: World, fn: Path, temp: string)
    returns (es: seq<Event>, end: World)
    requires Compatible(names) && Inv(names, now) && fn in names && Enabled(now, Reserve(fn, true))
    requires NoFileAbove(now.fs, fn)
    requires exclusive ==> OpensFresh(now, Open(fn, temp, true))
    ensures Leads(names, exclusive, now, es, end) && FreshlyOpened(end, fn, temp) && Inv(names, end)
    ensures temp !in now.disk.names ==> BytesOf(end.disk, end.disk.names[temp]) == []
  {
    var reserve, open := Reserve(fn, true), Open(fn, temp, true);
    NoFileAboveStays(names, now, reserve, fn);
    StepKeepsInv(names, now, reserve);
    var reserved := Next(now, reserve);
    OpenIsFresh(names, reserved, fn, temp);
    StepKeepsInv(names, reserved, open);
    LeadsOneStep(names, exclusive, now, [], now, reserve);
    LeadsOneStep(names, exclusive, now, [] + [reserve], reserved, open);
    es, end := [] + [reserve] + [open], Next(reserved, open);
  }

  // ----- Uploads can always be completed -----

  function CallEvents(fn: Path, ops: seq<Op>): seq<Event> {
    if ops == [] then [] else CallEvents(fn, ops[..|ops| - 1]) + [Call(fn, ops[|ops| - 1])]
  }

  /** The world after `ops` on a handler that was just opened. */
  function CalledWorld(w: World, fn: Path, temp: string, ops: seq<Op>): World
    requires FreshlyOpened(w, fn, temp) && BytesOf(w.disk, w.disk.names[temp]) == []
  {
    if ops == [] then w else
      var c, inode := PerformAll(Cursor([], 0), ops), w.disk.names[temp];
      World(w.fs, w.disk.(bytes := w.disk.bytes[inode := c.bytes]),
            w.sessions[fn := Session(Opened, Writing(temp, inode, c.pos), false, ops)])
  }

  lemma {:induction false} CallsRun(names: set<Path>, w: World, fn: Path, temp: string, ops: seq<Op>)
    requires fn in names && FreshlyOpened(w, fn, temp) && BytesOf(w.disk, w.disk.names[temp]) == []
    ensures Leads(names, true, w, CallEvents(fn, ops), CalledWorld(w, fn, temp, ops))
  {
    if ops != [] {
      var front, op := ops[..|ops| - 1], ops[|ops| - 1];
      CallsRun(names, w, fn, temp, front);
      assert front + [op] == ops;
      OneCall(w, fn, temp, front, op);
      LeadsOneStep(names, true, w, CallEvents(fn, front), CalledWorld(w, fn, temp, front), Call(fn, op));
    }
  }

  lemma OneCall(w: World, fn: Path, temp: string, front: seq<Op>, op: Op)
    requires FreshlyOpened(w, fn, temp) && BytesOf(w.disk, w.disk.names[temp]) == []
    ensures var now := CalledWorld(w, fn, temp, front);
            Enabled(now, Call(fn, op)) && Next(now, Call(fn, op)) == CalledWorld(w, fn, temp, front + [op])
  {
    assert (front + [op])[..|front|] == front;
  }

  /** After a close that returned, the name can be published with all the bytes. */
  lemma ClosedCanPublish(w: World, fn: Path)
    requires WellFormed(w.fs) && NameOk(w, fn) && ContentOk(w, fn) && fn in w.sessions && fn != ""
    requires w.sessions[fn].stage == Opened && w.sessions[fn].normal
    ensures Enabled(w, DoneWriting(fn))
    ensures At(Next(w, DoneWriting(fn)).fs, fn) == Some(File(Contents(w.sessions[fn].ops)))
  {
    RenamingIsConfined(w.fs, fn);
    PublishIsOk(w, fn);
  }

  /** From an open handler: all the calls, one close that sends everything, the rename. */
  lemma OpenCanPublish(names: set<Path>, w: World, fn: Path, temp: string, ops: seq<Op>)
    returns (es: seq<Event>, end: World)
    requires Compatible(names) && ExclusiveInv(names, w) && fn in names
    requires FreshlyOpened(w, fn, temp) && BytesOf(w.disk, w.disk.names[temp]) == []
    ensures Leads(names, true, w, es, end) && At(end.fs, fn) == Some(File(Contents(ops)))
  {
    es := CallEvents(fn, ops);
    CallsRun(names, w, fn, temp, ops);
    var called := CalledWorld(w, fn, temp, ops);
    RunKeepsExclusiveInv(names, w, es);
    assert NameOk(called, fn) && ContentOk(called, fn) && called.sessions[fn].ops == ops;
    var all := [Writers.Sent(|Contents(ops)|)];
    assert all[..0] == [];
    var closed := CloseIsARunOfSteps(names, called, fn, all, true);
    var close := CloseEvents(fn, |Contents(ops)|, all, true);
    RunKeepsExclusiveInv(names, called, close);
    LeadsFurther(names, true, w, es, called, close, closed);
    assert NameOk(closed, fn) && ContentOk(closed, fn);
    ClosedCanPublish(closed, fn);
    LeadsOneStep(names, true, w, es + close, closed, DoneWriting(fn));
    es, end := es + close + [DoneWriting(fn)], Next(closed, DoneWriting(fn));
  }

  /**
    Uploads can be completed: from every reachable world in which the name is free, no file stands above it and
    the temp path is fresh, whatever calls a client wants to make, a run publishes exactly what they describe.
  */
  lemma UploadCanComplete(names: set<Path>, now: World, fn: Path, temp: string, ops: seq<Op>)
    returns (es: seq<Event>, end: World)
    requires Compatible(names) && Reachable(names, true, now) && fn in names && Enabled(now, Reserve(fn, true))
    requires NoFileAbove(now.fs, fn) && OpensFresh(now, Open(fn, temp, true))
    ensures Leads(names, true, now, es, end) && At(end.fs, fn) == Some(File(Described(ops)))
  {
    ReachableIsExclusive(names, now);
    var start, w := UploadCanStart(names, true, now, fn, temp);
    RunKeepsExclusiveInv(names, now, start);
    es, end := OpenCanPublish(names, w, fn, temp, ops);
    LeadsFurther(names, true, now, start, w, es, end);
    es := start + es;
    ContentsAreDescribed(ops);
  }

  // ----- Publishing wrong bytes: an upload that was not closed normally -----

  /**
    The handler writes a byte and is destroyed without `close`; then the rename of `doneWriting` succeeds and
    publishes an empty file. It takes one write, from every world in which an upload can start.
  */
  lemma AbandonedUploadPublishesNothing(names: set<Path>, now: World, fn: Path, temp: string, x: Byte)
    returns (es: seq<Event>, end: World)
    requires Compatible(names) && Reachable(names, true, now) && fn in names && Enabled(now, Reserve(fn, true))
    requires NoFileAbove(now.fs, fn) && OpensFresh(now, Open(fn, temp, true))
    ensures Leads(names, true, now, es, end)
    ensures fn in end.sessions && end.sessions[fn].stage == Opened && end.sessions[fn].handler.NoHandler?
    ensures Described(end.sessions[fn].ops) == [x]
    ensures var outcome := Renamed(end.fs, Staged(fn), DropUpload(Staged(fn)));
            outcome.Some? && At(outcome.value, fn) == Some(File([]))
  {
    ReachableIsExclusive(names, now);
    var start, w := UploadCanStart(names, true, now, fn, temp);
    var op := Buffer.Write([x], 1);
    CallsRun(names, w, fn, temp, [op]);
    OneWriteIsDescribed(x);
    var called := CalledWorld(w, fn, temp, [op]);
    LeadsFurther(names, true, now, start, w, CallEvents(fn, [op]), called);
    LeadsOneStep(names, true, now, start + CallEvents(fn, [op]), called, Destroy(fn));
    es, end := start + CallEvents(fn, [op]) + [Destroy(fn)], Next(called, Destroy(fn));
    assert NameOk(w, fn);
    RenamingIsConfined(end.fs, fn);
  }

  lemma OneWriteIsDescribed(x: Byte)
    ensures Described([Buffer.Write([x], 1)]) == Contents([Buffer.Write([x], 1)]) == [x]
    ensures PerformAll(Cursor([], 0), [Buffer.Write([x], 1)]) == Cursor([x], 1)
  {
    var ops := [Buffer.Write([x], 1)];
    assert ops[..0] == [] && [x][..1] == [x];
    assert WriteAt([], 0, [x]) == [x];
    assert PerformAll(Cursor([], 0), []) == Cursor([], 0);
    assert PerformAll(Cursor([], 0), ops) == Perform(Cursor([], 0), ops[0]) == Cursor([x], 1);
    ContentsAreDescribed(ops);
  }

  // ----- Publishing wrong bytes: two handlers on one temp path -----

  /** Two handlers on the same empty file; the first has written `x` and the second, at the same place, `y`. */
  ghost predicate Overwritten(w: World, a: Path, b: Path, temp: string, x: Byte, y: Byte) {
    && a in w.sessions && b in w.sessions && a != b && temp in w.disk.names
    && var inode := w.disk.names[temp];
    && w.sessions[a] == Session(Opened, Writing(temp, inode, 1), false, [Buffer.Write([x], 1)])
    && w.sessions[b] == Session(Opened, Writing(temp, inode, 1), false, [Buffer.Write([y], 1)])
    && BytesOf(w.disk, inode) == [y]
    && At(w.fs, Staged(a)) == Some(File([]))
  }

  lemma OthersStay(names: set<Path>, w: World, e: Event, g: Path)
    requires Compatible(names) && Inv(names, w) && e.fn in names && g in names && e.fn != g && Enabled(w, e)
    ensures Inv(names, Next(w, e))
    ensures At(Next(w, e).fs, g) == At(w.fs, g) && At(Next(w, e).fs, Staged(g)) == At(w.fs, Staged(g))
    ensures NoFileAbove(w.fs, g) ==> NoFileAbove(Next(w, e).fs, g)
  {
    StepKeepsInv(names, w, e);
    StepIsOk(names, w, e);
    ConfinedSparesOthers(names, w.fs, FsAfter(w, e), e.fn, g);
    if NoFileAbove(w.fs, g) {
      NoFileAboveStays(names, w, e, g);
    }
  }

  /** The name can be reserved and its handler opened. */
  ghost predicate CanStart(w: World, fn: Path) {
    Enabled(w, Reserve(fn, true)) && NoFileAbove(w.fs, fn)
  }

  lemma BothCanReserve(names: set<Path>, now: World, a: Path, b: Path) returns (w: World)
    requires Compatible(names) && Inv(names, now) && a in names && b in names && a != b
    requires CanStart(now, a) && CanStart(now, b)
    ensures Leads(names, false, now, ReserveBoth(a, b), w) && Inv(names, w)
    ensures w.disk == now.disk && NoFileAbove(w.fs, a) && NoFileAbove(w.fs, b)
    ensures a in w.sessions && w.sessions[a].stage == Reserved && b in w.sessions && w.sessions[b].stage == Reserved
  {
    var first, second := Reserve(a, true), Reserve(b, true);
    OthersStay(names, now, first, b);
    NoFileAboveStays(names, now, first, a);
    var mid := Next(now, first);
    OthersStay(names, mid, second, a);
    NoFileAboveStays(names, mid, second, b);
    w := Next(mid, second);
    LeadsOneStep(names, false, now, [], now, first);
    LeadsOneStep(names, false, now, [] + [first], mid, second);
  }

  lemma BothCanOpen(names: set<Path>, w: World, a: Path, b: Path, temp: string) returns (end: World)
    requires Compatible(names) && Inv(names, w) && a in names && b in names && a != b
    requires a in w.sessions && w.sessions[a].stage == Reserved && NoFileAbove(w.fs, a)
    requires b in w.sessions && w.sessions[b].stage == Reserved && NoFileAbove(w.fs, b)
    requires temp !in w.disk.names
    ensures Leads(names, false, w, OpenBoth(a, b, temp), end) && Inv(names, end)
    ensures FreshlyOpened(end, a, temp) && FreshlyOpened(end, b, temp) && BytesOf(end.disk, end.disk.names[temp]) == []
  {
    var first, second := Open(b, temp, true), Open(a, temp, true);
    OpenIsFresh(names, w, b, temp);
    OthersStay(names, w, first, a);
    var mid := Next(w, first);
    OpenIsFresh(names, mid, a, temp);
    OthersStay(names, mid, second, b);
    end := Next(mid, second);
    LeadsOneStep(names, false, w, [], w, first);
    LeadsOneStep(names, false, w, [] + [first], mid, second);
  }

  lemma BothCanWrite(names: set<Path>, w: World, a: Path, b: Path, temp: string, x: Byte, y: Byte) returns (end: World)
    requires a in names && b in names && a != b
    requires FreshlyOpened(w, a, temp) && FreshlyOpened(w, b, temp) && BytesOf(w.disk, w.disk.names[temp]) == []
    ensures Leads(names, false, w, WriteBoth(a, b, x, y), end)
    ensures Overwritten(end, a, b, temp, x, y)
  {
    var first, second := Call(a, Buffer.Write([x], 1)), Call(b, Buffer.Write([y], 1));
    var mid := Next(w, first);
    assert [x][..1] == [x] && [y][..1] == [y] && [] + [first.op] == [first.op] && [] + [second.op] == [second.op];
    assert BytesOf(mid.disk, w.disk.names[temp]) == [x];
    assert WriteAt([x], 0, [y]) == [y];
    end := Next(mid, second);
    LeadsOneStep(names, false, w, [], w, first);
    LeadsOneStep(names, false, w, [] + [first], mid, second);
  }

  /** The first handler's close, from then on, sends the second one's byte and returns. */
  lemma CloseSendsOtherByte(names: set<Path>, w: World, a: Path, b: Path, temp: string, x: Byte, y: Byte)
    returns (es: seq<Event>, end: World)
    requires Overwritten(w, a, b, temp, x, y) && a in names && ':' !in a && a !in w.fs
    ensures Leads(names, false, w, es, end) && OpensOnly(es, a, b, temp)
    ensures a in end.sessions && end.sessions[a] == Session(Opened, Closed(temp), true, [Buffer.Write([x], 1)])
    ensures end.fs == w.fs[Staged(a) := File([y])]
  {
    PlainStagingPath(a);
    var e1, e2, e3, e4 := StartClose(a, true), ReadChunk(a, 1), Attempted(a, Writers.Sent(1)), FinishClose(a, true);
    var w1 := Next(w, e1);
    var w2 := Next(w1, e2);
    assert [y][0..1] == [y] && [y][..1] == [y] && [y][1..] == [] && [] + [y] == [y];
    assert w2.sessions[a].handler.chunk == [y];
    var w3 := Next(w2, e3);
    end := Next(w3, e4);
    LeadsOneStep(names, false, w, [], w, e1);
    LeadsOneStep(names, false, w, [] + [e1], w1, e2);
    LeadsOneStep(names, false, w, [] + [e1] + [e2], w2, e3);
    LeadsOneStep(names, false, w, [] + [e1] + [e2] + [e3], w3, e4);
    es := [] + [e1] + [e2] + [e3] + [e4];
  }

  /** The only temp path `a` and `b` open is `temp`. */
  predicate OpensOnly(es: seq<Event>, a: Path, b: Path, temp: string) {
    forall i :: 0 <= i < |es| && es[i].Open? ==> es[i].fn in {a, b} && es[i].temp == temp
  }

  function ReserveBoth(a: Path, b: Path): seq<Event> {
    [] + [Reserve(a, true)] + [Reserve(b, true)]
  }

  function OpenBoth(a: Path, b: Path, temp: string): seq<Event> {
    [] + [Open(b, temp, true)] + [Open(a, temp, true)]
  }

  function WriteBoth(a: Path, b: Path, x: Byte, y: Byte): seq<Event> {
    [] + [Call(a, Buffer.Write([x], 1))] + [Call(b, Buffer.Write([y], 1))]
  }

  /** From two free names to two handlers at work on one temp path. */
  lemma BothCanStart(names: set<Path>, now: World, a: Path, b: Path, temp: string, x: Byte, y: Byte)
    returns (end: World)
    requires Compatible(names) && Inv(names, now) && a in names && b in names && a != b
    requires CanStart(now, a) && CanStart(now, b) && temp !in now.disk.names
    ensures Leads(names, false, now, ReserveBoth(a, b) + OpenBoth(a, b, temp) + WriteBoth(a, b, x, y), end)
    ensures Inv(names, end) && Overwritten(end, a, b, temp, x, y)
  {
    var w1 := BothCanReserve(names, now, a, b);
    var w2 := BothCanOpen(names, w1, a, b, temp);
    LeadsFurther(names, false, now, ReserveBoth(a, b), w1, OpenBoth(a, b, temp), w2);
    end := BothCanWrite(names, w2, a, b, temp, x, y);
    LeadsFurther(names, false, now, ReserveBoth(a, b) + OpenBoth(a, b, temp), w2, WriteBoth(a, b, x, y), end);
    RunKeepsInv(names, false, w2, WriteBoth(a, b, x, y));
  }

  /**
    Two uploads whose handlers are given one temp path, free when the first is opened: each client writes a byte,
    the first one's `close` returns, its `doneWriting` succeeds, and what is published is the second one's byte.
    From every world in which the two uploads can start.
  */
  lemma SharedTempPublishesWrongBytes(
    names: set<Path>, now: World, a: Path, b: Path, temp: string, x: Byte, y: Byte)
    returns (es: seq<Event>, end: World)
    requires Compatible(names) && Reachable(names, false, now) && a in names && b in names && a != b
    requires CanStart(now, a) && CanStart(now, b) && temp !in now.disk.names
    ensures Leads(names, false, now, es, end) && OpensOnly(es, a, b, temp)
    ensures a in end.sessions && end.sessions[a].stage == Published && end.sessions[a].normal
    ensures Described(end.sessions[a].ops) == [x] && At(end.fs, a) == Some(File([y]))
  {
    ReachableIsOk(names, false, now);
    var w := BothCanStart(names, now, a, b, temp, x, y);
    var start := ReserveBoth(a, b) + OpenBoth(a, b, temp) + WriteBoth(a, b, x, y);
    es, end := OverwrittenIsPublished(names, w, a, b, temp, x, y);
    LeadsFurther(names, false, now, start, w, es, end);
    StartOpensOnly(a, b, temp, x, y, es);
    es := start + es;
  }

  /** From the overwritten temp file to the published byte. */
  lemma OverwrittenIsPublished(names: set<Path>, w: World, a: Path, b: Path, temp: string, x: Byte, y: Byte)
    returns (es: seq<Event>, end: World)
    requires Compatible(names) && Inv(names, w) && a in names && Overwritten(w, a, b, temp, x, y)
    ensures Leads(names, false, w, es, end) && OpensOnly(es, a, b, temp)
    ensures a in end.sessions && end.sessions[a].stage == Published && end.sessions[a].normal
    ensures Described(end.sessions[a].ops) == [x] && At(end.fs, a) == Some(File([y]))
  {
    assert NameOk(w, a);
    var close, closed := CloseSendsOtherByte(names, w, a, b, temp, x, y);
    RunKeepsInv(names, false, w, close);
    RenamingIsConfined(closed.fs, a);
    PublishIsOk(closed, a);
    LeadsOneStep(names, false, w, close, closed, DoneWriting(a));
    es, end := close + [DoneWriting(a)], Next(closed, DoneWriting(a));
    OneWriteIsDescribed(x);
  }

  lemma StartOpensOnly(a: Path, b: Path, temp: string, x: Byte, y: Byte, more: seq<Event>)
    requires OpensOnly(more, a, b, temp)
    ensures OpensOnly(ReserveBoth(a, b) + OpenBoth(a, b, temp) + WriteBoth(a, b, x, y) + more, a, b, temp)
  {
    assert OpensOnly(ReserveBoth(a, b) + OpenBoth(a, b, temp) + WriteBoth(a, b, x, y), a, b, temp);
  }

  /** Nothing in HDFS, no temp files, no sessions. */
  const EMPTY_WORLD := World(map[], Disk(map[], map[], 0), map[])

  lemma ExampleNames()
    ensures Compatible({"/a/x", "/b/x"})
  {
    var a, b := "/a/x", "/b/x";
    assert a[0] == '/' && b[0] == '/' && |a| == |b| == 4;
    ShortNameIsClean(a);
    ShortNameIsClean(b);
  }

  lemma ShortNameIsClean(fn: Path)
    requires |fn| < |UPLOAD|
    ensures Clean(fn)
  {
    assert forall q :: q in Chain(fn) ==> |q| <= |fn|;
  }

  /**
    For instance "/a/x" and "/b/x", from an empty world: when `rand()` gives both handlers the same number, as it
    does to two processes within a second, they have one temp path, and the run above publishes the wrong byte.
  */
  lemma SharedTempExample(tmpFolder: string, random: string, x: Byte, y: Byte) returns (es: seq<Event>, end: World)
    ensures var names, temp := {"/a/x", "/b/x"}, TempPath(tmpFolder, random, Staged("/a/x"));
            && temp == TempPath(tmpFolder, random, Staged("/b/x"))
            && Compatible(names) && Initial(names, EMPTY_WORLD) && Leads(names, false, EMPTY_WORLD, es, end)
    ensures "/a/x" in end.sessions && end.sessions["/a/x"].normal
    ensures Described(end.sessions["/a/x"].ops) == [x] && At(end.fs, "/a/x") == Some(File([y]))
  {
    var a, b := "/a/x", "/b/x";
    assert a == "/a" + "/" + "x" && b == "/b" + "/" + "x";
    SameNameSameTempPath(tmpFolder, random, "/a", "/b", "x");
    ExampleNames();
    var names, temp := {a, b}, TempPath(tmpFolder, random, Staged(a));
    assert Leads(names, false, EMPTY_WORLD, [], EMPTY_WORLD);
    assert Initial(names, EMPTY_WORLD);
    assert a != b by { assert a[1] != b[1]; }
    es, end := SharedTempPublishesWrongBytes(names, EMPTY_WORLD, a, b, temp, x, y);
  }
}
