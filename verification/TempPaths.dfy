/**
  When uploads get their own bytes: give every final name the temp path its handlers open. Then every run publishes
  what its clients described exactly when no two names have the same temp path.
*/
module TempPaths {
  import opened Posix
  import opened Hdfs
  import opened Names
  import opened Buffer
  import opened Protocol
  import opened Uploads
  import opened Scenarios

  /** In the run, the handlers of `f` open `temps[f]`. */
  ghost predicate Assigned(temps: map<Path, string>, es: seq<Event>) {
    forall e :: e in es && e.Open? ==> e.fn in temps && e.temp == temps[e.fn]
  }

  ghost predicate Distinct(temps: map<Path, string>) {
    forall f, g :: f in temps && g in temps && f != g ==> temps[f] != temps[g]
  }

  /** Everything that exists under a final name is what its client described. */
  ghost predicate Safe(names: set<Path>, now: World) {
    forall f :: f in names && f in now.fs ==>
      f in now.sessions && now.fs[f] == File(Described(now.sessions[f].ops))
  }

  /** Handlers stick to their paths, and only a handler at work has a file there. */
  ghost predicate AssignedInv(temps: map<Path, string>, w: World) {
    && (forall f :: f in w.sessions && Holds(w.sessions[f].handler) ==>
          f in temps && w.sessions[f].handler.temp == temps[f])
    && (forall f :: f in temps && temps[f] in w.disk.names ==> f in w.sessions && Active(w.sessions[f].handler))
  }

  lemma AssignedOpenIsFresh(temps: map<Path, string>, w: World, e: Event)
    requires Distinct(temps) && AssignedInv(temps, w) && Enabled(w, e)
    requires e.Open? && e.fn in temps && e.temp == temps[e.fn]
    ensures OpensFresh(w, e)
  {
  }

  lemma StepKeepsPaths(temps: map<Path, string>, w: World, e: Event)
    requires AssignedInv(temps, w) && Enabled(w, e) && e.fn in temps && (e.Open? ==> e.temp == temps[e.fn])
    requires Holds(SessionAfter(w, e).handler)
    ensures SessionAfter(w, e).handler.temp == temps[e.fn]
  {
    if !e.Open? {
      StepKeepsClaim(w, e);
    }
  }

  /** The names on the disk after a step: at most the step's own path comes or goes. */
  lemma StepNames(temps: map<Path, string>, w: World, e: Event)
    requires AssignedInv(temps, w) && Enabled(w, e) && e.fn in temps && (e.Open? ==> e.temp == temps[e.fn])
    ensures forall t :: t in DiskAfter(w, e).names && t != temps[e.fn] ==> t in w.disk.names
    ensures temps[e.fn] in DiskAfter(w, e).names ==>
              Active(SessionAfter(w, e).handler) || (e.fn !in w.sessions && temps[e.fn] in w.disk.names)
              || (e.fn in w.sessions && !Active(w.sessions[e.fn].handler) && temps[e.fn] in w.disk.names)
  {
  }

  lemma StepKeepsAssigned(temps: map<Path, string>, w: World, e: Event)
    requires Distinct(temps) && AssignedInv(temps, w) && Enabled(w, e)
    requires e.fn in temps && (e.Open? ==> e.temp == temps[e.fn])
    ensures AssignedInv(temps, Next(w, e))
  {
    StepNames(temps, w, e);
    if Holds(SessionAfter(w, e).handler) {
      StepKeepsPaths(temps, w, e);
    }
  }

  lemma {:induction false} AssignedRunIsExclusive(
    names: set<Path>, temps: map<Path, string>, w: World, es: seq<Event>)
    requires Distinct(temps) && temps.Keys == names && AssignedInv(temps, w)
    requires CanRun(names, false, w, es) && Assigned(temps, es)
    ensures CanRun(names, true, w, es) && Run(names, true, w, es) == Run(names, false, w, es)
    decreases es
  {
    if es != [] {
      assert es[0] in es;
      assert forall e :: e in es[1..] ==> e in es;
      if es[0].Open? {
        AssignedOpenIsFresh(temps, w, es[0]);
      }
      StepKeepsAssigned(temps, w, es[0]);
      AssignedRunIsExclusive(names, temps, Next(w, es[0]), es[1..]);
    }
  }

  lemma DistinctPathsAreSafe(names: set<Path>, temps: map<Path, string>, w: World, es: seq<Event>)
    requires Compatible(names) && Initial(names, w) && temps.Keys == names && Distinct(temps)
    requires forall f :: f in temps ==> temps[f] !in w.disk.names
    requires CanRun(names, false, w, es) && Assigned(temps, es)
    ensures Safe(names, Run(names, false, w, es))
  {
    AssignedRunIsExclusive(names, temps, w, es);
    var now := Run(names, true, w, es);
    assert Reachable(names, true, now);
    forall f | f in names && f in now.fs
      ensures f in now.sessions && now.fs[f] == File(Described(now.sessions[f].ops))
    {
      PublicationSafety(names, now, f);
    }
  }

  lemma SharedPathIsUnsafe(names: set<Path>, temps: map<Path, string>, w: World, a: Path, b: Path)
    returns (es: seq<Event>)
    requires Compatible(names) && Initial(names, w) && temps.Keys == names
    requires a in names && b in names && a != b && temps[a] == temps[b] && temps[a] !in w.disk.names
    requires CanStart(w, a) && CanStart(w, b)
    ensures CanRun(names, false, w, es) && Assigned(temps, es) && !Safe(names, Run(names, false, w, es))
  {
    assert Leads(names, false, w, [], w);
    assert Reachable(names, false, w);
    var end;
    es, end := SharedTempPublishesWrongBytes(names, w, a, b, temps[a], 1, 2);
    assert forall e :: e in es && e.Open? ==> e.fn in {a, b} && e.temp == temps[a];
    assert a in end.fs && end.fs[a] == File([2]);
    assert [2 as Byte][0] != [1 as Byte][0];
  }

  /**
    From a world in which every upload can start and no temp path is taken: all interleaved runs are safe if and
    only if the temp paths are distinct. `TempPathsCollide` says when they are not.
  */
  lemma SafeIffPathsDistinct(names: set<Path>, temps: map<Path, string>, w: World)
    requires Compatible(names) && Initial(names, w) && temps.Keys == names
    requires forall f :: f in names ==> CanStart(w, f) && temps[f] !in w.disk.names
    ensures (forall es :: CanRun(names, false, w, es) && Assigned(temps, es) ==> Safe(names, Run(names, false, w, es)))
       <==> Distinct(temps)
  {
    if Distinct(temps) {
      forall es | CanRun(names, false, w, es) && Assigned(temps, es) ensures Safe(names, Run(names, false, w, es)) {
        DistinctPathsAreSafe(names, temps, w, es);
      }
    } else {
      var a, b :| a in temps && b in temps && a != b && temps[a] == temps[b];
      var es := SharedPathIsUnsafe(names, temps, w, a, b);
    }
  }
}
