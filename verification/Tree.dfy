/** HDFS calls keep the name space a tree: every entry lies in existing directories. */
module Tree {
  import opened Results
  import opened Posix
  import opened Hdfs
  import opened Names
  import opened Pool

  ghost predicate WellFormed(fs: FileSystem) {
    forall q, a :: q in fs && Ancestor(a, q) ==> IsDir(fs, a)
  }

  /**
    `after` differs from `before` at most at `own`, and by new directories on the way to `own`'s final name.
    This is what one upload may do to everybody else.
  */
  ghost predicate Confined(before: FileSystem, after: FileSystem, fn: Path) {
    && WellFormed(after)
    && forall p :: p != fn && p != Staged(fn) ==>
         At(after, p) == At(before, p) || (Ancestor(p, fn) && p !in before && IsDir(after, p))
  }

  lemma AncestorsOfAncestors(a: Path, b: Path, c: Path)
    requires Ancestor(a, b) && Ancestor(b, c)
    ensures Ancestor(a, c)
  {
    assert c[..|a|] == b[..|a|];
  }

  lemma AddingDirectories(fs: FileSystem, p: Path)
    requires WellFormed(fs) && forall q :: q in Chain(p) ==> !IsFile(fs, q)
    ensures WellFormed(WithDirectories(fs, p))
  {
    var after := WithDirectories(fs, p);
    forall q, a | q in after && Ancestor(a, q) ensures IsDir(after, a) {
      if q in Chain(p) {
        if q != p { AncestorsOfAncestors(a, q, p); }
        assert a in Chain(p);
      }
    }
  }

  lemma ReservingIsConfined(fs: FileSystem, fn: Path)
    requires WellFormed(fs) && '/' in fn
    ensures Confined(fs, ReservedFs(fs, fn), fn)
    ensures At(ReservedFs(fs, fn), fn) == At(fs, fn)
    ensures Clean(fn) ==> At(ReservedFs(fs, fn), Staged(fn)) == At(fs, Staged(fn))
  {
    ParentChain(fn);
    StagedIsUndone(fn);
    if DirectoryCreated(fs, ParentPath(fn)).Some? {
      AddingDirectories(fs, ParentPath(fn));
    }
  }

  lemma OpeningIsConfined(fs: FileSystem, fn: Path)
    requires WellFormed(fs) && ':' !in fn && OpenedForWrite(fs, HandlerPath(fn), false).Some?
    ensures var after := OpenedForWrite(fs, HandlerPath(fn), false).value;
            && Confined(fs, after, fn)
            && At(after, fn) == At(fs, fn)
            && At(after, Staged(fn)) == Some(File([]))
  {
    PlainStagingPath(fn);
    StagedHasSameAncestors(fn);
    var after := OpenedForWrite(fs, Staged(fn), false).value;
    forall q, a | q in after && Ancestor(a, q) ensures IsDir(after, a) {
      if q in Chain(Staged(fn)) {
        if q != Staged(fn) { AncestorsOfAncestors(a, q, Staged(fn)); }
        assert a in Chain(Staged(fn));
      } else {
        assert IsDir(fs, a);
      }
    }
  }

  lemma AppendingIsConfined(fs: FileSystem, fn: Path, data: Bytes)
    requires WellFormed(fs)
    ensures Confined(fs, Appended(fs, Staged(fn), data), fn)
  {
    var after := Appended(fs, Staged(fn), data);
    forall q, a | q in after && Ancestor(a, q) ensures IsDir(after, a) {
      assert IsDir(fs, a);
    }
  }

  /** Renaming a staged file to a free final name moves its bytes there in one step. */
  lemma RenamingIsConfined(fs: FileSystem, fn: Path)
    requires WellFormed(fs) && IsFile(fs, Staged(fn)) && fn !in fs && fn != ""
    ensures var outcome := Renamed(fs, Staged(fn), DropUpload(Staged(fn)));
            && outcome == Some((fs - {Staged(fn)})[fn := fs[Staged(fn)]])
            && Confined(fs, outcome.value, fn)
  {
    StagedIsUndone(fn);
    StagedHasSameAncestors(fn);
    var after := (fs - {Staged(fn)})[fn := fs[Staged(fn)]];
    forall q, a | q in after && Ancestor(a, q) ensures IsDir(after, a) {
      if q == fn {
        assert Ancestor(a, Staged(fn));
      }
      assert IsDir(fs, a);
    }
  }

  lemma DeletingIsConfined(fs: FileSystem, fn: Path, p: Path)
    requires WellFormed(fs) && IsFile(fs, p) && (p == fn || p == Staged(fn))
    ensures Deleted(fs, p, false) == Some(fs - {p})
    ensures Confined(fs, fs - {p}, fn)
  {
    var after := fs - {p};
    assert !IsDir(fs, p);
    assert forall q :: q in fs ==> !Ancestor(p, q);
    forall q, a | q in after && Ancestor(a, q) ensures IsDir(after, a) {
      assert IsDir(fs, a);
    }
    DeleteTakesOne(fs, p);
  }
}
