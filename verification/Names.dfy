/** How the plugin derives one path from another, on plain strings as it does. */
module Names {
  import opened Results
  import opened Hdfs

  const UPLOAD := ".upload"

  /** The position of the first colon. */
  function FirstColon(s: string): (colon: Option<nat>)
    ensures colon.None? ==> ':' !in s
    ensures colon.Some? ==> colon.value < |s| && s[colon.value] == ':' && ':' !in s[..colon.value]
  {
    if s == "" then None
    else if s[0] == ':' then Some(0)
    else
      match FirstColon(s[1..])
      case None => None
      case Some(i) => assert s[..i + 1] == [s[0]] + s[1..][..i]; Some(i + 1)
  }

  /** "host:/path" is stored in catalogs; HDFS is asked for "/path". */
  function StripHost(uri: string): Path {
    match FirstColon(uri)
    case None => uri
    case Some(i) => uri[i + 1..]
  }

  /** The path an upload of `fn` is written to. */
  function Staged(fn: Path): Path {
    fn + UPLOAD
  }

  /** `substr(0, length - 7)`; below 7 characters the unsigned length wraps and nothing is dropped. */
  function DropUpload(p: Path): Path {
    if |p| < |UPLOAD| then p else p[..|p| - |UPLOAD|]
  }

  /** `substr(0, find_last_of('/'))`, which is the whole name when there is no slash. */
  function ParentPath(fn: Path): Path {
    match LastSlash(fn)
    case None => fn
    case Some(i) => fn[..i]
  }

  predicate EndsInUpload(p: Path) {
    |p| >= |UPLOAD| && p[|p| - |UPLOAD|..] == UPLOAD
  }

  /** Neither the name nor a directory on the way to it ends in `.upload`. */
  predicate Clean(fn: Path) {
    forall q :: q in Chain(fn) ==> !EndsInUpload(q)
  }

  /** Final names that uploads may use side by side. */
  ghost predicate Compatible(names: set<Path>) {
    && (forall f :: f in names ==> '/' in f && ':' !in f && Clean(f))
    && (forall f, g :: f in names && g in names ==> !Ancestor(f, g))
  }

  lemma StripHostOfPlainPath(p: Path)
    ensures StripHost(p) == p <==> ':' !in p
  {
    if FirstColon(p).Some? {
      assert |StripHost(p)| < |p|;
    }
  }

  /** The HDFS path a handler opens when it is given the staging path of `fn`. */
  function HandlerPath(fn: Path): Path {
    StripHost(Staged(fn))
  }

  /** The handler of a plain name's upload writes to the staging path itself. */
  lemma PlainStagingPath(fn: Path)
    requires ':' !in fn
    ensures HandlerPath(fn) == Staged(fn)
  {
    StripHostOfPlainPath(Staged(fn));
  }

  /** The host part is what comes before the first colon, and it is dropped with the colon. */
  lemma StripHostOfUri(host: string, p: Path)
    requires ':' !in host
    ensures StripHost(host + ":" + p) == p
  {
    var uri := host + ":" + p;
    assert uri[|host|] == ':' && uri[..|host|] == host;
    var i := FirstColon(uri).value;
    assert i == |host| by {
      assert forall k :: 0 <= k < |host| ==> uri[k] == host[k];
      assert forall k :: 0 <= k < i ==> uri[k] == uri[..i][k];
    }
    assert uri[i + 1..] == p;
  }

  /** Names that differ in a host part only are staged in one and the same file: colons have to be kept out. */
  lemma HostPartsCollide(host: string, p: Path)
    requires ':' !in host
    ensures HandlerPath(host + ":" + p) == Staged(p)
  {
    assert Staged(host + ":" + p) == host + ":" + Staged(p);
    StripHostOfUri(host, Staged(p));
  }

  // ----- The temp file of a handler -----

  function TempFolder(tmpFolder: string): string {
    tmpFolder + "/hdfs-io-temp"
  }

  /** The part of a temp file's name that comes from the upload: the last component of its path. */
  function Filename(uri: Path): string {
    if LastSlash(uri).Some? then Basename(uri) else ""
  }

  function TempPath(tmpFolder: string, random: string, uri: Path): string {
    TempFolder(tmpFolder) + "/temp" + random + Filename(uri)
  }

  /** A temp path lies directly in the plugin's folder: there is no slash behind the folder's own. */
  lemma TempPathIsInFolder(t: string, random: string, uri: Path)
    requires '/' !in random
    ensures var p, n := TempPath(t, random, uri), |t| + 13;
            && |p| > n && p[..n] == t + "/hdfs-io-temp" && p[n] == '/' && '/' !in p[n + 1..]
  {
    LastSlashIsLast(uri);
    var p, n := TempPath(t, random, uri), |t| + 13;
    assert p[n + 1..] == "temp" + random + Filename(uri);
  }

  /** What the temp path of an upload to `d`/`name` reads. */
  lemma TempPathOfName(t: string, random: string, d: Path, name: string)
    requires '/' !in name
    ensures TempPath(t, random, d + "/" + name) == t + "/hdfs-io-temp/temp" + random + name
    ensures TempPath(t, random, name) == t + "/hdfs-io-temp/temp" + random
  {
    LastSlashOfJoined(d, name);
    LastSlashIsLast(name);
    assert (d + "/" + name)[|d| + 1..] == name;
    assert t + "/hdfs-io-temp" + "/temp" == t + "/hdfs-io-temp/temp";
  }

  /** Two temp paths are the same exactly when the random strings followed by the filenames are. */
  lemma TempPathsCollide(t: string, r1: string, u1: Path, r2: string, u2: Path)
    ensures TempPath(t, r1, u1) == TempPath(t, r2, u2) <==> r1 + Filename(u1) == r2 + Filename(u2)
  {
    var folder := TempFolder(t) + "/temp";
    TempPathParts(folder, r1, Filename(u1));
    TempPathParts(folder, r2, Filename(u2));
  }

  lemma TempPathParts(folder: string, r: string, f: string)
    ensures folder + r + f == folder + (r + f)
    ensures (folder + r + f)[|folder|..] == r + f
  {
  }

  /** So uploads of the same last component in different directories share it whenever `rand()` agrees. */
  lemma SameNameSameTempPath(t: string, r: string, d1: Path, d2: Path, name: string)
    requires '/' !in name
    ensures TempPath(t, r, Staged(d1 + "/" + name)) == TempPath(t, r, Staged(d2 + "/" + name))
  {
    FilenameOfStaged(d1, name);
    FilenameOfStaged(d2, name);
  }

  lemma {:induction false} LastSlashOfJoined(d: Path, name: string)
    requires '/' !in name
    ensures LastSlash(d + "/" + name) == Some(|d|)
  {
    var p := d + "/" + name;
    if name == "" {
      assert p[|p| - 1] == '/';
    } else {
      var front := name[..|name| - 1];
      assert p[|p| - 1] == name[|name| - 1] != '/';
      assert p[..|p| - 1] == d + "/" + front;
      LastSlashOfJoined(d, front);
    }
  }

  lemma FilenameOfStaged(d: Path, name: string)
    requires '/' !in name
    ensures Filename(Staged(d + "/" + name)) == Staged(name)
  {
    var folder := d + "/";
    assert Staged(folder + name) == folder + Staged(name);
    assert forall c :: c in UPLOAD ==> c != '/';
    LastSlashOfJoined(d, Staged(name));
    assert (folder + Staged(name))[|folder|..] == Staged(name);
  }

  /** Staging is injective, always ends in `.upload`, and dropping 7 characters undoes it. */
  lemma StagedIsUndone(fn: Path)
    ensures Staged(fn) == fn + ".upload" && |Staged(fn)| == |fn| + 7
    ensures DropUpload(Staged(fn)) == fn
    ensures EndsInUpload(Staged(fn))
    ensures LastSlash(Staged(fn)) == LastSlash(fn)
  {
    assert Staged(fn)[..|fn|] == fn;
    assert Staged(fn)[|fn|..] == UPLOAD;
    SuffixHasNoSlash(fn, |UPLOAD|);
    assert UPLOAD[..|UPLOAD|] == UPLOAD;
  }

  lemma {:induction false} SuffixHasNoSlash(fn: Path, n: nat)
    requires n <= |UPLOAD|
    ensures LastSlash(fn + UPLOAD[..n]) == LastSlash(fn)
  {
    if n == 0 {
      assert fn + UPLOAD[..0] == fn;
    } else {
      SuffixHasNoSlash(fn, n - 1);
      assert (fn + UPLOAD[..n])[..|fn| + n - 1] == fn + UPLOAD[..n - 1];
    }
  }

  lemma StagedIsInjective(f: Path, g: Path)
    requires Staged(f) == Staged(g)
    ensures f == g
  {
    StagedIsUndone(f);
    StagedIsUndone(g);
  }

  /** The staging path and the final path lie in the same directories. */
  lemma StagedHasSameAncestors(fn: Path)
    ensures forall q :: Ancestor(q, Staged(fn)) <==> Ancestor(q, fn)
  {
    assert forall i :: 0 <= i < |UPLOAD| ==> UPLOAD[i] != '/';
    assert forall k :: |fn| <= k < |Staged(fn)| ==> Staged(fn)[k] == UPLOAD[k - |fn|];
    forall q ensures Ancestor(q, Staged(fn)) <==> Ancestor(q, fn) {
      assert Staged(fn)[..|fn|] == fn;
      if Ancestor(q, Staged(fn)) {
        assert Staged(fn)[..|q|] == fn[..|q|];
      }
      if Ancestor(q, fn) {
        assert Staged(fn)[..|q|] == fn[..|q|];
      }
    }
  }

  /** With a slash in the name, the parent path and its parents are the name's ancestors. */
  lemma ParentChain(fn: Path)
    requires '/' in fn
    ensures forall q :: q in Chain(ParentPath(fn)) <==> Ancestor(q, fn)
  {
    LastSlashIsLast(fn);
    var i := LastSlash(fn).value;
    forall k | i < k < |fn| ensures fn[k] != '/' {
      assert fn[i + 1..][k - i - 1] == fn[k];
    }
    forall q ensures q in Chain(fn[..i]) <==> Ancestor(q, fn) {
      if Ancestor(q, fn) {
        if |q| == i { assert q == fn[..i]; } else { assert fn[..i][..|q|] == q; }
      }
      if Ancestor(q, fn[..i]) {
        assert fn[..|q|] == fn[..i][..|q|];
      }
    }
  }

  /** Directories that an upload of `g` creates are never the staging or final path of `f`. */
  lemma ChainAvoids(names: set<Path>, f: Path, g: Path)
    requires Compatible(names) && f in names && g in names
    ensures !Ancestor(f, g) && !Ancestor(Staged(f), g)
    ensures Staged(f) != g && (f != g ==> Staged(f) != Staged(g))
  {
    StagedIsUndone(f);
    if f != g && Staged(f) == Staged(g) {
      StagedIsInjective(f, g);
    }
    assert g in Chain(g);
    assert Staged(f) !in Chain(g);
  }
}
