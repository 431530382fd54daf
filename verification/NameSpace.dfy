/** `HdfsNS` and `HdfsPoolManager`: reading directories, and placing reads and writes. */
module NameSpace {
  import opened Results
  import opened Hdfs
  import opened Names
  import opened Catalogs
  import opened Pool

  datatype ExtendedStat = ExtendedStat(name: string, isDir: bool, size: nat, nlink: nat)

  /** A replica as `getReplicas` reports it: one for each gateway. */
  datatype ServedReplica = ServedReplica(replica: Replica, server: string)

  function StatOf(e: Entry, p: Path, listed: nat): ExtendedStat {
    ExtendedStat(Basename(p), e.Dir?, StatSize(e), if e.Dir? then listed else 1)
  }

  // ----- Directories -----

  function Join(dir: Path, name: string): Path {
    if dir != "/" then dir + "/" + name else dir + name
  }

  type Listing = map<Path, seq<string>>

  function Listed(listing: Listing, dir: Path): seq<string> {
    if dir in listing then listing[dir] else []
  }

  /** The paths of the entries a listing names, possibly as full URIs, in listing order. */
  function Entries(listing: Listing, dir: Path): seq<Path> {
    var names := Listed(listing, dir);
    seq(|names|, i requires 0 <= i < |names| => Join(dir, Basename(names[i])))
  }

  function StatIn(fs: FileSystem, listing: Listing, p: Path): ExtendedStat
    requires p in fs
  {
    StatOf(fs[p], p, |Listed(listing, p)|)
  }

  /** The fields of a stat. */
  lemma StatFields(fs: FileSystem, listing: Listing, p: Path)
    requires p in fs
    ensures StatIn(fs, listing, p)
         == match fs[p]
            case File(bytes) => ExtendedStat(Basename(p), false, |bytes|, 1)
            case Dir => ExtendedStat(Basename(p), true, 4096, if p in listing then |listing[p]| else 0)
  {
  }

  /** The state of an open directory. */
  datatype Cursor = Cursor(path: Path, stat: ExtendedStat, offset: nat, length: nat)

  /** Indexing past a listing that has shrunk is what the source does not guard against. */
  predicate CanRead(entries: seq<Path>, c: Cursor) {
    c.offset == c.length || entries == [] || c.offset < |entries|
  }

  /** `readDirx` on a name node that answers, when the directory lists `entries` now. */
  function ReadStep(fs: FileSystem, listing: Listing, entries: seq<Path>, c: Cursor)
    : (Result<Option<ExtendedStat>>, Cursor)
    requires CanRead(entries, c)
  {
    if c.offset == c.length then (Ok(None), c)
    else if entries == [] then (Err(SystemError), c)
    else if entries[c.offset] !in fs then (Err(NoEntry), c)
    else
      var stat := StatIn(fs, listing, entries[c.offset]);
      (Ok(Some(stat)), c.(stat := stat, offset := c.offset + 1))
  }

  /**
    One step, in full: the next entry of the listing is looked up behind the directory and a slash, whatever comes
    before its own last slash, and the cursor moves on exactly when it is there.
  */
  lemma StepReadsNextEntry(fs: FileSystem, listing: Listing, c: Cursor)
    requires c.path in listing && c.offset < |listing[c.path]| && c.offset != c.length
    ensures var name := Basename(listing[c.path][c.offset]);
            var p := (if c.path == "/" then "" else c.path) + "/" + name;
            ReadStep(fs, listing, Entries(listing, c.path), c)
            == if p !in fs then (Err(NoEntry), c)
               else
                 var stat := if fs[p].File? then ExtendedStat(name, false, |fs[p].bytes|, 1)
                             else ExtendedStat(name, true, 4096, if p in listing then |listing[p]| else 0);
                 (Ok(Some(stat)), Cursor(c.path, stat, c.offset + 1, c.length))
  {
    var name := Basename(listing[c.path][c.offset]);
    var p := (if c.path == "/" then "" else c.path) + "/" + name;
    assert Join(c.path, name) == p;
    assert Basename(p) == name by {
      LastSlashIsLast(listing[c.path][c.offset]);
      JoinGivesChildren(c.path, name);
    }
    assert Entries(listing, c.path)[c.offset] == p;
  }

  /** At the end there is nothing to read; before it, a directory that lists nothing makes the call throw. */
  lemma StepAtTheEnd(fs: FileSystem, listing: Listing, c: Cursor)
    requires c.offset == c.length || c.path !in listing || listing[c.path] == []
    ensures ReadStep(fs, listing, Entries(listing, c.path), c)
         == (if c.offset == c.length then Ok(None) else Err(SystemError), c)
  {
  }

  /** The cursor after `n` calls on an unchanged directory. */
  function After(fs: FileSystem, listing: Listing, entries: seq<Path>, c: Cursor, n: nat): (after: Cursor)
    requires c.offset <= c.length == |entries|
    ensures after.path == c.path && after.offset <= after.length == c.length
  {
    if n == 0 then c else ReadStep(fs, listing, entries, After(fs, listing, entries, c, n - 1)).1
  }

  /** What call number `k`, counted from 0, comes back with. */
  function Outcome(fs: FileSystem, listing: Listing, entries: seq<Path>, c: Cursor, k: nat)
    : Result<Option<ExtendedStat>>
    requires c.offset <= c.length == |entries|
  {
    ReadStep(fs, listing, entries, After(fs, listing, entries, c, k)).0
  }

  /** `p` lies directly in `dir`: a slash and one more component follow. */
  predicate IsChild(dir: Path, p: Path) {
    var n := if dir == "/" then 0 else |dir|;
    |p| > n + 1 && p[..n] == dir[..n] && p[n] == '/' && '/' !in p[n + 1..]
  }

  /** The entries of a directory are what joining it with a component gives; the component is the entry's last one. */
  lemma JoinGivesChildren(dir: Path, name: string)
    requires '/' !in name
    ensures Basename(Join(dir, name)) == name
    ensures IsChild(dir, Join(dir, name)) <==> name != ""
  {
    var front := if dir == "/" then "" else dir;
    assert Join(dir, name) == front + "/" + name;
    LastSlashOfJoined(front, name);
    assert Join(dir, name)[|front| + 1..] == name;
  }

  lemma ChildIsJoined(dir: Path, p: Path)
    requires IsChild(dir, p)
    ensures p == Join(dir, Basename(p))
    ensures dir != "/" && dir != "" ==> Ancestor(dir, p)
  {
    var n := if dir == "/" then 0 else |dir|;
    var name := p[n + 1..];
    assert p == p[..n] + "/" + name == Join(dir, name);
    JoinGivesChildren(dir, name);
  }

  /** The listing of `dir` names the last component of each entry of the directory once, and nothing else. */
  ghost predicate ListsAll(fs: FileSystem, dir: Path, listed: seq<string>) {
    && (forall i, j :: 0 <= i < j < |listed| ==> Basename(listed[i]) != Basename(listed[j]))
    && (forall i :: 0 <= i < |listed| ==> IsNameOf(fs, dir, listed[i]))
    && (forall p {:trigger IsListed(listed, p)} :: p in fs && IsChild(dir, p) ==> IsListed(listed, p))
  }

  ghost predicate IsListed(listed: seq<string>, p: Path) {
    exists i :: 0 <= i < |listed| && Basename(listed[i]) == Basename(p)
  }

  ghost predicate IsNameOf(fs: FileSystem, dir: Path, name: string) {
    exists p :: p in fs && IsChild(dir, p) && Basename(name) == Basename(p)
  }

  /** How many entries, from the first, can be stat'ed. */
  function Readable(fs: FileSystem, entries: seq<Path>): (n: nat)
    ensures n <= |entries|
    ensures forall i :: 0 <= i < n ==> entries[i] in fs
    ensures n < |entries| ==> entries[n] !in fs
  {
    if entries == [] || entries[0] !in fs then 0 else 1 + Readable(fs, entries[1..])
  }

  lemma {:induction false} CursorAdvances(fs: FileSystem, listing: Listing, entries: seq<Path>, c: Cursor, n: nat)
    requires c.offset == 0 && c.length == |entries|
    ensures After(fs, listing, entries, c, n).offset
         == if n < Readable(fs, entries) then n else Readable(fs, entries)
  {
    if n > 0 {
      CursorAdvances(fs, listing, entries, c, n - 1);
    }
  }

  /**
    Reading an unchanged directory from the start: call `k` is the stat of the `k`th listed entry. At the first
    entry that cannot be stat'ed this and every later call throws with the cursor fixed there; without one, null
    comes once the listing is exhausted, for ever.
  */
  lemma IterationFollowsListing(fs: FileSystem, listing: Listing, entries: seq<Path>, c: Cursor, k: nat)
    requires c.offset == 0 && c.length == |entries|
    ensures Outcome(fs, listing, entries, c, k)
         == if k < Readable(fs, entries) then Ok(Some(StatIn(fs, listing, entries[k])))
            else if Readable(fs, entries) < |entries| then Err(NoEntry)
            else Ok(None)
    ensures k >= Readable(fs, entries) ==> After(fs, listing, entries, c, k).offset == Readable(fs, entries)
  {
    CursorAdvances(fs, listing, entries, c, k);
  }

  /** Call number `k` on an open directory that nobody changes. */
  function ReadAt(fs: FileSystem, listing: Listing, c: Cursor, k: nat): Result<Option<ExtendedStat>>
    requires c.offset <= c.length == |Listed(listing, c.path)|
  {
    Outcome(fs, listing, Entries(listing, c.path), c, k)
  }

  /** The path that an entry of a faithful listing names. */
  lemma EntryIsChild(fs: FileSystem, listing: Listing, dir: Path, k: nat)
    requires k < |Listed(listing, dir)| && ListsAll(fs, dir, Listed(listing, dir))
    ensures var p := Entries(listing, dir)[k];
            p in fs && IsChild(dir, p) && Basename(p) == Basename(Listed(listing, dir)[k])
  {
    var name := Listed(listing, dir)[k];
    assert IsNameOf(fs, dir, name);
    var p :| p in fs && IsChild(dir, p) && Basename(name) == Basename(p);
    ChildIsJoined(dir, p);
  }

  /** Reading on a faithful listing: call `k` is the stat of a child with the `k`th name, then null comes for ever. */
  lemma CallReadsEntry(fs: FileSystem, listing: Listing, c: Cursor, k: nat)
    requires c.offset == 0 && c.length == |Listed(listing, c.path)|
    requires ListsAll(fs, c.path, Listed(listing, c.path))
    ensures k >= c.length ==> ReadAt(fs, listing, c, k) == Ok(None)
    ensures k < c.length ==>
              var p := Entries(listing, c.path)[k];
              && p in fs && IsChild(c.path, p) && Basename(p) == Basename(Listed(listing, c.path)[k])
              && ReadAt(fs, listing, c, k) == Ok(Some(StatIn(fs, listing, p)))
  {
    var entries := Entries(listing, c.path);
    forall i | 0 <= i < c.length ensures entries[i] in fs {
      EntryIsChild(fs, listing, c.path, i);
    }
    IterationFollowsListing(fs, listing, entries, c, k);
    if k < c.length {
      EntryIsChild(fs, listing, c.path, k);
    }
  }

  /**
    When the listing is that of the directory, every entry of the directory is met: exactly one call comes back with
    its last component as the name, and it is the entry's stat. After all of them null comes for ever.
  */
  lemma IterationIsComplete(fs: FileSystem, listing: Listing, c: Cursor, p: Path) returns (k: nat)
    requires c.offset == 0 && c.length == |Listed(listing, c.path)|
    requires ListsAll(fs, c.path, Listed(listing, c.path))
    requires p in fs && IsChild(c.path, p)
    ensures k < c.length && ReadAt(fs, listing, c, k) == Ok(Some(StatIn(fs, listing, p)))
    ensures forall j :: 0 <= j < c.length && j != k ==>
              && ReadAt(fs, listing, c, j).Ok? && ReadAt(fs, listing, c, j).value.Some?
              && ReadAt(fs, listing, c, j).value.value.name != Basename(p)
  {
    var listed := Listed(listing, c.path);
    assert IsListed(listed, p);
    k :| 0 <= k < |listed| && Basename(listed[k]) == Basename(p);
    CallReadsEntry(fs, listing, c, k);
    ChildIsJoined(c.path, p);
    ChildIsJoined(c.path, Entries(listing, c.path)[k]);
    forall j | 0 <= j < c.length && j != k
      ensures ReadAt(fs, listing, c, j).Ok? && ReadAt(fs, listing, c, j).value.Some?
      ensures ReadAt(fs, listing, c, j).value.value.name != Basename(p)
    {
      CallReadsEntry(fs, listing, c, j);
    }
  }

  class HDFSDir {
    const path: Path
    const length: nat
    var offset: nat
    var stat: ExtendedStat

    constructor (path: Path, stat: ExtendedStat, length: nat)
      ensures State() == Cursor(path, stat, 0, length)
    {
      this.path, this.stat, this.length, offset := path, stat, length, 0;
    }

    function State(): Cursor
      reads this
    {
      Cursor(path, stat, offset, length)
    }
  }

  class HdfsNS {
    const cluster: Cluster
    const gateways: seq<string>

    constructor (cluster: Cluster, gateways: seq<string>)
      ensures this.cluster == cluster && this.gateways == gateways
    {
      this.cluster, this.gateways := cluster, gateways;
    }

    method Stat(path: Path) returns (r: Result<ExtendedStat>)
      ensures r.Ok? ==> path in cluster.fs && r.value == StatIn(cluster.fs, cluster.listing, path)
      ensures r.Err? ==> r.error == NoEntry && (cluster.reliable ==> path !in cluster.fs)
    {
      var info := cluster.GetPathInfo(path);
      if info.None? {
        return Err(NoEntry);
      }
      var nlink := if info.value.isDir then |cluster.ListDirectory(path)| else 1;
      var size := if info.value.isDir then 4096 else info.value.size;
      return Ok(ExtendedStat(Basename(path), info.value.isDir, size, nlink));
    }

    method OpenDir(path: Path) returns (r: Result<HDFSDir>)
      ensures r.Ok? ==>
                && fresh(r.value) && IsDir(cluster.fs, path)
                && r.value.State() == Cursor(path, StatIn(cluster.fs, cluster.listing, path), 0,
                                             |cluster.ListDirectory(path)|)
      ensures r.Err? && cluster.reliable ==> r.error == if path in cluster.fs then NotDirectory else NoEntry
      ensures r.Err? && cluster.reliable ==> !IsDir(cluster.fs, path)
    {
      var stat := Stat(path);
      if stat.Err? {
        return Err(stat.error);
      }
      if !stat.value.isDir {
        return Err(NotDirectory);
      }
      var dir := new HDFSDir(path, stat.value, |cluster.ListDirectory(path)|);
      return Ok(dir);
    }

    /** Lists the directory anew and stats the entry at the cursor; a call that throws leaves the cursor. */
    method ReadDirx(dir: HDFSDir) returns (r: Result<Option<ExtendedStat>>)
      requires CanRead(Entries(cluster.listing, dir.path), dir.State())
      modifies dir
      ensures cluster.reliable || r != Err(NoEntry) ==>
                (r, dir.State())
                == ReadStep(cluster.fs, cluster.listing, Entries(cluster.listing, dir.path), old(dir.State()))
      ensures r.Err? ==> dir.State() == old(dir.State())
    {
      if dir.offset == dir.length {
        return Ok(None);
      }
      var fileInfos := cluster.ListDirectory(dir.path);
      if fileInfos == [] {
        return Err(SystemError);
      }
      var fileName := Basename(fileInfos[dir.offset]);
      var filePath := if dir.path != "/" then dir.path + "/" + fileName else dir.path + fileName;
      assert filePath == Entries(cluster.listing, dir.path)[dir.offset];
      var stat := Stat(filePath);
      if stat.Err? {
        return Err(stat.error);
      }
      dir.stat := stat.value;
      dir.offset := dir.offset + 1;
      return Ok(Some(dir.stat));
    }

    /** One available replica per gateway for whatever exists. */
    method GetReplicas(path: Path) returns (r: Result<seq<ServedReplica>>)
      ensures r.Ok? ==>
                && path in cluster.fs && |r.value| == |gateways|
                && forall i :: 0 <= i < |gateways| ==>
                     r.value[i] == ServedReplica(Replica(path, Available), gateways[i])
      ensures r.Err? && cluster.reliable ==> r.error == NoReplicas && path !in cluster.fs
    {
      if !cluster.Exists(path) {
        return Err(NoReplicas);
      }
      var replicas: seq<ServedReplica> := [];
      var i := 0;
      while i < |gateways|
        invariant 0 <= i <= |gateways| && |replicas| == i
        invariant forall k :: 0 <= k < i ==> replicas[k] == ServedReplica(Replica(path, Available), gateways[k])
      {
        var stat := Stat(path);
        if stat.Err? {
          return Err(stat.error);
        }
        replicas := replicas + [ServedReplica(Replica(path, Available), gateways[i])];
        i := i + 1;
      }
      return Ok(replicas);
    }
  }

  // ----- Placement -----

  predicate ModeReads(mode: string) {
    mode == "r" || mode == "rw" || mode == "wr"
  }

  predicate ModeWrites(mode: string) {
    mode == "w" || mode == "rw" || mode == "wr"
  }

  /** The modes `createPoolHandler` accepts; "wr" is not among them. */
  predicate PoolMode(mode: string) {
    mode == "" || mode == "r" || mode == "w" || mode == "rw"
  }

  /** A chunk of the whole file at `path`, served by one of the gateways. */
  ghost predicate WholeFileAt(loc: Location, fs: FileSystem, path: Path, gateways: seq<string>) {
    && path in fs
    && exists domain :: domain in gateways
         && loc == [Chunk(domain, path, 0, if fs[path].File? then |fs[path].bytes| else 4096)]
  }

  class HdfsPoolManager {
    const cluster: Cluster
    const stack: Stack
    const catalog: HdfsNS
    const poolGateways: seq<string>  // those of the pool driver, from the other factory
    const replication: nat
    const mode: string

    constructor (cluster: Cluster, stack: Stack, catalog: HdfsNS, poolGateways: seq<string>, replication: nat,
                 mode: string)
      ensures this.cluster == cluster && this.stack == stack && this.catalog == catalog
      ensures this.poolGateways == poolGateways && this.replication == replication && this.mode == mode
    {
      this.cluster, this.stack, this.catalog := cluster, stack, catalog;
      this.poolGateways, this.replication, this.mode := poolGateways, replication, mode;
    }

    method CreatePoolHandler() returns (r: Result<HdfsPoolHandler>)
      ensures r.Ok? ==>
                && fresh(r.value) && PoolMode(mode)
                && r.value.cluster == cluster && r.value.stack == stack && r.value.gateways == poolGateways
                && r.value.mode == mode && r.value.replication == replication
      ensures r.Ok? ==> mode in {"", "r", "w", "rw"}
      ensures r.Err? && mode !in {"", "r", "w", "rw"} ==> r.error == MalformedMode
      ensures r.Err? && mode in {"", "r", "w", "rw"} ==> !cluster.reliable
    {
      if !PoolMode(mode) {
        return Err(MalformedMode);
      }
      var down := cluster.Flaky();
      if down {
        return Err(SystemError);
      }
      var handler := new HdfsPoolHandler(cluster, stack, poolGateways, mode, replication);
      return Ok(handler);
    }

    /**
      The location of an existing path: one chunk for the whole file, from one of the pool's gateways. It is found
      exactly in mode "r" or "rw" when the catalog has a gateway; an empty list is noticed in time.
    */
    method WhereToRead(path: Path) returns (r: Result<Location>)
      requires catalog.cluster == cluster && (catalog.gateways != [] ==> poolGateways != [])
      ensures r.Ok? ==>
                (mode == "r" || mode == "rw") && WholeFileAt(r.value, cluster.fs, StripHost(path), poolGateways)
      ensures cluster.reliable ==>
                (r.Ok? <==> && (mode == "r" || mode == "rw")
                            && path in cluster.fs && StripHost(path) in cluster.fs
                            && catalog.gateways != [])
      ensures cluster.reliable && r.Err? ==>
                r.error == if path !in cluster.fs then NoReplicas
                           else if mode !in {"r", "rw", "wr"} then ModeForbids
                           else if catalog.gateways == [] then NoReplicas
                           else if mode == "wr" then MalformedMode else NoEntry
    {
      var replicas := catalog.GetReplicas(path);
      if replicas.Err? {
        return Err(replicas.error);
      }
      r := WhereToReadReplicas(replicas.value);
    }

    /** A random choice among the locations of any replicas; every one of them must have a location. */
    method WhereToReadReplicas(replicas: seq<ServedReplica>) returns (r: Result<Location>)
      requires replicas != [] ==> poolGateways != []
      ensures r.Ok? ==>
                && mode in {"r", "rw"}
                && (exists i :: 0 <= i < |replicas| &&
                      WholeFileAt(r.value, cluster.fs, StripHost(replicas[i].replica.rfn), poolGateways))
      ensures cluster.reliable ==>
                (r.Ok? <==> && mode in {"r", "rw"} && replicas != []
                            && forall i :: 0 <= i < |replicas| ==> StripHost(replicas[i].replica.rfn) in cluster.fs)
      ensures cluster.reliable && r.Err? ==>
                r.error == if mode !in {"r", "rw", "wr"} then ModeForbids
                           else if replicas == [] then NoReplicas
                           else if mode == "wr" then MalformedMode else NoEntry
    {
      if !ModeReads(mode) {
        return Err(ModeForbids);
      }
      var available: seq<Location> := [];
      var i := 0;
      while i < |replicas|
        invariant 0 <= i == |available| <= |replicas|
        invariant i > 0 ==> PoolMode(mode)
        invariant forall k :: 0 <= k < i ==>
                    WholeFileAt(available[k], cluster.fs, StripHost(replicas[k].replica.rfn), poolGateways)
      {
        var handler := CreatePoolHandler();
        if handler.Err? {
          return Err(handler.error);
        }
        var loc := handler.value.WhereToRead(replicas[i].replica);
        if loc.Err? {
          return Err(loc.error);
        }
        available := available + [loc.value];
        i := i + 1;
      }
      if available == [] {
        return Err(NoReplicas);
      }
      var random: nat := *;
      return Ok(available[random % |available|]);
    }

    /** A new upload: only in a writing mode and only on a path that is free. */
    method WhereToWrite(path: Path) returns (r: Result<Location>)
      requires catalog.cluster == cluster && poolGateways != []
      modifies cluster`fs, stack
      ensures r.Ok? ==>
                && mode in {"w", "rw"} && (cluster.reliable ==> path !in old(cluster.fs))
                && (exists domain :: domain in poolGateways && r.value == [Chunk(domain, path + ".upload", 0, 0)])
                && stack.catalog == WithReplica(old(stack.catalog), Replica(path, BeingPopulated))
      ensures cluster.reliable && r.Ok? ==> cluster.fs == ReservedFs(old(cluster.fs), path)
      ensures r.Err? ==> stack.catalog == old(stack.catalog)
      ensures cluster.reliable && (stack.reliable || old(stack.catalog).NameSpace?) ==>
                && (r.Ok? <==> mode in {"w", "rw"} && path !in old(cluster.fs))
                && (r.Err? ==>
                      && cluster.fs == old(cluster.fs)
                      && r.error == if mode !in {"w", "rw", "wr"} || path in cluster.fs then ModeForbids
                                    else MalformedMode)
      ensures r.Ok? && old(stack.catalog).Registry? ==>
                stack.catalog == Registry(old(stack.catalog).records[path := Record(BeingPopulated, 0)])
    {
      if !ModeWrites(mode) {
        return Err(ModeForbids);
      }
      var stat := catalog.Stat(path);
      if stat.Ok? {
        return Err(ModeForbids);
      }
      var handler := CreatePoolHandler();
      if handler.Err? {
        return Err(handler.error);
      }
      r := handler.value.WhereToWrite(path);
    }
  }
}
