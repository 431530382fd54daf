/** `HDFSUtil`: trimming, recursive directory creation on the local disk, picking a gateway. */
module Util {
  import opened Posix

  // ----- trim -----

  /** The value a signed 8-bit `char` has in a comparison. */
  function SignedChar(c: char): int {
    (c as int + 128) % 256 - 128
  }

  /** What `trim` drops: control characters, blanks, DEL, and every byte from 0x80 up. */
  predicate Blank(c: char) {
    SignedChar(c) <= 0x20 || SignedChar(c) == 0x7f
  }

  predicate AllBlank(s: string) {
    forall i :: 0 <= i < |s| ==> Blank(s[i])
  }

  function TrimLeft(s: string): string {
    if s != "" && Blank(s[0]) then TrimLeft(s[1..]) else s
  }

  function TrimRight(s: string): string {
    if s != "" && Blank(s[|s| - 1]) then TrimRight(s[..|s| - 1]) else s
  }

  function Trimmed(s: string): string {
    TrimRight(TrimLeft(s))
  }

  /** `r` is what lies between the blanks at both ends of `s`. */
  ghost predicate IsCore(s: string, r: string) {
    exists i, j :: 0 <= i <= j <= |s| && r == s[i..j] && CoreAt(s, i, j)
  }

  ghost predicate CoreAt(s: string, i: nat, j: nat)
    requires i <= j <= |s|
  {
    && AllBlank(s[..i])
    && AllBlank(s[j..])
    && (i < j ==> !Blank(s[i]) && !Blank(s[j - 1]))
  }

  lemma {:induction false} TrimLeftSkips(s: string, i: nat)
    requires i <= |s| && AllBlank(s[..i])
    requires i < |s| ==> !Blank(s[i])
    ensures TrimLeft(s) == s[i..]
  {
    if i > 0 {
      assert Blank(s[..i][0]);
      assert s[1..][..i - 1] == s[..i][1..];
      TrimLeftSkips(s[1..], i - 1);
    }
  }

  lemma {:induction false} TrimRightSkips(s: string, j: nat)
    requires j <= |s| && AllBlank(s[j..])
    requires j > 0 ==> !Blank(s[j - 1])
    ensures TrimRight(s) == s[..j]
  {
    if j < |s| {
      assert Blank(s[j..][|s| - 1 - j]);
      var front := s[..|s| - 1];
      assert front[j..] == s[j..][..|front| - j];
      TrimRightSkips(front, j);
      assert front[..j] == s[..j];
    }
  }

  lemma EmptyCoreIsAllBlank(s: string, i: nat)
    requires i <= |s| && CoreAt(s, i, i)
    ensures AllBlank(s)
  {
    assert s == s[..i] + s[i..];
  }

  /** A string with a non-blank has exactly one core, and trimming finds it. */
  lemma CoreIsTrimmed(s: string, i: nat, j: nat)
    requires i < j <= |s| && CoreAt(s, i, j)
    ensures Trimmed(s) == s[i..j]
  {
    TrimLeftSkips(s, i);
    var rest := s[i..];
    assert rest[j - i..] == s[j..];
    TrimRightSkips(rest, j - i);
    assert rest[..j - i] == s[i..j];
  }

  lemma {:induction false} AllBlankIsTrimmedAway(s: string)
    requires AllBlank(s)
    ensures Trimmed(s) == ""
  {
    assert s[..|s|] == s;
    TrimLeftSkips(s, |s|);
  }

  /** The bounds of the core of a string that has a non-blank. */
  lemma {:induction false} CoreBounds(s: string) returns (i: nat, j: nat)
    requires !AllBlank(s)
    ensures i < j <= |s| && CoreAt(s, i, j)
  {
    i := 0;
    assert s[..|s|] == s;
    while Blank(s[i])
      invariant i < |s| && AllBlank(s[..i])
      decreases |s| - i
    {
      assert s[..i + 1] == s[..i] + [s[i]];
      i := i + 1;
    }
    j := |s|;
    while Blank(s[j - 1])
      invariant i < j <= |s| && AllBlank(s[j..])
      decreases j
    {
      assert s[j - 1..] == [s[j - 1]] + s[j..];
      j := j - 1;
    }
  }

  /**
    Trimming is exact: the result lies in the string, everything around it is blank, it neither starts
    nor ends with a blank, no other slice is like that, and trimming again changes nothing.
  */
  lemma TrimmedIsTheCore(s: string)
    ensures IsCore(s, Trimmed(s))
    ensures forall r :: IsCore(s, r) ==> r == Trimmed(s)
    ensures Trimmed(s) == "" <==> AllBlank(s)
    ensures Trimmed(Trimmed(s)) == Trimmed(s)
  {
    if AllBlank(s) {
      AllBlankIsTrimmedAway(s);
      assert s[..0] == "" && s[0..] == s && s[0..0] == "";
      assert CoreAt(s, 0, 0);
      forall r | IsCore(s, r) ensures r == "" {
        var i, j :| 0 <= i <= j <= |s| && r == s[i..j] && CoreAt(s, i, j);
      }
    } else {
      var i, j := CoreBounds(s);
      CoreIsTrimmed(s, i, j);
      var t := Trimmed(s);
      assert t[..0] == "" && t[|t|..] == "" && t[0..|t|] == t;
      CoreIsTrimmed(t, 0, |t|);
      forall r | IsCore(s, r) ensures r == t {
        var a, b :| 0 <= a <= b <= |s| && r == s[a..b] && CoreAt(s, a, b);
        if a < b {
          CoreIsTrimmed(s, a, b);
        } else {
          EmptyCoreIsAllBlank(s, a);
        }
      }
    }
  }

  // ----- What trim drops beyond ASCII blanks -----

  /** The blanks `trim` is meant for: control characters, space and DEL. */
  predicate AsciiBlank(c: char) {
    c as int <= 0x20 || c as int == 0x7f
  }

  /** `s[i..j]` is what lies between the ASCII blanks at both ends of `s`. */
  ghost predicate AsciiCoreAt(s: string, i: nat, j: nat)
    requires i <= j <= |s|
  {
    && (forall k :: 0 <= k < i ==> AsciiBlank(s[k]))
    && (forall k :: j <= k < |s| ==> AsciiBlank(s[k]))
    && (i < j ==> !AsciiBlank(s[i]) && !AsciiBlank(s[j - 1]))
  }

  /** A string of 8-bit characters. */
  predicate EightBit(s: string) {
    forall k :: 0 <= k < |s| ==> s[k] as int < 256
  }

  /** Every string has such a core. */
  lemma {:induction false} AsciiCoreBounds(s: string) returns (i: nat, j: nat)
    ensures i <= j <= |s| && AsciiCoreAt(s, i, j)
  {
    if s != "" && AsciiBlank(s[0]) {
      i, j := AsciiCoreBounds(s[1..]);
      assert forall k :: 1 <= k < |s| ==> s[k] == s[1..][k - 1];
      i, j := i + 1, j + 1;
    } else if s != "" && AsciiBlank(s[|s| - 1]) {
      i, j := AsciiCoreBounds(s[..|s| - 1]);
    } else {
      i, j := 0, |s|;
    }
  }

  /**
    `trim` leaves what the ASCII blanks leave exactly when that is empty or starts and ends below 0x80:
    a signed `char` makes it take a byte from 0x80 up at either end for a blank.
  */
  lemma TrimIsAsciiTrim(s: string, i: nat, j: nat)
    requires EightBit(s) && i <= j <= |s| && AsciiCoreAt(s, i, j)
    ensures Trimmed(s) == s[i..j] <==> i == j || (s[i] as int < 0x80 && s[j - 1] as int < 0x80)
  {
    if i == j {
      assert AllBlank(s);
      AllBlankIsTrimmedAway(s);
    } else if s[i] as int < 0x80 && s[j - 1] as int < 0x80 {
      assert CoreAt(s, i, j);
      CoreIsTrimmed(s, i, j);
    } else {
      TrimmedEndsNonBlank(s);
      HighIsBlank(s[i]);
      HighIsBlank(s[j - 1]);
      var core := s[i..j];
      assert core[0] == s[i] && core[|core| - 1] == s[j - 1];
    }
  }

  lemma TrimmedEndsNonBlank(s: string)
    ensures var t := Trimmed(s); t != "" ==> !Blank(t[0]) && !Blank(t[|t| - 1])
  {
    TrimmedIsTheCore(s);
    var i, j :| 0 <= i <= j <= |s| && Trimmed(s) == s[i..j] && CoreAt(s, i, j);
  }

  lemma HighIsBlank(c: char)
    ensures 0x80 <= c as int < 0x100 ==> Blank(c)
  {
  }

  /** In ISO 8859-1, a leading e with an acute accent is lost. */
  lemma AccentIsTrimmedAway()
    ensures Trimmed("\U{e9}a") == "a" && AsciiCoreAt("\U{e9}a", 0, 2)
  {
    var s := "\U{e9}a";
    assert s[0] as int == 0xe9 && s[1] as int == 0x61;
    assert AllBlank(s[..1]) && AllBlank(s[2..]) && !Blank(s[1]);
    CoreIsTrimmed(s, 1, 2);
  }

  // ----- The loops -----

  /** `size() - 1` has no sensible value on an empty string, so callers must not pass one. */
  method Trim(str: string) returns (r: string)
    requires str != ""
    ensures r == Trimmed(str)
  {
    var begin, end := 0, |str| - 1;
    while begin <= end && Blank(str[begin])
      invariant 0 <= begin <= end + 1
      invariant AllBlank(str[..begin])
    {
      assert str[..begin + 1] == str[..begin] + [str[begin]];
      begin := begin + 1;
    }
    while end > begin && Blank(str[end])
      invariant begin <= end + 1 <= |str|
      invariant begin == |str| || (begin <= end && !Blank(str[begin]))
      invariant AllBlank(str[end + 1..])
    {
      assert str[end..] == [str[end]] + str[end + 1..];
      end := end - 1;
    }
    r := str[begin..end + 1];
    if begin == |str| {
      assert str[..begin] == str;
      AllBlankIsTrimmedAway(str);
    } else {
      CoreIsTrimmed(str, begin, end + 1);
    }
  }

  // ----- mkdirs -----

  const PATH_BUFFER := 256

  /** The string a char buffer holds: everything before the first NUL. */
  function CString(buf: seq<char>): string {
    if buf == [] || buf[0] == '\0' then "" else [buf[0]] + CString(buf[1..])
  }

  lemma {:induction false} CStringStops(buf: seq<char>, n: nat)
    requires n < |buf| && buf[n] == '\0' && '\0' !in buf[..n]
    ensures CString(buf) == buf[..n]
  {
    if n > 0 {
      assert buf[..n][0] == buf[0];
      assert buf[1..][..n - 1] == buf[..n][1..];
      CStringStops(buf[1..], n - 1);
    }
  }

  /** What `mkdirs` works on: at most 255 characters, one trailing slash dropped. */
  function Working(dir: string): string {
    var kept := if |dir| < PATH_BUFFER then dir else dir[..PATH_BUFFER - 1];
    if kept != "" && kept[|kept| - 1] == '/' then kept[..|kept| - 1] else kept
  }

  /** The prefixes of `p` that end before a slash at `from` or later. */
  function Prefixes(p: string, from: nat): seq<string>
    decreases |p| - from
  {
    if from >= |p| then []
    else (if p[from] == '/' then [p[..from]] else []) + Prefixes(p, from + 1)
  }

  function MkdirCalls(p: string): seq<string> {
    Prefixes(p, 1) + [p]
  }

  /** `q` is `p` up to a slash at `from` or later: a directory on the way to `p`. */
  predicate OnTheWay(q: string, p: string, from: nat) {
    from <= |q| < |p| && p[..|q|] == q && p[|q|] == '/'
  }

  lemma {:induction false} PrefixesAreOnTheWay(p: string, from: nat, q: string)
    ensures q in Prefixes(p, from) <==> OnTheWay(q, p, from)
    decreases |p| - from
  {
    if from < |p| {
      PrefixesAreOnTheWay(p, from + 1, q);
      var first := if p[from] == '/' then [p[..from]] else [];
      assert q in Prefixes(p, from) <==> q in first || q in Prefixes(p, from + 1);
    }
  }

  lemma {:induction false} PrefixesGrow(p: string, from: nat)
    ensures forall i :: 0 <= i < |Prefixes(p, from)| ==> |Prefixes(p, from)[i]| >= from
    ensures forall i, j :: 0 <= i < j < |Prefixes(p, from)| ==> |Prefixes(p, from)[i]| < |Prefixes(p, from)[j]|
    decreases |p| - from
  {
    if from < |p| {
      PrefixesGrow(p, from + 1);
    }
  }

  /** `mkdir` is called on each directory on the way, shortest first, and on the whole path last. */
  lemma MkdirCallsInOrder(p: string)
    requires p != ""
    ensures var calls := MkdirCalls(p);
            && calls[|calls| - 1] == p
            && (forall i, j :: 0 <= i < j < |calls| ==> |calls[i]| < |calls[j]|)
            && (forall q :: q in calls <==> q == p || OnTheWay(q, p, 1))
  {
    PrefixesGrow(p, 1);
    var calls := MkdirCalls(p);
    forall q ensures q in calls <==> q == p || OnTheWay(q, p, 1) {
      PrefixesAreOnTheWay(p, 1, q);
    }
    forall i, j | 0 <= i < j < |calls| ensures |calls[i]| < |calls[j]| {
      assert calls[i] in Prefixes(p, 1);
      PrefixesAreOnTheWay(p, 1, calls[i]);
    }
  }

  /** The directories there are after the calls. */
  function MkdirAll(dirs: set<string>, files: set<string>, calls: seq<string>): set<string> {
    if calls == [] then dirs else
      var before := MkdirAll(dirs, files, calls[..|calls| - 1]);
      var p := calls[|calls| - 1];
      if CanMkdir(before, files, p) then before + {p} else before
  }

  /** `mkdir` on each directory on the way and then on `p`: the directories there are, and the last result. */
  function MkdirChain(dirs: set<string>, files: set<string>, p: string): (set<string>, int) {
    var before := MkdirAll(dirs, files, Prefixes(p, 1));
    if CanMkdir(before, files, p) then (before + {p}, 0) else (before, -1)
  }

  /** The loop over the buffer holding `p`: each slash becomes a NUL for one `mkdir` and is put back. */
  method MakePrefixes(disk: LocalDisk, tmp: array<char>, ghost p: string) returns (r: int)
    requires |p| < tmp.Length && tmp[..|p|] == p && tmp[|p|] == '\0' && '\0' !in p
    requires p == "" ==> tmp.Length > 1 && tmp[1] == '\0'
    modifies tmp, disk`dirs, disk`mkdirCalls
    ensures tmp[..] == old(tmp[..])
    ensures disk.mkdirCalls == old(disk.mkdirCalls) + MkdirCalls(p)
    ensures (disk.dirs, r) == MkdirChain(old(disk.dirs), disk.files.Keys, p)
  {
    ghost var text, start, log, files := tmp[..], disk.dirs, disk.mkdirCalls, disk.files.Keys;
    ghost var done: seq<string> := [];
    var i := 1;
    while tmp[i] != '\0'
      invariant 1 <= i && (i <= |p| || (p == "" && i == 1))
      invariant tmp[..] == text
      invariant done + Prefixes(p, i) == Prefixes(p, 1)
      invariant disk.mkdirCalls == log + done
      invariant disk.dirs == MkdirAll(start, files, done)
      decreases tmp.Length - i
    {
      assert text[|p|] == '\0' && i < |p| && text[i] == p[i];
      if tmp[i] == '/' {
        MkdirUpTo(disk, tmp, i, p);
        assert (done + [p[..i]])[..|done|] == done;
        done := done + [p[..i]];
      }
      i := i + 1;
    }
    assert text[i] == tmp[i];
    assert i >= |p|;
    assert done == Prefixes(p, 1);
    CStringStops(tmp[..], |p|);
    r := disk.Mkdir(CString(tmp[..]));
  }

  /** One slash of the loop. */
  method MkdirUpTo(disk: LocalDisk, tmp: array<char>, i: nat, ghost p: string)
    requires i < |p| < tmp.Length && tmp[..|p|] == p && tmp[i] == '/' && '\0' !in p
    modifies tmp, disk`dirs, disk`mkdirCalls
    ensures tmp[..] == old(tmp[..])
    ensures disk.mkdirCalls == old(disk.mkdirCalls) + [p[..i]]
    ensures disk.dirs == old(disk.dirs) + if CanMkdir(old(disk.dirs), disk.files.Keys, p[..i]) then {p[..i]} else {}
  {
    tmp[i] := '\0';
    HeldPrefix(old(tmp[..]), tmp[..], p, i);
    var _ := disk.Mkdir(CString(tmp[..]));
    tmp[i] := '/';
  }

  /** A buffer holding `p` holds the prefix up to `i` once a NUL is put there. */
  lemma HeldPrefix(text: seq<char>, cut: seq<char>, p: string, i: nat)
    requires i < |p| < |text| && text[..|p|] == p && '\0' !in p
    requires cut == text[i := '\0']
    ensures CString(cut) == p[..i]
  {
    assert cut[..i] == p[..i];
    CStringStops(cut, i);
  }

  /** `mkdirs`. A path of 256 characters or more is cut off, as `snprintf` does. */
  method Mkdirs(disk: LocalDisk, dir: string) returns (r: int)
    requires dir != "" && '\0' !in dir
    modifies disk`dirs, disk`mkdirCalls
    ensures disk.mkdirCalls == old(disk.mkdirCalls) + MkdirCalls(Working(dir))
    ensures (disk.dirs, r) == MkdirChain(old(disk.dirs), disk.files.Keys, Working(dir))
  {
    var tmp := new char[PATH_BUFFER];
    var len := if |dir| < PATH_BUFFER then |dir| else PATH_BUFFER - 1;
    forall i | 0 <= i < len {
      tmp[i] := dir[i];
    }
    tmp[len] := '\0';
    assert tmp[..len] == dir[..len];
    if tmp[len - 1] == '/' {
      tmp[len - 1] := '\0';
    }
    ghost var p := Working(dir);
    assert tmp[..|p|] == p && tmp[|p|] == '\0';
    r := MakePrefixes(disk, tmp, p);
  }

  lemma {:induction false} MkdirAllAddsOnlyCalls(dirs: set<string>, files: set<string>, calls: seq<string>)
    ensures dirs <= MkdirAll(dirs, files, calls)
    ensures forall q :: q in MkdirAll(dirs, files, calls) ==> q in dirs || q in calls
  {
    if calls != [] {
      MkdirAllAddsOnlyCalls(dirs, files, calls[..|calls| - 1]);
    }
  }

  /** A directory whose shorter ways all exist can be made. */
  lemma ParentIsOnTheWay(dirs: set<string>, p: string, q: string)
    requires q == p || OnTheWay(q, p, 1)
    requires forall a :: OnTheWay(a, p, 1) && |a| < |q| ==> a in dirs
    ensures ParentExists(dirs, q)
  {
    forall i | 0 < i < |q| && q[i] == '/' ensures q[..i] in dirs {
      assert p[..i] == q[..i];
      assert OnTheWay(q[..i], p, 1);
    }
  }

  /** Each `mkdir` finds the directories of the ones before it. */
  lemma {:induction false} PrefixDirsExist(dirs: set<string>, files: set<string>, p: string, n: nat)
    requires n <= |Prefixes(p, 1)|
    requires forall q :: OnTheWay(q, p, 1) ==> q !in files
    ensures forall k :: 0 <= k < n ==> Prefixes(p, 1)[k] in MkdirAll(dirs, files, Prefixes(p, 1)[..n])
  {
    var calls := Prefixes(p, 1);
    if n > 0 {
      PrefixDirsExist(dirs, files, p, n - 1);
      assert calls[..n][..n - 1] == calls[..n - 1];
      var before, q := MkdirAll(dirs, files, calls[..n - 1]), calls[n - 1];
      PrefixesGrow(p, 1);
      assert q in calls;
      PrefixesAreOnTheWay(p, 1, q);
      forall a | OnTheWay(a, p, 1) && |a| < |q| ensures a in before {
        PrefixesAreOnTheWay(p, 1, a);
        var k :| 0 <= k < |calls| && calls[k] == a;
        assert k < n - 1;
      }
      ParentIsOnTheWay(before, p, q);
    }
  }

  lemma MkdirChainStaysShort(dirs: set<string>, files: set<string>, p: string)
    ensures forall q :: q in MkdirChain(dirs, files, p).0 && |q| > |p| ==> q in dirs
  {
    MkdirAllAddsOnlyCalls(dirs, files, Prefixes(p, 1));
    forall q | q in Prefixes(p, 1) ensures |q| <= |p| {
      PrefixesAreOnTheWay(p, 1, q);
    }
  }

  /**
    With no file in the way, the path and all directories on the way exist afterwards, nothing that
    existed is lost, and the result is 0 exactly when the path itself is new.
  */
  lemma MkdirsCreatesTheChain(dirs: set<string>, files: set<string>, p: string)
    requires p != "" && p !in files
    requires forall q :: OnTheWay(q, p, 1) ==> q !in files
    ensures var (after, r) := MkdirChain(dirs, files, p);
            && p in after && (forall q :: OnTheWay(q, p, 1) ==> q in after)
            && dirs <= after
            && (r == 0 <==> p !in dirs)
  {
    var calls := Prefixes(p, 1);
    var before := MkdirAll(dirs, files, calls);
    assert calls[..|calls|] == calls;
    PrefixDirsExist(dirs, files, p, |calls|);
    MkdirAllAddsOnlyCalls(dirs, files, calls);
    forall q | OnTheWay(q, p, 1) ensures q in before {
      PrefixesAreOnTheWay(p, 1, q);
      var k :| 0 <= k < |calls| && calls[k] == q;
    }
    PrefixesAreOnTheWay(p, 1, p);
    ParentIsOnTheWay(before, p, p);
  }

  /**
    `mkdirs` makes the folder asked for, with or without a slash at its end, and the directories on the way exactly
    when all of them fit its buffer: of a longer path it never makes the whole.
  */
  lemma MkdirsMakesWhatFits(dirs: set<string>, files: set<string>, d: string, slash: bool)
    requires d != "" && d[|d| - 1] != '/' && d !in dirs && d !in files
    requires forall i :: 0 < i < |d| && d[i] == '/' ==> d[..i] !in files
    ensures var asked := if slash then d + "/" else d;
            var (after, r) := MkdirChain(dirs, files, Working(asked));
            && (d in after <==> |asked| < 256 || (slash && |d| == 255))
            && (d in after ==> r == 0 && forall i :: 0 < i < |d| && d[i] == '/' ==> d[..i] in after)
  {
    var asked := if slash then d + "/" else d;
    var p := Working(asked);
    MkdirChainStaysShort(dirs, files, p);
    if |d| < 256 {
      assert asked[..|d|] == d;
      assert p == d;
      forall q | OnTheWay(q, d, 1) ensures q !in files {
        assert q == d[..|q|];
      }
      MkdirsCreatesTheChain(dirs, files, d);
      forall i | 0 < i < |d| && d[i] == '/' ensures d[..i] in MkdirChain(dirs, files, p).0 {
        assert OnTheWay(d[..i], d, 1);
      }
    }
  }

  // ----- getRandomGateway -----

  /** One of the gateways; `rand() % 0` is avoided only by callers that have one. */
  method GetRandomGateway(gateways: seq<string>) returns (gateway: string)
    requires gateways != []
    ensures gateway in gateways
  {
    if |gateways| == 1 {
      return gateways[0];
    }
    var random: nat := *;
    return gateways[random % |gateways|];
  }
}
