/** Discovery of applications: every `.desktop` file under the application
    directories, in directory-list order then walk order, parsed, and kept
    when its main entry has a name that passes the search filter. This is the
    specification that `Discovery.DesktopFiles.Get` is proved against. */
module AppScan {
  import opened Wrappers
  import opened Text
  import opened Paths
  import opened Entries

  /** The application directories, in the order they are scanned. */
  function DesktopDirs(home: string): (r: seq<string>)
    ensures |r| == 4
  {
    [ "/usr/share/applications",
      "/var/lib/flatpak/exports/share/applications",
      ExpandUser(home, "/.local/share/applications"),
      ExpandUser(home, "/.local/share/flatpak/exports/share/applications") ]
  }

  /** An exception that escapes `get`: a listed file that cannot be read
      (`open` raises), or a document with no section (`IndexError`). */
  datatype ScanError = Unreadable(path: string) | EmptyDocument(path: string)

  /** The filter of `get`; `terms` are already lower-case. */
  predicate Keep(d: Parsed, terms: seq<string>) {
    && d.main.name.Some?
    && d.main.name.value != ""
    && (terms == [] || exists t | t in terms :: Contains(Lower(d.main.name.value), t))
  }

  // ---------------------------------------------------------------------
  // The paths read, in order

  function DesktopPaths(dirpath: string, files: seq<string>): (r: seq<string>)
    ensures forall k :: 0 <= k < |r| ==> EndsWith(r[k], ".desktop")
  {
    if files == [] then []
    else
      (if EndsWith(files[0], ".desktop") then [Join(dirpath, files[0])] else [])
      + DesktopPaths(dirpath, files[1..])
  }

  function WalkPaths(steps: seq<WalkStep>): (r: seq<string>)
    ensures forall k :: 0 <= k < |r| ==> EndsWith(r[k], ".desktop")
  {
    if steps == [] then []
    else DesktopPaths(steps[0].dirpath, steps[0].files) + WalkPaths(steps[1..])
  }

  function RootPaths(fs: FileSystem, roots: seq<string>): (r: seq<string>)
    ensures forall k :: 0 <= k < |r| ==> EndsWith(r[k], ".desktop")
  {
    if roots == [] then []
    else WalkPaths(Walk(fs, roots[0])) + RootPaths(fs, roots[1..])
  }

  /** The paths of an earlier root come before those of a later one. */
  lemma {:induction false} RootPathsAppend(fs: FileSystem, a: seq<string>, b: seq<string>)
    ensures RootPaths(fs, a + b) == RootPaths(fs, a) + RootPaths(fs, b)
  {
    if a == [] {
      assert a + b == b;
    } else {
      assert (a + b)[0] == a[0];
      assert (a + b)[1..] == a[1..] + b;
      RootPathsAppend(fs, a[1..], b);
      var w := WalkPaths(Walk(fs, a[0]));
      assert w + (RootPaths(fs, a[1..]) + RootPaths(fs, b)) == (w + RootPaths(fs, a[1..])) + RootPaths(fs, b);
    }
  }

  /** Every `.desktop` file of a directory is read: its joined path stands
      among the directory's paths, at position `m`. */
  lemma DesktopPathsComplete(dirpath: string, files: seq<string>, k: nat) returns (m: nat)
    requires k < |files| && EndsWith(files[k], ".desktop")
    ensures m < |DesktopPaths(dirpath, files)| && DesktopPaths(dirpath, files)[m] == Join(dirpath, files[k])
  {
    DesktopPathsPicked(dirpath, files);
    m := PickedComplete(files, DesktopFilter(), Under(dirpath), k);
  }

  /** Nothing else is read: every path of a directory is the joined path of
      one of its `.desktop` files. */
  lemma DesktopPathsSound(dirpath: string, files: seq<string>, m: nat) returns (k: nat)
    requires m < |DesktopPaths(dirpath, files)|
    ensures k < |files| && EndsWith(files[k], ".desktop")
    ensures DesktopPaths(dirpath, files)[m] == Join(dirpath, files[k])
  {
    DesktopPathsPicked(dirpath, files);
    k := PickedSound(files, DesktopFilter(), Under(dirpath), m);
  }

  /** The test `get` applies to a file name. */
  function DesktopFilter(): string -> bool {
    file => EndsWith(file, ".desktop")
  }

  /** The path `get` opens for a file of `dirpath`. */
  function Under(dirpath: string): string -> string {
    file => Join(dirpath, file)
  }

  /** The files that pass `keep`, each turned into a path by `path`, in
      listing order. Neither the test nor the path matter to the order, so
      the facts below hold for any of them. */
  function Picked(files: seq<string>, keep: string -> bool, path: string -> string): seq<string> {
    if files == [] then []
    else (if keep(files[0]) then [path(files[0])] else []) + Picked(files[1..], keep, path)
  }

  lemma {:induction false} DesktopPathsPicked(dirpath: string, files: seq<string>)
    ensures DesktopPaths(dirpath, files) == Picked(files, DesktopFilter(), Under(dirpath))
  {
    if files != [] {
      DesktopPathsPicked(dirpath, files[1..]);
    }
  }

  lemma {:induction false} PickedComplete(files: seq<string>, keep: string -> bool, path: string -> string, k: nat)
    returns (m: nat)
    requires k < |files| && keep(files[k])
    ensures m < |Picked(files, keep, path)| && Picked(files, keep, path)[m] == path(files[k])
  {
    var all := Picked(files, keep, path);
    var tail := Picked(files[1..], keep, path);
    if k == 0 {
      m := 0;
    } else {
      assert files[1..][k - 1] == files[k];
      var m' := PickedComplete(files[1..], keep, path, k - 1);
      if keep(files[0]) {
        m := m' + 1;
        assert all[m] == tail[m'];
      } else {
        m := m';
        assert all == tail;
      }
    }
  }

  lemma {:induction false} PickedSound(files: seq<string>, keep: string -> bool, path: string -> string, m: nat)
    returns (k: nat)
    requires m < |Picked(files, keep, path)|
    ensures k < |files| && keep(files[k]) && Picked(files, keep, path)[m] == path(files[k])
  {
    var all := Picked(files, keep, path);
    var tail := Picked(files[1..], keep, path);
    if keep(files[0]) && m == 0 {
      k := 0;
    } else {
      var m' := if keep(files[0]) then m - 1 else m;
      assert all[m] == tail[m'];
      var k' := PickedSound(files[1..], keep, path, m');
      k := k' + 1;
      assert files[1..][k'] == files[k];
    }
  }

  /** Every `.desktop` file of every directory of a walk is read. */
  lemma WalkPathsComplete(steps: seq<WalkStep>, j: nat, k: nat) returns (m: nat)
    requires j < |steps| && k < |steps[j].files| && EndsWith(steps[j].files[k], ".desktop")
    ensures m < |WalkPaths(steps)| && WalkPaths(steps)[m] == Join(steps[j].dirpath, steps[j].files[k])
  {
    WalkPathsGather(steps);
    var m0 := DesktopPathsComplete(steps[j].dirpath, steps[j].files, k);
    m := GatherIndex(steps, StepPaths(), j, m0);
  }

  /** The paths read in one directory of a walk. */
  function StepPaths(): WalkStep -> seq<string> {
    (step: WalkStep) => DesktopPaths(step.dirpath, step.files)
  }

  /** The paths read under one application directory. */
  function RootWalkPaths(fs: FileSystem): string -> seq<string> {
    root => WalkPaths(Walk(fs, root))
  }

  /** The lists `f` gives for each element, concatenated in order. */
  function Gather<T>(xs: seq<T>, f: T -> seq<string>): seq<string> {
    if xs == [] then [] else f(xs[0]) + Gather(xs[1..], f)
  }

  /** Position `m` of the list of element `i` stands in the concatenation. */
  lemma {:induction false} GatherIndex<T>(xs: seq<T>, f: T -> seq<string>, i: nat, m: nat) returns (n: nat)
    requires i < |xs| && m < |f(xs[i])|
    ensures n < |Gather(xs, f)| && Gather(xs, f)[n] == f(xs[i])[m]
  {
    var here := f(xs[0]);
    var tail := Gather(xs[1..], f);
    if i == 0 {
      n := m;
      assert Gather(xs, f)[n] == here[m];
    } else {
      assert xs[1..][i - 1] == xs[i];
      var n' := GatherIndex(xs[1..], f, i - 1, m);
      n := |here| + n';
      assert Gather(xs, f)[n] == tail[n'];
    }
  }

  lemma {:induction false} WalkPathsGather(steps: seq<WalkStep>)
    ensures WalkPaths(steps) == Gather(steps, StepPaths())
  {
    if steps != [] {
      WalkPathsGather(steps[1..]);
    }
  }

  lemma {:induction false} RootPathsGather(fs: FileSystem, roots: seq<string>)
    ensures RootPaths(fs, roots) == Gather(roots, RootWalkPaths(fs))
  {
    if roots != [] {
      RootPathsGather(fs, roots[1..]);
    }
  }

  /** File `k` of step `j` of the walk of `root` is a `.desktop` file. */
  predicate DesktopFileAt(fs: FileSystem, root: string, j: nat, k: nat) {
    var steps := Walk(fs, root);
    j < |steps| && k < |steps[j].files| && EndsWith(steps[j].files[k], ".desktop")
  }

  /** The path `get` opens for that file. */
  function DesktopFilePath(fs: FileSystem, root: string, j: nat, k: nat): string
    requires DesktopFileAt(fs, root, j, k)
  {
    var steps := Walk(fs, root);
    Join(steps[j].dirpath, steps[j].files[k])
  }

  /** Every `.desktop` file under every application directory is read. */
  lemma RootPathsComplete(fs: FileSystem, roots: seq<string>, i: nat, j: nat, k: nat) returns (m: nat)
    requires i < |roots| && DesktopFileAt(fs, roots[i], j, k)
    ensures m < |RootPaths(fs, roots)| && RootPaths(fs, roots)[m] == DesktopFilePath(fs, roots[i], j, k)
  {
    RootPathsGather(fs, roots);
    var m0 := WalkPathsComplete(Walk(fs, roots[i]), j, k);
    m := GatherIndex(roots, RootWalkPaths(fs), i, m0);
  }

  // ---------------------------------------------------------------------
  // Reading, parsing and filtering

  /** `acc` followed by what `r` holds; a failure stays a failure. */
  function Prepend(acc: seq<Parsed>, r: Result<seq<Parsed>, ScanError>): Result<seq<Parsed>, ScanError> {
    match r
    case Success(xs) => Success(acc + xs)
    case Failure(e) => Failure(e)
  }

  /** Reading and parsing one listed path: `open` raises on a path that
      cannot be read, and `parse_desktop_file` on a document with no
      section. */
  function Load(fs: FileSystem, p: string): (r: Result<Parsed, ScanError>)
    ensures r.Failure? <==> p !in fs.contents || ParseDocument(fs, fs.contents[p]).Failure?
    ensures r.Success? ==> r.value == ParseDocument(fs, fs.contents[p]).value
    ensures r.Failure? ==> r.error.path == p
  {
    if p !in fs.contents then Failure(Unreadable(p))
    else match ParseDocument(fs, fs.contents[p])
      case Failure(_) => Failure(EmptyDocument(p))
      case Success(d) => Success(d)
  }

  function Loader(fs: FileSystem): string -> Result<Parsed, ScanError> {
    p => Load(fs, p)
  }

  /** The paths loaded one after the other, each record kept when it passes
      the filter; the first failure ends the scan. The order does not
      depend on how a path is loaded, so the facts below hold for any
      `load`. */
  function ScanPaths(load: string -> Result<Parsed, ScanError>, paths: seq<string>, terms: seq<string>)
    : Result<seq<Parsed>, ScanError>
  {
    if paths == [] then Success([])
    else match load(paths[0])
      case Failure(e) => Failure(e)
      case Success(d) => Prepend(if Keep(d, terms) then [d] else [], ScanPaths(load, paths[1..], terms))
  }

  /** `DesktopFiles(terms).get()` once `terms` are lower-cased. */
  function Scan(fs: FileSystem, terms: seq<string>): Result<seq<Parsed>, ScanError> {
    ScanPaths(Loader(fs), RootPaths(fs, DesktopDirs(fs.home)), terms)
  }

  /** The scan of a path list is the scan of its first part followed by the
      scan of the rest: output order is path order, and the first failure
      wins. */
  lemma {:induction false} ScanPathsAppend(load: string -> Result<Parsed, ScanError>, a: seq<string>, b: seq<string>,
                                           terms: seq<string>)
    ensures ScanPaths(load, a + b, terms) ==
              match ScanPaths(load, a, terms)
              case Failure(e) => Failure(e)
              case Success(xs) => Prepend(xs, ScanPaths(load, b, terms))
  {
    if a == [] {
      assert a + b == b;
      match ScanPaths(load, b, terms)
      case Failure(e) =>
      case Success(ys) => assert [] + ys == ys;
    } else {
      assert (a + b)[0] == a[0];
      assert (a + b)[1..] == a[1..] + b;
      ScanPathsAppend(load, a[1..], b, terms);
      match ScanPaths(load, b, terms)
      case Failure(e) =>
      case Success(ys) =>
        if load(a[0]).Success? && ScanPaths(load, a[1..], terms).Success? {
          var d := load(a[0]).value;
          var head: seq<Parsed> := if Keep(d, terms) then [d] else [];
          var xs := ScanPaths(load, a[1..], terms).value;
          assert head + (xs + ys) == (head + xs) + ys;
        }
    }
  }

  /** The scan fails exactly when some listed path fails to load. */
  lemma {:induction false} ScanFailsIff(load: string -> Result<Parsed, ScanError>, paths: seq<string>, terms: seq<string>)
    ensures ScanPaths(load, paths, terms).Failure? <==> exists k :: 0 <= k < |paths| && load(paths[k]).Failure?
  {
    if paths != [] {
      ScanFailsIff(load, paths[1..], terms);
      if exists k :: 0 <= k < |paths| && load(paths[k]).Failure? {
        var k :| 0 <= k < |paths| && load(paths[k]).Failure?;
        if k > 0 { assert paths[1..][k - 1] == paths[k]; }
      }
      if exists k :: 0 <= k < |paths[1..]| && load(paths[1..][k]).Failure? {
        var k :| 0 <= k < |paths[1..]| && load(paths[1..][k]).Failure?;
        assert load(paths[k + 1]).Failure?;
      }
    }
  }

  /** A failing scan fails with the error of the first path that fails to
      load; every path before it loaded. */
  lemma {:induction false} ScanFailsFirst(load: string -> Result<Parsed, ScanError>, paths: seq<string>, terms: seq<string>)
    returns (k: nat)
    requires ScanPaths(load, paths, terms).Failure?
    ensures k < |paths| && load(paths[k]) == Failure(ScanPaths(load, paths, terms).error)
    ensures forall j :: 0 <= j < k ==> load(paths[j]).Success?
  {
    if load(paths[0]).Failure? {
      return 0;
    }
    var k' := ScanFailsFirst(load, paths[1..], terms);
    k := k' + 1;
    assert paths[k] == paths[1..][k'];
    forall j | 0 <= j < k ensures load(paths[j]).Success? {
      if j > 0 {
        assert paths[j] == paths[1..][j - 1];
      }
    }
  }

  /** Everything the scan returns passes the filter and is exactly what
      one of the listed paths loaded to. */
  lemma {:induction false} ScanSound(load: string -> Result<Parsed, ScanError>, paths: seq<string>, terms: seq<string>)
    requires ScanPaths(load, paths, terms).Success?
    ensures forall d :: d in ScanPaths(load, paths, terms).value ==>
              Keep(d, terms) && exists k :: 0 <= k < |paths| && load(paths[k]) == Success(d)
  {
    if paths != [] {
      var out := ScanPaths(load, paths, terms).value;
      var d0 := load(paths[0]).value;
      var head: seq<Parsed> := if Keep(d0, terms) then [d0] else [];
      var rest := ScanPaths(load, paths[1..], terms).value;
      ScanSound(load, paths[1..], terms);
      assert out == head + rest;
      forall d | d in out ensures Keep(d, terms) && exists k :: 0 <= k < |paths| && load(paths[k]) == Success(d) {
        if d in head {
          assert d == d0 && load(paths[0]) == Success(d);
        } else {
          assert d in rest;
          var k :| 0 <= k < |paths[1..]| && load(paths[1..][k]) == Success(d);
          assert paths[1..][k] == paths[k + 1];
        }
      }
    }
  }

  /** Every listed path whose record passes the filter is in the output. */
  lemma {:induction false} ScanComplete(load: string -> Result<Parsed, ScanError>, paths: seq<string>,
                                        terms: seq<string>, k: nat)
    requires ScanPaths(load, paths, terms).Success?
    requires k < |paths| && load(paths[k]).Success? && Keep(load(paths[k]).value, terms)
    ensures load(paths[k]).value in ScanPaths(load, paths, terms).value
  {
    if k > 0 {
      assert paths[1..][k - 1] == paths[k];
      ScanComplete(load, paths[1..], terms, k - 1);
    }
  }

  /** `get` over every `.desktop` file: when the scan succeeds, each such
      file under an application directory was readable and parsed, and its
      record is returned exactly when it passes the filter. */
  lemma ScanFindsEveryApp(fs: FileSystem, terms: seq<string>, i: nat, j: nat, k: nat)
    requires Scan(fs, terms).Success?
    requires i < |DesktopDirs(fs.home)| && DesktopFileAt(fs, DesktopDirs(fs.home)[i], j, k)
    ensures var p := DesktopFilePath(fs, DesktopDirs(fs.home)[i], j, k);
            && Load(fs, p).Success?
            && (Keep(Load(fs, p).value, terms) ==> Load(fs, p).value in Scan(fs, terms).value)
  {
    var paths := RootPaths(fs, DesktopDirs(fs.home));
    var m := RootPathsComplete(fs, DesktopDirs(fs.home), i, j, k);
    ScanFailsIff(Loader(fs), paths, terms);
    assert Loader(fs)(paths[m]).Success?;
    if Keep(Loader(fs)(paths[m]).value, terms) {
      ScanComplete(Loader(fs), paths, terms, m);
    }
  }

  /** With the search term "Fire" (lower-cased as the constructor does),
      an application named "Firefox" is kept and one named "Calculator" is
      not; with no terms both are kept. */
  lemma SearchExample(exec: Option<string>, icon: Option<string>)
    ensures var firefox := Parsed(Entry(Some("Firefox"), exec, icon), []);
            var calculator := Parsed(Entry(Some("Calculator"), exec, icon), []);
            && Keep(firefox, LowerAll(["Fire"]))
            && !Keep(calculator, LowerAll(["Fire"]))
            && Keep(firefox, []) && Keep(calculator, [])
  {
    LowerFire();
    FirefoxMatches();
    CalculatorDoesNotMatch();
  }

  lemma LowerFire()
    ensures LowerAll(["Fire"]) == ["fire"]
  {
    var l := Lower("Fire");
    assert l[0] == 'f' && l[1] == 'i' && l[2] == 'r' && l[3] == 'e';
    assert l == "fire";
  }

  lemma FirefoxMatches()
    ensures Contains(Lower("Firefox"), "fire")
  {
    var l := Lower("Firefox");
    assert l[0] == 'f' && l[1] == 'i' && l[2] == 'r' && l[3] == 'e';
    assert l[..4] == "fire";
    assert StartsWith(l, "fire");
  }

  lemma CalculatorDoesNotMatch()
    ensures !Contains(Lower("Calculator"), "fire")
  {
    var l := Lower("Calculator");
    assert forall i :: 0 <= i < |l| ==> l[i] != 'f' by {
      assert forall i :: 0 <= i < |l| ==> l[i] == LowerChar("Calculator"[i]);
    }
    NotContainsFire(l);
  }

  lemma {:induction false} NotContainsFire(s: string)
    requires forall i :: 0 <= i < |s| ==> s[i] != 'f'
    ensures !Contains(s, "fire")
    decreases |s|
  {
    if |s| >= 4 {
      assert s[..4][0] == s[0];
    }
    assert !StartsWith(s, "fire");
    if s != [] {
      NotContainsFire(s[1..]);
    }
  }
}
