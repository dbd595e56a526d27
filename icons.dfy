/** Icon resolution: the first file under the icon roots whose base name is
    the icon name and whose extension is `.svg`, `.png` or `.xpm`. This is
    the specification that `Discovery.DesktopFiles.FindIconPath` is proved
    against. */
module Icons {
  import opened Wrappers
  import opened Text
  import opened Paths

  /** The roots searched, highest priority first. */
  function IconDirs(home: string): (r: seq<string>)
    ensures |r| == 6
  {
    [ "/usr/share/icons",
      "/usr/share/pixmaps",
      "/var/lib/flatpak/exports/share/icons",
      ExpandUser(home, "/.icons"),
      ExpandUser(home, "/.local/share/icons"),
      ExpandUser(home, "/.local/share/flatpak/exports/share/icons") ]
  }

  predicate IsIconExt(ext: string) {
    ext == ".svg" || ext == ".png" || ext == ".xpm"
  }

  /** The test applied to one file name: `splitext` gives the icon name and
      an accepted extension (compared case-sensitively). */
  predicate IconFileMatches(file: string, name: string) {
    var (base, ext) := SplitExt(file);
    base == name && IsIconExt(ext)
  }

  predicate HasNonDot(s: string) {
    exists k :: 0 <= k < |s| && s[k] != '.'
  }

  /** For a plain file name, the `splitext` test is the same as "the file is
      the icon name followed by one of the three extensions", provided the
      icon name is not made of dots only. */
  lemma IconFileMatchesIff(file: string, name: string)
    requires '/' !in file
    ensures IconFileMatches(file, name) <==>
              (file == name + ".svg" || file == name + ".png" || file == name + ".xpm")
              && HasNonDot(name)
  {
    if IconFileMatches(file, name) {
      MatchIsNamePlusExt(file, name);
    }
    if (file == name + ".svg" || file == name + ".png" || file == name + ".xpm") && HasNonDot(name) {
      NamePlusExtMatches(file, name);
    }
  }

  lemma MatchIsNamePlusExt(file: string, name: string)
    requires '/' !in file && IconFileMatches(file, name)
    ensures file == name + ".svg" || file == name + ".png" || file == name + ".xpm"
    ensures HasNonDot(name)
  {
    RFindIsLast(file, '/');
    assert RFind(file, '/') == -1;
    SplitExtShape(file);
    var (base, ext) := SplitExt(file);
    DotsOnlyIff(file, 0, |base|);
    var k :| 0 <= k < |base| && file[k] != '.';
    assert name[k] == file[k];
  }

  lemma NamePlusExtMatches(file: string, name: string)
    requires '/' !in file && HasNonDot(name)
    requires file == name + ".svg" || file == name + ".png" || file == name + ".xpm"
    ensures IconFileMatches(file, name)
  {
    var n := |name|;
    RFindIsLast(file, '/');
    RFindIsLast(file, '.');
    assert RFind(file, '/') == -1;
    assert file[n] == '.';
    assert forall i :: n < i < |file| ==> file[i] != '.';
    assert RFind(file, '.') == n;
    assert file[..n] == name;
    var k :| 0 <= k < n && name[k] != '.';
    assert file[k] == name[k];
    DotsOnlyIff(file, 0, n);
  }

  // ---------------------------------------------------------------------
  // The three nested loops of the search, as three recursive functions

  /** The test of one file name against the icon name, as a value the
      per-directory search takes. */
  function Matcher(name: string): string -> bool {
    file => IconFileMatches(file, name)
  }

  /** The first file of one directory that passes `hit`, joined onto its
      path. The order of the search does not depend on the test, so the
      facts about it below hold for every test. */
  function FirstInFiles(dirpath: string, files: seq<string>, hit: string -> bool): (r: Option<string>)
  {
    if files == [] then None
    else if hit(files[0]) then Some(Join(dirpath, files[0]))
    else FirstInFiles(dirpath, files[1..], hit)
  }

  /** The first match in a walk, directory by directory in walk order. */
  function FirstInWalk(steps: seq<WalkStep>, name: string): (r: Option<string>)
  {
    if steps == [] then None
    else match FirstInFiles(steps[0].dirpath, steps[0].files, Matcher(name))
      case Some(p) => Some(p)
      case None => FirstInWalk(steps[1..], name)
  }

  /** The first match over the roots, in list order. */
  function FirstInRoots(fs: FileSystem, roots: seq<string>, name: string): (r: Option<string>)
  {
    if roots == [] then None
    else match FirstInWalk(Walk(fs, roots[0]), name)
      case Some(p) => Some(p)
      case None => FirstInRoots(fs, roots[1..], name)
  }

  /** `find_icon_path(name)`. */
  function IconLookup(fs: FileSystem, name: string): Option<string> {
    FirstInRoots(fs, IconDirs(fs.home), name)
  }

  // ---------------------------------------------------------------------
  // What the search returns

  /** `files[m]` is the first file of the list that passes `hit`. */
  predicate FirstMatchAt(files: seq<string>, hit: string -> bool, m: int) {
    && 0 <= m < |files|
    && hit(files[m])
    && forall m' :: 0 <= m' < m ==> !hit(files[m'])
  }

  /** Within one directory the result is the first matching file, joined
      onto the directory path. */
  lemma {:induction false} FirstInFilesIff(dirpath: string, files: seq<string>, hit: string -> bool, p: string)
    ensures FirstInFiles(dirpath, files, hit) == Some(p) <==>
              exists m :: FirstMatchAt(files, hit, m) && p == Join(dirpath, files[m])
  {
    if FirstInFiles(dirpath, files, hit) == Some(p) {
      var m := FoundInFiles(dirpath, files, hit);
      assert FirstMatchAt(files, hit, m);
    }
    if exists m :: FirstMatchAt(files, hit, m) && p == Join(dirpath, files[m]) {
      var m :| FirstMatchAt(files, hit, m) && p == Join(dirpath, files[m]);
      FirstMatchFound(dirpath, files, hit, m);
    }
  }

  lemma {:induction false} FirstMatchFound(dirpath: string, files: seq<string>, hit: string -> bool, m: int)
    requires FirstMatchAt(files, hit, m)
    ensures FirstInFiles(dirpath, files, hit) == Some(Join(dirpath, files[m]))
  {
    if m > 0 {
      assert !hit(files[0]);
      assert FirstMatchAt(files[1..], hit, m - 1) by {
        forall m' | 0 <= m' < m - 1 ensures !hit(files[1..][m']) {
          assert files[1..][m'] == files[m' + 1];
        }
      }
      FirstMatchFound(dirpath, files[1..], hit, m - 1);
    }
  }

  /** Within one directory the result is `None` exactly when no file
      passes the test. */
  lemma {:induction false} FirstInFilesNoneIff(dirpath: string, files: seq<string>, hit: string -> bool)
    ensures FirstInFiles(dirpath, files, hit) == None <==>
              forall m :: 0 <= m < |files| ==> !hit(files[m])
  {
    if files != [] {
      FirstInFilesNoneIff(dirpath, files[1..], hit);
      assert forall m :: 0 < m < |files| ==> files[m] == files[1..][m - 1];
    }
  }

  /** Root priority: when some root holds a match and no earlier root does,
      the search returns that root's first match, whatever later roots
      hold. */
  lemma {:induction false} EarlierRootWins(fs: FileSystem, roots: seq<string>, name: string, k: nat)
    requires k < |roots|
    requires FirstInWalk(Walk(fs, roots[k]), name).Some?
    requires forall j :: 0 <= j < k ==> FirstInWalk(Walk(fs, roots[j]), name).None?
    ensures FirstInRoots(fs, roots, name) == FirstInWalk(Walk(fs, roots[k]), name)
  {
    if k > 0 {
      assert FirstInWalk(Walk(fs, roots[0]), name).None?;
      forall j | 0 <= j < k - 1 ensures FirstInWalk(Walk(fs, roots[1..][j]), name).None? {
        assert roots[1..][j] == roots[j + 1];
      }
      EarlierRootWins(fs, roots[1..], name, k - 1);
    }
  }

  /** Within a walk, likewise: the first directory (in walk order) holding a
      match decides the result. */
  lemma {:induction false} EarlierDirectoryWins(steps: seq<WalkStep>, name: string, k: nat)
    requires k < |steps|
    requires FirstInFiles(steps[k].dirpath, steps[k].files, Matcher(name)).Some?
    requires forall j :: 0 <= j < k ==> FirstInFiles(steps[j].dirpath, steps[j].files, Matcher(name)).None?
    ensures FirstInWalk(steps, name) == FirstInFiles(steps[k].dirpath, steps[k].files, Matcher(name))
  {
    if k > 0 {
      assert FirstInFiles(steps[0].dirpath, steps[0].files, Matcher(name)).None?;
      forall j | 0 <= j < k - 1
        ensures FirstInFiles(steps[1..][j].dirpath, steps[1..][j].files, Matcher(name)).None?
      {
        assert steps[1..][j] == steps[j + 1];
      }
      EarlierDirectoryWins(steps[1..], name, k - 1);
    }
  }

  /** The search finds nothing exactly when no file of any directory of any
      root matches. */
  lemma {:induction false} IconLookupNoneIff(fs: FileSystem, roots: seq<string>, name: string)
    ensures FirstInRoots(fs, roots, name) == None <==>
              forall i, j, m :: 0 <= i < |roots| && 0 <= j < |Walk(fs, roots[i])|
                                && 0 <= m < |Walk(fs, roots[i])[j].files|
                                ==> !IconFileMatches(Walk(fs, roots[i])[j].files[m], name)
  {
    if roots != [] {
      WalkNoneIff(Walk(fs, roots[0]), name);
      IconLookupNoneIff(fs, roots[1..], name);
      assert forall i :: 0 < i < |roots| ==> roots[i] == roots[1..][i - 1];
    }
  }

  lemma {:induction false} WalkNoneIff(steps: seq<WalkStep>, name: string)
    ensures FirstInWalk(steps, name) == None <==>
              forall j, m :: 0 <= j < |steps| && 0 <= m < |steps[j].files|
                             ==> !IconFileMatches(steps[j].files[m], name)
  {
    if steps != [] {
      FirstInFilesNoneIff(steps[0].dirpath, steps[0].files, Matcher(name));
      WalkNoneIff(steps[1..], name);
      assert forall j :: 0 < j < |steps| ==> steps[j] == steps[1..][j - 1];
    }
  }

  /** A found path always names a file with the icon's name and an accepted
      extension. */
  lemma {:induction false} FoundIconIsMatchingFile(fs: FileSystem, roots: seq<string>, name: string)
    requires FirstInRoots(fs, roots, name).Some?
    ensures exists i, j, m :: 0 <= i < |roots| && 0 <= j < |Walk(fs, roots[i])|
                              && 0 <= m < |Walk(fs, roots[i])[j].files|
                              && IconFileMatches(Walk(fs, roots[i])[j].files[m], name)
                              && FirstInRoots(fs, roots, name).value
                                 == Join(Walk(fs, roots[i])[j].dirpath, Walk(fs, roots[i])[j].files[m])
  {
    var p := FirstInRoots(fs, roots, name).value;
    var w := Walk(fs, roots[0]);
    if FirstInWalk(w, name).Some? {
      var j := FoundInWalk(w, name);
      var m := FoundInFiles(w[j].dirpath, w[j].files, Matcher(name));
      assert IconFileMatches(Walk(fs, roots[0])[j].files[m], name);
    } else {
      FoundIconIsMatchingFile(fs, roots[1..], name);
      var i, j, m :| 0 <= i < |roots[1..]| && 0 <= j < |Walk(fs, roots[1..][i])|
                     && 0 <= m < |Walk(fs, roots[1..][i])[j].files|
                     && IconFileMatches(Walk(fs, roots[1..][i])[j].files[m], name)
                     && p == Join(Walk(fs, roots[1..][i])[j].dirpath, Walk(fs, roots[1..][i])[j].files[m]);
      assert roots[1..][i] == roots[i + 1];
    }
  }

  lemma {:induction false} FoundInWalk(steps: seq<WalkStep>, name: string) returns (j: nat)
    requires FirstInWalk(steps, name).Some?
    ensures j < |steps|
    ensures FirstInFiles(steps[j].dirpath, steps[j].files, Matcher(name)) == FirstInWalk(steps, name)
  {
    if FirstInFiles(steps[0].dirpath, steps[0].files, Matcher(name)).Some? {
      j := 0;
    } else {
      var j' := FoundInWalk(steps[1..], name);
      j := j' + 1;
    }
  }

  lemma {:induction false} FoundInFiles(dirpath: string, files: seq<string>, hit: string -> bool) returns (m: nat)
    requires FirstInFiles(dirpath, files, hit).Some?
    ensures FirstMatchAt(files, hit, m)
    ensures FirstInFiles(dirpath, files, hit) == Some(Join(dirpath, files[m]))
  {
    if hit(files[0]) {
      m := 0;
    } else {
      var m' := FoundInFiles(dirpath, files[1..], hit);
      m := m' + 1;
      FirstMatchShift(files, hit, m');
    }
  }

  /** A first match after a non-matching head is the first match of the
      whole list, one place further on. */
  lemma FirstMatchShift(files: seq<string>, hit: string -> bool, m: nat)
    requires files != [] && !hit(files[0])
    requires FirstMatchAt(files[1..], hit, m)
    ensures FirstMatchAt(files, hit, m + 1)
  {
    forall k | 0 <= k < m + 1 ensures !hit(files[k]) {
      if k > 0 {
        assert files[k] == files[1..][k - 1];
      }
    }
    assert files[m + 1] == files[1..][m];
  }
}
