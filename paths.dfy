/** `os.path` on POSIX, and the abstract filesystem that stands in for
    `os.walk` and `open(...).read()`. */
module Paths {
  import opened Text

  /** `os.path.join(a, b)`: an absolute `b` replaces `a`; otherwise a single
      `/` is put between them unless `a` is empty or already ends in one. */
  function Join(a: string, b: string): (r: string)
    ensures EndsWith(r, b)
    ensures !StartsWith(b, "/") ==> StartsWith(r, a)
  {
    if StartsWith(b, "/") then b
    else if a == [] || a[|a| - 1] == '/' then a + b
    else a + "/" + b
  }

  /** `s.rfind(c)`: the last index of `c` in `s`, or -1. */
  function RFind(s: string, c: char): (r: int)
    ensures -1 <= r < |s|
    ensures r >= 0 ==> s[r] == c
  {
    RFindBelow(s, c, |s|)
  }

  /** No occurrence of `c` lies after the one `RFind` returns. */
  lemma RFindIsLast(s: string, c: char)
    ensures forall i :: RFind(s, c) < i < |s| ==> s[i] != c
  {
    RFindBelowIsLast(s, c, |s|);
  }

  /** The last index below `n` holding `c`, or -1. */
  function RFindBelow(s: string, c: char, n: nat): (r: int)
    requires n <= |s|
    ensures -1 <= r < n
    ensures r >= 0 ==> s[r] == c
    decreases n
  {
    if n == 0 then -1
    else if s[n - 1] == c then n - 1
    else RFindBelow(s, c, n - 1)
  }

  lemma {:induction false} RFindBelowIsLast(s: string, c: char, n: nat)
    requires n <= |s|
    ensures forall i :: RFindBelow(s, c, n) < i < n ==> s[i] != c
    decreases n
  {
    if n > 0 && s[n - 1] != c {
      RFindBelowIsLast(s, c, n - 1);
    }
  }

  /** The text after the last `/`: `os.path.basename`. */
  function BaseName(p: string): string {
    p[RFind(p, '/') + 1..]
  }

  /** Joining a plain file name onto a directory and taking the base name
      gives the file name back. */
  lemma JoinBaseName(dir: string, file: string)
    requires file != [] && '/' !in file
    ensures BaseName(Join(dir, file)) == file
  {
    var r := Join(dir, file);
    assert !StartsWith(file, "/") by { assert file[0] != '/'; }
    var k := RFind(r, '/');
    RFindIsLast(r, '/');
    var off := |r| - |file|;
    assert r[off..] == file;
    forall i | off <= i < |r| ensures r[i] != '/' {
      assert r[i] == file[i - off];
    }
    if off > 0 {
      assert r[off - 1] == '/';
    }
    assert k == off - 1;
  }

  /** Every character of `s[lo..hi]` is a dot. */
  predicate DotsOnly(s: string, lo: nat, hi: nat)
    requires lo <= hi <= |s|
    decreases hi - lo
  {
    lo == hi || (s[lo] == '.' && DotsOnly(s, lo + 1, hi))
  }

  lemma {:induction false} DotsOnlyIff(s: string, lo: nat, hi: nat)
    requires lo <= hi <= |s|
    ensures DotsOnly(s, lo, hi) <==> forall i :: lo <= i < hi ==> s[i] == '.'
    decreases hi - lo
  {
    if lo < hi {
      DotsOnlyIff(s, lo + 1, hi);
    }
  }

  /** `os.path.splitext(p)`: the extension starts at the last dot after the
      last slash, unless every character before that dot (after the slash)
      is itself a dot; then there is no extension. */
  function SplitExt(p: string): (r: (string, string))
    ensures r.0 + r.1 == p
  {
    var sep := RFind(p, '/');
    var dot := RFind(p, '.');
    if dot > sep && !DotsOnly(p, sep + 1, dot) then
      assert p[..dot] + p[dot..] == p;
      (p[..dot], p[dot..])
    else
      assert p + "" == p;
      (p, "")
  }

  /** A non-empty extension is a dot followed by no other dot or slash, and
      the last path component has a character other than a dot before it. */
  lemma SplitExtShape(p: string)
    ensures var r := SplitExt(p);
            r.1 != [] ==> r.1[0] == '.' && '.' !in r.1[1..] && '/' !in r.1
    ensures var r := SplitExt(p);
            r.1 != [] ==> RFind(p, '/') < |r.0| && !DotsOnly(p, RFind(p, '/') + 1, |r.0|)
  {
    var sep := RFind(p, '/');
    var dot := RFind(p, '.');
    RFindIsLast(p, '/');
    RFindIsLast(p, '.');
    if dot > sep && !DotsOnly(p, sep + 1, dot) {
      assert forall i :: 0 <= i < |p[dot..]| ==> p[dot..][i] == p[dot + i];
    }
  }

  /** `os.path.expanduser("~" + rest)` when `HOME` is `home`: trailing
      slashes of `home` are dropped before `rest` is appended. */
  function ExpandUser(home: string, rest: string): string {
    RStripSlash(home) + rest
  }

  /** The expansion ends with `rest`, and what comes before it is a prefix
      of the home directory with no trailing `/`. */
  lemma ExpandUserShape(home: string, rest: string)
    ensures var r := ExpandUser(home, rest);
            && EndsWith(r, rest)
            && StartsWith(home, r[..|r| - |rest|])
            && (r[..|r| - |rest|] == [] || r[|r| - |rest| - 1] != '/')
  {
    var h := RStripSlash(home);
    assert (h + rest)[..|h|] == h;
    assert (h + rest)[|h|..] == rest;
  }

  function RStripSlash(s: string): (r: string)
    ensures |r| <= |s| && r == s[..|r|]
    ensures r == [] || r[|r| - 1] != '/'
    ensures forall i :: |r| <= i < |s| ==> s[i] == '/'
  {
    if s != [] && s[|s| - 1] == '/' then RStripSlash(s[..|s| - 1]) else s
  }

  // ---------------------------------------------------------------------
  // The abstract filesystem

  /** One triple `(root, dirs, files)` of `os.walk`; `dirs` is never read. */
  datatype WalkStep = WalkStep(dirpath: string, files: seq<string>)

  /** `home` is `$HOME`; `walks` is what `os.walk(top)` yields for each
      existing top directory; `contents` is what reading each readable path
      as UTF-8 text gives. */
  datatype FileSystem = FileSystem(
    home: string,
    walks: map<string, seq<WalkStep>>,
    contents: map<string, string>)

  /** `os.walk(top)`: a directory that does not exist yields nothing. */
  function Walk(fs: FileSystem, top: string): (r: seq<WalkStep>)
    ensures top !in fs.walks ==> r == []
  {
    if top in fs.walks then fs.walks[top] else []
  }
}
