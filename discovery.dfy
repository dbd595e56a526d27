/** The `DesktopFiles` object: it keeps the lower-cased search terms, and
    its three operations are the loops of the original, each proved equal to
    the specification function it implements. */
module Discovery {
  import opened Wrappers
  import opened Text
  import opened Paths
  import opened Icons
  import opened Entries
  import opened AppScan

  class DesktopFiles {
    /** The search terms, lower-cased once, here. */
    var searchTerms: seq<string>

    constructor (terms: seq<string>)
      ensures searchTerms == LowerAll(terms)
      ensures forall k :: 0 <= k < |searchTerms| ==> Lower(searchTerms[k]) == searchTerms[k]
    {
      searchTerms := LowerAll(terms);
      new;
      forall k | 0 <= k < |terms| ensures Lower(searchTerms[k]) == searchTerms[k] {
        LowerIdempotent(terms[k]);
      }
    }

    /** `find_icon_path`: roots in priority order, then walk order, then file
        order; the first match is returned at once. */
    method FindIconPath(fs: FileSystem, name: string) returns (r: Option<string>)
      ensures r == IconLookup(fs, name)
    {
      var dirs := IconDirs(fs.home);
      var i := 0;
      while i < |dirs|
        invariant 0 <= i <= |dirs|
        invariant FirstInRoots(fs, dirs[i..], name) == IconLookup(fs, name)
      {
        var steps := Walk(fs, dirs[i]);
        var j := 0;
        while j < |steps|
          invariant 0 <= j <= |steps|
          invariant FirstInWalk(steps[j..], name) == FirstInWalk(steps, name)
        {
          var step := steps[j];
          var k := 0;
          while k < |step.files|
            invariant 0 <= k <= |step.files|
            invariant FirstInFiles(step.dirpath, step.files[k..], Matcher(name)) == FirstInFiles(step.dirpath, step.files, Matcher(name))
          {
            var file := step.files[k];
            var (base, ext) := SplitExt(file);
            if base == name && (ext == ".svg" || ext == ".png" || ext == ".xpm") {
              r := Some(Join(step.dirpath, file));
              assert step.files[k..][0] == file;
              assert FirstInWalk(steps[j..], name) == r by {
                assert steps[j..][0] == step;
              }
              assert dirs[i..][0] == dirs[i];
              return;
            }
            assert step.files[k..][1..] == step.files[k + 1..];
            k := k + 1;
          }
          assert steps[j..][0] == step;
          assert steps[j..][1..] == steps[j + 1..];
          j := j + 1;
        }
        assert dirs[i..][0] == dirs[i];
        assert dirs[i..][1..] == dirs[i + 1..];
        i := i + 1;
      }
      r := None;
    }

    /** `parse_desktop_file`: the main entry from the first section, then the
        action groups appended in document order. */
    method ParseDesktopFile(fs: FileSystem, content: string) returns (r: Result<Parsed, ParseError>)
      ensures r == ParseDocument(fs, content)
    {
      var sections := Sections(content);
      if |sections| == 0 {
        return Failure(NoSections);
      }
      var mainEntry := ParseSection(fs, sections[0]);
      var actions: seq<Entry> := [];
      var i := 1;
      while i < |sections|
        invariant 1 <= i <= |sections|
        invariant actions + ActionEntries(fs, sections[i..]) == ActionEntries(fs, sections[1..])
      {
        var section := sections[i];
        ActionEntriesStep(fs, sections, i);
        if IsActionHeader(section) {
          var action := ParseSection(fs, section);
          AppendAssoc(actions, [action], ActionEntries(fs, sections[i + 1..]));
          actions := actions + [action];
        }
        i := i + 1;
      }
      assert sections[i..] == [];
      assert actions == actions + ActionEntries(fs, sections[i..]);
      r := Success(Parsed(mainEntry, actions));
    }

    /** `get`: every `.desktop` file of every application directory, in
        directory-list order then walk order, read, parsed and filtered. */
    method Get(fs: FileSystem) returns (r: Result<seq<Parsed>, ScanError>)
      ensures r == Scan(fs, searchTerms)
    {
      var dirs := DesktopDirs(fs.home);
      ghost var total := ScanPaths(Loader(fs), RootPaths(fs, dirs), searchTerms);
      var acc: seq<Parsed> := [];
      var i := 0;
      assert dirs[i..] == dirs;
      PrependNothing(total);
      while i < |dirs|
        invariant 0 <= i <= |dirs|
        invariant total == Prepend(acc, ScanPaths(Loader(fs), RootPaths(fs, dirs[i..]), searchTerms))
      {
        ghost var later := RootPaths(fs, dirs[i + 1..]);
        RootPathsStep(fs, dirs, i);
        var found := ScanWalk(fs, Walk(fs, dirs[i]));
        ScanPathsAppend(Loader(fs), WalkPaths(Walk(fs, dirs[i])), later, searchTerms);
        if found.Failure? {
          return Failure(found.error);
        }
        PrependTwice(acc, found.value, ScanPaths(Loader(fs), later, searchTerms));
        acc := acc + found.value;
        i := i + 1;
      }
      assert dirs[i..] == [];
      assert acc + [] == acc;
      r := Success(acc);
    }

    /** The loop of `get` over one `os.walk`: directory by directory, in
        walk order. */
    method ScanWalk(fs: FileSystem, steps: seq<WalkStep>) returns (r: Result<seq<Parsed>, ScanError>)
      ensures r == ScanPaths(Loader(fs), WalkPaths(steps), searchTerms)
    {
      ghost var total := ScanPaths(Loader(fs), WalkPaths(steps), searchTerms);
      var acc: seq<Parsed> := [];
      var j := 0;
      assert steps[j..] == steps;
      PrependNothing(total);
      while j < |steps|
        invariant 0 <= j <= |steps|
        invariant total == Prepend(acc, ScanPaths(Loader(fs), WalkPaths(steps[j..]), searchTerms))
      {
        ghost var after := WalkPaths(steps[j + 1..]);
        WalkPathsStep(steps, j);
        var found := ScanDirectory(fs, steps[j].dirpath, steps[j].files);
        ScanPathsAppend(Loader(fs), DesktopPaths(steps[j].dirpath, steps[j].files), after, searchTerms);
        if found.Failure? {
          return Failure(found.error);
        }
        PrependTwice(acc, found.value, ScanPaths(Loader(fs), after, searchTerms));
        acc := acc + found.value;
        j := j + 1;
      }
      assert steps[j..] == [];
      assert acc + [] == acc;
      r := Success(acc);
    }

    /** The innermost loop of `get`: the files of one directory, in listing
        order; an unreadable or section-less `.desktop` file ends the scan. */
    method ScanDirectory(fs: FileSystem, dirpath: string, files: seq<string>)
      returns (r: Result<seq<Parsed>, ScanError>)
      ensures r == ScanPaths(Loader(fs), DesktopPaths(dirpath, files), searchTerms)
    {
      ghost var total := ScanPaths(Loader(fs), DesktopPaths(dirpath, files), searchTerms);
      var acc: seq<Parsed> := [];
      var k := 0;
      assert files[k..] == files;
      PrependNothing(total);
      while k < |files|
        invariant 0 <= k <= |files|
        invariant total == Prepend(acc, ScanPaths(Loader(fs), DesktopPaths(dirpath, files[k..]), searchTerms))
      {
        var file := files[k];
        ghost var rest := DesktopPaths(dirpath, files[k + 1..]);
        DesktopPathsStep(dirpath, files, k);
        if EndsWith(file, ".desktop") {
          var path := Join(dirpath, file);
          ScanPathsCons(Loader(fs), path, rest, searchTerms);
          if path !in fs.contents {
            return Failure(Unreadable(path));
          }
          var parsed := ParseDesktopFile(fs, fs.contents[path]);
          if parsed.Failure? {
            return Failure(EmptyDocument(path));
          }
          var kept: seq<Parsed> := if Keep(parsed.value, searchTerms) then [parsed.value] else [];
          PrependTwice(acc, kept, ScanPaths(Loader(fs), rest, searchTerms));
          acc := acc + kept;
        }
        k := k + 1;
      }
      assert files[k..] == [];
      assert acc + [] == acc;
      r := Success(acc);
    }
  }

  lemma ScanPathsCons(load: string -> Result<Parsed, ScanError>, p: string, rest: seq<string>, terms: seq<string>)
    ensures load(p).Failure? ==> ScanPaths(load, [p] + rest, terms) == Failure(load(p).error)
    ensures load(p).Success? ==>
              var d := load(p).value;
              ScanPaths(load, [p] + rest, terms) == Prepend(if Keep(d, terms) then [d] else [], ScanPaths(load, rest, terms))
  {
    assert ([p] + rest)[0] == p && ([p] + rest)[1..] == rest;
  }

  /** One section of the loop of `parse_desktop_file`. */
  lemma ActionEntriesStep(fs: FileSystem, sections: seq<string>, i: nat)
    requires i < |sections|
    ensures ActionEntries(fs, sections[i..])
            == (if IsActionHeader(sections[i]) then [ParseSection(fs, sections[i])] else [])
               + ActionEntries(fs, sections[i + 1..])
  {
    assert sections[i..][0] == sections[i] && sections[i..][1..] == sections[i + 1..];
  }

  lemma RootPathsStep(fs: FileSystem, dirs: seq<string>, i: nat)
    requires i < |dirs|
    ensures RootPaths(fs, dirs[i..]) == WalkPaths(Walk(fs, dirs[i])) + RootPaths(fs, dirs[i + 1..])
  {
    assert dirs[i..][0] == dirs[i] && dirs[i..][1..] == dirs[i + 1..];
  }

  lemma WalkPathsStep(steps: seq<WalkStep>, j: nat)
    requires j < |steps|
    ensures WalkPaths(steps[j..]) == DesktopPaths(steps[j].dirpath, steps[j].files) + WalkPaths(steps[j + 1..])
  {
    assert steps[j..][0] == steps[j] && steps[j..][1..] == steps[j + 1..];
  }

  /** One file of the innermost loop: a `.desktop` file is the next path
      scanned, any other file is skipped. */
  lemma DesktopPathsStep(dirpath: string, files: seq<string>, k: nat)
    requires k < |files|
    ensures var rest := DesktopPaths(dirpath, files[k + 1..]);
            DesktopPaths(dirpath, files[k..])
            == if EndsWith(files[k], ".desktop") then [Join(dirpath, files[k])] + rest else rest
  {
    assert files[k..][0] == files[k] && files[k..][1..] == files[k + 1..];
  }

  lemma PrependNothing(r: Result<seq<Parsed>, ScanError>)
    ensures Prepend([], r) == r
  {
    if r.Success? {
      assert [] + r.value == r.value;
    }
  }

  lemma PrependTwice(a: seq<Parsed>, b: seq<Parsed>, r: Result<seq<Parsed>, ScanError>)
    ensures Prepend(a, Prepend(b, r)) == Prepend(a + b, r)
  {
    if r.Success? {
      assert a + (b + r.value) == (a + b) + r.value;
    }
  }
}
