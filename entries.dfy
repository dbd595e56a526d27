/** Parsing one `.desktop` document: the split into sections, the three
    line patterns for `Name`, `Exec` and `Icon`, one section's record, and
    the whole document's main entry and actions. */
module Entries {
  import opened Wrappers
  import opened Text
  import opened Paths
  import opened Icons

  /** One section's record. `icon` is the resolved path, not the name. */
  datatype Entry = Entry(name: Option<string>, exec: Option<string>, icon: Option<string>)

  /** A parsed document: `{'Main Entry': ..., 'Actions': [...]}`. */
  datatype Parsed = Parsed(main: Entry, actions: seq<Entry>)

  /** The only way parsing fails: no section survives, so `sections[0]`
      raises `IndexError`. */
  datatype ParseError = NoSections

  // ---------------------------------------------------------------------
  // re.split(r'\n\[', text)

  /** `s` contains the separator `"\n["`. */
  predicate HasSep(s: string)
    decreases |s|
  {
    |s| >= 2 && ((s[0] == '\n' && s[1] == '[') || HasSep(s[1..]))
  }

  /** The pieces of `s` between the non-overlapping occurrences of
      `"\n["`, left to right. */
  function SplitSections(s: string): (r: seq<string>)
    ensures |r| >= 1
    ensures |r[0]| <= |s| && r[0] == s[..|r[0]|]
    decreases |s|
  {
    if |s| < 2 then [s]
    else if s[0] == '\n' && s[1] == '[' then [""] + SplitSections(s[2..])
    else
      var rest := SplitSections(s[1..]);
      [[s[0]] + rest[0]] + rest[1..]
  }

  /** `"\n[".join(pieces)`. */
  function JoinSections(pieces: seq<string>): string
    requires |pieces| >= 1
  {
    if |pieces| == 1 then pieces[0] else pieces[0] + "\n[" + JoinSections(pieces[1..])
  }

  /** Splitting loses nothing but the separators, and no piece still holds
      one. */
  lemma {:induction false} SplitSectionsJoin(s: string)
    ensures JoinSections(SplitSections(s)) == s
    ensures forall k :: 0 <= k < |SplitSections(s)| ==> !HasSep(SplitSections(s)[k])
    decreases |s|
  {
    SplitSectionsRejoin(s);
    SplitSectionsPieces(s);
  }

  lemma {:induction false} SplitSectionsRejoin(s: string)
    ensures JoinSections(SplitSections(s)) == s
    decreases |s|
  {
    if |s| >= 2 {
      if s[0] == '\n' && s[1] == '[' {
        SplitSectionsRejoin(s[2..]);
        RejoinAfterSep(s);
      } else {
        SplitSectionsRejoin(s[1..]);
        RejoinAfterChar(s);
      }
    }
  }

  lemma RejoinAfterSep(s: string)
    requires |s| >= 2 && s[0] == '\n' && s[1] == '['
    requires JoinSections(SplitSections(s[2..])) == s[2..]
    ensures JoinSections(SplitSections(s)) == s
  {
    var r := SplitSections(s);
    assert r == [""] + SplitSections(s[2..]);
    assert r[1..] == SplitSections(s[2..]);
    assert JoinSections(r) == "" + "\n[" + s[2..];
    assert s == "\n[" + s[2..];
  }

  lemma RejoinAfterChar(s: string)
    requires |s| >= 2 && !(s[0] == '\n' && s[1] == '[')
    requires JoinSections(SplitSections(s[1..])) == s[1..]
    ensures JoinSections(SplitSections(s)) == s
  {
    var rest := SplitSections(s[1..]);
    assert SplitSections(s) == [[s[0]] + rest[0]] + rest[1..];
    JoinConsFirst(s[0], rest);
    assert s == [s[0]] + s[1..];
  }

  /** Putting a character in front of the first piece puts it in front of
      the joined text. */
  lemma JoinConsFirst(c: char, pieces: seq<string>)
    requires |pieces| >= 1
    ensures JoinSections([[c] + pieces[0]] + pieces[1..]) == [c] + JoinSections(pieces)
  {
    var r := [[c] + pieces[0]] + pieces[1..];
    if |pieces| > 1 {
      assert r[1..] == pieces[1..];
      ConcatAssoc([c], pieces[0], "\n[", JoinSections(pieces[1..]));
    }
  }

  lemma {:induction false} SplitSectionsPieces(s: string)
    ensures forall k :: 0 <= k < |SplitSections(s)| ==> !HasSep(SplitSections(s)[k])
    decreases |s|
  {
    var r := SplitSections(s);
    if |s| < 2 {
    } else if s[0] == '\n' && s[1] == '[' {
      SplitSectionsPieces(s[2..]);
      assert r == [""] + SplitSections(s[2..]);
      forall k | 1 <= k < |r| ensures !HasSep(r[k]) {
        assert r[k] == SplitSections(s[2..])[k - 1];
      }
    } else {
      var rest := SplitSections(s[1..]);
      SplitSectionsPieces(s[1..]);
      var first := [s[0]] + rest[0];
      assert r == [first] + rest[1..];
      assert !HasSep(first) by {
        assert first[1..] == rest[0];
        if |rest[0]| >= 1 {
          assert rest[0][0] == s[1];
        }
      }
      forall k | 1 <= k < |r| ensures !HasSep(r[k]) {
        assert r[k] == rest[k];
      }
    }
  }

  /** A piece without the separator, followed by the separator, splits off
      as exactly that piece. */
  lemma {:induction false} SplitAfterPiece(a: string, rest: string)
    requires !HasSep(a)
    ensures SplitSections(a + "\n[" + rest) == [a] + SplitSections(rest)
    decreases |a|
  {
    if a == [] {
      assert a + "\n[" + rest == "\n[" + rest;
      SplitAtSep(rest);
    } else {
      assert !HasSep(a[1..]);
      SplitAfterPiece(a[1..], rest);
      SplitAfterChar(a, rest);
    }
  }

  lemma SplitAtSep(rest: string)
    ensures SplitSections("\n[" + rest) == [""] + SplitSections(rest)
  {
    assert ("\n[" + rest)[2..] == rest;
  }

  /** One more character in front of a separator-free first piece. */
  lemma SplitAfterChar(a: string, rest: string)
    requires a != [] && !HasSep(a)
    requires SplitSections(a[1..] + "\n[" + rest) == [a[1..]] + SplitSections(rest)
    ensures SplitSections(a + "\n[" + rest) == [a] + SplitSections(rest)
  {
    var t := a[1..] + "\n[" + rest;
    assert a + "\n[" + rest == [a[0]] + t;
    assert |a| >= 2 ==> t[0] == a[1];
    assert |a| == 1 ==> t[0] == '\n';
    SplitConsChar(a[0], t);
    assert ([a[1..]] + SplitSections(rest))[1..] == SplitSections(rest);
    HeadTail(a);
  }

  /** A character that does not open a separator joins the first piece. */
  lemma SplitConsChar(c: char, t: string)
    requires !(c == '\n' && t != [] && t[0] == '[')
    ensures SplitSections([c] + t) == [[c] + SplitSections(t)[0]] + SplitSections(t)[1..]
  {
    assert ([c] + t)[1..] == t;
  }

  /** A string without the separator is one piece. */
  lemma {:induction false} SplitNoSep(a: string)
    requires !HasSep(a)
    ensures SplitSections(a) == [a]
    decreases |a|
  {
    if |a| >= 2 {
      assert !HasSep(a[1..]);
      SplitNoSep(a[1..]);
      assert [a[0]] + a[1..] == a;
    }
  }

  /** Splitting undoes joining when no piece holds the separator. */
  lemma {:induction false} JoinSectionsSplit(pieces: seq<string>)
    requires |pieces| >= 1
    requires forall k :: 0 <= k < |pieces| ==> !HasSep(pieces[k])
    ensures SplitSections(JoinSections(pieces)) == pieces
  {
    if |pieces| == 1 {
      SplitNoSep(pieces[0]);
    } else {
      JoinSectionsSplit(pieces[1..]);
      SplitAfterPiece(pieces[0], JoinSections(pieces[1..]));
    }
  }

  // ---------------------------------------------------------------------
  // ['[' + s for s in pieces if s.strip()]

  function Bracketed(pieces: seq<string>): (r: seq<string>)
    ensures |r| <= |pieces|
    ensures r == [] <==> AllBlank(pieces)
  {
    if pieces == [] then []
    else
      var tail := Bracketed(pieces[1..]);
      assert forall k :: 1 <= k < |pieces| ==> pieces[k] == pieces[1..][k - 1];
      if IsBlank(pieces[0]) then tail
      else ["[" + pieces[0]] + tail
  }

  /** Each section opens with `[` followed by a non-blank piece. */
  lemma {:induction false} BracketedShape(pieces: seq<string>)
    ensures forall k :: 0 <= k < |Bracketed(pieces)| ==> SectionShaped(Bracketed(pieces)[k])
  {
    if pieces != [] {
      BracketedShape(pieces[1..]);
      var tail := Bracketed(pieces[1..]);
      var r := Bracketed(pieces);
      if IsBlank(pieces[0]) {
        assert r == tail;
      } else {
        assert r == ["[" + pieces[0]] + tail;
        assert ("[" + pieces[0])[1..] == pieces[0];
        forall k | 0 <= k < |r| ensures SectionShaped(r[k]) {
          if k > 0 {
            assert r[k] == tail[k - 1];
          }
        }
      }
    }
  }

  /** A section: `[` followed by a non-blank piece. */
  predicate SectionShaped(s: string) {
    |s| >= 1 && s[0] == '[' && !IsBlank(s[1..])
  }

  /** Every piece is blank: `s.strip()` drops it. */
  predicate AllBlank(pieces: seq<string>) {
    forall k :: 0 <= k < |pieces| ==> IsBlank(pieces[k])
  }

  /** The sections of a document, each starting with `[`. */
  function Sections(content: string): seq<string> {
    Bracketed(SplitSections(content))
  }

  // ---------------------------------------------------------------------
  // The three line patterns (re.MULTILINE: one line at a time)

  /** The lines of `s`: the pieces between its `'\n'` characters. */
  function Lines(s: string): (r: seq<string>)
    ensures |r| >= 1
    ensures |r[0]| <= |s| && r[0] == s[..|r[0]|]
    decreases |s|
  {
    if s == [] then [""]
    else if s[0] == '\n' then [""] + Lines(s[1..])
    else
      var rest := Lines(s[1..]);
      [[s[0]] + rest[0]] + rest[1..]
  }

  /** No line holds a newline. */
  lemma {:induction false} LinesHaveNoNewline(s: string)
    ensures forall k :: 0 <= k < |Lines(s)| ==> '\n' !in Lines(s)[k]
    decreases |s|
  {
    if s != [] {
      LinesHaveNoNewline(s[1..]);
      var rest := Lines(s[1..]);
      if s[0] != '\n' {
        assert forall k :: 1 <= k < |Lines(s)| ==> Lines(s)[k] == rest[k];
      } else {
        assert forall k :: 1 <= k < |Lines(s)| ==> Lines(s)[k] == rest[k - 1];
      }
    }
  }

  /** `"\n".join(ls)`. */
  function JoinLines(ls: seq<string>): string
    requires |ls| >= 1
  {
    if |ls| == 1 then ls[0] else ls[0] + "\n" + JoinLines(ls[1..])
  }

  /** The lines make up the section: rejoined with newlines they give it
      back, so every line of the section is seen by the patterns. */
  lemma {:induction false} LinesJoin(s: string)
    ensures JoinLines(Lines(s)) == s
    decreases |s|
  {
    if s != [] {
      LinesJoin(s[1..]);
      var rest := Lines(s[1..]);
      if s[0] == '\n' {
        assert Lines(s)[1..] == rest;
        HeadTail(s);
      } else if |rest| == 1 {
        HeadTail(s);
      } else {
        assert Lines(s)[1..] == rest[1..];
        ConcatAssoc([s[0]], rest[0], "\n", JoinLines(rest[1..]));
        HeadTail(s);
      }
    }
  }

  /** And the other way: newline-free lines joined with newlines split back
      into exactly those lines. */
  lemma {:induction false} JoinLinesSplit(ls: seq<string>)
    requires |ls| >= 1
    requires forall k :: 0 <= k < |ls| ==> '\n' !in ls[k]
    ensures Lines(JoinLines(ls)) == ls
    decreases |JoinLines(ls)|
  {
    if |ls| == 1 {
      LinesOfLine(ls[0]);
    } else {
      var tail := JoinLines(ls[1..]);
      assert forall k :: 0 <= k < |ls[1..]| ==> ls[1..][k] == ls[k + 1];
      JoinLinesSplit(ls[1..]);
      LinesAfterLine(ls[0], tail);
      HeadTail(ls);
    }
  }

  /** A newline-free string is one line. */
  lemma {:induction false} LinesOfLine(w: string)
    requires '\n' !in w
    ensures Lines(w) == [w]
    decreases |w|
  {
    if w != [] {
      assert w[0] in w;
      assert forall c :: c in w[1..] ==> c in w;
      LinesOfLine(w[1..]);
      HeadTail(w);
    }
  }

  /** A newline-free line followed by a newline splits off first. */
  lemma {:induction false} LinesAfterLine(w: string, t: string)
    requires '\n' !in w
    ensures Lines(w + "\n" + t) == [w] + Lines(t)
    decreases |w|
  {
    var s := w + "\n" + t;
    if w == [] {
      assert s == "\n" + t;
      assert s[1..] == t;
    } else {
      assert w[0] in w;
      assert forall c :: c in w[1..] ==> c in w;
      assert s[0] == w[0] && s[1..] == w[1..] + "\n" + t;
      LinesAfterLine(w[1..], t);
      HeadTail(w);
    }
  }

  /** `^Exec=(.*)$` or `^Icon=(.*)$` on one line: the text after `key=`. */
  function KeyValue(line: string, key: string): (r: Option<string>)
    ensures r.Some? <==> StartsWith(line, key + "=")
    ensures r.Some? ==> line == key + "=" + r.value
  {
    if StartsWith(line, key + "=") then
      assert line == line[..|key| + 1] + line[|key| + 1..];
      Some(line[|key| + 1..])
    else None
  }

  /** The index of the last `"]="` in `s`, or -1. */
  function LastCloseEq(s: string): (j: int)
    ensures -1 <= j < |s| - 1 || j == -1
    ensures j >= 0 ==> s[j] == ']' && s[j + 1] == '='
  {
    LastCloseEqBelow(s, |s|)
  }

  /** The last `"]="` lying wholly within `s[..n]`, or -1. */
  function LastCloseEqBelow(s: string, n: nat): (j: int)
    requires n <= |s|
    ensures -1 <= j < n - 1 || j == -1
    ensures j >= 0 ==> s[j] == ']' && s[j + 1] == '='
    decreases n
  {
    if n < 2 then -1
    else if s[n - 2] == ']' && s[n - 1] == '=' then n - 2
    else LastCloseEqBelow(s, n - 1)
  }

  /** No `"]="` starts after the one `LastCloseEq` returns. */
  lemma LastCloseEqIsLast(s: string)
    ensures forall i :: LastCloseEq(s) < i < |s| - 1 ==> !(s[i] == ']' && s[i + 1] == '=')
  {
    LastCloseEqBelowIsLast(s, |s|);
  }

  lemma {:induction false} LastCloseEqBelowIsLast(s: string, n: nat)
    requires n <= |s|
    ensures forall i :: LastCloseEqBelow(s, n) < i < n - 1 ==> !(s[i] == ']' && s[i + 1] == '=')
    decreases n
  {
    if n >= 2 && !(s[n - 2] == ']' && s[n - 1] == '=') {
      LastCloseEqBelowIsLast(s, n - 1);
    }
  }

  /** `^Name(?:\[.*\])?=(.*)$` on one line. Without a bracket the value
      follows `Name=`; with one, the greedy `.*` makes the value what follows
      the last `]=` of the line. */
  function NameValue(line: string): Option<string> {
    if |line| < 5 || line[..4] != "Name" then None
    else if line[4] == '=' then Some(line[5..])
    else if line[4] == '[' && LastCloseEq(line) >= 5 then Some(line[LastCloseEq(line) + 2..])
    else None
  }

  /** `line` is `Name[...]=v` where `v` holds no `]=` of its own. */
  predicate LocalisedNameLine(line: string, v: string) {
    && |line| >= 7 + |v|
    && line[..5] == "Name["
    && line[|line| - |v| - 2..|line| - |v|] == "]="
    && line[|line| - |v|..] == v
    && LastCloseEq(v) == -1
  }

  /** The shapes of a `Name` line with value `v`: `Name=v`, or a localised
      `Name[...]=v` whose value follows the line's last `]=`. */
  lemma NameValueIff(line: string, v: string)
    ensures NameValue(line) == Some(v) <==> line == "Name=" + v || LocalisedNameLine(line, v)
  {
    if NameValue(line) == Some(v) {
      NameValueShape(line, v);
    }
    if LocalisedNameLine(line, v) {
      LocalisedNameValue(line, v);
    }
    if line == "Name=" + v {
      assert line[..4] == "Name" && line[4] == '=' && line[5..] == v;
    }
  }

  lemma NameValueShape(line: string, v: string)
    requires NameValue(line) == Some(v)
    ensures line == "Name=" + v || LocalisedNameLine(line, v)
  {
    var n := |line|;
    if line[4] == '[' {
      var j := LastCloseEq(line);
      LastCloseEqIsLast(line);
      assert v == line[j + 2..];
      assert j == n - |v| - 2;
      assert line[..5] == line[..4] + [line[4]];
      forall i | 0 <= i < |v| - 1 ensures !(v[i] == ']' && v[i + 1] == '=') {
        assert v[i] == line[j + 2 + i] && v[i + 1] == line[j + 3 + i];
      }
      assert LastCloseEq(v) == -1;
    } else {
      assert line == line[..4] + [line[4]] + line[5..];
    }
  }

  lemma LocalisedNameValue(line: string, v: string)
    requires LocalisedNameLine(line, v)
    ensures NameValue(line) == Some(v)
  {
    var n := |line|;
    var j := n - |v| - 2;
    assert line[..4] == line[..5][..4];
    assert line[4] == line[..5][4];
    assert line[j] == ']' && line[j + 1] == '=' by {
      assert line[j] == line[j..j + 2][0];
      assert line[j + 1] == line[j..j + 2][1];
    }
    LastCloseEqIsLast(v);
    forall i | j < i < n - 1 ensures !(line[i] == ']' && line[i + 1] == '=') {
      if i > j + 1 {
        assert line[i] == v[i - j - 2] && line[i + 1] == v[i - j - 1];
      }
    }
    LastCloseEqIsLast(line);
    assert LastCloseEq(line) == j;
  }

  datatype Field = NameKey | ExecKey | IconKey

  function LineValue(f: Field, line: string): Option<string> {
    match f
    case NameKey => NameValue(line)
    case ExecKey => KeyValue(line, "Exec")
    case IconKey => KeyValue(line, "Icon")
  }

  /** `re.search(...)` over a section: the value on the first line that
      matches the field's pattern. */
  function FirstValue(f: Field, lines: seq<string>): Option<string> {
    if lines == [] then None
    else if LineValue(f, lines[0]).Some? then LineValue(f, lines[0])
    else FirstValue(f, lines[1..])
  }

  /** `lines[i]` is the first line matching the field. */
  predicate FirstLineAt(f: Field, lines: seq<string>, i: int) {
    && 0 <= i < |lines|
    && LineValue(f, lines[i]).Some?
    && forall i' :: 0 <= i' < i ==> LineValue(f, lines[i']).None?
  }

  /** A field's value is the value of the first line matching its pattern,
      and it is absent exactly when no line matches. */
  lemma {:induction false} FirstValueIff(f: Field, lines: seq<string>)
    ensures FirstValue(f, lines).None? <==> forall i :: 0 <= i < |lines| ==> LineValue(f, lines[i]).None?
    ensures forall i :: FirstLineAt(f, lines, i) ==> FirstValue(f, lines) == LineValue(f, lines[i])
  {
    if lines != [] {
      FirstValueIff(f, lines[1..]);
      assert forall i :: 0 < i < |lines| ==> lines[i] == lines[1..][i - 1];
      forall i | FirstLineAt(f, lines, i) ensures FirstValue(f, lines) == LineValue(f, lines[i]) {
        if i > 0 {
          assert FirstLineAt(f, lines[1..], i - 1);
        }
      }
    }
  }

  /** A line that starts with `[` (a group header) matches no field. */
  lemma HeaderMatchesNothing(f: Field, line: string)
    requires |line| >= 1 && line[0] == '['
    ensures LineValue(f, line).None?
  {
  }

  // ---------------------------------------------------------------------
  // parse_section and parse_desktop_file

  /** The record of a section given its lines: the icon is looked up only
      when the `Icon` value is present and non-empty. */
  function EntryOfLines(fs: FileSystem, lines: seq<string>): Entry {
    var iconName := FirstValue(IconKey, lines);
    Entry(
      FirstValue(NameKey, lines),
      FirstValue(ExecKey, lines),
      if iconName.Some? && iconName.value != "" then IconLookup(fs, iconName.value) else None)
  }

  /** An icon asset `<name>.png` in the first icon root resolves: the
      record's icon is that file's path. */
  lemma IconAssetResolved(fs: FileSystem, lines: seq<string>, name: string, dirpath: string)
    requires HasNonDot(name) && '/' !in name
    requires FirstValue(IconKey, lines) == Some(name)
    requires IconDirs(fs.home)[0] in fs.walks
    requires fs.walks[IconDirs(fs.home)[0]] == [WalkStep(dirpath, [name + ".png"])]
    ensures EntryOfLines(fs, lines).icon == Some(Join(dirpath, name + ".png"))
  {
    var file := name + ".png";
    assert '/' !in file by {
      assert forall i :: 0 <= i < |file| ==> file[i] == if i < |name| then name[i] else ".png"[i - |name|];
    }
    IconFileMatchesIff(file, name);
    var steps := Walk(fs, IconDirs(fs.home)[0]);
    assert FirstInFiles(dirpath, [file], Matcher(name)) == Some(Join(dirpath, file));
    assert FirstInWalk(steps, name) == Some(Join(dirpath, file));
  }

  /** `parse_section(section)`. */
  function ParseSection(fs: FileSystem, section: string): Entry {
    EntryOfLines(fs, Lines(section))
  }

  /** A section's header line never supplies a value: the record is that of
      the lines after it. This is why a key on a document's very first line
      is not recognised, since `[` is put in front of it. */
  lemma HeaderLineIgnored(fs: FileSystem, section: string)
    requires |section| >= 1 && section[0] == '['
    ensures ParseSection(fs, section) == EntryOfLines(fs, Lines(section)[1..])
  {
    var lines := Lines(section);
    FirstLineOpensWithBracket(section);
    HeaderMatchesNothing(NameKey, lines[0]);
    HeaderMatchesNothing(ExecKey, lines[0]);
    HeaderMatchesNothing(IconKey, lines[0]);
    SkipSilentLine(fs, lines);
  }

  lemma FirstLineOpensWithBracket(section: string)
    requires |section| >= 1 && section[0] == '['
    ensures |Lines(section)[0]| >= 1 && Lines(section)[0][0] == '['
  {
    var rest := Lines(section[1..]);
    assert Lines(section) == [[section[0]] + rest[0]] + rest[1..];
  }

  /** A first line that supplies no field can be dropped. */
  lemma SkipSilentLine(fs: FileSystem, lines: seq<string>)
    requires |lines| >= 1
    requires LineValue(NameKey, lines[0]).None? && LineValue(ExecKey, lines[0]).None?
    requires LineValue(IconKey, lines[0]).None?
    ensures EntryOfLines(fs, lines) == EntryOfLines(fs, lines[1..])
  {
    assert FirstValue(NameKey, lines) == FirstValue(NameKey, lines[1..]);
    assert FirstValue(ExecKey, lines) == FirstValue(ExecKey, lines[1..]);
    assert FirstValue(IconKey, lines) == FirstValue(IconKey, lines[1..]);
  }

  predicate IsActionHeader(section: string) {
    StartsWith(section, "[Desktop Action")
  }

  /** The records of the sections that are action groups, in order. */
  function ActionEntries(fs: FileSystem, sections: seq<string>): (r: seq<Entry>)
    ensures |r| <= |sections|
  {
    if sections == [] then []
    else (if IsActionHeader(sections[0]) then [ParseSection(fs, sections[0])] else [])
         + ActionEntries(fs, sections[1..])
  }

  /** The actions of consecutive runs of sections are those of each run, in
      order: where an action lands depends only on where its section is. */
  lemma {:induction false} ActionEntriesAppend(fs: FileSystem, a: seq<string>, b: seq<string>)
    ensures ActionEntries(fs, a + b) == ActionEntries(fs, a) + ActionEntries(fs, b)
  {
    if a == [] {
      assert a + b == b;
    } else {
      assert (a + b)[0] == a[0];
      assert (a + b)[1..] == a[1..] + b;
      ActionEntriesAppend(fs, a[1..], b);
      var head := if IsActionHeader(a[0]) then [ParseSection(fs, a[0])] else [];
      AppendAssoc(head, ActionEntries(fs, a[1..]), ActionEntries(fs, b));
    }
  }

  /** One later section: an action group gives its record, any other
      section (`[Desktop Entry]`, `[Foo]`) gives nothing. */
  lemma ActionEntriesOne(fs: FileSystem, section: string)
    ensures IsActionHeader(section) ==> ActionEntries(fs, [section]) == [ParseSection(fs, section)]
    ensures !IsActionHeader(section) ==> ActionEntries(fs, [section]) == []
  {
    assert [section][1..] == [];
  }

  /** Sections that are not action groups, wherever they stand among the
      later sections, contribute nothing. */
  lemma {:induction false} NonActionsSkipped(fs: FileSystem, a: seq<string>, others: seq<string>, b: seq<string>)
    requires forall k :: 0 <= k < |others| ==> !IsActionHeader(others[k])
    ensures ActionEntries(fs, a + others + b) == ActionEntries(fs, a) + ActionEntries(fs, b)
  {
    NoActions(fs, others);
    ActionEntriesAppend(fs, a + others, b);
    ActionEntriesAppend(fs, a, others);
    assert ActionEntries(fs, a) + [] == ActionEntries(fs, a);
  }

  /** A run of sections none of which is an action group gives no action. */
  lemma {:induction false} NoActions(fs: FileSystem, sections: seq<string>)
    requires forall k :: 0 <= k < |sections| ==> !IsActionHeader(sections[k])
    ensures ActionEntries(fs, sections) == []
  {
    if sections != [] {
      assert forall k :: 0 <= k < |sections[1..]| ==> sections[1..][k] == sections[k + 1];
      NoActions(fs, sections[1..]);
    }
  }

  /** `parse_desktop_file(content)`: the first section is the main entry
      whatever its header; later sections count only as actions. */
  function ParseDocument(fs: FileSystem, content: string): Result<Parsed, ParseError> {
    var sections := Sections(content);
    if sections == [] then Failure(NoSections)
    else Success(Parsed(ParseSection(fs, sections[0]), ActionEntries(fs, sections[1..])))
  }

  /** Parsing fails exactly when there is no section, and a parse has
      fewer actions than the document has sections. */
  lemma ParseDocumentShape(fs: FileSystem, content: string)
    ensures ParseDocument(fs, content).Failure? <==> Sections(content) == []
    ensures ParseDocument(fs, content).Success? ==> |ParseDocument(fs, content).value.actions| < |Sections(content)|
  {
    var sections := Sections(content);
    if sections != [] {
      assert |ActionEntries(fs, sections[1..])| <= |sections[1..]|;
    }
  }

  /** Parsing fails exactly when every piece between separators is blank;
      in particular an empty or whitespace-only document fails. */
  lemma ParseFailsIff(fs: FileSystem, content: string)
    ensures ParseDocument(fs, content).Failure? <==>
              AllBlank(SplitSections(content))
    ensures IsBlank(content) ==> ParseDocument(fs, content).Failure?
  {
    assert Sections(content) == Bracketed(SplitSections(content));
    if IsBlank(content) {
      BlankDocumentOnePiece(content);
      assert AllBlank([content]);
    }
  }

  lemma BlankDocumentOnePiece(content: string)
    requires IsBlank(content)
    ensures SplitSections(content) == [content]
  {
    BlankHasNoSep(content);
    SplitNoSep(content);
  }

  lemma {:induction false} BlankHasNoSep(s: string)
    requires IsBlank(s)
    ensures !HasSep(s)
    decreases |s|
  {
    if |s| >= 2 {
      assert s[1] != '[' by { assert IsSpace(s[1]); }
      BlankHasNoSep(s[1..]);
    }
  }

  /** A document made of a main part and `N` parts that open with
      `[Desktop Action` (none holding `"\n["`) parses to the main part's
      record and exactly `N` actions, each the record of its own part, in
      document order. */
  lemma ComposedDocument(fs: FileSystem, main: string, actions: seq<string>)
    requires !IsBlank(main) && !HasSep(main)
    requires forall k :: 0 <= k < |actions| ==>
               !HasSep(actions[k]) && StartsWith(actions[k], "Desktop Action")
    ensures ParseDocument(fs, JoinSections([main] + actions))
            == Success(Parsed(ParseSection(fs, "[" + main),
                              seq(|actions|, k requires 0 <= k < |actions| => ParseSection(fs, "[" + actions[k]))))
  {
    ComposedSections(main, actions);
    ParseOfSections(fs, JoinSections([main] + actions), "[" + main, Bracketed(actions));
    ActionPiecesParse(fs, actions);
  }

  lemma ComposedSections(main: string, actions: seq<string>)
    requires !IsBlank(main) && !HasSep(main)
    requires forall k :: 0 <= k < |actions| ==> !HasSep(actions[k])
    ensures Sections(JoinSections([main] + actions)) == ["[" + main] + Bracketed(actions)
  {
    var pieces := [main] + actions;
    assert forall k :: 0 < k < |pieces| ==> pieces[k] == actions[k - 1];
    JoinSectionsSplit(pieces);
    assert pieces[1..] == actions;
  }

  lemma ParseOfSections(fs: FileSystem, content: string, first: string, rest: seq<string>)
    requires Sections(content) == [first] + rest
    ensures ParseDocument(fs, content) == Success(Parsed(ParseSection(fs, first), ActionEntries(fs, rest)))
  {
    assert Sections(content)[1..] == rest;
  }

  lemma ActionPiecesParse(fs: FileSystem, actions: seq<string>)
    requires forall k :: 0 <= k < |actions| ==> StartsWith(actions[k], "Desktop Action")
    ensures Bracketed(actions) == seq(|actions|, k requires 0 <= k < |actions| => "[" + actions[k])
    ensures ActionEntries(fs, Bracketed(actions))
            == seq(|actions|, k requires 0 <= k < |actions| => ParseSection(fs, "[" + actions[k]))
  {
    ActionPiecesBracketed(actions);
    var sections := Bracketed(actions);
    forall k | 0 <= k < |sections| ensures IsActionHeader(sections[k]) {
      ActionHeader(actions[k]);
    }
    ActionEntriesAll(fs, sections);
  }

  /** `[` in front of a piece opening with `Desktop Action` is an action
      group header, and the piece is not blank. */
  lemma ActionHeader(a: string)
    requires StartsWith(a, "Desktop Action")
    ensures !IsBlank(a) && IsActionHeader("[" + a)
  {
    assert a[0] == 'D';
    assert ("[" + a)[..15] == "[" + a[..14];
  }

  lemma {:induction false} ActionPiecesBracketed(actions: seq<string>)
    requires forall k :: 0 <= k < |actions| ==> StartsWith(actions[k], "Desktop Action")
    ensures Bracketed(actions) == seq(|actions|, k requires 0 <= k < |actions| => "[" + actions[k])
  {
    if actions != [] {
      ActionHeader(actions[0]);
      ActionPiecesBracketed(actions[1..]);
      assert Bracketed(actions) == ["[" + actions[0]] + Bracketed(actions[1..]);
    }
  }

  /** When every section is an action group, each one gives an action. */
  lemma {:induction false} ActionEntriesAll(fs: FileSystem, sections: seq<string>)
    requires forall k :: 0 <= k < |sections| ==> IsActionHeader(sections[k])
    ensures ActionEntries(fs, sections)
            == seq(|sections|, k requires 0 <= k < |sections| => ParseSection(fs, sections[k]))
  {
    if sections != [] {
      ActionEntriesAll(fs, sections[1..]);
      assert ActionEntries(fs, sections) == [ParseSection(fs, sections[0])] + ActionEntries(fs, sections[1..]);
    }
  }
}
