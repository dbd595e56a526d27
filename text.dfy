/** The few Python `str` operations the launcher relies on, stated over
    `seq<char>`. */
module Text {

  /** `c.isspace()`: the characters Python treats as whitespace in
      `str.strip()` and `str.split()`. */
  predicate IsSpace(c: char) {
    || c == ' '
    || ('\t' <= c <= '\r')
    || ('\U{1c}' <= c <= '\U{1f}')
    || c == '\U{85}' || c == '\U{a0}' || c == '\U{1680}'
    || ('\U{2000}' <= c <= '\U{200a}')
    || c == '\U{2028}' || c == '\U{2029}' || c == '\U{202f}'
    || c == '\U{205f}' || c == '\U{3000}'
  }

  /** `s.strip() == ""`. */
  predicate IsBlank(s: string) {
    forall i :: 0 <= i < |s| ==> IsSpace(s[i])
  }

  predicate NoSpace(s: string) {
    forall i :: 0 <= i < |s| ==> !IsSpace(s[i])
  }

  predicate StartsWith(s: string, prefix: string) {
    |prefix| <= |s| && s[..|prefix|] == prefix
  }

  predicate EndsWith(s: string, suffix: string) {
    |suffix| <= |s| && s[|s| - |suffix|..] == suffix
  }

  /** `t in s` for strings: `t` occurs somewhere in `s` (the empty string
      occurs in every string). */
  predicate Contains(s: string, t: string)
    decreases |s|
  {
    StartsWith(s, t) || (s != [] && Contains(s[1..], t))
  }

  /** `Contains` finds `t` exactly where it starts at some index of `s`. */
  lemma {:induction false} ContainsAt(s: string, t: string, i: nat)
    requires i + |t| <= |s| && s[i..i + |t|] == t
    ensures Contains(s, t)
    decreases i
  {
    if i > 0 {
      assert s[1..][i - 1..i - 1 + |t|] == s[i..i + |t|];
      ContainsAt(s[1..], t, i - 1);
    }
  }

  /** Conversely, when `Contains` holds, `t` starts at some index of `s`. */
  lemma {:induction false} ContainsWhere(s: string, t: string) returns (i: nat)
    requires Contains(s, t)
    ensures i + |t| <= |s| && s[i..i + |t|] == t
    decreases |s|
  {
    if StartsWith(s, t) {
      i := 0;
    } else {
      var i' := ContainsWhere(s[1..], t);
      i := i' + 1;
      assert s[1..][i'..i' + |t|] == s[i..i + |t|];
    }
  }

  /** `c.lower()` for the ASCII letters; every other character is kept. */
  function LowerChar(c: char): (r: char)
    ensures 'A' <= c <= 'Z' ==> r as int == c as int + 32
    ensures !('A' <= c <= 'Z') ==> r == c
  {
    if 'A' <= c <= 'Z' then (c as int + 32) as char else c
  }

  /** `s.lower()`. */
  function Lower(s: string): (r: string)
    ensures |r| == |s|
    ensures forall i :: 0 <= i < |s| ==> r[i] == LowerChar(s[i])
  {
    seq(|s|, i requires 0 <= i < |s| => LowerChar(s[i]))
  }

  /** `[t.lower() for t in ts]`. */
  function LowerAll(ts: seq<string>): (r: seq<string>)
    ensures |r| == |ts|
    ensures forall i :: 0 <= i < |ts| ==> r[i] == Lower(ts[i])
  {
    seq(|ts|, i requires 0 <= i < |ts| => Lower(ts[i]))
  }

  lemma LowerIdempotent(s: string)
    ensures Lower(Lower(s)) == Lower(s)
  {
  }

  // ---------------------------------------------------------------------
  // str.split() with no argument

  /** `s.lstrip()`. */
  function DropSpaces(s: string): (r: string)
    ensures |r| <= |s| && r == s[|s| - |r|..]
    ensures r == [] || !IsSpace(r[0])
    ensures forall i :: 0 <= i < |s| - |r| ==> IsSpace(s[i])
  {
    if s == [] || !IsSpace(s[0]) then s
    else
      var r := DropSpaces(s[1..]);
      assert s[1..][|s| - 1 - |r|..] == s[|s| - |r|..];
      assert forall i :: 1 <= i < |s| - |r| ==> s[i] == s[1..][i - 1];
      r
  }

  /** The longest prefix of `s` without whitespace. */
  function Word(s: string): (w: string)
    ensures |w| <= |s| && w == s[..|w|]
    ensures NoSpace(w)
    ensures |w| < |s| ==> IsSpace(s[|w|])
  {
    if s == [] || IsSpace(s[0]) then [] else [s[0]] + Word(s[1..])
  }

  /** `s.split()`: the maximal runs of non-whitespace characters, in order. */
  function SplitWs(s: string): (r: seq<string>)
    decreases |s|
  {
    var t := DropSpaces(s);
    if t == [] then []
    else
      var w := Word(t);
      [w] + SplitWs(t[|w|..])
  }

  /** `" ".join(ts)`. */
  function JoinSpaced(ts: seq<string>): string {
    if ts == [] then "" else if |ts| == 1 then ts[0] else ts[0] + " " + JoinSpaced(ts[1..])
  }

  /** Every token `split()` returns is non-empty and holds no whitespace. */
  lemma {:induction false} SplitWsTokens(s: string)
    ensures forall k :: 0 <= k < |SplitWs(s)| ==> SplitWs(s)[k] != [] && NoSpace(SplitWs(s)[k])
    decreases |s|
  {
    var t := DropSpaces(s);
    if t != [] {
      var w := Word(t);
      SplitWsTokens(t[|w|..]);
    }
  }

  /** A leading space never changes what `split()` returns. */
  lemma SplitWsSkipsSpace(x: string)
    ensures SplitWs(" " + x) == SplitWs(x)
  {
    assert (" " + x)[1..] == x;
  }

  /** `split()` undoes `" ".join` of tokens that are non-empty and hold no
      whitespace: the tokens come back unchanged and in order. */
  lemma {:induction false} SplitWsJoinSpaced(ts: seq<string>)
    requires forall k :: 0 <= k < |ts| ==> ts[k] != [] && NoSpace(ts[k])
    ensures SplitWs(JoinSpaced(ts)) == ts
  {
    if |ts| == 1 {
      SplitWsOneToken(ts[0]);
    } else if |ts| > 1 {
      assert forall k :: 0 <= k < |ts[1..]| ==> ts[1..][k] == ts[k + 1];
      SplitWsJoinSpaced(ts[1..]);
      SplitWsJoinCons(ts);
    }
  }

  lemma SplitWsOneToken(w: string)
    requires w != [] && NoSpace(w)
    ensures SplitWs(JoinSpaced([w])) == [w]
  {
    assert JoinSpaced([w]) == w;
    SplitWsToken(w, "");
    assert w + "" == w;
    assert SplitWs("") == [];
  }

  lemma SplitWsJoinCons(ts: seq<string>)
    requires |ts| > 1 && ts[0] != [] && NoSpace(ts[0])
    requires SplitWs(JoinSpaced(ts[1..])) == ts[1..]
    ensures SplitWs(JoinSpaced(ts)) == ts
  {
    var head := ts[0];
    var tail := JoinSpaced(ts[1..]);
    assert JoinSpaced(ts) == head + (" " + tail);
    assert IsSpace((" " + tail)[0]);
    SplitWsToken(head, " " + tail);
    SplitWsSkipsSpace(tail);
    HeadTail(ts);
  }

  lemma HeadTail<T>(xs: seq<T>)
    requires xs != []
    ensures [xs[0]] + xs[1..] == xs
  {
  }

  lemma AppendAssoc<T>(a: seq<T>, b: seq<T>, c: seq<T>)
    ensures (a + b) + c == a + (b + c)
  {
  }

  lemma ConcatAssoc<T>(a: seq<T>, b: seq<T>, c: seq<T>, d: seq<T>)
    ensures ((a + b) + c) + d == a + ((b + c) + d)
  {
  }

  /** A token followed by whitespace or nothing is the first thing
      `split()` returns. */
  lemma SplitWsToken(w: string, rest: string)
    requires w != [] && NoSpace(w)
    requires rest == [] || IsSpace(rest[0])
    ensures SplitWs(w + rest) == [w] + SplitWs(rest)
  {
    var s := w + rest;
    assert s[0] == w[0];
    assert DropSpaces(s) == s;
    WordOfToken(w, rest);
    assert s[|w|..] == rest;
  }

  lemma {:induction false} WordOfToken(w: string, rest: string)
    requires w != [] && NoSpace(w)
    requires rest == [] || IsSpace(rest[0])
    ensures Word(w + rest) == w
    decreases |w|
  {
    if |w| == 1 {
      assert (w + rest)[1..] == rest;
    } else {
      assert (w + rest)[1..] == w[1..] + rest;
      WordOfToken(w[1..], rest);
    }
  }
}
