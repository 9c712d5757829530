/** The parts of Go's `strings` package that the front-matter parser relies on, over
    `string` = `seq<char>` (one `char` per decoded rune). */
module GoStrings {

  /** Go's `unicode.IsSpace`: the ASCII white space, U+0085, U+00A0 and the Unicode
      White_Space characters above Latin-1. */
  predicate IsSpace(c: char) {
    c == ' ' || c == '\t' || c == '\n' || c == '\r' || c == '\U{B}' || c == '\U{C}'
    || c == '\U{85}' || c == '\U{A0}' || c == '\U{1680}'
    || ('\U{2000}' <= c <= '\U{200A}')
    || c == '\U{2028}' || c == '\U{2029}' || c == '\U{202F}' || c == '\U{205F}' || c == '\U{3000}'
  }

  /** All characters of `s` are white space. */
  predicate AllSpace(s: string) {
    forall k :: 0 <= k < |s| ==> IsSpace(s[k])
  }

  /** `s` with its leading white space removed. */
  function TrimLeftSpace(s: string): string {
    if s == [] || !IsSpace(s[0]) then s else TrimLeftSpace(s[1..])
  }

  /** `s` with its trailing white space removed. */
  function TrimRightSpace(s: string): string {
    if s == [] || !IsSpace(s[|s| - 1]) then s else TrimRightSpace(s[..|s| - 1])
  }

  /** `TrimLeftSpace` cuts off a run of white space and stops at the first other
      character. */
  lemma {:induction false} TrimLeftSpaceSpec(s: string)
    ensures var r := TrimLeftSpace(s);
            (r == [] || !IsSpace(r[0])) && |r| <= |s| && s[|s| - |r|..] == r && AllSpace(s[..|s| - |r|])
  {
    if s != [] && IsSpace(s[0]) {
      var t := s[1..];
      TrimLeftSpaceSpec(t);
      var r := TrimLeftSpace(t);
      var n := |t| - |r|;
      assert TrimLeftSpace(s) == r;
      assert s[n + 1..] == t[n..];
      assert s[..n + 1] == [s[0]] + t[..n];
      AllSpaceCons(s[0], t[..n]);
    }
  }

  lemma AllSpaceCons(c: char, s: string)
    requires IsSpace(c) && AllSpace(s)
    ensures AllSpace([c] + s)
  {
    assert forall k :: 0 < k < |[c] + s| ==> ([c] + s)[k] == s[k - 1];
  }

  lemma AllSpaceSnoc(s: string, c: char)
    requires AllSpace(s) && IsSpace(c)
    ensures AllSpace(s + [c])
  {
    assert forall k :: 0 <= k < |s| ==> (s + [c])[k] == s[k];
  }

  /** `TrimRightSpace` cuts off a run of white space and stops at the last other
      character. */
  lemma {:induction false} TrimRightSpaceSpec(s: string)
    ensures var r := TrimRightSpace(s);
            (r == [] || !IsSpace(r[|r| - 1])) && |r| <= |s| && s[..|r|] == r && AllSpace(s[|r|..])
  {
    if s != [] && IsSpace(s[|s| - 1]) {
      var t := s[..|s| - 1];
      TrimRightSpaceSpec(t);
      var r := TrimRightSpace(t);
      assert TrimRightSpace(s) == r;
      assert t[..|r|] == s[..|r|];
      assert s[|r|..] == t[|r|..] + [s[|s| - 1]];
      AllSpaceSnoc(t[|r|..], s[|s| - 1]);
    }
  }

  /** Go's `strings.TrimSpace`: the result neither starts nor ends with white space. */
  function TrimSpace(s: string): (r: string)
    ensures r == [] || (!IsSpace(r[0]) && !IsSpace(r[|r| - 1]))
  {
    var l := TrimLeftSpace(s);
    TrimLeftSpaceSpec(s);
    TrimRightSpaceSpec(l);
    var r := TrimRightSpace(l);
    assert r != [] ==> r[0] == l[0];
    r
  }

  /** What `TrimSpace` keeps is an infix of `s`, and only white space is cut off on
      either side. */
  lemma TrimSpaceInfix(s: string) returns (i: nat)
    ensures i + |TrimSpace(s)| <= |s| && s[i..i + |TrimSpace(s)|] == TrimSpace(s)
    ensures AllSpace(s[..i]) && AllSpace(s[i + |TrimSpace(s)|..])
  {
    var l := TrimLeftSpace(s);
    var r := TrimRightSpace(l);
    TrimLeftSpaceSpec(s);
    TrimRightSpaceSpec(l);
    i := |s| - |l|;
    assert s[i..i + |r|] == l[..|r|];
    assert s[i + |r|..] == l[|r|..];
  }

  /** All characters of `s` are `c`. */
  predicate AllChar(s: string, c: char) {
    forall k :: 0 <= k < |s| ==> s[k] == c
  }

  lemma AllCharCons(c: char, s: string)
    requires AllChar(s, c)
    ensures AllChar([c] + s, c)
  {
    assert forall k :: 0 < k < |[c] + s| ==> ([c] + s)[k] == s[k - 1];
  }

  lemma AllCharSnoc(s: string, c: char)
    requires AllChar(s, c)
    ensures AllChar(s + [c], c)
  {
    assert forall k :: 0 <= k < |s| ==> (s + [c])[k] == s[k];
  }

  /** `s` with every leading copy of `c` removed. */
  function TrimLeftChar(s: string, c: char): string {
    if s == [] || s[0] != c then s else TrimLeftChar(s[1..], c)
  }

  /** `s` with every trailing copy of `c` removed. */
  function TrimRightChar(s: string, c: char): string {
    if s == [] || s[|s| - 1] != c then s else TrimRightChar(s[..|s| - 1], c)
  }

  lemma {:induction false} TrimLeftCharSpec(s: string, c: char)
    ensures var r := TrimLeftChar(s, c);
            (r == [] || r[0] != c) && |r| <= |s| && s[|s| - |r|..] == r && AllChar(s[..|s| - |r|], c)
  {
    if s != [] && s[0] == c {
      var t := s[1..];
      TrimLeftCharSpec(t, c);
      var r := TrimLeftChar(t, c);
      var n := |t| - |r|;
      assert TrimLeftChar(s, c) == r;
      assert s[n + 1..] == t[n..];
      assert s[..n + 1] == [c] + t[..n];
      AllCharCons(c, t[..n]);
    }
  }

  lemma {:induction false} TrimRightCharSpec(s: string, c: char)
    ensures var r := TrimRightChar(s, c);
            (r == [] || r[|r| - 1] != c) && |r| <= |s| && s[..|r|] == r && AllChar(s[|r|..], c)
  {
    if s != [] && s[|s| - 1] == c {
      var t := s[..|s| - 1];
      TrimRightCharSpec(t, c);
      var r := TrimRightChar(t, c);
      assert TrimRightChar(s, c) == r;
      assert t[..|r|] == s[..|r|];
      assert s[|r|..] == t[|r|..] + [c];
      AllCharSnoc(t[|r|..], c);
    }
  }

  /** Go's `strings.Trim(s, cutset)` for a one-character cut set: all leading and all
      trailing copies of `c` are removed, not just one layer. */
  function TrimChar(s: string, c: char): (r: string)
    ensures r == [] || (r[0] != c && r[|r| - 1] != c)
  {
    var l := TrimLeftChar(s, c);
    TrimLeftCharSpec(s, c);
    TrimRightCharSpec(l, c);
    var r := TrimRightChar(l, c);
    assert r != [] ==> r[0] == l[0];
    r
  }

  /** What `TrimChar` keeps is an infix of `s`, and only copies of `c` are cut off on
      either side. */
  lemma TrimCharInfix(s: string, c: char) returns (i: nat)
    ensures i + |TrimChar(s, c)| <= |s| && s[i..i + |TrimChar(s, c)|] == TrimChar(s, c)
    ensures AllChar(s[..i], c) && AllChar(s[i + |TrimChar(s, c)|..], c)
  {
    var l := TrimLeftChar(s, c);
    var r := TrimRightChar(l, c);
    TrimLeftCharSpec(s, c);
    TrimRightCharSpec(l, c);
    i := |s| - |l|;
    assert s[i..i + |r|] == l[..|r|];
    assert s[i + |r|..] == l[|r|..];
  }

  /** Go's `strings.Index(s, string(c))`: the first position of `c`, or -1. */
  function IndexOf(s: string, c: char): (r: int)
    ensures -1 <= r < |s|
    ensures r == -1 <==> c !in s
    ensures 0 <= r ==> s[r] == c && c !in s[..r]
  {
    if s == [] then -1
    else if s[0] == c then 0
    else
      var k := IndexOf(s[1..], c);
      if k == -1 then -1
      else
        assert s[..k + 1] == [s[0]] + s[1..][..k];
        k + 1
  }

  /** Go's `strings.Split(s, string(sep))`: the maximal `sep`-free pieces of `s`, always
      at least one. */
  function Split(s: string, sep: char): (r: seq<string>)
    ensures |r| >= 1
    ensures forall k :: 0 <= k < |r| ==> sep !in r[k]
    decreases |s|
  {
    var k := IndexOf(s, sep);
    if k == -1 then [s] else [s[..k]] + Split(s[k + 1..], sep)
  }

  /** Go's `strings.Join(lines, string(sep))`. */
  function Join(lines: seq<string>, sep: char): string {
    if |lines| == 0 then ""
    else if |lines| == 1 then lines[0]
    else lines[0] + [sep] + Join(lines[1..], sep)
  }

  /** A sequence is what comes before position `k`, the element there, and the rest. */
  lemma Around<T>(s: seq<T>, k: int)
    requires 0 <= k < |s|
    ensures s == s[..k] + [s[k]] + s[k + 1..]
  {
  }

  /** A line in front of at least one other is followed by `sep`. */
  lemma JoinCons(a: string, rest: seq<string>, sep: char)
    requires |rest| >= 1
    ensures Join([a] + rest, sep) == a + [sep] + Join(rest, sep)
  {
    assert ([a] + rest)[1..] == rest;
  }

  /** Joining the pieces of a split gives back the text. */
  lemma {:induction false} JoinSplit(s: string, sep: char)
    ensures Join(Split(s, sep), sep) == s
    decreases |s|
  {
    var k := IndexOf(s, sep);
    if k != -1 {
      var rest := Split(s[k + 1..], sep);
      assert Split(s, sep) == [s[..k]] + rest;
      JoinSplit(s[k + 1..], sep);
      JoinCons(s[..k], rest, sep);
      Around(s, k);
    }
  }

  /** Splitting a join of `sep`-free lines gives back the lines. */
  lemma {:induction false} SplitJoin(lines: seq<string>, sep: char)
    requires |lines| >= 1
    requires forall k :: 0 <= k < |lines| ==> sep !in lines[k]
    ensures Split(Join(lines, sep), sep) == lines
  {
    if |lines| > 1 {
      var tail := Join(lines[1..], sep);
      assert Join(lines, sep) == lines[0] + [sep] + tail;
      SplitAfterPrefix(lines[0], sep, tail);
      SplitJoin(lines[1..], sep);
      assert lines == [lines[0]] + lines[1..];
    }
  }

  /** Two lists of `sep`-free lines concatenate to one. */
  lemma SepFreeConcat(a: seq<string>, b: seq<string>, sep: char)
    requires forall k :: 0 <= k < |a| ==> sep !in a[k]
    requires forall k :: 0 <= k < |b| ==> sep !in b[k]
    ensures forall k :: 0 <= k < |a + b| ==> sep !in (a + b)[k]
  {
    forall k | 0 <= k < |a + b| ensures sep !in (a + b)[k] {
      if k < |a| {
        assert (a + b)[k] == a[k];
      } else {
        assert (a + b)[k] == b[k - |a|];
      }
    }
  }

  /** A `sep`-free prefix followed by `sep` is the first piece of the split. */
  lemma SplitAfterPrefix(a: string, sep: char, b: string)
    requires sep !in a
    ensures Split(a + [sep] + b, sep) == [a] + Split(b, sep)
  {
    var s := a + [sep] + b;
    assert s[|a|] == sep;
    assert s[..|a|] == a;
    assert IndexOf(s, sep) == |a|;
    assert s[|a| + 1..] == b;
  }

  /** A string without white space at either end is its own trim. */
  lemma TrimSpaceKeeps(s: string)
    requires s == [] || (!IsSpace(s[0]) && !IsSpace(s[|s| - 1]))
    ensures TrimSpace(s) == s
  {
  }

  /** One white-space character in front of a string without white space at either
      end is trimmed away. */
  lemma TrimSpaceAfterSpace(c: char, s: string)
    requires IsSpace(c) && s != [] && !IsSpace(s[0]) && !IsSpace(s[|s| - 1])
    ensures TrimSpace([c] + s) == s
  {
    assert ([c] + s)[1..] == s;
    assert TrimLeftSpace([c] + s) == TrimLeftSpace(s) == s;
    assert TrimRightSpace(s) == s;
  }

  /** A string that neither starts nor ends with `c` is left as it is by `TrimChar`. */
  lemma TrimCharKeeps(s: string, c: char)
    requires s != [] && s[0] != c && s[|s| - 1] != c
    ensures TrimChar(s, c) == s
  {
    assert TrimLeftChar(s, c) == s;
  }

  /** A value wrapped in one `c` on each side, and not itself starting or ending with
      `c`, loses exactly the wrapping. */
  lemma TrimCharWrapped(v: string, c: char)
    requires v == [] || (v[0] != c && v[|v| - 1] != c)
    ensures TrimChar([c] + v + [c], c) == v
  {
    var s := [c] + v + [c];
    assert s[1..] == v + [c];
    if v == [] {
      assert (v + [c])[1..] == [];
      assert TrimLeftChar(s, c) == TrimLeftChar(v + [c], c) == TrimLeftChar([], c) == [];
    } else {
      assert (v + [c])[..|v|] == v;
      assert TrimLeftChar(s, c) == TrimLeftChar(v + [c], c) == v + [c];
      assert TrimRightChar(v + [c], c) == TrimRightChar(v, c) == v;
    }
  }

  /** The first `c` of `a + [c] + b` is the one after `a` when `a` holds none. */
  lemma IndexOfAfter(a: string, c: char, b: string)
    requires c !in a
    ensures IndexOf(a + [c] + b, c) == |a|
  {
    var s := a + [c] + b;
    assert s[|a|] == c && s[..|a|] == a;
  }
}
