/** The layout shared by the three front-matter parsers: a block of `key: value` lines
    between the first two lines that trim to `---`, followed by the body. */
module FrontMatter {
  import opened Wrappers
  import opened GoStrings
  import opened GoTime

  /** A line that trims to the three-dash marker. */
  predicate IsDelimiter(line: string) {
    TrimSpace(line) == "---"
  }

  /** The first delimiter line at or after `from`, or `|lines|` when there is none. */
  function NextDelimiter(lines: seq<string>, from: nat): (k: nat)
    requires from <= |lines|
    ensures from <= k <= |lines|
    ensures k < |lines| ==> IsDelimiter(lines[k])
    ensures forall j {:trigger IsDelimiter(lines[j])} :: from <= j < k ==> !IsDelimiter(lines[j])
    decreases |lines| - from
  {
    if from == |lines| || IsDelimiter(lines[from]) then from else NextDelimiter(lines, from + 1)
  }

  /** Index of the opening delimiter, or `|lines|`. */
  function Opening(lines: seq<string>): nat
    ensures Opening(lines) <= |lines|
  {
    NextDelimiter(lines, 0)
  }

  /** Index of the closing delimiter, or `|lines|` when the block is not closed. */
  function Closing(lines: seq<string>): (k: nat)
    ensures Opening(lines) <= k <= |lines|
    ensures Opening(lines) < |lines| ==> Opening(lines) < k
  {
    if Opening(lines) == |lines| then |lines| else NextDelimiter(lines, Opening(lines) + 1)
  }

  /** The lines parsed as keys: strictly between the two delimiters, or everything after
      an opening delimiter that is never closed. */
  function Header(lines: seq<string>): seq<string>
  {
    if Opening(lines) == |lines| then [] else lines[Opening(lines) + 1..Closing(lines)]
  }

  /** The lines kept as the body: those after the closing delimiter when there is at
      least one, and otherwise every line of the file. */
  function BodyLines(lines: seq<string>): seq<string>
  {
    if Closing(lines) + 1 < |lines| then lines[Closing(lines) + 1..] else lines
  }

  /** A `key: value` pair of the front matter. */
  datatype Param = Param(key: string, value: string)

  /** The pair on an already trimmed line: the trimmed text before the first colon is
      the key, and the trimmed text after it, with every leading and trailing `"` cut
      off, the value; a line whose first colon is missing or at the start has none. */
  function ParamOf(line: string): Option<Param> {
    var colon := IndexOf(line, ':');
    if colon > 0 then Some(Param(TrimSpace(line[..colon]), TrimChar(TrimSpace(line[colon + 1..]), '"')))
    else None
  }

  /** Only lines with a colon after their first character carry a pair; its key holds
      no colon, and its value neither starts nor ends with `"`. */
  lemma ParamOfShape(line: string)
    ensures ParamOf(line).Some? <==> ':' in line && line[0] != ':'
    ensures ParamOf(line).Some? ==> ':' !in ParamOf(line).value.key
    ensures ParamOf(line).Some? ==>
              var v := ParamOf(line).value.value; v == [] || (v[0] != '"' && v[|v| - 1] != '"')
  {
    var colon := IndexOf(line, ':');
    if colon > 0 {
      var key := TrimSpace(line[..colon]);
      var i := TrimSpaceInfix(line[..colon]);
      forall k | 0 <= k < |key| ensures key[k] != ':' {
        assert key[k] == line[..colon][i + k];
      }
    }
  }

  /** The pair on a raw line, as the parsers see it after `strings.TrimSpace`. */
  function LineParam(line: string): Option<Param> {
    ParamOf(TrimSpace(line))
  }

  predicate HasKey(line: string, key: string) {
    LineParam(line).Some? && LineParam(line).value.key == key
  }

  /** The position of the last element of `s` that satisfies `p`, or -1 when none does. */
  function LastIndex<T>(s: seq<T>, p: T -> bool): (k: int)
    ensures -1 <= k < |s|
    ensures k >= 0 ==> p(s[k])
    ensures forall i :: k < i < |s| ==> !p(s[i])
  {
    if s == [] then -1
    else if p(s[|s| - 1]) then |s| - 1
    else LastIndex(s[..|s| - 1], p)
  }

  /** The value on the last line of `header` whose key is `key`; none when no line has
      that key. */
  function LastValue(header: seq<string>, key: string): Option<string>
  {
    var k := LastIndex(header, line => HasKey(line, key));
    if k < 0 then None else Some(LineParam(header[k]).value.value)
  }

  /** A `date` line whose value is a valid calendar date. */
  predicate HasCalendarDate(line: string) {
    HasKey(line, "date") && IsCalendarDate(LineParam(line).value.value)
  }

  /** The value of the last `date` line of `header` whose value is a valid calendar
      date: invalid dates are passed over. */
  function LastCalendarDate(header: seq<string>): (r: Option<string>)
    ensures r.Some? ==> IsCalendarDate(r.value)
  {
    var k := LastIndex(header, HasCalendarDate);
    if k < 0 then None else Some(LineParam(header[k]).value.value)
  }

  /** The layout of a file whose front matter is complete: lines before the block, the
      opening delimiter, the header lines, the closing delimiter and a non-empty body. */
  lemma BlockLayout(pre: seq<string>, open: string, header: seq<string>, close: string, body: seq<string>)
    requires forall k :: 0 <= k < |pre| ==> !IsDelimiter(pre[k])
    requires forall k :: 0 <= k < |header| ==> !IsDelimiter(header[k])
    requires IsDelimiter(open) && IsDelimiter(close) && |body| >= 1
    ensures var lines := pre + [open] + header + [close] + body;
            Header(lines) == header && BodyLines(lines) == body
  {
    var lines := pre + [open] + header + [close] + body;
    var o := |pre|;
    var c := |pre| + 1 + |header|;
    BlockDelimiters(pre, open, header, close, body);
    assert lines[o + 1..c] == header;
    assert lines[c + 1..] == body;
  }

  /** In that layout the opening and closing delimiters are the first two. */
  lemma BlockDelimiters(pre: seq<string>, open: string, header: seq<string>, close: string, body: seq<string>)
    requires forall k :: 0 <= k < |pre| ==> !IsDelimiter(pre[k])
    requires forall k :: 0 <= k < |header| ==> !IsDelimiter(header[k])
    requires IsDelimiter(open) && IsDelimiter(close) && |body| >= 1
    ensures var lines := pre + [open] + header + [close] + body;
            Opening(lines) == |pre| && Closing(lines) == |pre| + 1 + |header|
  {
    var lines := pre + [open] + header + [close] + body;
    var o := |pre|;
    var c := |pre| + 1 + |header|;
    assert lines[o] == open;
    assert forall k :: 0 <= k < o ==> lines[k] == pre[k];
    assert Opening(lines) == o;
    assert lines[c] == close;
    assert forall k :: o < k < c ==> lines[k] == header[k - o - 1];
  }

  /** The same layout written out as text, one line per element: reading the text back
      gives the header lines and the body lines. */
  lemma BlockText(pre: seq<string>, open: string, header: seq<string>, close: string, body: seq<string>)
    requires forall k :: 0 <= k < |pre| ==> !IsDelimiter(pre[k]) && '\n' !in pre[k]
    requires forall k :: 0 <= k < |header| ==> !IsDelimiter(header[k]) && '\n' !in header[k]
    requires IsDelimiter(open) && IsDelimiter(close) && '\n' !in open && '\n' !in close
    requires |body| >= 1 && forall k :: 0 <= k < |body| ==> '\n' !in body[k]
    ensures var lines := Split(Join(pre + [open] + header + [close] + body, '\n'), '\n');
            Header(lines) == header && BodyLines(lines) == body
  {
    BlockLinesSingle(pre, open, header, close, body);
    SplitJoin(pre + [open] + header + [close] + body, '\n');
    BlockLayout(pre, open, header, close, body);
  }

  lemma BlockLinesSingle(pre: seq<string>, open: string, header: seq<string>, close: string, body: seq<string>)
    requires forall k :: 0 <= k < |pre| ==> '\n' !in pre[k]
    requires forall k :: 0 <= k < |header| ==> '\n' !in header[k]
    requires '\n' !in open && '\n' !in close
    requires forall k :: 0 <= k < |body| ==> '\n' !in body[k]
    ensures var lines := pre + [open] + header + [close] + body;
            forall k :: 0 <= k < |lines| ==> '\n' !in lines[k]
  {
    SepFreeConcat(pre, [open], '\n');
    SepFreeConcat(pre + [open], header, '\n');
    SepFreeConcat(pre + [open] + header, [close], '\n');
    SepFreeConcat(pre + [open] + header + [close], body, '\n');
  }

  /** A file without an opening delimiter has no header, and all of it is body. */
  lemma NoBlockLayout(lines: seq<string>)
    requires forall k :: 0 <= k < |lines| ==> !IsDelimiter(lines[k])
    ensures Header(lines) == [] && BodyLines(lines) == lines
  {
  }

  /** Appending a line changes the last value of `key` exactly when the line has it. */
  lemma LastValueSnoc(init: seq<string>, line: string, key: string)
    ensures LastValue(init + [line], key) ==
              if HasKey(line, key) then Some(LineParam(line).value.value) else LastValue(init, key)
  {
    assert (init + [line])[..|init|] == init;
  }

  /** Appending a line changes the last calendar date exactly when the line has one. */
  lemma LastCalendarDateSnoc(init: seq<string>, line: string)
    ensures LastCalendarDate(init + [line]) ==
              if HasCalendarDate(line) then Some(LineParam(line).value.value) else LastCalendarDate(init)
  {
    assert (init + [line])[..|init|] == init;
  }

  /** How many delimiters a scan has counted before line `i`, capped where the parsers
      stop counting: 0 up to the opening delimiter, 1 inside the block, 2 after it. */
  function Found(lines: seq<string>, i: nat): nat {
    if i <= Opening(lines) then 0 else if i <= Closing(lines) then 1 else 2
  }

  /** The header lines a scan has passed before line `i`. */
  function HeaderSoFar(lines: seq<string>, i: nat): seq<string>
    requires i <= |lines|
  {
    if Found(lines, i) == 0 then []
    else if Found(lines, i) == 1 then lines[Opening(lines) + 1..i]
    else lines[Opening(lines) + 1..Closing(lines)]
  }

  /** One line of the scan: the count grows exactly at a delimiter line, and reaches
      two only at the closing delimiter. */
  lemma ScanCount(lines: seq<string>, i: nat)
    requires i < |lines| && Found(lines, i) < 2
    ensures Found(lines, i + 1) == Found(lines, i) + (if IsDelimiter(lines[i]) then 1 else 0)
    ensures Found(lines, i + 1) == 2 ==> i == Closing(lines)
  {
  }

  /** While the count is one every line but a delimiter joins the header. */
  lemma ScanStep(lines: seq<string>, i: nat)
    requires i < |lines| && Found(lines, i) < 2
    ensures HeaderSoFar(lines, i + 1) ==
              if Found(lines, i) == 1 && !IsDelimiter(lines[i]) then HeaderSoFar(lines, i) + [lines[i]]
              else HeaderSoFar(lines, i)
  {
    var o := Opening(lines);
    ScanCount(lines, i);
    if Found(lines, i) == 1 && !IsDelimiter(lines[i]) {
      assert lines[o + 1..i + 1] == lines[o + 1..i] + [lines[i]];
    }
  }

  /** A delimiter line carries no pair. */
  lemma DelimiterHasNoPair(line: string)
    requires IsDelimiter(line)
    ensures LineParam(line).None?
  {
    assert ':' !in TrimSpace(line);
  }

  /** Past the closing delimiter the scan neither counts nor collects. */
  lemma ScanPast(lines: seq<string>, i: nat)
    requires 0 < i <= |lines| && Found(lines, i - 1) == 2
    ensures Found(lines, i) == 2 && HeaderSoFar(lines, i) == HeaderSoFar(lines, i - 1)
  {
  }

  /** Where the scan ends: just after the closing delimiter it has the whole header and
      the remaining lines are the body; running off the end with the block not closed
      before the last line, it has the whole header and the body is every line. */
  lemma ScanEnd(lines: seq<string>, i: nat)
    requires i <= |lines|
    requires i == Closing(lines) + 1 || (i == |lines| && Found(lines, i) < 2)
    ensures HeaderSoFar(lines, i) == Header(lines)
    ensures i < |lines| ==> i == Closing(lines) + 1 && lines[i..] == BodyLines(lines)
    ensures i == |lines| ==> BodyLines(lines) == lines
  {
  }

  /** The header lines applied in file order, each by `apply`. */
  function ApplyLines<T>(apply: (T, string) -> T, p: T, header: seq<string>): T {
    if header == [] then p else apply(ApplyLines(apply, p, header[..|header| - 1]), header[|header| - 1])
  }

  /** One more header line applies after the others. */
  lemma ApplyLinesSnoc<T>(apply: (T, string) -> T, p: T, header: seq<string>, line: string)
    ensures ApplyLines(apply, p, header + [line]) == apply(ApplyLines(apply, p, header), line)
  {
    assert (header + [line])[..|header|] == header;
  }

  /** Two lines are applied first to last. */
  lemma ApplyLinesPair<T>(apply: (T, string) -> T, p: T, a: string, b: string)
    ensures ApplyLines(apply, p, [a, b]) == apply(apply(p, a), b)
  {
    ApplyLinesSnoc(apply, p, [], a);
    ApplyLinesSnoc(apply, p, [a], b);
    assert [] + [a] == [a] && [a] + [b] == [a, b];
  }

  /** What a parser's loop holds before line `i`, starting from `d`: every line read
      while the count is one, other than the closing delimiter, applied in order. */
  function Scanned<T>(apply: (T, string) -> T, d: T, lines: seq<string>, i: nat): T
    requires i <= |lines|
  {
    if i == 0 then d
    else
      var p := Scanned(apply, d, lines, i - 1);
      if Found(lines, i - 1) == 1 && !IsDelimiter(lines[i - 1]) then apply(p, lines[i - 1]) else p
  }

  /** What the loop holds is `d` with the header lines passed so far applied. */
  lemma {:induction false} ScannedHeader<T>(apply: (T, string) -> T, d: T, lines: seq<string>, i: nat)
    requires i <= |lines|
    ensures Scanned(apply, d, lines, i) == ApplyLines(apply, d, HeaderSoFar(lines, i))
  {
    if i > 0 {
      ScannedHeader(apply, d, lines, i - 1);
      ScannedStep(apply, d, lines, i);
    } else {
      assert HeaderSoFar(lines, i) == [];
    }
  }

  /** One line keeps the loop's value equal to `d` with the header so far applied. */
  lemma ScannedStep<T>(apply: (T, string) -> T, d: T, lines: seq<string>, i: nat)
    requires 0 < i <= |lines|
    requires Scanned(apply, d, lines, i - 1) == ApplyLines(apply, d, HeaderSoFar(lines, i - 1))
    ensures Scanned(apply, d, lines, i) == ApplyLines(apply, d, HeaderSoFar(lines, i))
  {
    var j := i - 1;
    var p, line := Scanned(apply, d, lines, j), lines[j];
    var h, h' := HeaderSoFar(lines, j), HeaderSoFar(lines, i);
    var collect := Found(lines, j) == 1 && !IsDelimiter(line);
    assert Scanned(apply, d, lines, i) == if collect then apply(p, line) else p;
    if Found(lines, j) < 2 {
      ScanStep(lines, j);
    } else {
      ScanPast(lines, i);
    }
    if collect {
      assert h' == h + [line];
      ApplyLinesSnoc(apply, d, h, line);
    } else {
      assert h' == h;
    }
  }

  lemma AppendAssoc<T>(a: seq<T>, b: seq<T>, c: seq<T>)
    ensures a + (b + c) == (a + b) + c
  {
  }

  /** A front-matter line that writes `value` quoted: `key: "value"`. */
  function QuotedLine(key: string, value: string): string {
    key + ": \"" + value + "\""
  }

  /** A front-matter line that writes `value` bare: `key: value`. */
  function BareLine(key: string, value: string): string {
    key + ": " + value
  }

  /** A line made of a key without surrounding white space, a colon, and a rest that
      ends in something other than white space carries that key. */
  lemma ParamOfKeyed(key: string, rest: string)
    requires key != [] && ':' !in key && !IsSpace(key[0]) && !IsSpace(key[|key| - 1])
    requires rest != [] && !IsSpace(rest[|rest| - 1])
    ensures LineParam(key + [':'] + rest) == Some(Param(key, TrimChar(TrimSpace(rest), '"')))
  {
    var line := key + [':'] + rest;
    assert line[0] == key[0] && line[|line| - 1] == rest[|rest| - 1];
    TrimSpaceKeeps(line);
    IndexOfAfter(key, ':', rest);
    assert line[..|key|] == key && line[|key| + 1..] == rest;
    TrimSpaceKeeps(key);
  }

  /** A quoted line parses back to its key and value. */
  lemma ParamOfQuoted(key: string, value: string)
    requires key != [] && ':' !in key && !IsSpace(key[0]) && !IsSpace(key[|key| - 1])
    requires value == [] || (value[0] != '"' && value[|value| - 1] != '"')
    ensures LineParam(QuotedLine(key, value)) == Some(Param(key, value))
  {
    var quoted := ['"'] + value + ['"'];
    var rest := [' '] + quoted;
    assert QuotedLine(key, value) == key + [':'] + rest;
    ParamOfKeyed(key, rest);
    TrimSpaceAfterSpace(' ', quoted);
    TrimCharWrapped(value, '"');
  }

  /** A bare line whose value neither starts nor ends with white space or `"` parses
      back to its key and value. */
  lemma ParamOfBare(key: string, value: string)
    requires key != [] && ':' !in key && !IsSpace(key[0]) && !IsSpace(key[|key| - 1])
    requires value != [] && !IsSpace(value[0]) && !IsSpace(value[|value| - 1])
    requires value[0] != '"' && value[|value| - 1] != '"'
    ensures LineParam(BareLine(key, value)) == Some(Param(key, value))
  {
    var rest := [' '] + value;
    assert BareLine(key, value) == key + [':'] + rest;
    ParamOfKeyed(key, rest);
    TrimSpaceAfterSpace(' ', value);
    TrimCharKeeps(value, '"');
  }

  /** A quoted line is not a delimiter when its key does not start with `-`, and holds a
      line break only if its key or value does. */
  lemma QuotedLineShape(key: string, value: string)
    requires key != [] && !IsSpace(key[0]) && key[0] != '-'
    ensures !IsDelimiter(QuotedLine(key, value))
    ensures '\n' !in key && '\n' !in value ==> '\n' !in QuotedLine(key, value)
  {
    var line := QuotedLine(key, value);
    assert line[0] == key[0] && line[|line| - 1] == '"';
    TrimSpaceKeeps(line);
  }

  /** A bare line is not a delimiter when its key does not start with `-`, and holds a
      line break only if its key or value does. */
  lemma BareLineShape(key: string, value: string)
    requires key != [] && !IsSpace(key[0]) && key[0] != '-'
    requires value != [] && !IsSpace(value[|value| - 1])
    ensures !IsDelimiter(BareLine(key, value))
    ensures '\n' !in key && '\n' !in value ==> '\n' !in BareLine(key, value)
  {
    var line := BareLine(key, value);
    assert line[0] == key[0] && line[|line| - 1] == value[|value| - 1];
    TrimSpaceKeeps(line);
  }

  /** The bare marker is a delimiter line. */
  lemma DashLine()
    ensures IsDelimiter("---") && '\n' !in "---"
  {
    var d := "---";
    assert d[0] == '-' && d[|d| - 1] == '-';
    TrimSpaceKeeps(d);
  }
}
