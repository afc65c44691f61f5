/** The configuration files of the web pages: lines of a keyword and a value, printed by one macro and read back by a
    line reader with a fixed buffer. */
module ConfigFile {
  import opened Wrappers

  const BIGBUF_SIZE := 4096
  const LIMIT := BIGBUF_SIZE - 1   // readline gives up a line when it holds this many characters

  predicate IsSpace(c: char) {
    c == ' ' || c == '\t' || c == '\n' || c == '\U{0B}' || c == '\U{0C}' || c == '\r'
  }

  function SkipSpace(s: string): (r: string)
    ensures r == "" || !IsSpace(r[0])
    ensures |r| <= |s| && s[|s| - |r|..] == r
  {
    if s != "" && IsSpace(s[0]) then SkipSpace(s[1..]) else s
  }

  function DropTrailing(s: string): (r: string)
    ensures r <= s && (r == "" || !IsSpace(r[|r| - 1]))
  {
    if s != "" && IsSpace(s[|s| - 1]) then DropTrailing(s[..|s| - 1]) else s
  }

  /** isspace: the blank and the control characters from tab to carriage return. */
  lemma SpaceCodes(c: char)
    ensures IsSpace(c) <==> c as int == 32 || 9 <= c as int <= 13
  {
  }

  lemma {:induction false} SkipsOnlySpace(s: string)
    ensures forall i :: 0 <= i < |s| - |SkipSpace(s)| ==> IsSpace(s[i])
  {
    if s != "" && IsSpace(s[0]) {
      SkipsOnlySpace(s[1..]);
      forall i | 0 <= i < |s| - |SkipSpace(s)| ensures IsSpace(s[i]) {
        if i > 0 { assert s[i] == s[1..][i - 1]; }
      }
    }
  }

  lemma {:induction false} DropsOnlySpace(s: string)
    ensures forall i :: |DropTrailing(s)| <= i < |s| ==> IsSpace(s[i])
  {
    if s != "" && IsSpace(s[|s| - 1]) { DropsOnlySpace(s[..|s| - 1]); }
  }

  function Trim(s: string): string {
    DropTrailing(SkipSpace(s))
  }

  /** t is s without the spaces at both ends, of which `before` stand at the front. */
  predicate Cuts(s: string, t: string, before: nat) {
    && before + |t| <= |s| && s[before..before + |t|] == t
    && (t == "" || (!IsSpace(t[0]) && !IsSpace(t[|t| - 1])))
    && (forall i :: 0 <= i < before ==> IsSpace(s[i]))
    && (forall i :: before + |t| <= i < |s| ==> IsSpace(s[i]))
  }

  ghost predicate WithoutSpaces(s: string, t: string) {
    exists before: nat :: Cuts(s, t, before)
  }

  /** Trimming takes off all spaces at both ends, and nothing else. */
  lemma TrimCuts(s: string)
    ensures WithoutSpaces(s, Trim(s))
  {
    SkipsOnlySpace(s);
    DropsOnlySpace(SkipSpace(s));
    CutsBoth(s, SkipSpace(s), Trim(s), |s| - |SkipSpace(s)|);
  }

  lemma CutsBoth(s: string, u: string, t: string, before: nat)
    requires before + |u| == |s| && s[before..] == u && t <= u
    requires u == "" || !IsSpace(u[0])
    requires t == "" || !IsSpace(t[|t| - 1])
    requires forall i :: 0 <= i < before ==> IsSpace(s[i])
    requires forall i :: |t| <= i < |u| ==> IsSpace(u[i])
    ensures WithoutSpaces(s, t)
  {
    forall i | before + |t| <= i < |s| ensures IsSpace(s[i]) {
      assert s[i] == u[i - before];
    }
    assert s[before..before + |t|] == t;
    assert Cuts(s, t, before);
  }

  predicate Trimmed(s: string) {
    s == "" || (!IsSpace(s[0]) && !IsSpace(s[|s| - 1]))
  }

  lemma TrimExactly(s: string)
    ensures Trim(s) == s <==> Trimmed(s)
  {
    var t := SkipSpace(s);
    if Trim(s) == s {
      assert |t| == |s| && s[|s| - |t|..] == s;
    }
  }

  /** What one call of readline takes from the stream s, with acc in the buffer already. */
  datatype LineRead = LineRead(line: string, rest: string, eof: bool)

  function NextLine(s: string, acc: string): (r: LineRead)
    requires |acc| < LIMIT
    ensures |r.rest| <= |s| && (!r.eof ==> |r.rest| < |s|) && |r.line| <= LIMIT
    decreases |s|
  {
    if s == "" then LineRead(acc, "", true)
    else if s[0] == '\r' then NextLine(s[1..], acc)
    else if s[0] == '\n' then LineRead(acc, s[1..], false)
    else if |acc| + 1 >= LIMIT then LineRead(acc + [s[0]], s[1..], false)
    else NextLine(s[1..], acc + [s[0]])
  }

  /** What is kept of a text: all but carriage returns and newlines. */
  function Printed(s: string): string {
    if s == "" then ""
    else if s[0] == '\r' || s[0] == '\n' then Printed(s[1..])
    else [s[0]] + Printed(s[1..])
  }

  /** With acc in the buffer, n characters of s have been taken. A line is what is kept of them. They end at the first
      newline, or with the 4095th character that is kept, or with the file. */
  predicate Takes(s: string, acc: string, r: LineRead, n: nat) {
    && n <= |s| && s[n..] == r.rest && r.line == acc + Printed(s[..n]) && |r.line| <= 4095
    && (forall i :: 0 <= i < n - 1 ==> s[i] != '\n')
    && (if r.eof then n == |s| && |r.line| < 4095 && (n > 0 ==> s[n - 1] != '\n')
        else n > 0 && (s[n - 1] == '\n' <==> |r.line| < 4095))
  }

  lemma {:induction false} LineTakes(s: string, acc: string)
    requires |acc| < 4095
    ensures Takes(s, acc, NextLine(s, acc), |s| - |NextLine(s, acc).rest|)
    decreases |s|
  {
    if s == "" || s[0] == '\n' {
      TakesLast(s, acc);
    } else {
      var kept := if s[0] == '\r' then acc else acc + [s[0]];
      if |kept| < LIMIT {
        LineTakes(s[1..], kept);
        TakesOneMore(s, acc, kept, NextLine(s[1..], kept), |s[1..]| - |NextLine(s[1..], kept).rest|);
      } else {
        TakesFull(s, acc);
      }
    }
  }

  lemma TakesLast(s: string, acc: string)
    requires |acc| < 4095 && (s == "" || s[0] == '\n')
    ensures if s == "" then Takes(s, acc, LineRead(acc, "", true), 0) else Takes(s, acc, LineRead(acc, s[1..], false), 1)
  {
    assert acc + "" == acc;
    if s != "" { assert s[..1][1..] == ""; }
  }

  lemma TakesFull(s: string, acc: string)
    requires s != "" && s[0] != '\n' && s[0] != '\r' && |acc| == 4094
    ensures Takes(s, acc, LineRead(acc + [s[0]], s[1..], false), 1)
  {
    assert s[..1][1..] == "" && Printed(s[..1]) == [s[0]];
  }

  lemma TakesOneMore(s: string, acc: string, kept: string, r: LineRead, n: nat)
    requires s != "" && s[0] != '\n' && kept == (if s[0] == '\r' then acc else acc + [s[0]])
    requires Takes(s[1..], kept, r, n)
    ensures Takes(s, acc, r, n + 1)
  {
    assert s[..n + 1][1..] == s[1..][..n];
    assert acc + Printed(s[..n + 1]) == kept + Printed(s[1..][..n]);
    assert s[n + 1..] == s[1..][n..];
    forall i | 0 <= i < n ensures s[i] != '\n' {
      if i > 0 { assert s[i] == s[1..][i - 1]; }
    }
    if n > 0 { assert s[n] == s[1..][n - 1]; }
  }

  /** The index of the first keyword that the line starts with; their number when there is none. */
  function Index(keywords: seq<string>, line: string): (ix: nat)
    ensures ix <= |keywords|
    ensures ix < |keywords| ==> keywords[ix] <= line
    ensures forall j :: 0 <= j < ix ==> !(keywords[j] <= line)
  {
    if keywords == [] || keywords[0] <= line then 0 else 1 + Index(keywords[1..], line)
  }

  /** The effect of one line. The keyword is looked for after leading spaces, but the value is taken from the whole
      line; a line with an unknown keyword has no defined effect. */
  function LineEffect(keywords: seq<string>, values: seq<string>, raw: string): (r: Option<seq<string>>)
    requires |values| == |keywords|
    ensures r.Some? ==> |r.value| == |values|
  {
    var line := SkipSpace(raw);
    if line == "" || line[0] == '#' then Some(values)
    else
      var ix := Index(keywords, line);
      if ix == |keywords| then None
      else Some(values[ix := Trim(raw[|keywords[ix]|..])])
  }

  /** A line of spaces, and one whose first other character is #, have no effect. */
  lemma NothingSet(keywords: seq<string>, values: seq<string>, raw: string, blanks: nat)
    requires |values| == |keywords| && blanks <= |raw| && forall i :: 0 <= i < blanks ==> IsSpace(raw[i])
    requires blanks == |raw| || raw[blanks] == '#'
    ensures LineEffect(keywords, values, raw) == Some(values)
  {
    SkipsBlanks(raw, blanks);
  }

  /** Any other line sets the first keyword with which it goes on to the rest of the line, counted from its start; or is
      an error when there is none. */
  lemma KeywordSet(keywords: seq<string>, values: seq<string>, raw: string, blanks: nat, ix: nat)
    requires |values| == |keywords| && blanks < |raw| && forall i :: 0 <= i < blanks ==> IsSpace(raw[i])
    requires !IsSpace(raw[blanks]) && raw[blanks] != '#'
    requires ix <= |keywords| && forall j :: 0 <= j < ix ==> !(keywords[j] <= raw[blanks..])
    requires ix < |keywords| ==> keywords[ix] <= raw[blanks..]
    ensures LineEffect(keywords, values, raw)
         == if ix == |keywords| then None else Some(values[ix := Trim(raw[|keywords[ix]|..])])
  {
    SkipsBlanks(raw, blanks);
    FirstKeyword(keywords, raw[blanks..], ix);
  }

  lemma FirstKeyword(keywords: seq<string>, line: string, ix: nat)
    requires ix <= |keywords| && forall j :: 0 <= j < ix ==> !(keywords[j] <= line)
    requires ix < |keywords| ==> keywords[ix] <= line
    ensures Index(keywords, line) == ix
  {
  }

  lemma {:induction false} SkipsBlanks(s: string, blanks: nat)
    requires blanks <= |s| && forall i :: 0 <= i < blanks ==> IsSpace(s[i])
    requires blanks == |s| || !IsSpace(s[blanks])
    ensures SkipSpace(s) == s[blanks..]
    decreases blanks
  {
    if blanks > 0 { SkipsBlanks(s[1..], blanks - 1); }
  }

  /** A last line without a newline counts for nothing, unless it fills the buffer. */
  lemma UnfinishedLine(keywords: seq<string>, values: seq<string>, s: string)
    requires |values| == |keywords| && |s| < 4095 && forall i :: 0 <= i < |s| ==> s[i] != '\n'
    ensures ReadAll(keywords, values, s) == Some(values)
  {
    EndsUnfinished(s, "");
  }

  lemma {:induction false} EndsUnfinished(s: string, acc: string)
    requires |acc| + |s| < 4095 && forall i :: 0 <= i < |s| ==> s[i] != '\n'
    ensures NextLine(s, acc).eof
    decreases |s|
  {
    if s != "" { EndsUnfinished(s[1..], if s[0] == '\r' then acc else acc + [s[0]]); }
  }

  /** The values after a whole file. */
  function ReadAll(keywords: seq<string>, values: seq<string>, s: string): (r: Option<seq<string>>)
    requires |values| == |keywords|
    ensures r.Some? ==> |r.value| == |values|
    decreases |s|
  {
    var r := NextLine(s, "");
    if r.eof then Some(values)
    else match LineEffect(keywords, values, r.line)
      case None => None
      case Some(v) => ReadAll(keywords, v, r.rest)
  }

  /** An open file. */
  class Stream {
    var rest: string

    constructor (text: string)
      ensures rest == text
    {
      rest := text;
    }

    method Getc() returns (c: Option<char>)
      modifies this
      ensures if old(rest) == "" then c.None? && rest == "" else c == Some(old(rest)[0]) && rest == old(rest)[1..]
    {
      if rest == "" { return None; }
      c, rest := Some(rest[0]), rest[1..];
    }
  }

  /** readline: fill the buffer with the next line, without carriage returns; the count, or its negative less one at
      the end of the file. */
  method ReadLine(f: Stream, buffer: array<char>) returns (count: int)
    requires buffer.Length == BIGBUF_SIZE
    modifies f, buffer
    ensures var r := NextLine(old(f.rest), "");
            && f.rest == r.rest && buffer[..|r.line|] == r.line && buffer[|r.line|] == '\0'
            && count == if r.eof then -(|r.line| + 1) else |r.line|
  {
    count := 0;
    ghost var r := NextLine(f.rest, "");
    while true
      invariant 0 <= count < LIMIT
      invariant r == NextLine(f.rest, buffer[..count])
      decreases |f.rest|
    {
      ghost var s, acc := f.rest, buffer[..count];
      var c := f.Getc();
      if c.None? {
        buffer[count] := '\0';
        assert buffer[..count] == acc;
        return -(count + 1);
      }
      if c.value == '\r' { continue; }
      if c.value == '\n' {
        buffer[count] := '\0';
        assert buffer[..count] == acc;
        return;
      }
      buffer[count] := c.value;
      count := count + 1;
      assert buffer[..count] == acc + [c.value];
      if count >= BIGBUF_SIZE - 1 {
        ghost var line := buffer[..count];
        buffer[count] := '\0';
        assert buffer[..count] == line;
        return;
      }
    }
  }

  /** argvindex with strncmp: a search from the front. */
  method ArgvIndex(keywords: seq<string>, line: string) returns (index: nat)
    ensures index == Index(keywords, line)
  {
    index := 0;
    while index < |keywords|
      invariant index <= |keywords| && Index(keywords, line) == index + Index(keywords[index..], line)
    {
      if keywords[index] <= line { break; }
      assert keywords[index..][1..] == keywords[index + 1..];
      index := index + 1;
    }
  }

  /** while (isspace(*p)) p++: how far the spaces from position `from` go. */
  method SkipFrom(s: string, from: nat) returns (p: nat)
    requires from <= |s|
    ensures from <= p <= |s| && s[p..] == SkipSpace(s[from..])
  {
    p := from;
    while p < |s| && IsSpace(s[p])
      invariant from <= p <= |s| && forall i :: from <= i < p ==> IsSpace(s[i])
    {
      p := p + 1;
    }
    SkipsTo(s, from, p);
  }

  lemma SkipsTo(s: string, from: nat, p: nat)
    requires from <= p <= |s| && (forall i :: from <= i < p ==> IsSpace(s[i])) && (p == |s| || !IsSpace(s[p]))
    ensures SkipSpace(s[from..]) == s[p..]
  {
    SkipsBlanks(s[from..], p - from);
    assert s[from..][p - from..] == s[p..];
  }

  /** while (q > p && isspace(*q)) *q-- = 0: where a text that starts at p ends. */
  method CutTrailing(s: string, p: nat) returns (end: nat)
    requires p <= |s| && (p < |s| ==> !IsSpace(s[p]))
    ensures p <= end <= |s| && s[p..end] == DropTrailing(s[p..])
  {
    end := |s|;
    assert s[p..end] == s[p..];
    while end - 1 > p && IsSpace(s[end - 1])
      invariant p <= end <= |s| && DropTrailing(s[p..]) == DropTrailing(s[p..end])
    {
      assert s[p..end][..end - p - 1] == s[p..end - 1];
      end := end - 1;
    }
  }

  /** retrieve_cfg_value: move over the keyword and the spaces after it, then cut spaces from the end. */
  method RetrieveValue(keyword: string, line: string) returns (value: string)
    requires |keyword| <= |line|
    ensures value == Trim(line[|keyword|..])
  {
    var p := SkipFrom(line, |keyword|);
    var end := CutTrailing(line, p);
    value := line[p..end];
  }

  /** read_cfg_value, with the test for comments and blank lines that guards it in read_cfg. */
  method ReadLineValue(keywords: seq<string>, values: array<string>, raw: string) returns (known: bool)
    requires values.Length == |keywords|
    modifies values
    ensures var r := LineEffect(keywords, old(values[..]), raw);
            known == r.Some? && (known ==> values[..] == r.value)
  {
    var p := SkipFrom(raw, 0);
    assert raw[0..] == raw;
    var line := raw[p..];
    if line == "" || line[0] == '#' { return true; }
    var ix := ArgvIndex(keywords, line);
    if ix == |keywords| { return false; }
    var value := RetrieveValue(keywords[ix], raw);
    values[ix] := value;
    known := true;
  }

  /** read_cfg, on an open file without NUL characters. It reports failure where the program would go on with a
      keyword that is not in the table. */
  method ReadCfg(f: Stream, keywords: seq<string>, values: array<string>) returns (ok: bool)
    requires values.Length == |keywords|
    modifies f, values
    ensures var r := ReadAll(keywords, old(values[..]), old(f.rest));
            ok == r.Some? && (ok ==> values[..] == r.value)
  {
    var bigbuf := new char[BIGBUF_SIZE](_ => '\0');
    ghost var r := ReadAll(keywords, values[..], f.rest);
    while true
      invariant r == ReadAll(keywords, values[..], f.rest)
      decreases |f.rest|
    {
      ghost var next := NextLine(f.rest, "");
      var count := ReadLine(f, bigbuf);
      if count < 0 { return true; }
      assert bigbuf[..count] == next.line;
      var known := ReadLineValue(keywords, values, bigbuf[..count]);
      if !known { return false; }
    }
  }
}
