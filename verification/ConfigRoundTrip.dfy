/** Reading back what out_config printed: in any order, between comments and blank lines. */
module ConfigRoundTrip {

  import opened ConfigFile
  import opened Wrappers

  /** One line of a file: a keyword of the table with the value that getenv gave, or a comment or blank line. */
  datatype Item = Setting(ix: nat, value: Option<string>) | Noise(text: string)

  function Given(value: Option<string>): string {
    if value.None? then "" else value.value
  }

  /** The text of out_config, and of the printing around it, before the newline. */
  function Text(keywords: seq<string>, item: Item): string
    requires item.Setting? ==> item.ix < |keywords|
  {
    match item
    case Setting(ix, value) => keywords[ix] + Given(value)
    case Noise(text) => text
  }

  predicate Clean(s: string) {
    forall k :: 0 <= k < |s| ==> s[k] != '\r' && s[k] != '\n' && s[k] != '\0'
  }

  predicate PrefixFree(keywords: seq<string>) {
    forall i, j :: 0 <= i < j < |keywords| ==> !(keywords[i] <= keywords[j]) && !(keywords[j] <= keywords[i])
  }

  predicate Keyword(k: string) {
    Clean(k) && k != "" && !IsSpace(k[0]) && k[0] != '#'
  }

  predicate Table(keywords: seq<string>) {
    PrefixFree(keywords) && forall i :: 0 <= i < |keywords| ==> Keyword(keywords[i])
  }

  predicate Fits(keywords: seq<string>, item: Item) {
    && (item.Setting? ==> item.ix < |keywords|)
    && (item.Noise? ==> SkipSpace(item.text) == "" || SkipSpace(item.text)[0] == '#')
    && Clean(Text(keywords, item)) && |Text(keywords, item)| <= 4095
  }

  predicate AllFit(keywords: seq<string>, items: seq<Item>) {
    forall i :: 0 <= i < |items| ==> Fits(keywords, items[i])
  }

  function Print(keywords: seq<string>, items: seq<Item>): string
    requires AllFit(keywords, items)
  {
    if items == [] then ""
    else
      assert Fits(keywords, items[0]);
      Text(keywords, items[0]) + "\n" + Print(keywords, items[1..])
  }

  /** A setting is printed as its keyword, its value and a newline, in front of what is printed for the items after it. */
  lemma PrintedText(keywords: seq<string>, items: seq<Item>)
    requires AllFit(keywords, items) && items != []
    ensures items[0].Setting? ==> items[0].ix < |keywords|
    ensures Print(keywords, items)
         == (if items[0].Noise? then items[0].text
             else if items[0].value.Some? then keywords[items[0].ix] + items[0].value.value
             else keywords[items[0].ix]) + "\n" + Print(keywords, items[1..])
  {
    assert Fits(keywords, items[0]);
    if items[0].Setting? && items[0].value.None? { assert keywords[items[0].ix] + "" == keywords[items[0].ix]; }
  }

  function Stored(values: seq<string>, item: Item): (r: seq<string>)
    requires item.Setting? ==> item.ix < |values|
    ensures |r| == |values|
  {
    if item.Setting? then values[item.ix := Trim(Given(item.value))] else values
  }

  /** The values after the lines: the last line of a keyword decides, without the spaces around its value. */
  function Apply(values: seq<string>, items: seq<Item>): (r: seq<string>)
    requires forall i :: 0 <= i < |items| && items[i].Setting? ==> items[i].ix < |values|
    ensures |r| == |values|
    decreases |items|
  {
    if items == [] then values else Apply(Stored(values, items[0]), items[1..])
  }

  /** A line is taken whole. One that fills the buffer leaves its newline, which is read as a blank line. */
  lemma {:induction false} LineTaken(line: string, rest: string, acc: string)
    requires Clean(line) && |acc| < LIMIT && |acc| + |line| <= LIMIT
    ensures NextLine(line + "\n" + rest, acc)
         == LineRead(acc + line, if |acc| + |line| == LIMIT then "\n" + rest else rest, false)
    decreases |line|
  {
    var s := line + "\n" + rest;
    if line == "" {
      assert s[1..] == rest && acc + line == acc;
    } else {
      assert s[0] == line[0] && s[1..] == line[1..] + "\n" + rest;
      assert acc + [line[0]] + line[1..] == acc + line;
      if |line| > 1 {
        LineTaken(line[1..], rest, acc + [line[0]]);
      } else {
        assert line[1..] == "" && s[1..] == "\n" + rest;
        if |acc| + 1 < LIMIT { LineTaken("", rest, acc + line); }
      }
    }
  }

  lemma OneLine(keywords: seq<string>, values: seq<string>, s: string, v: seq<string>)
    requires |values| == |keywords| && !NextLine(s, "").eof
    requires LineEffect(keywords, values, NextLine(s, "").line) == Some(v)
    ensures ReadAll(keywords, values, s) == ReadAll(keywords, v, NextLine(s, "").rest)
  {}

  lemma ReadsLine(keywords: seq<string>, values: seq<string>, line: string, rest: string, v: seq<string>)
    requires |values| == |keywords| && Clean(line) && |line| <= LIMIT
    requires LineEffect(keywords, values, line) == Some(v)
    ensures ReadAll(keywords, values, line + "\n" + rest) == ReadAll(keywords, v, rest)
  {
    TakenWhole(line, rest);
    OneLine(keywords, values, line + "\n" + rest, v);
    if |line| == LIMIT { SkipsBlank(keywords, v, rest); }
  }

  lemma TakenWhole(line: string, rest: string)
    requires Clean(line) && |line| <= LIMIT
    ensures NextLine(line + "\n" + rest, "") == LineRead(line, if |line| == LIMIT then "\n" + rest else rest, false)
  {
    LineTaken(line, rest, "");
    assert "" + line == line;
  }

  lemma SkipsBlank(keywords: seq<string>, values: seq<string>, rest: string)
    requires |values| == |keywords|
    ensures ReadAll(keywords, values, "\n" + rest) == ReadAll(keywords, values, rest)
  {
    assert "" + "\n" + rest == "\n" + rest;
    TakenWhole("", rest);
    OneLine(keywords, values, "\n" + rest, values);
  }

  /** Two texts that start one line are comparable. */
  lemma Comparable(a: string, b: string, line: string)
    requires a <= line && b <= line
    ensures if |a| <= |b| then a <= b else b <= a
  {
    if |a| <= |b| { assert a == line[..|a|] == line[..|b|][..|a|]; }
    else { assert b == line[..|b|] == line[..|a|][..|b|]; }
  }

  predicate IsFound(keywords: seq<string>, ix: nat, value: string)
    requires ix < |keywords|
  {
    Index(keywords, keywords[ix] + value) == ix
  }

  ghost predicate AlwaysFound(keywords: seq<string>) {
    forall ix, value :: 0 <= ix < |keywords| && Clean(value) ==> IsFound(keywords, ix, value)
  }

  lemma Found(keywords: seq<string>, ix: nat, value: string)
    requires PrefixFree(keywords) && ix < |keywords|
    ensures IsFound(keywords, ix, value)
  {
    var line := keywords[ix] + value;
    var found := Index(keywords, line);
    assert keywords[ix] <= line;
    if found < ix { Comparable(keywords[found], keywords[ix], line); }
  }

  /** A printed line is filed under its own keyword, whatever the value, exactly when the table is prefix-free. */
  lemma FoundExactly(keywords: seq<string>)
    requires forall i :: 0 <= i < |keywords| ==> Clean(keywords[i])
    ensures PrefixFree(keywords) <==> AlwaysFound(keywords)
  {
    forall ix, value | PrefixFree(keywords) && 0 <= ix < |keywords| && Clean(value)
      ensures IsFound(keywords, ix, value)
    {
      Found(keywords, ix, value);
    }
    forall i, j | AlwaysFound(keywords) && 0 <= i < j < |keywords|
      ensures !(keywords[i] <= keywords[j]) && !(keywords[j] <= keywords[i])
    {
      if keywords[i] <= keywords[j] || keywords[j] <= keywords[i] { Confused(keywords, i, j); }
    }
  }

  /** Of two comparable keywords the later one is not found for some value. */
  lemma Confused(keywords: seq<string>, i: nat, j: nat)
    requires i < j < |keywords| && (keywords[i] <= keywords[j] || keywords[j] <= keywords[i]) && Clean(keywords[i])
    ensures exists value :: Clean(value) && !IsFound(keywords, j, value)
  {
    var a, b := keywords[i], keywords[j];
    var value := if b <= a then a[|b|..] else "";
    assert a <= b + value;
    assert Clean(value) && !IsFound(keywords, j, value);
  }

  lemma ItemEffect(keywords: seq<string>, values: seq<string>, item: Item)
    requires Table(keywords) && |values| == |keywords| && Fits(keywords, item)
    ensures LineEffect(keywords, values, Text(keywords, item)) == Some(Stored(values, item))
  {
    if item.Setting? {
      var k, value := keywords[item.ix], Given(item.value);
      assert Keyword(k) && (k + value)[0] == k[0];
      assert (k + value)[|k|..] == value;
      Found(keywords, item.ix, value);
    }
  }

  /** The reader of a printed file applies its lines in order. */
  lemma {:induction false} ReadsBack(keywords: seq<string>, values: seq<string>, items: seq<Item>)
    requires Table(keywords) && |values| == |keywords|
    requires AllFit(keywords, items)
    ensures ReadAll(keywords, values, Print(keywords, items)) == Some(Apply(values, items))
    decreases |items|
  {
    if items != [] {
      var v := Stored(values, items[0]);
      assert Fits(keywords, items[0]);
      ItemEffect(keywords, values, items[0]);
      ReadsLine(keywords, values, Text(keywords, items[0]), Print(keywords, items[1..]), v);
      ReadsBack(keywords, v, items[1..]);
    }
  }

  predicate Sets(items: seq<Item>, ix: nat) {
    exists i :: 0 <= i < |items| && items[i].Setting? && items[i].ix == ix
  }

  /** The lines carry no other values than vals. */
  predicate Carries(items: seq<Item>, vals: seq<string>) {
    forall i :: 0 <= i < |items| && items[i].Setting? ==>
      items[i].ix < |vals| && Given(items[i].value) == vals[items[i].ix]
  }

  lemma SetsSplit(items: seq<Item>, ix: nat)
    requires items != []
    ensures Sets(items, ix) <==> (items[0].Setting? && items[0].ix == ix) || Sets(items[1..], ix)
  {
    if i :| 0 <= i < |items| && items[i].Setting? && items[i].ix == ix {
      if i > 0 { assert items[1..][i - 1] == items[i]; }
    }
    if i :| 0 <= i < |items[1..]| && items[1..][i].Setting? && items[1..][i].ix == ix {
      assert items[i + 1] == items[1..][i];
    }
  }

  lemma {:induction false} Applied(values: seq<string>, items: seq<Item>, vals: seq<string>, ix: nat)
    requires ix < |vals| == |values| && Carries(items, vals)
    ensures Apply(values, items)[ix] == if Sets(items, ix) then Trim(vals[ix]) else values[ix]
    decreases |items|
  {
    if items != [] {
      Applied(Stored(values, items[0]), items[1..], vals, ix);
      SetsSplit(items, ix);
    }
  }

  /** The round trip: whatever the order of the lines, the noise between them, repetitions and the old values, the
      reader gets each value without the spaces around it. So it gets the printed values exactly when none has any. */
  lemma RoundTrip(keywords: seq<string>, values: seq<string>, items: seq<Item>, vals: seq<string>)
    requires Table(keywords) && |values| == |vals| == |keywords|
    requires AllFit(keywords, items)
    requires Carries(items, vals) && forall ix :: 0 <= ix < |vals| ==> Sets(items, ix)
    ensures var r := ReadAll(keywords, values, Print(keywords, items));
            && r.Some? && (forall ix :: 0 <= ix < |vals| ==> r.value[ix] == Trim(vals[ix]))
            && (r.value == vals <==> forall ix :: 0 <= ix < |vals| ==> Trimmed(vals[ix]))
            && (forall ix :: 0 <= ix < |vals| ==> WithoutSpaces(vals[ix], r.value[ix]))
  {
    ReadsBack(keywords, values, items);
    AppliedAll(values, items, vals);
    CutsAll(vals, Apply(values, items));
  }

  lemma CutsAll(vals: seq<string>, got: seq<string>)
    requires |got| == |vals| && forall ix :: 0 <= ix < |vals| ==> got[ix] == Trim(vals[ix])
    ensures forall ix :: 0 <= ix < |vals| ==> WithoutSpaces(vals[ix], got[ix])
  {
    forall ix | 0 <= ix < |vals| ensures WithoutSpaces(vals[ix], got[ix]) {
      TrimCuts(vals[ix]);
    }
  }

  lemma AppliedAll(values: seq<string>, items: seq<Item>, vals: seq<string>)
    requires |vals| == |values|
    requires Carries(items, vals) && forall ix :: 0 <= ix < |vals| ==> Sets(items, ix)
    ensures var r := Apply(values, items);
            && (forall ix :: 0 <= ix < |vals| ==> r[ix] == Trim(vals[ix]))
            && (r == vals <==> forall ix :: 0 <= ix < |vals| ==> Trimmed(vals[ix]))
  {
    var r := Apply(values, items);
    forall ix | 0 <= ix < |vals| ensures r[ix] == Trim(vals[ix]) && (r[ix] == vals[ix] <==> Trimmed(vals[ix])) {
      Applied(values, items, vals, ix);
      TrimExactly(vals[ix]);
    }
  }
}
