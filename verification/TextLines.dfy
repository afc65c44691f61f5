/** Lines of a text file, addressed by byte position.

    A line ends at a newline or at the end of the file, so a file with n newlines has n + 1 lines;
    the last of them is empty when the file ends with a newline (or is empty). */
module TextLines {

  /** The position of the newline (or end of file) that ends the line containing p. */
  function LineEnd(s: string, p: nat): (e: nat)
    requires p <= |s|
    ensures p <= e <= |s|
    ensures forall i :: p <= i < e ==> s[i] != '\n'
    ensures e == |s| || s[e] == '\n'
    decreases |s| - p
  {
    if p == |s| || s[p] == '\n' then p else LineEnd(s, p + 1)
  }

  /** The position where the line containing p starts. */
  function LineStart(s: string, p: nat): (b: nat)
    requires p <= |s|
    ensures b <= p
    ensures forall i :: b <= i < p ==> s[i] != '\n'
    ensures b == 0 || s[b - 1] == '\n'
  {
    if p == 0 || s[p - 1] == '\n' then p else LineStart(s, p - 1)
  }

  /** The lines of s from position p on. */
  function Split(s: string, p: nat): (r: seq<string>)
    requires p <= |s|
    ensures |r| > 0
    decreases |s| - p
  {
    var e := LineEnd(s, p);
    if e == |s| then [s[p..]] else [s[p..e]] + Split(s, e + 1)
  }

  function Lines(s: string): (r: seq<string>)
    ensures |r| > 0
  {
    Split(s, 0)
  }

  /** The lines joined by newlines. */
  function Join(lines: seq<string>): string
    requires |lines| > 0
  {
    if |lines| == 1 then lines[0] else lines[0] + "\n" + Join(lines[1..])
  }

  /** The index of the last line. */
  function Last(s: string): nat {
    |Lines(s)| - 1
  }

  /** Where the k-th line of those that start at p starts; the end of s when there is no such line. */
  function StartFrom(s: string, p: nat, k: nat): (q: nat)
    requires p <= |s|
    ensures p <= q <= |s|
    decreases k
  {
    if k == 0 then p
    else if LineEnd(s, p) == |s| then |s|
    else StartFrom(s, LineEnd(s, p) + 1, k - 1)
  }

  function Start(s: string, k: nat): (q: nat)
    ensures q <= |s|
  {
    StartFrom(s, 0, k)
  }

  /** Text of line k, empty past the last one. */
  function LineText(s: string, k: nat): string {
    if k <= Last(s) then Lines(s)[k] else ""
  }

  /** Lines is the only way to cut s: no line holds a newline and joining the lines gives s back. */
  lemma {:induction false} LinesCutTheFile(s: string, p: nat)
    requires p <= |s|
    ensures Join(Split(s, p)) == s[p..]
    ensures forall k :: 0 <= k < |Split(s, p)| ==> '\n' !in Split(s, p)[k]
    decreases |s| - p
  {
    var e := LineEnd(s, p);
    if e < |s| {
      LinesCutTheFile(s, e + 1);
      var rest := Split(s, e + 1);
      assert Split(s, p) == [s[p..e]] + rest;
      assert Split(s, p)[1..] == rest;
      CutAtNewline(s, p, e);
    } else {
      assert Split(s, p) == [s[p..]];
    }
  }

  lemma CutAtNewline(s: string, p: nat, e: nat)
    requires p <= e < |s| && s[e] == '\n'
    ensures s[p..e] + "\n" + s[e + 1..] == s[p..]
  {
    assert s[p..] == s[p..e] + [s[e]] + s[e + 1..];
  }

  /** A line starts where the previous one ends, the k-th line is the text from its start to its end,
      and only the last line ends at the end of the file. */
  lemma {:induction false} LineAtFrom(s: string, p: nat, k: nat)
    requires p <= |s| && k < |Split(s, p)|
    ensures Split(s, p)[k] == s[StartFrom(s, p, k)..LineEnd(s, StartFrom(s, p, k))]
    ensures LineEnd(s, StartFrom(s, p, k)) == |s| <==> k == |Split(s, p)| - 1
    ensures k + 1 < |Split(s, p)| ==> StartFrom(s, p, k + 1) == LineEnd(s, StartFrom(s, p, k)) + 1
    ensures k + 1 >= |Split(s, p)| ==> StartFrom(s, p, k + 1) == |s|
    decreases k
  {
    var e := LineEnd(s, p);
    if e == |s| {
      assert Split(s, p) == [s[p..]];
    } else {
      var rest := Split(s, e + 1);
      assert Split(s, p) == [s[p..e]] + rest;
      if k > 0 {
        LineAtFrom(s, e + 1, k - 1);
        assert Split(s, p)[k] == rest[k - 1];
      }
    }
  }

  lemma LineAt(s: string, k: nat)
    requires k <= Last(s)
    ensures Lines(s)[k] == s[Start(s, k)..LineEnd(s, Start(s, k))]
    ensures LineEnd(s, Start(s, k)) == |s| <==> k == Last(s)
    ensures k < Last(s) ==> Start(s, k + 1) == LineEnd(s, Start(s, k)) + 1
    ensures k == Last(s) ==> Start(s, k + 1) == |s|
  {
    LineAtFrom(s, 0, k);
  }

  lemma EndsBeforeNext(s: string, k: nat)
    requires k < Last(s)
    ensures Start(s, k + 1) == LineEnd(s, Start(s, k)) + 1
  {
    LineAt(s, k);
  }

  /** Past the last line every start is the end of the file. */
  lemma {:induction false} StartPastEnd(s: string, p: nat, k: nat)
    requires p <= |s| && k >= |Split(s, p)|
    ensures StartFrom(s, p, k) == |s|
    decreases k
  {
    var e := LineEnd(s, p);
    if e < |s| {
      StartPastEnd(s, e + 1, k - 1);
    }
  }

  lemma PastEnd(s: string, k: nat)
    requires k > Last(s)
    ensures Start(s, k) == |s|
  {
    StartPastEnd(s, 0, k);
  }

  /** A position between the start and the end of line k belongs to line k. */
  lemma {:induction false} StartOfLine(s: string, k: nat, q: nat)
    requires k <= Last(s) && Start(s, k) <= q <= LineEnd(s, Start(s, k))
    ensures LineStart(s, q) == Start(s, k)
    ensures Start(s, k) == 0 <==> k == 0
  {
    if k > 0 {
      LineAt(s, k - 1);
    }
  }
}
