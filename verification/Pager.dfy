/** The text box of the configuration menus: a bidirectional line reader over a sliding window of a file.

    The reader keeps one buffer of BUF_SIZE characters, a pointer into it and two flags. Proved here: over every
    sequence of keys it shows exactly the rows that a plain "list of lines and index of the top line" shows. */
module Pager {
  import opened Arithmetic
  import opened TextLines

  const BUF_SIZE := 10 * 1024
  const MAX_LEN := 2048

  datatype Key =
    | Exit | Home | End | Up | PageUp | Down | PageDown
    | Zero | Left | Right | Esc | Enter | Other

  /** What one row shows of a line: its first MAX_LEN characters, scrolled by h, cut at the width. */
  function Clip(line: string, h: nat, cols: nat): string {
    var cut := line[..Min(|line|, MAX_LEN)];
    var rest := cut[Min(|cut|, h)..];
    rest[..Min(|rest|, cols)]
  }

  /** Which characters those are. */
  lemma ClipShows(line: string, h: nat, cols: nat)
    ensures var row := Clip(line, h, cols);
            && |row| == Min(Max(Min(|line|, 2048) - h, 0), cols)
            && (forall c :: 0 <= c < |row| ==> h + c < |line| && row[c] == line[h + c])
  {
    var cut := line[..Min(|line|, MAX_LEN)];
    var from := Min(|cut|, h);
    var rest := cut[from..];
    var row := rest[..Min(|rest|, cols)];
    assert row == Clip(line, h, cols) && |rest| == Max(|cut| - h, 0);
    forall c | 0 <= c < |row| ensures h + c < |line| && row[c] == line[h + c] {
      assert from == h && row[c] == rest[c] == cut[h + c];
    }
  }

  /** The line that starts at Start(s, j), whether it is the last one, and where the next one starts. */
  ghost predicate Taken(s: string, j: nat, p: nat, e: nat, next: nat) {
    p <= e <= |s| && LineText(s, j) == s[p..e] && (e == |s| <==> j >= Last(s)) && next == if e == |s| then e else e + 1
  }

  lemma LineTaken(s: string, j: nat)
    ensures Taken(s, j, Start(s, j), LineEnd(s, Start(s, j)), Start(s, j + 1))
  {
    if j <= Last(s) { LineAt(s, j); } else { TakenPastEnd(s, j); }
  }

  lemma TakenPastEnd(s: string, j: nat)
    requires j > Last(s)
    ensures Taken(s, j, Start(s, j), LineEnd(s, Start(s, j)), Start(s, j + 1))
  {
    PastEnd(s, j);
    PastEnd(s, j + 1);
    var n := |s|;
    assert LineEnd(s, n) == n && s[n..n] == "";
  }

  lemma CutOfLine(s: string, p: nat, e: nat)
    requires p <= e <= |s|
    ensures s[p..e][..Min(e - p, MAX_LEN)] == s[p..Min(e, p + MAX_LEN)]
  {
  }

  lemma ClipCut(text: string, h: nat, cols: nat)
    ensures Clip(text[..Min(|text|, MAX_LEN)], h, cols) == Clip(text, h, cols)
  {
    var cut := text[..Min(|text|, MAX_LEN)];
    assert cut[..Min(|cut|, MAX_LEN)] == cut;
  }

  /** The characters that are kept of a line are enough for its row. */
  lemma LineShown(s: string, j: nat, line: string, h: nat, cols: nat)
    requires Start(s, j) <= |s|
    requires line == s[Start(s, j)..Min(LineEnd(s, Start(s, j)), Start(s, j) + MAX_LEN)]
    ensures Clip(line, h, cols) == Clip(LineText(s, j), h, cols)
  {
    LineTaken(s, j);
    CutOfLine(s, Start(s, j), LineEnd(s, Start(s, j)));
    ClipCut(LineText(s, j), h, cols);
  }

  /** The top line after a key, on a list of lines: the whole visible behaviour of the box. */
  function TopAfter(top: nat, key: Key, last: nat, height: nat): nat
    requires height >= 1
  {
    match key
    case Home => 0
    case End => Max(last - height + 1, 0)
    case Up => Max(top - 1, 0)
    case PageUp => Max(top - height, 0)
    case Down => if top + height <= last then top + 1 else top
    case PageDown => if top + height <= last then top + height else top
    case _ => top
  }

  function ScrollAfter(h: nat, key: Key): nat {
    match key
    case Zero => 0
    case Left => if h == 0 then 0 else h - 1
    case Right => if h >= MAX_LEN then h else h + 1
    case _ => h
  }

  predicate Closes(key: Key) { key.Exit? || key.Esc? || key.Enter? }

  /** The top line and the horizontal scroll after a run of keys; a closing key ends the run. */
  function Browsed(top: nat, h: nat, keys: seq<Key>, last: nat, height: nat): (nat, nat)
    requires height >= 1
    decreases |keys|
  {
    if keys == [] || Closes(keys[0]) then (top, h)
    else Browsed(TopAfter(top, keys[0], last, height), ScrollAfter(h, keys[0]), keys[1..], last, height)
  }

  /** The keys count in the order in which they come, each with the effect on the list that the user sees. */
  lemma {:induction false} OneKeyMore(top: nat, h: nat, keys: seq<Key>, key: Key, last: nat, height: nat)
    requires height >= 1 && forall i :: 0 <= i < |keys| ==> !keys[i].Exit? && !keys[i].Esc? && !keys[i].Enter?
    ensures var (t, s), (t', s') := Browsed(top, h, keys, last, height), Browsed(top, h, keys + [key], last, height);
            && t' == (match key
                      case Home => 0
                      case End => if last + 1 > height then last + 1 - height else 0
                      case Up => if t > 0 then t - 1 else 0
                      case PageUp => if t > height then t - height else 0
                      case Down => if t + height <= last then t + 1 else t
                      case PageDown => if t + height <= last then t + height else t
                      case _ => t)
            && s' == (match key
                      case Zero => 0
                      case Left => if s > 0 then s - 1 else 0
                      case Right => if s < 2048 then s + 1 else s
                      case _ => s)
    decreases |keys|
  {
    if keys == [] {
      assert [key][1..] == [];
    } else {
      assert (keys + [key])[1..] == keys[1..] + [key];
      OneKeyMore(TopAfter(top, keys[0], last, height), ScrollAfter(h, keys[0]), keys[1..], key, last, height);
    }
  }

  /** Nothing after a closing key counts. */
  lemma {:induction false} ClosedForGood(top: nat, h: nat, keys: seq<Key>, more: seq<Key>, last: nat, height: nat)
    requires height >= 1 && exists i :: 0 <= i < |keys| && (keys[i].Exit? || keys[i].Esc? || keys[i].Enter?)
    ensures Browsed(top, h, keys + more, last, height) == Browsed(top, h, keys, last, height)
    decreases |keys|
  {
    if !Closes(keys[0]) {
      assert (keys + more)[1..] == keys[1..] + more;
      ClosedForGood(TopAfter(top, keys[0], last, height), ScrollAfter(h, keys[0]), keys[1..], more, last, height);
    }
  }

  /** The first closing key of the run is the exit key. */
  predicate LeavesByExit(keys: seq<Key>)
    decreases |keys|
  {
    keys != [] && (keys[0].Exit? || (!Closes(keys[0]) && LeavesByExit(keys[1..])))
  }

  lemma {:induction false} ExitFirst(keys: seq<Key>)
    ensures LeavesByExit(keys) <==>
              exists i :: 0 <= i < |keys| && keys[i].Exit?
                       && forall j :: 0 <= j < i ==> !keys[j].Exit? && !keys[j].Esc? && !keys[j].Enter?
    decreases |keys|
  {
    if keys != [] && !Closes(keys[0]) {
      ExitFirst(keys[1..]);
      if i :| 0 <= i < |keys| && keys[i].Exit?
              && forall j :: 0 <= j < i ==> !keys[j].Exit? && !keys[j].Esc? && !keys[j].Enter?
      {
        assert keys[1..][i - 1] == keys[i];
      }
      if i :| 0 <= i < |keys[1..]| && keys[1..][i].Exit?
              && forall j :: 0 <= j < i ==> !keys[1..][j].Exit? && !keys[1..][j].Esc? && !keys[1..][j].Enter?
      {
        assert keys[i + 1].Exit?;
        forall j | 0 <= j < i + 1 ensures !keys[j].Exit? && !keys[j].Esc? && !keys[j].Enter? {
          if j > 0 { assert keys[1..][j - 1] == keys[j]; }
        }
      }
    }
  }

  class TextBox {
    const file: string
    const height: nat   // rows of text
    const cols: nat     // characters shown in a row
    const buf: array<char>

    var fpos: nat       // the descriptor's file position
    var bytesRead: nat
    var page: nat       // index into buf
    var beginReached: bool
    var endReached: bool
    var pageLength: nat
    var hscroll: nat
    var rows: seq<string>
    ghost var top: nat  // index of the line on row 0

    /** buf holds the bytes of the file that end at the file position, and a NUL after them; the buffer is
        full unless the file ends there. */
    ghost predicate Window()
      reads this`fpos, this`bytesRead, buf
    {
      && buf.Length == BUF_SIZE + 1
      && '\0' !in file
      && bytesRead <= BUF_SIZE
      && bytesRead <= fpos <= |file|
      && (fpos == |file| || bytesRead == BUF_SIZE)
      && (forall i :: 0 <= i < bytesRead ==> buf[i] == file[fpos - bytesRead + i])
      && buf[bytesRead] == '\0'
    }

    ghost predicate Ready()
      reads this`fpos, this`bytesRead, this`page, buf
    {
      Window() && page <= bytesRead
    }

    /** The file position that page stands for. */
    ghost function Position(): int
      reads this
    {
      fpos - bytesRead + page
    }

    ghost predicate AtLine(j: nat)
      reads this
    {
      Position() == Start(file, j)
    }

    ghost function RowText(j: nat): string
      reads this`hscroll
    {
      Clip(LineText(file, j), hscroll, cols)
    }

    /** The refinement relation between the reader and the list of lines. */
    ghost predicate Valid()
      reads this, buf
    {
      && Ready()
      && height >= 1
      && hscroll <= MAX_LEN
      && top <= Last(file)
      && AtLine(top + height)
      && (beginReached <==> top == 0)
      && (endReached <==> top + height > Last(file))
      && pageLength == Min(height, Last(file) - top + 1)
      && |rows| == height
      && (forall i :: 0 <= i < height ==> rows[i] == RowText(top + i))
    }

    constructor (text: string, height: nat, cols: nat)
      requires '\0' !in text && height >= 1
      ensures Valid() && file == text && this.height == height && this.cols == cols
      ensures top == 0 && hscroll == 0 && fresh(buf)
    {
      file, this.height, this.cols := text, height, cols;
      buf := new char[BUF_SIZE + 1](_ => '\0');
      fpos, bytesRead, page, pageLength, hscroll := 0, 0, 0, 0, 0;
      beginReached, endReached := true, false;
      rows := seq(height, _ => "");
      top := 0;
      new;
      Read();
      page := 0;
      PrintPage(0);
    }

    /** lseek(fd, to, SEEK_SET): fails on a negative position. */
    method Seek(to: int) returns (r: int)
      modifies this`fpos
      ensures to < 0 ==> r == -1 && fpos == old(fpos)
      ensures to >= 0 ==> r == to && fpos == to
    {
      if to < 0 { return -1; }
      fpos := to;
      return to;
    }

    /** bytes_read = read(fd, buf, BUF_SIZE); buf[bytes_read] = 0. */
    method Read()
      requires buf.Length == BUF_SIZE + 1 && fpos <= |file| && '\0' !in file
      modifies this`fpos, this`bytesRead, buf
      ensures fpos == Min(old(fpos) + BUF_SIZE, |file|)
      ensures bytesRead == fpos - old(fpos)
      ensures forall i :: 0 <= i < bytesRead ==> buf[i] == file[fpos - bytesRead + i]
      ensures buf[bytesRead] == '\0'
    {
      var n := Min(BUF_SIZE, |file| - fpos);
      forall i | 0 <= i < n {
        buf[i] := file[fpos + i];
      }
      buf[n] := '\0';
      bytesRead := n;
      fpos := fpos + n;
    }

    /** page stands on the file's character at Position, or on the NUL at the end of the buffer. */
    lemma CharAtPage()
      requires Ready()
      ensures buf[page] == '\0' <==> page == bytesRead
      ensures page < bytesRead ==> Position() < |file| && buf[page] == file[Position()]
    {
      if page < bytesRead {
        assert buf[page] == file[fpos - bytesRead + page];
        assert file[fpos - bytesRead + page] in file;
      }
    }

    /** line[0..i] holds what is kept of the characters from p to q; i counts no further than MAX_LEN + 1. */
    ghost predicate Kept(p: nat, q: nat, line: string, i: nat)
      requires p <= q <= |file|
    {
      line == file[p..Min(q, p + MAX_LEN)] && i == Min(q - p, MAX_LEN + 1)
    }

    lemma KeptOne(p: nat, q: nat, line: string, i: nat)
      requires p <= q < |file| && Kept(p, q, line, i)
      ensures i < MAX_LEN ==> Kept(p, q + 1, line + [file[q]], i + 1)
      ensures i == MAX_LEN ==> Kept(p, q + 1, line, i + 1)
      ensures i > MAX_LEN ==> Kept(p, q + 1, line, i)
    {
    }

    /** Move over the character at page, keeping it while there is room. */
    method TakeChar(line: string, i: nat, ghost p: nat) returns (line': string, i': nat)
      requires Ready() && page < bytesRead
      requires p <= Position() && Kept(p, Position(), line, i)
      modifies this`page
      ensures Ready() && page == old(page) + 1
      ensures Kept(p, Position(), line', i')
    {
      CharAtPage();
      KeptOne(p, Position(), line, i);
      line', i' := line, i;
      if i < MAX_LEN {
        line' := line + [buf[page]];
        i' := i + 1;
      } else if i == MAX_LEN {
        i' := i + 1;
      }
      page := page + 1;
    }

    /** At the end of the buffer: read in the next buffer-full unless the file ends here. */
    method RefillForward() returns (atEnd: bool)
      requires Ready() && page == bytesRead
      modifies this`fpos, this`bytesRead, this`page, buf
      ensures Ready() && Position() == old(Position())
      ensures atEnd == (Position() == |file|)
      ensures !atEnd ==> page < bytesRead
    {
      if fpos < |file| {
        Read();
        page := 0;
        atEnd := false;
      } else {
        atEnd := true;
      }
    }

    /** One pass of the loop of get_line: refill at the end of the buffer, or take a character. */
    method GetLineStep(line: string, i: nat, ghost p: nat) returns (line': string, i': nat, atEnd: bool)
      requires Ready() && p <= Position() && Kept(p, Position(), line, i)
      requires buf[page] != '\n'
      modifies this`fpos, this`bytesRead, this`page, buf
      ensures Ready() && p <= Position() && Kept(p, Position(), line', i')
      ensures atEnd ==> Position() == old(Position()) == |file|
      ensures Position() == old(Position()) || (Position() == old(Position()) + 1 && file[old(Position())] != '\n')
      ensures !atEnd && Position() == old(Position()) ==> old(page == bytesRead) && page < bytesRead
      ensures buf[page] == '\0' <==> page == bytesRead
      ensures page < bytesRead ==> Position() < |file| && buf[page] == file[Position()]
    {
      CharAtPage();
      line', i', atEnd := line, i, false;
      if buf[page] == '\0' {
        atEnd := RefillForward();
      } else {
        line', i' := TakeChar(line, i, p);
      }
      CharAtPage();
    }

    /** The loop of get_line: up to the newline that ends the line, or the end of the file. */
    method ToLineEnd() returns (line: string, atEnd: bool)
      requires Ready()
      modifies this`fpos, this`bytesRead, this`page, buf
      ensures Ready() && Position() == LineEnd(file, old(Position()))
      ensures atEnd == (Position() == |file|) && (!atEnd ==> page < bytesRead)
      ensures line == file[old(Position())..Min(Position(), old(Position()) + MAX_LEN)]
    {
      ghost var p := Position();
      var i := 0;
      line := "";
      atEnd := false;
      CharAtPage();
      while buf[page] != '\n'
        invariant Ready() && !atEnd
        invariant p <= Position() <= LineEnd(file, p)
        invariant Kept(p, Position(), line, i)
        invariant page < bytesRead ==> buf[page] == file[Position()]
        invariant buf[page] == '\0' <==> page == bytesRead
        decreases |file| - Position(), bytesRead - page == 0
      {
        line, i, atEnd := GetLineStep(line, i, p);
        if atEnd { return; }
      }
    }

    /** Read the line at page and move past it; the next buffer-full is read in when the line runs off the end. */
    method GetLine() returns (line: string)
      requires Ready()
      modifies this`fpos, this`bytesRead, this`page, this`endReached, buf
      ensures Ready()
      ensures var p := old(Position());
              var e := LineEnd(file, p);
              && endReached == (e == |file|)
              && Position() == (if e == |file| then e else e + 1)
              && line == file[p..Min(e, p + MAX_LEN)]
    {
      endReached := false;
      var atEnd;
      line, atEnd := ToLineEnd();
      if atEnd {
        endReached := true;
      } else {
        page := page + 1;
      }
    }

    /** GetLine by line number. */
    method GetLineAt(ghost j: nat) returns (line: string)
      requires Ready() && AtLine(j)
      modifies this`fpos, this`bytesRead, this`page, this`endReached, buf
      ensures Ready() && AtLine(j + 1)
      ensures endReached == (j >= Last(file))
      ensures Clip(line, hscroll, cols) == RowText(j)
    {
      LineTaken(file, j);
      line := GetLine();
      LineShown(file, j, line, hscroll, cols);
    }

    method PrintLine(row: nat, ghost j: nat)
      requires Ready() && AtLine(j) && row < |rows|
      modifies this`fpos, this`bytesRead, this`page, this`endReached, this`rows, buf
      ensures Ready() && AtLine(j + 1)
      ensures endReached == (j >= Last(file))
      ensures rows == old(rows)[row := RowText(j)]
    {
      var line := GetLineAt(j);
      var text := Clip(line, hscroll, cols);
      assert text == RowText(j);
      rows := rows[row := text];
    }

    /** Print the page whose first line is t. */
    method PrintPage(ghost t: nat)
      requires Ready() && AtLine(t) && t <= Last(file)
      requires height >= 1 && hscroll <= MAX_LEN && |rows| == height && (beginReached <==> t == 0)
      modifies this`fpos, this`bytesRead, this`page, this`endReached, this`rows, this`pageLength, this`top, buf
      ensures Valid() && top == t
    {
      var passedEnd := false;
      pageLength := 0;
      for i := 0 to height
        invariant Ready() && AtLine(t + i) && |rows| == height
        invariant i > 0 ==> endReached == passedEnd
        invariant passedEnd == (i > 0 && t + i > Last(file))
        invariant pageLength == Min(i, Last(file) - t + 1)
        invariant forall r :: 0 <= r < i ==> rows[r] == RowText(t + r)
      {
        PrintLine(i, t + i);
        if !passedEnd { pageLength := pageLength + 1; }
        if endReached && !passedEnd { passedEnd := true; }
      }
      top := t;
    }

    /** At the start of the buffer: read in what precedes it, moving back by half a buffer where that much is
        there. No seek below the start of the file is ever made. */
    method RefillBackward() returns (atBegin: bool)
      requires Ready() && page == 0
      modifies this`fpos, this`bytesRead, this`page, buf
      ensures Ready() && Position() == old(Position())
      ensures atBegin == (Position() == 0)
      ensures !atBegin ==> page > 0
    {
      if fpos > bytesRead {
        var start := fpos - bytesRead;
        if fpos < BUF_SIZE / 2 + bytesRead {
          var r := Seek(0);
          page := start;
        } else {
          var r := Seek(fpos - (BUF_SIZE / 2 + bytesRead));
          if r == -1 {
            assert false;  // "Error moving file pointer in back_lines()"
          }
          page := BUF_SIZE / 2;
        }
        Read();
        atBegin := false;
      } else {
        atBegin := true;
      }
    }

    /** Move back to the character before, reading in what precedes the buffer where it has to. */
    method BackOneChar() returns (atBegin: bool)
      requires Ready()
      modifies this`fpos, this`bytesRead, this`page, buf
      ensures Ready() && atBegin == (old(Position()) == 0)
      ensures if atBegin then Position() == 0
              else Position() == old(Position()) - 1 < |file| && page < bytesRead && buf[page] == file[Position()]
    {
      if page == 0 {
        atBegin := RefillBackward();
        if atBegin { return; }
      }
      page := page - 1;
      CharAtPage();
      atBegin := false;
    }

    /** Move back from inside line m to the newline before it; line 0 has none. */
    method BackToNewline(ghost m: nat) returns (atBegin: bool)
      requires Ready() && m <= Last(file)
      requires Start(file, m) <= Position() <= LineEnd(file, Start(file, m))
      modifies this`fpos, this`bytesRead, this`page, buf
      ensures Ready() && atBegin == (m == 0)
      ensures if atBegin then Position() == 0 else Position() == Start(file, m) - 1 && page < bytesRead
    {
      while true
        invariant Ready()
        invariant Start(file, m) <= Position() <= LineEnd(file, Start(file, m))
        decreases Position()
      {
        StartOfLine(file, m, Position());
        atBegin := BackOneChar();
        if atBegin || buf[page] == '\n' { return; }
      }
    }

    /** Step from the start of line j over the newline before it; line 0 has none. */
    method BackOverNewline(ghost j: nat) returns (atBegin: bool)
      requires Ready() && j <= Last(file) && AtLine(j)
      modifies this`fpos, this`bytesRead, this`page, buf
      ensures Ready() && atBegin == (j == 0)
      ensures if atBegin then Position() == 0 else Position() == LineEnd(file, Start(file, j - 1))
    {
      StartOfLine(file, j, Position());
      atBegin := BackOneChar();
      if atBegin { return; }
      LineAt(file, j - 1);
      if buf[page] != '\n' {
        assert false;  // "Internal error in back_lines()"
      }
    }

    /** From the end of line m to the end of the line before it; line 0 has none. */
    method BackOneLine(ghost m: nat) returns (atBegin: bool)
      requires Ready() && m <= Last(file) && Position() == LineEnd(file, Start(file, m))
      modifies this`fpos, this`bytesRead, this`page, buf
      ensures Ready() && atBegin == (m == 0)
      ensures if atBegin then Position() == 0 else Position() == LineEnd(file, Start(file, m - 1)) && page < bytesRead
    {
      atBegin := BackToNewline(m);
      if !atBegin { EndsBeforeNext(file, m - 1); }
    }

    /** From the end of line from to the end of the line n lines before it, if there is one. */
    method BackNewlines(n: nat, ghost from: nat) returns (atBegin: bool)
      requires Ready() && n >= 1 && from <= Last(file) && Position() == LineEnd(file, Start(file, from))
      modifies this`fpos, this`bytesRead, this`page, buf
      ensures Ready() && atBegin == (n > from)
      ensures if atBegin then Position() == 0 else Position() == LineEnd(file, Start(file, from - n)) && page < bytesRead
    {
      var i := 0;
      while i < n
        invariant 0 <= i <= n && i <= from && Ready()
        invariant Position() == LineEnd(file, Start(file, from - i))
        invariant i > 0 ==> page < bytesRead
      {
        atBegin := BackOneLine(from - i);
        if atBegin { return; }
        i := i + 1;
      }
      atBegin := false;
    }

    /** Go back n lines from the end of line from: to the start of the line n - 1 lines before it. */
    method BackFromEnd(n: nat, ghost from: nat) returns (ghost t: nat)
      requires Ready() && n >= 1 && !beginReached
      requires from <= Last(file) && Position() == LineEnd(file, Start(file, from))
      modifies this`fpos, this`bytesRead, this`page, this`beginReached, buf
      ensures Ready() && t == Max(from - n + 1, 0)
      ensures Position() == Start(file, t) && (beginReached <==> t == 0)
    {
      var atBegin := BackNewlines(n, from);
      if atBegin {
        beginReached := true;
        return 0;
      }
      EndsBeforeNext(file, from - n);
      page := page + 1;
      t := from - n + 1;
    }

    /** Go back n lines from the start of line j, or, at the end of the file, from the end of the last line. */
    method BackLines(n: nat, ghost j: nat) returns (ghost t: nat)
      requires Ready() && n >= 1
      requires if endReached then Position() == |file| else j <= Last(file) && AtLine(j)
      modifies this`fpos, this`bytesRead, this`page, this`beginReached, buf
      ensures Ready()
      ensures t == if endReached then Max(Last(file) - n + 1, 0) else Max(j - n, 0)
      ensures t <= Last(file) && AtLine(t) && (beginReached <==> t == 0)
    {
      beginReached := false;
      if !endReached {
        var atBegin := BackOverNewline(j);
        if atBegin {
          beginReached := true;
          return 0;
        }
        t := BackFromEnd(n, j - 1);
      } else {
        LineAt(file, Last(file));
        t := BackFromEnd(n, Last(file));
      }
    }

    lemma PositionAtEnd(j: nat)
      requires AtLine(j) && j > Last(file)
      ensures Position() == |file|
    {
      StartPastEnd(file, 0, j);
    }

    /** Back to the first line of the page shown, and k lines further. */
    method BackFromPage(k: nat) returns (ghost t: nat)
      requires Valid()
      modifies this`fpos, this`bytesRead, this`page, this`beginReached, buf
      ensures Ready() && t == Max(top - k, 0)
      ensures AtLine(t) && (beginReached <==> t == 0)
    {
      if endReached { PositionAtEnd(top + height); }
      t := BackLines(pageLength + k, top + height);
    }

    method GoHome()
      requires Valid()
      modifies this, buf
      ensures Valid() && top == 0 && hscroll == old(hscroll)
    {
      if !beginReached {
        beginReached := true;
        if fpos > bytesRead {
          var r := Seek(0);
          Read();
        }
        page := 0;
        PrintPage(0);
      }
    }

    method GoEnd()
      requires Valid()
      modifies this, buf
      ensures Valid() && top == Max(Last(file) - height + 1, 0) && hscroll == old(hscroll)
    {
      endReached := true;
      if fpos < |file| {
        var r := Seek(|file| - BUF_SIZE);
        if r == -1 {
          assert false;  // "Error moving file pointer in dialog_textbox()"
        }
        Read();
      }
      page := bytesRead;
      ghost var t := BackLines(height, 0);
      PrintPage(t);
    }

    /** Print row 0 only; the other lines of the page are read to move page on and to bring endReached and
        pageLength up to date. */
    method PrintFirstRow(ghost t: nat)
      requires Ready() && AtLine(t) && t <= Last(file) && |rows| == height >= 1
      modifies this`fpos, this`bytesRead, this`page, this`endReached, this`rows, this`pageLength, buf
      ensures Ready() && AtLine(t + height)
      ensures endReached <==> t + height > Last(file)
      ensures pageLength == Min(height, Last(file) - t + 1)
      ensures rows == old(rows)[0 := RowText(t)]
    {
      var passedEnd := false;
      pageLength := 0;
      for i := 0 to height
        invariant Ready() && AtLine(t + i)
        invariant i > 0 ==> endReached == passedEnd
        invariant passedEnd == (i > 0 && t + i > Last(file))
        invariant pageLength == Min(i, Last(file) - t + 1)
        invariant rows == if i == 0 then old(rows) else old(rows)[0 := RowText(t)]
      {
        if i == 0 {
          PrintLine(0, t);
        } else {
          var line := GetLineAt(t + i);
        }
        if !passedEnd { pageLength := pageLength + 1; }
        if endReached && !passedEnd { passedEnd := true; }
      }
    }

    /** The screen is scrolled down one row. */
    method LineUp()
      requires Valid()
      modifies this, buf
      ensures Valid() && top == Max(old(top) - 1, 0) && hscroll == old(hscroll)
    {
      if !beginReached {
        ghost var t := BackFromPage(1);
        UncoverTop(t);
        top := t;
        RowsAfterUp(old(rows));
      }
    }

    method UncoverTop(ghost t: nat)
      requires Ready() && AtLine(t) && t <= Last(file) && |rows| == height >= 1
      modifies this`fpos, this`bytesRead, this`page, this`endReached, this`rows, this`pageLength, buf
      ensures Ready() && AtLine(t + height)
      ensures endReached <==> t + height > Last(file)
      ensures pageLength == Min(height, Last(file) - t + 1)
      ensures rows == ([""] + old(rows)[..height - 1])[0 := RowText(t)]
    {
      rows := [""] + rows[..height - 1];
      PrintFirstRow(t);
    }

    lemma RowsAfterUp(was: seq<string>)
      requires 1 <= height == |was| && rows == ([""] + was[..height - 1])[0 := RowText(top)]
      requires forall i :: 0 <= i < height ==> was[i] == RowText(top + 1 + i)
      ensures |rows| == height && forall i :: 0 <= i < height ==> rows[i] == RowText(top + i)
    {
      forall i | 1 <= i < height ensures rows[i] == RowText(top + i) {
        assert rows[i] == was[i - 1] == RowText(top + 1 + (i - 1));
      }
    }

    method GoPageUp()
      requires Valid()
      modifies this, buf
      ensures Valid() && top == Max(old(top) - height, 0) && hscroll == old(hscroll)
    {
      if beginReached { return; }
      ghost var t := BackFromPage(height);
      PrintPage(t);
    }

    method LineDown()
      requires Valid()
      modifies this, buf
      ensures Valid() && hscroll == old(hscroll)
      ensures top == if old(top) + height <= Last(file) then old(top) + 1 else old(top)
    {
      if !endReached {
        beginReached := false;
        ScrollOne();
        top := top + 1;
        RowsAfterDown(old(rows));
      }
    }

    method ScrollOne()
      requires Ready() && |rows| == height >= 1 && AtLine(top + height)
      modifies this`fpos, this`bytesRead, this`page, this`endReached, this`rows, buf
      ensures Ready() && AtLine(top + height + 1) && endReached == (top + height >= Last(file))
      ensures rows == (old(rows)[1..] + [""])[height - 1 := RowText(top + height)]
    {
      rows := rows[1..] + [""];
      PrintLine(height - 1, top + height);
    }

    lemma RowsAfterDown(was: seq<string>)
      requires height >= 1 && top >= 1 && |rows| == height == |was|
      requires rows == (was[1..] + [""])[height - 1 := RowText(top - 1 + height)]
      requires forall i :: 0 <= i < height ==> was[i] == RowText(top - 1 + i)
      ensures forall i :: 0 <= i < height ==> rows[i] == RowText(top + i)
    {
      forall i | 0 <= i < height - 1 ensures rows[i] == RowText(top + i) {
        assert rows[i] == was[1..][i] == was[i + 1] == RowText(top - 1 + (i + 1));
      }
    }

    method GoPageDown()
      requires Valid()
      modifies this, buf
      ensures Valid() && hscroll == old(hscroll)
      ensures top == if old(top) + height <= Last(file) then old(top) + height else old(top)
    {
      if endReached { return; }
      beginReached := false;
      PrintPage(top + height);
    }

    /** Reprint the page shown under another horizontal scroll. */
    method Reprint(h: nat)
      requires Valid() && h <= MAX_LEN
      modifies this, buf
      ensures Valid() && top == old(top) && hscroll == h
    {
      ghost var t := BackFromPage(0);
      hscroll := h;
      PrintPage(t);
    }

    /** What the rows show, character by character: of each line what is left of its first 2048 characters after the
        horizontal scroll, as far as the row goes. */
    lemma RowsShow()
      requires Valid()
      ensures |rows| == height
      ensures forall i :: 0 <= i < height ==>
                |rows[i]| == Min(Max(Min(|LineText(file, top + i)|, 2048) - hscroll, 0), cols)
      ensures forall i, c :: 0 <= i < height && 0 <= c < |rows[i]| ==>
                hscroll + c < |LineText(file, top + i)| && rows[i][c] == LineText(file, top + i)[hscroll + c]
    {
      forall i | 0 <= i < height
        ensures |rows[i]| == Min(Max(Min(|LineText(file, top + i)|, 2048) - hscroll, 0), cols)
        ensures forall c :: 0 <= c < |rows[i]| ==>
                  hscroll + c < |LineText(file, top + i)| && rows[i][c] == LineText(file, top + i)[hscroll + c]
      {
        ClipShows(LineText(file, top + i), hscroll, cols);
      }
    }

    /** One pass of the key loop. */
    method Press(key: Key)
      requires Valid()
      modifies this, buf
      ensures Valid()
      ensures top == TopAfter(old(top), key, Last(file), height)
      ensures hscroll == ScrollAfter(old(hscroll), key)
    {
      match key
      case Home => GoHome();
      case End => GoEnd();
      case Up => LineUp();
      case PageUp => GoPageUp();
      case Down => LineDown();
      case PageDown => GoPageDown();
      case Zero => if hscroll > 0 { Reprint(0); }
      case Left => if hscroll > 0 { Reprint(hscroll - 1); }
      case Right => if hscroll < MAX_LEN { Reprint(hscroll + 1); }
      case _ =>
    }

    /** The key loop. Whatever keys arrive, the box shows the page that the list model shows, it has read the
        file within its window throughout, and it returns 0 for the exit key and -1 for escape or enter. */
    method Browse(keys: seq<Key>) returns (result: int)
      requires Valid()
      modifies this, buf
      ensures Valid()
      ensures (top, hscroll) == Browsed(old(top), old(hscroll), keys, Last(file), height)
      ensures result == (if LeavesByExit(keys) then 0 else -1)
      ensures result == 0 <==> exists i :: 0 <= i < |keys| && keys[i].Exit?
                                        && forall j :: 0 <= j < i ==> !keys[j].Exit? && !keys[j].Esc? && !keys[j].Enter?
      ensures |rows| == height
      ensures forall i :: 0 <= i < height ==>
                |rows[i]| == Min(Max(Min(|LineText(file, top + i)|, 2048) - hscroll, 0), cols)
      ensures forall i, c :: 0 <= i < height && 0 <= c < |rows[i]| ==>
                hscroll + c < |LineText(file, top + i)| && rows[i][c] == LineText(file, top + i)[hscroll + c]
    {
      result := KeyLoop(keys);
      RowsShow();
      ExitFirst(keys);
    }

    method KeyLoop(keys: seq<Key>) returns (result: int)
      requires Valid()
      modifies this, buf
      ensures Valid()
      ensures (top, hscroll) == Browsed(old(top), old(hscroll), keys, Last(file), height)
      ensures result == (if LeavesByExit(keys) then 0 else -1)
    {
      var i := 0;
      while i < |keys|
        invariant 0 <= i <= |keys| && Valid()
        invariant Browsed(top, hscroll, keys[i..], Last(file), height)
               == Browsed(old(top), old(hscroll), keys, Last(file), height)
        invariant LeavesByExit(keys[i..]) == LeavesByExit(keys)
      {
        if keys[i].Exit? { return 0; }
        if Closes(keys[i]) { return -1; }
        assert keys[i..][1..] == keys[i + 1..];
        Press(keys[i]);
        i := i + 1;
      }
      result := -1;
    }
  }
}
