/** The menu box: a cursor split into a scroll position and a row, moved by keys, and a list repainted row by row. */
module Menu {
  import opened Arithmetic

  /** A row of the menu window. */
  datatype Row = Blank | Item(item: int, selected: bool)

  datatype Key = Up | Down | PageUp | PageDown | Letter(c: char) | Other

  /** What lxdialog.scrltmp holds: no such file, something that is no number, or a number. */
  datatype Saved = NoFile | Garbage | Number(n: int)

  /** The minus and plus keys are arrow keys. */
  function Meaning(key: Key): Key {
    if key == Letter('-') then Up else if key == Letter('+') then Down else key
  }

  /** The single cursor behind scroll and choice, over n items shown max at a time. */
  function CursorAfter(cursor: int, key: Key, n: int, max: int): int {
    match Meaning(key)
    case Up => Max(cursor - 1, 0)
    case Down => Min(cursor + 1, n - 1)
    case PageUp => Max(cursor - max, 0)
    case PageDown => Min(cursor + max, n - 1)
    case _ => cursor
  }

  /** How much of a cursor move is scrolling: single steps scroll once the cursor is within two rows of the edge, page
      steps scroll first. */
  function ScrollAfter(scroll: int, choice: int, key: Key, n: int, max: int): int {
    match Meaning(key)
    case Up => if choice < 2 then Max(scroll - 1, 0) else scroll
    case Down => if choice > max - 3 then Min(scroll + 1, n - max) else scroll
    case PageUp => Max(scroll - max, 0)
    case PageDown => Min(scroll + max, n - max)
    case _ => scroll
  }

  /** The items before and after the one under the cursor are visible too, where there are any. */
  predicate Margins(scroll: int, choice: int, n: int, max: int) {
    0 <= scroll <= n - max && 0 <= choice < max
    && (choice >= 1 || scroll == 0) && (choice <= max - 2 || scroll == n - max)
  }

  /** Single steps never lose sight of the neighbours of the cursor, with three rows or more. */
  lemma StepsKeepMargins(scroll: int, choice: int, key: Key, n: int, max: int)
    requires Margins(scroll, choice, n, max) && (key.Up? || key.Down?) && max >= 3
    ensures var scroll' := ScrollAfter(scroll, choice, key, n, max);
            Margins(scroll', CursorAfter(scroll + choice, key, n, max) - scroll', n, max)
  {
  }

  /** A scroll position under which item index is among the rows, and no row is past the last item. */
  predicate Shows(scroll: int, index: int, n: int, max: int) {
    0 <= scroll && scroll <= index < scroll + max && scroll + max <= n
  }

  /** Where a box opens: at the saved position when that shows the item, else with the item in the middle. */
  function StartScroll(index: nat, n: nat, max: nat, saved: Saved): int {
    if saved.Number? && Shows(saved.n, index, n, max) then saved.n
    else if index < max / 2 then 0
    else Min(index - max / 2, n - max)
  }

  /** The scroll position and the row for a box that opens on item index. */
  method StartPlace(index: nat, n: nat, max: nat, saved: Saved) returns (scroll: int, choice: int)
    requires 1 <= max <= n && index < n
    ensures scroll == StartScroll(index, n, max, saved) && scroll + choice == index
    ensures 0 <= choice < max && 0 <= scroll <= n - max
    ensures saved.Number? && 0 <= saved.n <= index < saved.n + max <= n ==> scroll == saved.n
    ensures (saved.Number? && 0 <= saved.n <= index < saved.n + max <= n)
            || choice == max / 2 || (scroll == 0 && choice < max / 2) || (scroll == n - max && choice > max / 2)
  {
    scroll, choice := 0, index;
    var haveFile := !saved.NoFile?;
    if haveFile {
      if saved.Number? { scroll := saved.n; }
      if saved.Number? && scroll <= choice && scroll + max > choice && scroll >= 0 && scroll + max <= n {
        choice := choice - scroll;
      } else {
        scroll := 0;
        haveFile := false;
      }
    }
    if choice >= max || (!haveFile && choice >= max / 2) {
      if choice >= n - max / 2 {
        scroll := n - max;
      } else {
        scroll := choice - max / 2;
      }
      choice := choice - scroll;
    }
  }

  /** The default item: the last one whose tag is the current one, or the first item. */
  method DefaultItem(tags: seq<string>, current: string) returns (choice: nat)
    requires tags != []
    ensures choice < |tags|
    ensures if current in tags then tags[choice] == current && current !in tags[choice + 1..] else choice == 0
  {
    choice := 0;
    for i := 0 to |tags|
      invariant choice < |tags|
      invariant if current in tags[..i] then choice < i && tags[choice] == current && current !in tags[choice + 1..i]
                else choice == 0
    {
      if tags[i] == current { choice := i; }
    }
  }

  /** A full repaint. */
  function Painted(scroll: int, choice: int, max: nat, height: nat): (r: seq<Row>)
    ensures |r| == height
  {
    seq(height, i => if i < max then Item(scroll + i, i == choice) else Blank)
  }

  /** The same without any highlight. */
  function Plain(scroll: int, max: nat, height: nat): (r: seq<Row>)
    ensures |r| == height
  {
    Painted(scroll, -1, max, height)
  }

  /** Look for a key among those of the visible items: first below row choice, then from the top. */
  method FindHot(keys: seq<char>, choice: nat, key: char) returns (i: nat)
    requires choice < |keys|
    ensures i == HotRow(keys, choice, key)
  {
    if key in "ynm" { return |keys|; }
    i := choice + 1;
    while i < |keys| && keys[i] != key
      invariant choice < i <= |keys| && FirstFrom(keys, choice + 1, key) == FirstFrom(keys, i, key)
    {
      i := i + 1;
    }
    if i == |keys| {
      i := 0;
      while i < |keys| && keys[i] != key
        invariant 0 <= i <= |keys| && FirstFrom(keys, 0, key) == FirstFrom(keys, i, key)
      {
        i := i + 1;
      }
    }
  }

  /** The first row from i on with this key, or the number of rows. */
  function FirstFrom(keys: seq<char>, i: nat, key: char): (r: nat)
    requires i <= |keys|
    ensures i <= r <= |keys| && (r < |keys| ==> keys[r] == key)
    ensures forall j :: i <= j < r ==> keys[j] != key
    decreases |keys| - i
  {
    if i == |keys| || keys[i] == key then i else FirstFrom(keys, i + 1, key)
  }

  /** The row that a key selects; y, n and m are commands and select none. */
  function HotRow(keys: seq<char>, choice: nat, key: char): (r: nat)
    requires choice < |keys|
    ensures r <= |keys| && (r < |keys| ==> keys[r] == key)
    ensures r == |keys| ==> key in "ynm" || key !in keys
  {
    if key in "ynm" then |keys|
    else
      var below := FirstFrom(keys, choice + 1, key);
      if below < |keys| then below else FirstFrom(keys, 0, key)
  }

  /** The row that a key selects directly, if it is not one that moves the cursor: a letter of a visible item. */
  function SelectedRow(hot: seq<char>, scroll: int, choice: int, max: int, key: Key): (r: nat)
    requires 0 <= choice < max && 0 <= scroll <= |hot| - max
    ensures r <= max && (r < max ==> key.Letter? && hot[scroll + r] == key.c)
  {
    if key.Letter? && key.c !in "-+" then HotRow(hot[scroll..scroll + max], choice, key.c) else max
  }

  class MenuBox {
    const n: nat            // item_no
    const height: nat       // menu_height
    const max: nat          // max_choice
    const hot: seq<char>    // the key of each item, in lower case
    var scroll: int
    var choice: int
    var rows: seq<Row>

    /** Scroll and row stay in their ranges; the window shows what a full repaint would, with one row highlighted. */
    ghost predicate Valid()
      reads this
    {
      && Sizes()
      && 0 <= choice < max && 0 <= scroll <= n - max
      && rows == Painted(scroll, choice, max, height)
    }

    predicate Sizes() {
      n >= 1 && height >= 1 && max == Min(height, n) && |hot| == n
    }

    ghost function Cursor(): int
      reads this
    {
      scroll + choice
    }

    ghost function Shown(): (p: Place)
      requires Valid()
      reads this
      ensures InList(p, hot, max)
    {
      Place(scroll, scroll + choice)
    }

    /** Open the box on an item, with whatever the file left by an earlier box says. The cursor is on that item; the
        saved scroll position is taken when it can show it, else the item is put in the middle. */
    constructor (hot: seq<char>, height: nat, index: nat, saved: Saved)
      requires height >= 1 && index < |hot|
      ensures Valid() && this.hot == hot && n == |hot| && this.height == height
      ensures Cursor() == index
      ensures scroll == StartScroll(index, n, max, saved) && max == (if height < |hot| then height else |hot|)
      ensures saved.Number? && 0 <= saved.n <= index < saved.n + max <= n ==> scroll == saved.n
      ensures (saved.Number? && 0 <= saved.n <= index < saved.n + max <= n)
              || choice == max / 2 || (scroll == 0 && choice < max / 2) || (scroll == n - max && choice > max / 2)
    {
      this.hot, n, this.height, max := hot, |hot|, height, Min(height, |hot|);
      choice, scroll, rows := 0, 0, Painted(0, 0, 0, height);
      new;
      var firstItem;
      firstItem, choice := StartPlace(index, n, max, saved);
      scroll := firstItem;
      for i := 0 to max
        invariant |rows| == height
        invariant forall r :: 0 <= r < height ==>
                    rows[r] == if r < i then Item(firstItem + r, r == choice) else Blank
        modifies this`rows
      {
        PrintItem(firstItem + i, i, i == choice);
      }
    }

    method PrintItem(item: int, row: nat, selected: bool)
      requires row < |rows|
      modifies this`rows
      ensures rows == old(rows)[row := Item(item, selected)]
    {
      rows := rows[row := Item(item, selected)];
    }

    /** Move the rows down by one and print the item that comes in at the top. */
    method ScrollDown()
      requires Sizes() && 0 < scroll <= n - max && rows == Plain(scroll, max, height)
      modifies this`scroll, this`rows
      ensures scroll == old(scroll) - 1 && rows == Plain(scroll, max, height)
    {
      rows := [Blank] + rows[..height - 1];
      scroll := scroll - 1;
      PrintItem(scroll, 0, false);
    }

    /** Move the rows up by one and print the item that comes in at the bottom. */
    method ScrollUp()
      requires Sizes() && 0 <= scroll < n - max && rows == Plain(scroll, max, height)
      modifies this`scroll, this`rows
      ensures scroll == old(scroll) + 1 && rows == Plain(scroll, max, height)
    {
      rows := rows[1..] + [Blank];
      scroll := scroll + 1;
      PrintItem(scroll + max - 1, max - 1, false);
    }

    /** The keys of the visible items. */
    function VisibleKeys(): (r: seq<char>)
      requires Sizes() && 0 <= scroll <= n - max
      reads this
      ensures |r| == max
    {
      hot[scroll..scroll + max]
    }

    method MoveUp()
      requires Sizes() && 0 <= choice < max && 0 <= scroll <= n - max && rows == Plain(scroll, max, height)
      modifies this
      ensures 0 <= choice < max && 0 <= scroll <= n - max && rows == Plain(scroll, max, height)
      ensures Cursor() == Max(old(Cursor()) - 1, 0)
      ensures scroll == ScrollAfter(old(scroll), old(choice), Up, n, max)
    {
      if choice < 2 && scroll != 0 {
        ScrollDown();
      } else {
        choice := Max(choice - 1, 0);
      }
    }

    method MoveDown()
      requires Sizes() && 0 <= choice < max && 0 <= scroll <= n - max && rows == Plain(scroll, max, height)
      modifies this
      ensures 0 <= choice < max && 0 <= scroll <= n - max && rows == Plain(scroll, max, height)
      ensures Cursor() == Min(old(Cursor()) + 1, n - 1)
      ensures scroll == ScrollAfter(old(scroll), old(choice), Down, n, max)
    {
      PrintItem(scroll + choice, choice, false);
      if choice > max - 3 && scroll + max < n {
        ScrollUp();
      } else {
        choice := Min(choice + 1, max - 1);
      }
    }

    /** max steps: the list scrolls while it can, then the row moves. */
    method MovePageUp()
      requires Sizes() && 0 <= choice < max && 0 <= scroll <= n - max && rows == Plain(scroll, max, height)
      modifies this
      ensures 0 <= choice < max && rows == Plain(scroll, max, height)
      ensures scroll == Max(old(scroll) - max, 0) <= n - max
      ensures Cursor() == Max(old(Cursor()) - max, 0)
    {
      for i := 0 to max
        invariant 0 <= choice < max && 0 <= scroll <= n - max && rows == Plain(scroll, max, height)
        invariant scroll == Max(old(scroll) - i, 0)
        invariant Cursor() == Max(old(Cursor()) - i, 0)
      {
        if scroll > 0 {
          ScrollDown();
        } else if choice > 0 {
          choice := choice - 1;
        }
      }
    }

    method MovePageDown()
      requires Sizes() && 0 <= choice < max && 0 <= scroll <= n - max && rows == Plain(scroll, max, height)
      modifies this
      ensures 0 <= choice < max && rows == Plain(scroll, max, height)
      ensures scroll == Min(old(scroll) + max, n - max)
      ensures Cursor() == Min(old(Cursor()) + max, n - 1)
    {
      for i := 0 to max
        invariant 0 <= choice < max && 0 <= scroll <= n - max && rows == Plain(scroll, max, height)
        invariant scroll == Min(old(scroll) + i, n - max)
        invariant Cursor() == Min(old(Cursor()) + i, n - 1)
      {
        if scroll + max < n {
          ScrollUp();
        } else if choice + 1 < max {
          choice := choice + 1;
        }
      }
    }

    function Selected(key: Key): (r: nat)
      requires Sizes() && 0 <= choice < max && 0 <= scroll <= n - max
      reads this
      ensures r <= max
    {
      SelectedRow(hot, scroll, choice, max, key)
    }

    /** One pass of the key loop: a letter of a visible item puts the cursor on that item; any other key moves it as
        on a plain list. */
    method Press(key: Key)
      requires Valid()
      modifies this
      ensures Valid()
      ensures Cursor() == if old(Selected(key)) < max then old(scroll) + old(Selected(key))
                          else CursorAfter(old(Cursor()), key, n, max)
      ensures old(Selected(key)) < max ==> hot[Cursor()] == key.c
      ensures scroll == ScrollAfter(old(scroll), old(choice), key, n, max)
    {
      var i := max;
      if key.Letter? { i := FindHot(VisibleKeys(), choice, key.c); }
      var up := key.Up? || key == Letter('-');
      var down := key.Down? || key == Letter('+');
      if i < max || up || down || key.PageUp? || key.PageDown? {
        MoveHighlight(key, up, down, i);
      }
    }

    method MoveHighlight(key: Key, up: bool, down: bool, i: nat)
      requires Valid() && up == (key.Up? || key == Letter('-')) && down == (key.Down? || key == Letter('+'))
      requires !up && !down && !key.PageUp? && !key.PageDown? ==> key.Letter? && i < max
      modifies this
      ensures Valid()
      ensures if up || down || key.PageUp? || key.PageDown? then Cursor() == CursorAfter(old(Cursor()), key, n, max)
              else choice == i
      ensures scroll == ScrollAfter(old(scroll), old(choice), key, n, max)
    {
      Unhighlight();
      Move(key, up, down, i);
      Highlight();
    }

    method Unhighlight()
      requires Valid()
      modifies this`rows
      ensures rows == Plain(scroll, max, height)
    {
      PrintItem(scroll + choice, choice, false);
    }

    method Highlight()
      requires Sizes() && 0 <= choice < max && 0 <= scroll <= n - max && rows == Plain(scroll, max, height)
      modifies this`rows
      ensures Valid()
    {
      PrintItem(scroll + choice, choice, true);
    }

    method Move(key: Key, up: bool, down: bool, i: nat)
      requires Sizes() && 0 <= choice < max && 0 <= scroll <= n - max && rows == Plain(scroll, max, height)
      requires up == (key.Up? || key == Letter('-')) && down == (key.Down? || key == Letter('+'))
      requires !up && !down && !key.PageUp? && !key.PageDown? ==> key.Letter? && i < max
      modifies this
      ensures 0 <= choice < max && 0 <= scroll <= n - max && rows == Plain(scroll, max, height)
      ensures if up || down || key.PageUp? || key.PageDown? then Cursor() == CursorAfter(old(Cursor()), key, n, max)
              else choice == i
      ensures scroll == ScrollAfter(old(scroll), old(choice), key, n, max)
    {
      if up {
        MoveUp();
      } else if down {
        MoveDown();
      } else if key.PageUp? {
        MovePageUp();
      } else if key.PageDown? {
        MovePageDown();
      } else {
        choice := i;
      }
    }
  }

  /** The list model: which item the cursor is on, and which item the window starts with. */
  datatype Place = Place(scroll: int, cursor: int)

  predicate InList(p: Place, hot: seq<char>, max: int) {
    1 <= max <= |hot| && 0 <= p.scroll <= |hot| - max && p.scroll <= p.cursor < p.scroll + max
  }

  /** A letter goes to the next visible item with that letter, without scrolling; other keys move the cursor. */
  function Pressed(p: Place, key: Key, hot: seq<char>, max: int): (r: Place)
    requires InList(p, hot, max)
    ensures InList(r, hot, max)
  {
    var row := SelectedRow(hot, p.scroll, p.cursor - p.scroll, max, key);
    if row < max then Place(p.scroll, p.scroll + row)
    else Place(ScrollAfter(p.scroll, p.cursor - p.scroll, key, |hot|, max), CursorAfter(p.cursor, key, |hot|, max))
  }

  function PressedAll(p: Place, keys: seq<Key>, hot: seq<char>, max: int): (r: Place)
    requires InList(p, hot, max)
    ensures InList(r, hot, max)
    decreases |keys|
  {
    if keys == [] then p else PressedAll(Pressed(p, keys[0], hot, max), keys[1..], hot, max)
  }

  /** One key, in plain words. A step scrolls the list instead of the cursor once that has less than two rows before
      it; minus and plus are steps too; a page scrolls first; a letter goes to the next visible item with it, or else
      to the first one. */
  lemma KeyDoes(p: Place, key: Key, hot: seq<char>, max: int)
    requires InList(p, hot, max)
    ensures var q, n, row := Pressed(p, key, hot, max), |hot|, p.cursor - p.scroll;
            var up := if row < 2 && p.scroll > 0 then Place(p.scroll - 1, p.cursor - 1)
                      else Place(p.scroll, if p.cursor > 0 then p.cursor - 1 else 0);
            var down := if row > max - 3 && p.scroll < n - max then Place(p.scroll + 1, p.cursor + 1)
                        else Place(p.scroll, if p.cursor < n - 1 then p.cursor + 1 else n - 1);
            match key
            case Up => q == up
            case Down => q == down
            case PageUp =>
              q == Place(if p.scroll > max then p.scroll - max else 0, if p.cursor > max then p.cursor - max else 0)
            case PageDown =>
              q == Place(if p.scroll + max < n - max then p.scroll + max else n - max,
                         if p.cursor + max < n - 1 then p.cursor + max else n - 1)
            case Letter(c) =>
              if c == '-' then q == up
              else if c == '+' then q == down
              else
                && q.scroll == p.scroll
                && (c == 'y' || c == 'n' || c == 'm' ==> q == p)
                && (q != p ==> hot[q.cursor] == c)
                && (q.cursor > p.cursor ==> forall i :: p.cursor < i < q.cursor ==> hot[i] != c)
                && (q.cursor < p.cursor ==> (forall i :: p.scroll <= i < q.cursor ==> hot[i] != c)
                                            && forall i :: p.cursor < i < p.scroll + max ==> hot[i] != c)
                && (q == p && c != 'y' && c != 'n' && c != 'm' ==>
                      forall i :: p.scroll <= i < p.scroll + max && i != p.cursor ==> hot[i] != c)
            case Other => q == p
  {
    if key.Letter? && key.c !in "-+" { LetterGoes(p, key.c, hot, max); }
  }

  lemma LetterGoes(p: Place, c: char, hot: seq<char>, max: int)
    requires InList(p, hot, max) && c != '-' && c != '+'
    ensures var q := Pressed(p, Letter(c), hot, max);
            && q.scroll == p.scroll
            && (c == 'y' || c == 'n' || c == 'm' ==> q == p)
            && (q != p ==> hot[q.cursor] == c)
            && (q.cursor > p.cursor ==> forall i :: p.cursor < i < q.cursor ==> hot[i] != c)
            && (q.cursor < p.cursor ==> (forall i :: p.scroll <= i < q.cursor ==> hot[i] != c)
                                        && forall i :: p.cursor < i < p.scroll + max ==> hot[i] != c)
            && (q == p && c != 'y' && c != 'n' && c != 'm' ==>
                  forall i :: p.scroll <= i < p.scroll + max && i != p.cursor ==> hot[i] != c)
  {
    var keys, row := hot[p.scroll..p.scroll + max], p.cursor - p.scroll;
    RowFound(keys, row, c);
    var i := HotRow(keys, row, c);
    assert Pressed(p, Letter(c), hot, max) == if i < max then Place(p.scroll, p.scroll + i) else p;
    forall x | p.scroll <= x < p.scroll + max ensures hot[x] == keys[x - p.scroll] {
    }
  }

  /** The row that a key selects: the first one below the cursor with it, or else the first one. */
  lemma RowFound(keys: seq<char>, choice: nat, key: char)
    requires choice < |keys|
    ensures var i := HotRow(keys, choice, key);
            && i <= |keys|
            && (key == 'y' || key == 'n' || key == 'm' ==> i == |keys|)
            && (key != 'y' && key != 'n' && key != 'm' && i == |keys| ==> forall j :: 0 <= j < |keys| ==> keys[j] != key)
            && (choice < i < |keys| ==> keys[i] == key && forall j :: choice < j < i ==> keys[j] != key)
            && (i <= choice ==> keys[i] == key && (forall j :: 0 <= j < i ==> keys[j] != key)
                                && forall j :: choice < j < |keys| ==> keys[j] != key)
  {
  }

  /** The keys count in the order in which they come. */
  lemma {:induction false} OneKeyMore(p: Place, keys: seq<Key>, key: Key, hot: seq<char>, max: int)
    requires InList(p, hot, max)
    ensures PressedAll(p, keys + [key], hot, max) == Pressed(PressedAll(p, keys, hot, max), key, hot, max)
    decreases |keys|
  {
    if keys == [] {
      assert ([key])[1..] == [];
    } else {
      assert (keys + [key])[1..] == keys[1..] + [key];
      OneKeyMore(Pressed(p, keys[0], hot, max), keys[1..], key, hot, max);
    }
  }

  /** One key, on the list model. */
  method PressOne(m: MenuBox, key: Key)
    requires m.Valid()
    modifies m
    ensures m.Valid() && m.Shown() == Pressed(old(m.Shown()), key, m.hot, m.max)
  {
    m.Press(key);
  }

  /** Every run of keys, letters and all, moves scroll and row as the list model does. */
  method Run(m: MenuBox, keys: seq<Key>)
    requires m.Valid()
    modifies m
    ensures m.Valid() && m.Shown() == PressedAll(old(m.Shown()), keys, m.hot, m.max)
    ensures |m.rows| == m.height
    ensures forall i :: 0 <= i < m.height ==>
              m.rows[i] == if i < m.max then Item(m.scroll + i, i == m.choice) else Blank
  {
    var i := 0;
    while i < |keys|
      invariant 0 <= i <= |keys| && m.Valid()
      invariant PressedAll(m.Shown(), keys[i..], m.hot, m.max) == PressedAll(old(m.Shown()), keys, m.hot, m.max)
    {
      assert keys[i..][1..] == keys[i + 1..];
      PressOne(m, keys[i]);
      i := i + 1;
    }
  }

  /** Leaving a box with a selection key saves scroll; opening it again on the selected item gives the same rows. */
  method Reopen(m: MenuBox) returns (again: MenuBox)
    requires m.Valid()
    ensures again.Valid() && again.scroll == m.scroll && again.choice == m.choice && again.rows == m.rows
  {
    again := new MenuBox(m.hot, m.height, m.scroll + m.choice, Number(m.scroll));
  }
}
