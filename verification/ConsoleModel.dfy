/** The text console as an unbounded grid seen through a 25-row window. */
module ConsoleModel {

  const COLS: nat := 80    // max_xpos
  const ROWS: nat := 25    // max_ypos
  const BLANK: nat := 0x720

  /** A character as written: 0 ends a string, and values from 128 up are negative in C. */
  type Byte = b: nat | b < 256

  const NL: Byte := 10
  const CR: Byte := 13

  /** `(0x7 << 8) | (unsigned short) c`, where c sign-extends. */
  function Cell(c: Byte): nat {
    if c < 128 then 0x700 + c else 0xFF00 + c
  }

  /** Where the next character goes on the unbounded grid. */
  datatype Cursor = Cursor(row: nat, col: nat)

  function Advance(at: Cursor, c: Byte): Cursor {
    if c == NL then Cursor(at.row + 1, 0)
    else if c == CR then at
    else if at.col + 1 >= COLS then Cursor(at.row + 1, 0)
    else Cursor(at.row, at.col + 1)
  }

  function CursorAfter(text: seq<Byte>): Cursor {
    if text == [] then Cursor(0, 0) else Advance(CursorAfter(text[..|text| - 1]), text[|text| - 1])
  }

  predicate Printable(c: Byte) {
    c != NL && c != CR
  }

  /** The unbounded grid: what was written at a row and column, or a blank. */
  function Grid(text: seq<Byte>, row: nat, col: nat): nat {
    if text == [] then BLANK
    else
      var before, c := text[..|text| - 1], text[|text| - 1];
      if Printable(c) && CursorAfter(before) == Cursor(row, col) then Cell(c) else Grid(before, row, col)
  }

  /** First row of the window: it moves only when a character arrives below the last row. */
  function Top(text: seq<Byte>): nat {
    if text == [] then 0
    else
      var row := CursorAfter(text[..|text| - 1]).row;
      if row >= ROWS then row - (ROWS - 1) else 0
  }

  /** 25 rows of the grid, from row `top` on. */
  function Window(text: seq<Byte>, top: nat): seq<nat> {
    seq(ROWS * COLS, i requires 0 <= i < ROWS * COLS => Grid(text, top + i / COLS, i % COLS))
  }

  /** The screen contents that a text leaves behind. */
  function Screen(text: seq<Byte>): seq<nat> {
    Window(text, Top(text))
  }

  /** The characters one call consumes: up to n of them, and none from the first NUL on. */
  function Consumed(str: seq<Byte>, n: nat): seq<Byte> {
    if str == [] || str[0] == 0 || n == 0 then [] else [str[0]] + Consumed(str[1..], n - 1)
  }

  // ---- Facts about the grid ----

  predicate Before(a: Cursor, b: Cursor) {
    a.row < b.row || (a.row == b.row && a.col < b.col)
  }

  lemma {:induction false} CursorInRange(text: seq<Byte>)
    ensures CursorAfter(text).col < COLS
  {
    if text != [] { CursorInRange(text[..|text| - 1]); }
  }

  lemma {:induction false} CursorMonotone(text: seq<Byte>, i: nat)
    requires i <= |text|
    ensures CursorAfter(text[..i]) == CursorAfter(text) || Before(CursorAfter(text[..i]), CursorAfter(text))
    ensures i < |text| && Printable(text[i]) ==> Before(CursorAfter(text[..i]), CursorAfter(text))
    decreases |text|
  {
    if i == |text| {
      assert text[..i] == text;
    } else {
      var before := text[..|text| - 1];
      CursorInRange(before);
      assert text[..i] == before[..i];
      CursorMonotone(before, i);
    }
  }

  /** Nothing is written at or after the cursor. */
  lemma {:induction false} BlankAhead(text: seq<Byte>, row: nat, col: nat)
    requires !Before(Cursor(row, col), CursorAfter(text))
    ensures Grid(text, row, col) == BLANK
  {
    if text != [] {
      var before := text[..|text| - 1];
      CursorInRange(before);
      BlankAhead(before, row, col);
    }
  }

  /** Video memory for a character: the character itself on a black background in grey, and the
      sign-extended character with every attribute bit set from 128 up. */
  ghost predicate Shows(cell: nat, c: Byte) {
    if c < 128 then cell % 256 == c && cell / 256 == 7 else cell % 256 == c && cell / 256 == 255
  }

  /** No written character is ever overwritten on the grid: character i of the text is found
      where the cursor stood when it arrived. Newlines (10) and carriage returns (13) are not
      written. */
  lemma {:induction false} GridKeeps(text: seq<Byte>, i: nat)
    requires i < |text| && text[i] !in {10, 13}
    ensures var at := CursorAfter(text[..i]); Shows(Grid(text, at.row, at.col), text[i])
    decreases |text|
  {
    var before := text[..|text| - 1];
    if i == |text| - 1 {
      assert text[..i] == before;
    } else {
      assert text[..i] == before[..i] && text[i] == before[i];
      CursorMonotone(before, i);
      GridKeeps(before, i);
    }
  }

  /** And nothing else is on the grid: every cell is blank or holds a character of the text
      at the place where the cursor stood for it. */
  lemma {:induction false} GridShowsText(text: seq<Byte>, row: nat, col: nat)
    ensures Grid(text, row, col) == 0x720 ||
            exists i :: 0 <= i < |text| && text[i] !in {10, 13} && CursorAfter(text[..i]) == Cursor(row, col)
                        && Shows(Grid(text, row, col), text[i])
  {
    if text != [] {
      var before, c := text[..|text| - 1], text[|text| - 1];
      if Printable(c) && CursorAfter(before) == Cursor(row, col) {
        assert text[|text| - 1] == c;
      } else {
        GridShowsText(before, row, col);
        if Grid(before, row, col) != BLANK {
          var i :| 0 <= i < |before| && before[i] !in {10, 13} && CursorAfter(before[..i]) == Cursor(row, col)
                   && Shows(Grid(before, row, col), before[i]);
          assert text[i] == before[i] && text[..i] == before[..i];
        }
      }
    }
  }

  // ---- Lines ----

  /** A line without its carriage returns. */
  function Shown(line: seq<Byte>): seq<Byte> {
    if line == [] then []
    else Shown(line[..|line| - 1]) + (if line[|line| - 1] == 13 then [] else [line[|line| - 1]])
  }

  /** Lines as written, each with a newline behind it. */
  function Join(lines: seq<seq<Byte>>): seq<Byte> {
    if lines == [] then [] else Join(lines[..|lines| - 1]) + lines[|lines| - 1] + [10]
  }

  /** How many rows such lines take: a line breaks after every 80 characters and at its end. */
  function Rows(lines: seq<seq<Byte>>): nat {
    if lines == [] then 0 else Rows(lines[..|lines| - 1]) + |Shown(lines[|lines| - 1])| / 80 + 1
  }

  /** A line of text fills rows of 80, carriage returns taking no room. */
  lemma {:induction false} LineWraps(text: seq<Byte>, line: seq<Byte>)
    requires CursorAfter(text).col == 0 && 10 !in line
    ensures CursorAfter(text + line) == Cursor(CursorAfter(text).row + |Shown(line)| / 80, |Shown(line)| % 80)
  {
    if line == [] {
      assert text + line == text;
    } else {
      var before, c := line[..|line| - 1], line[|line| - 1];
      LineWraps(text, before);
      assert text + line == (text + before) + [c];
      Snoc(text + before, c);
    }
  }

  /** A newline goes to the start of the next row from wherever the cursor is. */
  lemma NewlineStartsRow(text: seq<Byte>)
    ensures CursorAfter(text + [10]) == Cursor(CursorAfter(text).row + 1, 0)
  {
    Snoc(text, 10);
  }

  /** Where the cursor stands after any lines and the beginning of another. */
  lemma {:induction false} CursorAfterLines(lines: seq<seq<Byte>>, tail: seq<Byte>)
    requires (forall i | 0 <= i < |lines| :: 10 !in lines[i]) && 10 !in tail
    ensures CursorAfter(Join(lines) + tail) == Cursor(Rows(lines) + |Shown(tail)| / 80, |Shown(tail)| % 80)
  {
    if lines == [] {
      assert Join(lines) == [] && Join(lines) + tail == [] + tail;
    } else {
      var front, line := lines[..|lines| - 1], lines[|lines| - 1];
      CursorAfterLines(front, line);
      NewlineStartsRow(Join(front) + line);
      assert Join(lines) == Join(front) + line + [10];
    }
    LineWraps(Join(lines), tail);
  }

  /** Place j of what is shown of a line is the character at some place k of the line. */
  lemma {:induction false} ShownAt(line: seq<Byte>, j: nat) returns (k: nat)
    requires j < |Shown(line)|
    ensures k < |line| && line[k] == Shown(line)[j] && line[k] != 13 && |Shown(line[..k])| == j
  {
    var front := line[..|line| - 1];
    if j < |Shown(front)| {
      k := ShownAt(front, j);
      assert line[..k] == front[..k];
    } else {
      k := |line| - 1;
    }
  }

  /** Every character of a line stands where it belongs, whatever follows: 80 to a row, from the
      row below all lines before it. */
  lemma LinesOnGrid(lines: seq<seq<Byte>>, line: seq<Byte>, rest: seq<Byte>, j: nat)
    requires (forall i | 0 <= i < |lines| :: 10 !in lines[i]) && 10 !in line && j < |Shown(line)|
    ensures Shows(Grid(Join(lines) + line + rest, Rows(lines) + j / 80, j % 80), Shown(line)[j])
  {
    var k := ShownAt(line, j);
    var before := Join(lines);
    var text := before + line + rest;
    assert text[..|before| + k] == before + line[..k] && text[|before| + k] == line[k];
    CursorAfterLines(lines, line[..k]);
    assert line[k] in line;
    GridKeeps(text, |before| + k);
  }

  // ---- The window ----

  /** The screen is 25 rows of 80 cells of the grid, and the topmost of them follows the cursor
      down only when a character arrives below the last row. */
  lemma ScreenCells(text: seq<Byte>, row: nat, col: nat)
    requires row < 25 && col < 80
    ensures |Screen(text)| == 25 * 80 && Screen(text)[80 * row + col] == Grid(text, Top(text) + row, col)
    ensures Top([]) == 0
    ensures forall c: Byte ::
              Top(text + [c]) == if CursorAfter(text).row >= 25 then CursorAfter(text).row - 24 else 0
  {
    assert (80 * row + col) / 80 == row && (80 * row + col) % 80 == col;
    forall c: Byte
      ensures Top(text + [c]) == if CursorAfter(text).row >= 25 then CursorAfter(text).row - 24 else 0
    {
      Snoc(text, c);
    }
  }

  /** The window always shows the cursor's row, or ends just above it. */
  lemma WindowFollowsCursor(text: seq<Byte>)
    ensures Top(text) <= CursorAfter(text).row <= Top(text) + 25
    ensures CursorAfter(text).row == Top(text) + 25 ==>
              text != [] && CursorAfter(text).col == 0 && Top(text + [CR]) == Top(text) + 1
  {
    if text != [] {
      var before := text[..|text| - 1];
      assert CursorAfter(text) == Advance(CursorAfter(before), text[|text| - 1]);
      assert (text + [CR])[..|text|] == text;
    }
  }

  /** The window never moves back, and by one row at most for each character. */
  lemma {:induction false} TopMonotone(text: seq<Byte>, c: Byte)
    ensures Top(text) <= Top(text + [c]) <= Top(text) + 1
  {
    assert (text + [c])[..|text|] == text;
    WindowFollowsCursor(text);
    if text != [] {
      var before := text[..|text| - 1];
      assert CursorAfter(text) == Advance(CursorAfter(before), text[|text| - 1]);
    }
  }

  // ---- Screens step by step ----

  lemma Snoc(text: seq<Byte>, c: Byte)
    ensures (text + [c])[..|text|] == text
    ensures CursorAfter(text + [c]) == Advance(CursorAfter(text), c)
    ensures forall row: nat, col: nat ::
              Grid(text + [c], row, col) ==
              if Printable(c) && CursorAfter(text) == Cursor(row, col) then Cell(c) else Grid(text, row, col)
    ensures Top(text + [c]) == if CursorAfter(text).row >= ROWS then CursorAfter(text).row - (ROWS - 1) else 0
  {
    assert (text + [c])[..|text|] == text;
  }

  /** Video memory after every row has moved up by one. */
  function Scrolled(video: seq<nat>): seq<nat>
    requires |video| == ROWS * COLS
  {
    video[COLS..] + seq(COLS, _ => BLANK)
  }

  /** Moving the window one row down, when the cursor stands just below it, brings in a blank row. */
  lemma WindowDown(text: seq<Byte>, top: nat)
    requires CursorAfter(text).row <= top + ROWS && CursorAfter(text).col == 0
    ensures Window(text, top + 1) == Scrolled(Window(text, top))
  {
    var w := Window(text, top + 1);
    forall i | 0 <= i < ROWS * COLS
      ensures w[i] == Scrolled(Window(text, top))[i]
    {
      if i < (ROWS - 1) * COLS {
        assert (i + COLS) / COLS == i / COLS + 1 && (i + COLS) % COLS == i % COLS;
      } else {
        BlankAhead(text, top + 1 + i / COLS, i % COLS);
      }
    }
  }

  /** Writing a character at the cursor changes that one cell of the window. */
  lemma WindowPut(text: seq<Byte>, c: Byte, top: nat, row: nat, col: nat)
    requires CursorAfter(text) == Cursor(top + row, col) && row < ROWS && col < COLS && Printable(c)
    ensures Window(text + [c], top) == Window(text, top)[COLS * row + col := Cell(c)]
  {
    Snoc(text, c);
    var w, w' := Window(text, top)[COLS * row + col := Cell(c)], Window(text + [c], top);
    forall i | 0 <= i < ROWS * COLS
      ensures w'[i] == w[i]
    {
      assert i == COLS * (i / COLS) + i % COLS;
    }
  }

  lemma WindowSkip(text: seq<Byte>, c: Byte, top: nat)
    requires !Printable(c)
    ensures Window(text + [c], top) == Window(text, top)
  {
    Snoc(text, c);
  }

  /** A call consumes its first n characters, or those in front of the first NUL. */
  lemma {:induction false} ConsumedPrefix(str: seq<Byte>, n: nat)
    ensures var k := |Consumed(str, n)|;
            && k <= n && k <= |str| && Consumed(str, n) == str[..k] && 0 !in Consumed(str, n)
            && (k == n || k == |str| || str[k] == 0)
  {
    if str != [] && str[0] != 0 && n > 0 {
      ConsumedPrefix(str[1..], n - 1);
      var k := |Consumed(str[1..], n - 1)|;
      assert str[..k + 1] == [str[0]] + str[1..][..k];
    }
  }

  /** Consuming in two calls is consuming in one, as long as the first is not cut by a NUL. */
  lemma {:induction false} ConsumedConcat(s1: seq<Byte>, s2: seq<Byte>)
    requires forall i | 0 <= i < |s1| :: s1[i] != 0
    ensures Consumed(s1 + s2, |s1| + |s2|) == Consumed(s1, |s1|) + Consumed(s2, |s2|)
    ensures Consumed(s1, |s1|) == s1
  {
    if s1 == [] {
      assert s1 + s2 == s2;
    } else {
      assert (s1 + s2)[1..] == s1[1..] + s2;
      ConsumedConcat(s1[1..], s2);
    }
  }
}
