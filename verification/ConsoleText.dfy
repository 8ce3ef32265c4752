/**
 * What the text console means, without its ring buffer and without a screen:
 * lines of cells, oldest first, a cursor in the newest `textRows` of them, and
 * how far the user has scrolled back.
 */
module ConsoleText {
  import opened Arith
  import opened Words

  const HISTORY_LINES := 256
  const TAB_WIDTH := 8
  const MAX_COLS := 240
  const MAX_ROWS := 67

  const BACKSPACE: Byte := 8
  const TAB: Byte := 9
  const NEWLINE: Byte := 10
  const RETURN: Byte := 13
  const SPACE: Byte := 32

  /** A character and its colour byte; `uint16_t` packs the two. */
  datatype Cell = Cell(ch: Byte, attr: Byte)

  type Line = s: seq<Cell> | |s| == MAX_COLS witness seq(MAX_COLS, _ => Cell(32, 7))

  function Blank(color: Byte): Line {
    seq(MAX_COLS, _ => Cell(SPACE, color))
  }

  datatype Text = Text(
    lines: seq<Line>, cols: int, textRows: int, row: int, col: int, color: Byte, back: int)

  ghost predicate TextOk(t: Text) {
    && 1 <= t.cols <= MAX_COLS && 1 <= t.textRows <= MAX_ROWS
    && t.textRows <= |t.lines| <= HISTORY_LINES
    && 0 <= t.row < t.textRows && 0 <= t.col < t.cols
    && 0 <= t.back <= |t.lines| - t.textRows
  }

  /** Which line the cursor is on. */
  function CursorLine(t: Text): int {
    |t.lines| - t.textRows + t.row
  }

  function Store(t: Text, ch: Byte): Text
    requires TextOk(t)
  {
    var l := CursorLine(t);
    t.(lines := t.lines[l := t.lines[l][t.col := Cell(ch, t.color)]])
  }

  /** A blank line at the bottom; the oldest is forgotten when the history is full. */
  function NewLine(t: Text): Text
    requires TextOk(t)
  {
    var kept := if |t.lines| == HISTORY_LINES then t.lines[1..] else t.lines;
    var lines := kept + [Blank(t.color)];
    t.(lines := lines, row := t.textRows - 1,
       back := if t.back != 0 && t.back < |lines| - t.textRows then t.back + 1 else t.back)
  }

  /** The cursor moves down one row, scrolling if it was on the last one. */
  function Down(t: Text): (u: Text)
    requires TextOk(t)
    ensures TextOk(u) && u.col == t.col && u.cols == t.cols
  {
    if t.row + 1 == t.textRows then NewLine(t) else t.(row := t.row + 1)
  }

  function Plain(t: Text, ch: Byte): (u: Text)
    requires TextOk(t)
    ensures TextOk(u) && u.cols == t.cols && u.col == if t.col + 1 == t.cols then 0 else t.col + 1
  {
    var s := Store(t, ch);
    if s.col + 1 == s.cols then Down(s.(col := 0)) else s.(col := s.col + 1)
  }

  function Spaces(t: Text): (u: Text)
    requires TextOk(t)
    ensures TextOk(u)
    decreases t.cols - t.col
  {
    var s := Plain(t, SPACE);
    if s.col % TAB_WIDTH == 0 then s else Spaces(s)
  }

  function StepBack(t: Text): Text {
    if t.col > 0 then t.(col := t.col - 1)
    else if t.row > 0 then t.(row := t.row - 1, col := t.cols - 1)
    else t
  }

  /** `put_char`. */
  function Put(t: Text, c: Byte): (u: Text)
    requires TextOk(t)
    ensures TextOk(u)
  {
    if c == NEWLINE then Down(t.(col := 0))
    else if c == RETURN then t.(col := 0)
    else if c == TAB then Spaces(t)
    else if c == BACKSPACE then Store(StepBack(t), SPACE)
    else Plain(t, c)
  }

  function Print(t: Text, s: seq<Byte>): (u: Text)
    requires TextOk(t)
    ensures TextOk(u)
    decreases |s|
  {
    if s == [] then t else Print(Put(t, s[0]), s[1..])
  }

  /** At least `rows` lines: blank ones are added at the bottom. */
  function Filled(lines: seq<Line>, rows: int, color: Byte): (filled: seq<Line>)
    ensures |filled| == if |lines| < rows then rows else |lines|
    ensures forall k :: 0 <= k < |filled| ==> filled[k] == if k < |lines| then lines[k] else Blank(color)
  {
    if |lines| < rows then lines + seq(rows - |lines|, _ => Blank(color)) else lines
  }

  /** Lines below the cursor that would push it off the screen are dropped. */
  function Trimmed(lines: seq<Line>, cursorLine: int, rows: int): (kept: seq<Line>)
    requires 0 <= cursorLine < |lines| && 0 <= rows <= |lines|
    ensures kept <= lines
  {
    if cursorLine - (|lines| - rows) < 0 then lines[..if cursorLine + 1 > rows then cursorLine + 1 else rows] else lines
  }

  /** Fit the text to a new screen size. */
  function Relayout(t: Text, cols: int, textRows: int): (u: Text)
    requires TextOk(t) && 1 <= cols <= MAX_COLS && 1 <= textRows <= MAX_ROWS
    ensures TextOk(u)
  {
    var line := CursorLine(t);
    var kept := Trimmed(Filled(t.lines, textRows, t.color), line, textRows);
    t.(lines := kept, cols := cols, textRows := textRows,
       row := line - (|kept| - textRows), col := if t.col >= cols then cols - 1 else t.col, back := 0)
  }

  function Clear(t: Text): Text {
    t.(lines := seq(if t.textRows >= 0 then t.textRows else 0, _ => Blank(t.color)), row := 0, col := 0, back := 0)
  }

  // ---------- What the operations keep ----------

  /** A tab always ends on a multiple of eight columns (or at a line start). */
  lemma {:induction false} TabStops(t: Text)
    requires TextOk(t)
    ensures Put(t, TAB).col % TAB_WIDTH == 0
  {
    SpacesStop(t);
  }

  lemma {:induction false} SpacesStop(t: Text)
    requires TextOk(t)
    ensures Spaces(t).col % TAB_WIDTH == 0
    decreases t.cols - t.col
  {
    var s := Plain(t, SPACE);
    if s.col % TAB_WIDTH != 0 {
      SpacesStop(s);
    }
  }

  /** Resizing keeps the cursor on its line and every line up to it, shows no line
      that was dropped before (new lines are blank), and only drops lines below the
      cursor. */
  lemma RelayoutKeeps(t: Text, cols: int, textRows: int)
    requires TextOk(t) && 1 <= cols <= MAX_COLS && 1 <= textRows <= MAX_ROWS
    ensures var u := Relayout(t, cols, textRows);
      && CursorLine(u) == CursorLine(t)
      && u.lines[..CursorLine(u) + 1] == t.lines[..CursorLine(t) + 1]
      && (forall k :: 0 <= k < |u.lines| ==> u.lines[k] == if k < |t.lines| then t.lines[k] else Blank(t.color))
  {
  }

  /** It drops lines only when the cursor would be above the newest `textRows` lines, and
      then no more than it must; the cursor's column changes only if it has to. */
  lemma RelayoutDrops(t: Text, cols: int, textRows: int)
    requires TextOk(t) && 1 <= cols <= MAX_COLS && 1 <= textRows <= MAX_ROWS
    ensures var u := Relayout(t, cols, textRows);
      && u.cols == cols && u.textRows == textRows && u.color == t.color && u.back == 0
      && u.col == Min(t.col, cols - 1)
      && |u.lines| <= (if |t.lines| < textRows then textRows else |t.lines|)
      && (CursorLine(t) >= |t.lines| - textRows ==> |t.lines| <= |u.lines|)
      && (CursorLine(t) < |t.lines| - textRows ==>
           |u.lines| == textRows || (|u.lines| > textRows && CursorLine(u) == |u.lines| - 1))
  {
  }

  /** Clearing leaves one screenful of blank lines, the cursor in its first cell. */
  lemma ClearIsBlank(t: Text)
    requires TextOk(t)
    ensures var u := Clear(t);
      && TextOk(u) && |u.lines| == t.textRows && CursorLine(u) == 0 && u.col == 0 && u.back == 0
      && u.cols == t.cols && u.textRows == t.textRows && u.color == t.color
      && forall k, x :: 0 <= k < |u.lines| && 0 <= x < MAX_COLS ==> u.lines[k][x] == Cell(SPACE, t.color)
  {
  }

  /** The k-th line from the top of the view. */
  function Viewed(t: Text, y: int): Line
    requires TextOk(t) && 0 <= y < t.textRows
  {
    t.lines[|t.lines| - t.textRows - t.back + y]
  }

  /** The view shows the newest lines, with the cursor's among them; scrolled back as far
      as possible, the oldest; and each step back is one line. */
  lemma ViewRange(t: Text, y: int)
    requires TextOk(t) && 0 <= y < t.textRows
    ensures t.back == 0 ==> Viewed(t, t.row) == t.lines[CursorLine(t)]
    ensures t.back == 0 ==> Viewed(t, t.textRows - 1) == t.lines[|t.lines| - 1]
    ensures t.back == |t.lines| - t.textRows ==> Viewed(t, 0) == t.lines[0]
    ensures t.back > 0 && y > 0 ==> Viewed(t, y) == Viewed(t.(back := t.back - 1), y - 1)
  {
  }

  /** A new line while the user is scrolled back leaves the view on the same lines,
      if and only if the oldest visible line was not the one just forgotten. */
  lemma ViewHolds(t: Text)
    requires TextOk(t) && t.back > 0
    ensures var u := NewLine(t);
      var forgot := |t.lines| == HISTORY_LINES && t.back == |t.lines| - t.textRows;
      && TextOk(u)
      && (!forgot ==> u.back == t.back + 1 && forall y :: 0 <= y < t.textRows ==> Viewed(u, y) == Viewed(t, y))
      && (forgot ==> u.back == t.back && forall y :: 0 <= y < t.textRows - 1 ==> Viewed(u, y) == Viewed(t, y + 1))
  {
  }

  // ---------- Control characters ----------

  predicate IsControl(c: Byte) {
    c == NEWLINE || c == RETURN || c == TAB || c == BACKSPACE
  }

  /** u is t with another cursor; its line and column may differ, and one cell of it. */
  ghost predicate SameButFor(t: Text, u: Text, l: int, x: int) {
    && |u.lines| == |t.lines| && u.cols == t.cols && u.textRows == t.textRows && u.color == t.color && u.back == t.back
    && forall k, y :: 0 <= k < |t.lines| && 0 <= y < MAX_COLS && !(k == l && y == x) ==>
      u.lines[k][y] == t.lines[k][y]
  }

  /** A newline goes to column 0 of the next row.  Nothing is written; at the bottom a
      blank line comes in, and the oldest goes if the history is full. */
  lemma NewlineStartsRow(t: Text) returns (lost: nat)
    requires TextOk(t)
    ensures var u := Put(t, NEWLINE);
      && u.col == 0 && CursorLine(u) + lost == CursorLine(t) + 1
      && u.row == (if t.row + 1 < t.textRows then t.row + 1 else t.row)
      && lost == (if t.row + 1 == t.textRows && |t.lines| == HISTORY_LINES then 1 else 0)
      && |u.lines| + lost == |t.lines| + (if t.row + 1 == t.textRows then 1 else 0)
      && forall k :: 0 <= k < |u.lines| ==>
        u.lines[k] == if k + lost < |t.lines| then t.lines[k + lost] else Blank(t.color)
  {
    lost := if t.row + 1 == t.textRows && |t.lines| == HISTORY_LINES then 1 else 0;
  }

  /** A return goes to column 0, and changes nothing else. */
  lemma ReturnStartsRow(t: Text)
    requires TextOk(t)
    ensures var u := Put(t, RETURN); u.row == t.row && u.col == 0 && u.lines == t.lines && SameButFor(t, u, -1, -1)
  {
  }

  /** A backspace goes back one cell, from the start of a row to the end of the row
      above, and not beyond the first cell of the screen; that cell becomes blank. */
  lemma BackspaceErases(t: Text)
    requires TextOk(t)
    ensures var u := Put(t, BACKSPACE);
      && u.lines[CursorLine(u)][u.col] == Cell(SPACE, t.color) && SameButFor(t, u, CursorLine(u), u.col)
      && (t.col > 0 ==> u.row == t.row && u.col == t.col - 1)
      && (t.col == 0 && t.row > 0 ==> u.row == t.row - 1 && u.col == t.cols - 1)
      && (t.col == 0 && t.row == 0 ==> u.row == 0 && u.col == 0)
  {
  }

  /** So it takes back a character just printed, also over the end of a row and when the
      text was scrolled: cursor and line are as before, but for a blank at the cursor.
      Only on a screen of one row the end of the row cannot be crossed. */
  lemma BackspaceTakesBack(t: Text, c: Byte) returns (lost: nat)
    requires TextOk(t) && !IsControl(c) && (t.textRows > 1 || t.col + 1 < t.cols)
    ensures var u := Put(Put(t, c), BACKSPACE);
      && u.col == t.col && CursorLine(u) + lost == CursorLine(t) && lost <= 1
      && |t.lines| <= |u.lines| + lost <= |t.lines| + 1
      && forall k, x :: 0 <= k < |u.lines| && 0 <= x < MAX_COLS ==>
        u.lines[k][x] ==
          if k + lost == |t.lines| || (k == CursorLine(u) && x == u.col) then Cell(SPACE, t.color)
          else t.lines[k + lost][x]
  {
    lost := if t.col + 1 == t.cols && t.row + 1 == t.textRows && |t.lines| == HISTORY_LINES then 1 else 0;
  }

  /** How many blanks a tab is: up to the next column divisible by eight, but not
      beyond the end of the row. */
  function TabBlanks(col: nat, cols: nat): nat
    requires col < cols
  {
    Min(8 - col % 8, cols - col)
  }

  lemma TabGoesOn(col: nat, cols: nat)
    requires col < cols
    ensures if col + 1 == cols || (col + 1) % TAB_WIDTH == 0 then TabBlanks(col, cols) == 1
            else TabBlanks(col, cols) == TabBlanks(col + 1, cols) + 1
  {
  }

  function Blanks(n: nat): seq<Byte> {
    if n == 0 then [] else [SPACE] + Blanks(n - 1)
  }

  /** A tab is so many blanks, and nothing else. */
  lemma {:induction false} TabIsBlanks(t: Text)
    requires TextOk(t)
    ensures Put(t, TAB) == Print(t, Blanks(TabBlanks(t.col, t.cols)))
    decreases t.cols - t.col
  {
    var s, n := Plain(t, SPACE), TabBlanks(t.col, t.cols);
    TabGoesOn(t.col, t.cols);
    assert Blanks(n)[1..] == Blanks(n - 1);
    if s.col % TAB_WIDTH != 0 {
      TabIsBlanks(s);
    }
  }

  // ---------- Where printed text ends up ----------

  /** Cells are numbered row after row, from the start of the line the cursor was on at
      first.  Where the cursor is after s: a newline goes on to the next multiple of the
      row length, every other character to the next cell. */
  function After(cols: nat, start: nat, s: seq<Byte>): nat
    requires 0 < cols
  {
    if s == [] then start
    else
      var p := After(cols, start, s[..|s| - 1]);
      if s[|s| - 1] == NEWLINE then (p / cols + 1) * cols else p + 1
  }

  /** Lines are numbered from t's oldest one, also after some were forgotten.  Cell
      x of line l after s was written from t's cursor on. */
  function Placed(t: Text, s: seq<Byte>, l: nat, x: nat): Cell
    requires TextOk(t) && x < MAX_COLS
  {
    if s == [] then if l < |t.lines| then t.lines[l][x] else Cell(SPACE, t.color)
    else
      var init, c := s[..|s| - 1], s[|s| - 1];
      var p := After(t.cols, t.col, init);
      if c != NEWLINE && l == CursorLine(t) + p / t.cols && x == p % t.cols then Cell(c, t.color)
      else Placed(t, init, l, x)
  }

  /** u is t with s written and the `lost` oldest lines forgotten. */
  ghost predicate IsPlaced(t: Text, s: seq<Byte>, u: Text, lost: nat)
    requires TextOk(t)
  {
    var p := After(t.cols, t.col, s);
    && TextOk(u) && u.cols == t.cols && u.textRows == t.textRows && u.color == t.color
    && CursorLine(u) + lost == CursorLine(t) + p / t.cols && u.col == p % t.cols
    && (lost > 0 ==> |u.lines| == HISTORY_LINES)
    && (|u.lines| + lost == |t.lines| || (|t.lines| <= |u.lines| + lost == CursorLine(u) + lost + 1))
    && forall k, x :: 0 <= k < |u.lines| && 0 <= x < MAX_COLS ==> u.lines[k][x] == Placed(t, s, k + lost, x)
  }

  lemma PrintSnoc(t: Text, s: seq<Byte>, c: Byte)
    requires TextOk(t)
    ensures Print(t, s + [c]) == Put(Print(t, s), c)
    decreases |s|
  {
    if s == [] {
      assert s + [c] == [c];
    } else {
      assert (s + [c])[1..] == s[1..] + [c];
      PrintSnoc(Put(t, s[0]), s[1..], c);
    }
  }

  /** One more character changes at most the cell at the cursor. */
  lemma PlacedSnoc(t: Text, s: seq<Byte>, c: Byte, l: nat, x: nat)
    requires TextOk(t) && x < MAX_COLS
    ensures var p := After(t.cols, t.col, s);
      && After(t.cols, t.col, s + [c]) == (if c == NEWLINE then (p / t.cols + 1) * t.cols else p + 1)
      && Placed(t, s + [c], l, x) ==
        if c != NEWLINE && l == CursorLine(t) + p / t.cols && x == p % t.cols then Cell(c, t.color)
        else Placed(t, s, l, x)
  {
    assert (s + [c])[..|s|] == s;
  }

  lemma StorePlaces(t: Text, s: seq<Byte>, c: Byte, u: Text, lost: nat)
    requires TextOk(t) && IsPlaced(t, s, u, lost) && c != NEWLINE
    ensures var v := Store(u, c);
      forall k, x :: 0 <= k < |v.lines| && 0 <= x < MAX_COLS ==> v.lines[k][x] == Placed(t, s + [c], k + lost, x)
  {
    var v := Store(u, c);
    forall k, x | 0 <= k < |v.lines| && 0 <= x < MAX_COLS
      ensures v.lines[k][x] == Placed(t, s + [c], k + lost, x)
    {
      PlacedSnoc(t, s, c, k + lost, x);
    }
  }

  lemma RowEnd(p: nat, cols: nat)
    requires 0 < cols
    ensures (p / cols + 1) * cols > p
    ensures (p / cols + 1) * cols / cols == p / cols + 1 && (p / cols + 1) * cols % cols == 0
  {
    DistributeOne(p / cols, cols);
    DivModUnique((p / cols + 1) * cols, cols, p / cols + 1, 0);
  }

  /** Every character but the last was written before where the cursor is. */
  lemma AfterGrows(cols: nat, start: nat, s: seq<Byte>)
    requires 0 < cols && s != []
    ensures After(cols, start, s[..|s| - 1]) < After(cols, start, s)
  {
    RowEnd(After(cols, start, s[..|s| - 1]), cols);
  }

  lemma DivBelow(p: nat, q: nat, cols: nat)
    requires 0 < cols && p < q && q % cols == 0
    ensures p / cols < q / cols
  {
    if p / cols >= q / cols {
      MulMonotone(cols, q / cols, p / cols);
    }
  }

  /** A line below everything written so far is as it was, or blank. */
  lemma {:induction false} BeyondIsKept(t: Text, s: seq<Byte>, q: nat, l: nat, x: nat)
    requires TextOk(t) && x < MAX_COLS && After(t.cols, t.col, s) <= q && q % t.cols == 0
    requires l >= CursorLine(t) + q / t.cols
    ensures Placed(t, s, l, x) == Placed(t, [], l, x)
    decreases |s|
  {
    if s != [] {
      AfterGrows(t.cols, t.col, s);
      var p := After(t.cols, t.col, s[..|s| - 1]);
      DivBelow(p, q, t.cols);
      BeyondIsKept(t, s[..|s| - 1], q, l, x);
    }
  }

  /** Moving down to the start of a row. */
  lemma DownPlaces(t: Text, s: seq<Byte>, u: Text, lost: nat) returns (lost': nat)
    requires TextOk(t) && TextOk(u) && u.col == 0 && After(t.cols, t.col, s) % t.cols == 0
    requires u.cols == t.cols && u.textRows == t.textRows && u.color == t.color
    requires CursorLine(u) + 1 + lost == CursorLine(t) + After(t.cols, t.col, s) / t.cols
    requires lost > 0 ==> |u.lines| == HISTORY_LINES
    requires |t.lines| <= |u.lines| + lost && (|u.lines| + lost == |t.lines| || |u.lines| == CursorLine(u) + 1)
    requires forall k, x :: 0 <= k < |u.lines| && 0 <= x < MAX_COLS ==> u.lines[k][x] == Placed(t, s, k + lost, x)
    ensures IsPlaced(t, s, Down(u), lost')
  {
    var v := Down(u);
    lost' := lost;
    if u.row + 1 == u.textRows {
      lost' := if |u.lines| == HISTORY_LINES then lost + 1 else lost;
      var l := |v.lines| - 1 + lost';
      forall x | 0 <= x < MAX_COLS ensures Placed(t, s, l, x) == Cell(SPACE, t.color) {
        BeyondIsKept(t, s, After(t.cols, t.col, s), l, x);
      }
      forall k, x | 0 <= k < |v.lines| && 0 <= x < MAX_COLS ensures v.lines[k][x] == Placed(t, s, k + lost', x) {
        if k < |v.lines| - 1 {
          var k' := k + lost' - lost;
          assert v.lines[k] == u.lines[k'];
        }
      }
    }
  }

  lemma PlainPlaces(t: Text, s: seq<Byte>, c: Byte, u: Text, lost: nat) returns (lost': nat)
    requires TextOk(t) && IsPlaced(t, s, u, lost) && c != NEWLINE
    ensures IsPlaced(t, s + [c], Plain(u, c), lost')
  {
    StorePlaces(t, s, c, u, lost);
    PlacedSnoc(t, s, c, 0, 0);
    NextInRow(After(t.cols, t.col, s), t.cols);
    if u.col + 1 == u.cols {
      lost' := DownPlaces(t, s + [c], Store(u, c).(col := 0), lost);
    } else {
      lost' := lost;
    }
  }

  lemma NewlinePlaces(t: Text, s: seq<Byte>, u: Text, lost: nat) returns (lost': nat)
    requires TextOk(t) && IsPlaced(t, s, u, lost)
    ensures IsPlaced(t, s + [NEWLINE], Put(u, NEWLINE), lost')
  {
    var v := u.(col := 0);
    PlacedSnoc(t, s, NEWLINE, 0, 0);
    RowEnd(After(t.cols, t.col, s), t.cols);
    forall k, x | 0 <= k < |v.lines| && 0 <= x < MAX_COLS
      ensures v.lines[k][x] == Placed(t, s + [NEWLINE], k + lost, x)
    {
      PlacedSnoc(t, s, NEWLINE, k + lost, x);
    }
    lost' := DownPlaces(t, s + [NEWLINE], v, lost);
  }

  /** LAYOUT: printing lines of text, of any number and length, writes each from the
      start of the next row on, scrolling as needed: every cell of the history
      afterwards is the character that belongs there, or what was there before, or
      blank. */
  lemma {:induction false} PrintLines(t: Text, s: seq<Byte>) returns (lost: nat)
    requires TextOk(t) && forall j :: 0 <= j < |s| ==> !IsControl(s[j]) || s[j] == NEWLINE
    ensures IsPlaced(t, s, Print(t, s), lost)
    decreases |s|
  {
    if s == [] {
      lost := 0;
      DivModUnique(t.col, t.cols, 0, t.col);
    } else {
      var init, c := s[..|s| - 1], s[|s| - 1];
      assert s == init + [c];
      var before := PrintLines(t, init);
      PrintSnoc(t, init, c);
      if c == NEWLINE {
        lost := NewlinePlaces(t, init, Print(t, init), before);
      } else {
        lost := PlainPlaces(t, init, c, Print(t, init), before);
      }
    }
  }

  /** What follows the last newline starts in column 0 of a row, and goes on cell by cell. */
  lemma {:induction false} AfterNewline(cols: nat, start: nat, a: seq<Byte>, b: seq<Byte>)
    requires 0 < cols && NEWLINE !in b
    ensures After(cols, start, a + b) == After(cols, start, a) + |b|
    ensures After(cols, start, a + [NEWLINE] + b) == (After(cols, start, a) / cols + 1) * cols + |b|
    decreases |b|
  {
    if b == [] {
      assert a + b == a && (a + [NEWLINE])[..|a|] == a && a + [NEWLINE] + b == a + [NEWLINE];
    } else {
      var init := b[..|b| - 1];
      AfterNewline(cols, start, a, init);
      assert (a + b)[..|a + b| - 1] == a + init;
      assert (a + [NEWLINE] + b)[..|a + [NEWLINE] + b| - 1] == a + [NEWLINE] + init;
    }
  }

  lemma SameCell(p: nat, q: nat, cols: nat)
    requires 0 < cols && p / cols == q / cols && p % cols == q % cols
    ensures p == q
  {
    assert p == cols * (p / cols) + p % cols && q == cols * (q / cols) + q % cols;
  }

  /** Character n stands where the cursor was when it was written: nothing after it was
      written there. */
  lemma {:induction false} StandsThere(t: Text, s: seq<Byte>, n: nat, l: nat, x: nat)
    requires TextOk(t) && n < |s| && s[n] != NEWLINE && x < MAX_COLS
    requires var p := After(t.cols, t.col, s[..n]); l == CursorLine(t) + p / t.cols && x == p % t.cols
    ensures After(t.cols, t.col, s[..n]) < After(t.cols, t.col, s)
    ensures Placed(t, s, l, x) == Cell(s[n], t.color)
    decreases |s|
  {
    AfterGrows(t.cols, t.col, s);
    var init := s[..|s| - 1];
    if n < |s| - 1 {
      assert init[..n] == s[..n];
      StandsThere(t, init, n, l, x);
      var p, q := After(t.cols, t.col, s[..n]), After(t.cols, t.col, init);
      if p / t.cols == q / t.cols && x == q % t.cols {
        SameCell(p, q, t.cols);
      }
    }
  }

  /** And a cell no character was written to is as it was. */
  lemma {:induction false} ElseAsBefore(t: Text, s: seq<Byte>, l: nat, x: nat)
    requires TextOk(t) && x < MAX_COLS
    requires forall n :: 0 <= n < |s| && s[n] != NEWLINE ==>
      var p := After(t.cols, t.col, s[..n]); !(l == CursorLine(t) + p / t.cols && x == p % t.cols)
    ensures Placed(t, s, l, x) == if l < |t.lines| then t.lines[l][x] else Cell(SPACE, t.color)
    decreases |s|
  {
    if s != [] {
      var init := s[..|s| - 1];
      forall n | 0 <= n < |init| ensures init[..n] == s[..n] {
      }
      ElseAsBefore(t, init, l, x);
    }
  }

  // ---------- Text without control characters ----------

  /** Cell x of line l after the characters s were laid out from t's cursor, row after
      row of t.cols cells. */
  function LaidOut(t: Text, s: seq<Byte>, l: nat, x: nat): Cell
    requires TextOk(t) && x < MAX_COLS
  {
    var offset := (l - CursorLine(t)) * t.cols + x - t.col;
    if x < t.cols && 0 <= offset < |s| then Cell(s[offset], t.color)
    else if l < |t.lines| then t.lines[l][x]
    else Cell(SPACE, t.color)
  }

  /** u is t with s laid out and the `lost` oldest lines forgotten. */
  ghost predicate IsLayout(t: Text, s: seq<Byte>, u: Text, lost: nat)
    requires TextOk(t)
  {
    && TextOk(u) && u.cols == t.cols && u.textRows == t.textRows && u.color == t.color
    && CursorLine(u) + lost == CursorLine(t) + (t.col + |s|) / t.cols
    && u.col == (t.col + |s|) % t.cols
    && (lost > 0 ==> |u.lines| == HISTORY_LINES)
    && (|u.lines| + lost == |t.lines| || (|t.lines| <= |u.lines| + lost == CursorLine(u) + lost + 1))
    && forall k, x :: 0 <= k < |u.lines| && 0 <= x < MAX_COLS ==> u.lines[k][x] == LaidOut(t, s, k + lost, x)
  }

  lemma OffsetOfCursor(cols: nat, at: nat, m: int, x: nat)
    requires x < cols
    ensures m * cols + x == at <==> m == at / cols && x == at % cols
  {
    if m * cols + x == at {
      MulMonotone(cols, if m < 0 then m else -1, -1);
      DivModUnique(at, cols, m, x);
    }
  }

  /** One more character changes exactly the cell at the cursor. */
  lemma LaidOutSnoc(t: Text, s: seq<Byte>, c: Byte, l: nat, x: nat)
    requires TextOk(t) && x < MAX_COLS
    ensures var at := t.col + |s|;
      LaidOut(t, s + [c], l, x) ==
        if l == CursorLine(t) + at / t.cols && x == at % t.cols then Cell(c, t.color) else LaidOut(t, s, l, x)
  {
    if x < t.cols {
      OffsetOfCursor(t.cols, t.col + |s|, l - CursorLine(t), x);
    }
  }

  lemma {:induction false} PlacedIsLaidOut(t: Text, s: seq<Byte>, l: nat, x: nat)
    requires TextOk(t) && x < MAX_COLS && NEWLINE !in s
    ensures After(t.cols, t.col, s) == t.col + |s| && Placed(t, s, l, x) == LaidOut(t, s, l, x)
    decreases |s|
  {
    if s != [] {
      var init, c := s[..|s| - 1], s[|s| - 1];
      assert s == init + [c];
      PlacedIsLaidOut(t, init, l, x);
      LaidOutSnoc(t, init, c, l, x);
    }
  }

  /** Printing text without control characters, of any length, lays it out row after
      row from the cursor, scrolling as needed: every cell of the history afterwards
      is the character that belongs there, or what was there before, or blank. */
  lemma PrintLayout(t: Text, s: seq<Byte>) returns (lost: nat)
    requires TextOk(t) && forall j :: 0 <= j < |s| ==> !IsControl(s[j])
    ensures IsLayout(t, s, Print(t, s), lost)
  {
    lost := PrintLines(t, s);
    PlacedIsLaidOut(t, s, 0, 0);
    var u := Print(t, s);
    forall k, x | 0 <= k < |u.lines| && 0 <= x < MAX_COLS ensures u.lines[k][x] == LaidOut(t, s, k + lost, x) {
      PlacedIsLaidOut(t, s, k + lost, x);
    }
  }
}
