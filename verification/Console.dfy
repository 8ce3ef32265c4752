/**
 * The console in place: a ring of the last 256 lines, and a screen that is kept
 * up to date cell by cell.  Every operation is proved to do to the ring exactly
 * what ConsoleText says, and to keep the screen equal to a full redraw.
 */
module Console {
  import opened Words
  import opened ConsoleText

  const LIGHT_GREY: Byte := 7

  datatype Cursor = Cursor(x: int, y: int, visible: bool)

  /** What `display_t` tells the console. */
  datatype Display = Display(cols: int, rows: int)

  predicate DisplayOk(d: Display) {
    1 <= d.cols <= MAX_COLS && 2 <= d.rows <= MAX_ROWS
  }

  // ---------- The ring ----------

  /** Where the k-th oldest line is stored. */
  function Ring(first: nat, k: nat): (i: nat)
    requires first < HISTORY_LINES && k <= HISTORY_LINES
    ensures i < HISTORY_LINES && i == (first + k) % HISTORY_LINES
  {
    if first + k < HISTORY_LINES then first + k else first + k - HISTORY_LINES
  }

  /** The lines in use, oldest first. */
  function RingLines(h: seq<Line>, first: nat, count: nat): (lines: seq<Line>)
    requires |h| == HISTORY_LINES && first < HISTORY_LINES && count <= HISTORY_LINES
    ensures |lines| == count && forall k :: 0 <= k < count ==> lines[k] == h[Ring(first, k)]
  {
    seq(count, k requires 0 <= k < count => h[Ring(first, k)])
  }

  lemma RingUpdate(h: seq<Line>, first: nat, count: nat, k: nat, l: Line)
    requires |h| == HISTORY_LINES && first < HISTORY_LINES && k < count <= HISTORY_LINES
    ensures RingLines(h[Ring(first, k) := l], first, count) == RingLines(h, first, count)[k := l]
  {
  }

  lemma RingGrow(h: seq<Line>, first: nat, count: nat, l: Line)
    requires |h| == HISTORY_LINES && first < HISTORY_LINES && count < HISTORY_LINES
    ensures RingLines(h[Ring(first, count) := l], first, count + 1) == RingLines(h, first, count) + [l]
  {
    RingUpdate(h, first, count + 1, count, l);
  }

  lemma RingShift(h: seq<Line>, first: nat, l: Line)
    requires |h| == HISTORY_LINES && first < HISTORY_LINES
    ensures var next := Ring(first, 1);
      RingLines(h[Ring(next, HISTORY_LINES - 1) := l], next, HISTORY_LINES) ==
        RingLines(h, first, HISTORY_LINES)[1..] + [l]
  {
    var next := Ring(first, 1);
    var h' := h[Ring(next, HISTORY_LINES - 1) := l];
    var a, b := RingLines(h', next, HISTORY_LINES), RingLines(h, first, HISTORY_LINES)[1..] + [l];
    forall k | 0 <= k < HISTORY_LINES ensures a[k] == b[k] {
      if k < HISTORY_LINES - 1 {
        assert Ring(next, k) == Ring(first, k + 1);
      }
    }
  }

  // ---------- Agreement between screen and text ----------

  /** What the rows of the screen depend on: not on the cursor. */
  datatype Page = Page(lines: seq<Line>, cols: int, textRows: int, back: int)

  function PageOf(t: Text): Page {
    Page(t.lines, t.cols, t.textRows, t.back)
  }

  ghost predicate PageOk(p: Page, top: int) {
    && 1 <= p.cols <= MAX_COLS && 1 <= p.textRows && 0 <= p.back <= |p.lines| - p.textRows
    && 0 <= top && p.textRows + top <= MAX_ROWS
  }

  /** The line row `s` of the screen is for. */
  function RowLine(p: Page, top: int, s: int): Line
    requires 0 <= p.back <= |p.lines| - p.textRows && top <= s < top + p.textRows
  {
    p.lines[|p.lines| - p.textRows - p.back + s - top]
  }

  /** The rows of the screen below the status row are the lines of the view, in order. */
  lemma RowsAreView(t: Text, top: int, y: int)
    requires TextOk(t) && 0 <= y < t.textRows
    ensures RowLine(PageOf(t), top, top + y) == Viewed(t, y)
  {
  }

  /** The rows of the view agree with the text.  While the user is scrolled back the
      newest screenful may be printed to without being drawn, so only the older
      lines of the view are promised. */
  ghost predicate RowsShown(screen: seq<Line>, top: int, p: Page)
    requires PageOk(p, top) && |screen| == MAX_ROWS
  {
    forall s, x :: top <= s < top + p.textRows && 0 <= x < p.cols && (p.back == 0 || s - top < p.back) ==>
      screen[s][x] == RowLine(p, top, s)[x]
  }

  /** Every row of the view agrees with the text. */
  ghost predicate FullyShown(screen: seq<Line>, top: int, p: Page)
    requires PageOk(p, top) && |screen| == MAX_ROWS
  {
    forall s, x :: top <= s < top + p.textRows && 0 <= x < p.cols ==> screen[s][x] == RowLine(p, top, s)[x]
  }

  lemma ShownIfFull(screen: seq<Line>, top: int, p: Page)
    requires PageOk(p, top) && |screen| == MAX_ROWS
    ensures FullyShown(screen, top, p) ==> RowsShown(screen, top, p)
    ensures p.back == 0 ==> (FullyShown(screen, top, p) <==> RowsShown(screen, top, p))
  {
  }

  ghost predicate StatusShown(screen: seq<Line>, status: seq<Cell>, top: int, cols: int)
    requires |screen| == MAX_ROWS && |status| == MAX_COLS && cols <= MAX_COLS
  {
    top == 1 ==> forall x :: 0 <= x < cols ==> screen[0][x] == status[x]
  }

  /** Printing one character at the cursor, on a screen that is drawn to only
      while the newest lines are in view. */
  lemma StoreKeepsRows(screen: seq<Line>, top: int, t: Text, ch: Byte)
    requires TextOk(t) && PageOk(PageOf(t), top) && |screen| == MAX_ROWS && RowsShown(screen, top, PageOf(t))
    ensures var y := t.row + top;
      RowsShown(if t.back == 0 then screen[y := screen[y][t.col := Cell(ch, t.color)]] else screen, top,
        PageOf(Store(t, ch)))
  {
  }

  /** The tab ends here, or goes on from here to the same goal. */
  ghost predicate OnTheWay(t: Text, goal: Text) {
    TextOk(t) && goal == if t.col % TAB_WIDTH == 0 then t else Spaces(t)
  }

  lemma NotAStop(c: int)
    requires c % TAB_WIDTH != 0
    ensures c != 0
  {
  }

  lemma SpacesFrom(t: Text)
    requires TextOk(t)
    ensures var s := Plain(t, SPACE); TextOk(s) && Spaces(t) == if s.col % TAB_WIDTH == 0 then s else Spaces(s)
  {
  }

  class Screen {
    const history: array<Line>
    const screen: array<Line>       // what the display shows, row by row
    const status: array<Cell>
    var cols: int
    var rows: int
    var top: int
    var textRows: int
    var fullscreen: bool
    var firstLine: int
    var lineCount: int
    var scrollBack: int
    var row: int
    var col: int
    var color: Byte
    var cursor: Cursor

    /** All indexes are in range. */
    ghost predicate Valid()
      reads this
    {
      && history.Length == HISTORY_LINES && screen.Length == MAX_ROWS && status.Length == MAX_COLS
      && history != screen
      && 0 <= top <= 1 && 2 <= rows <= MAX_ROWS && textRows == rows - top && 1 <= cols <= MAX_COLS
      && 0 <= firstLine < HISTORY_LINES && textRows <= lineCount <= HISTORY_LINES
      && 0 <= scrollBack <= lineCount - textRows
      && 0 <= row < textRows && 0 <= col < cols
    }

    /** The text the console stands for. */
    ghost function View(): (t: Text)
      requires Valid()
      reads this, history
      ensures TextOk(t)
    {
      Text(RingLines(history[..], firstLine, lineCount), cols, textRows, row, col, color, scrollBack)
    }

    ghost function Visible(): (p: Page)
      requires Valid()
      reads this, history
      ensures p == PageOf(View()) && PageOk(p, top)
    {
      Page(RingLines(history[..], firstLine, lineCount), cols, textRows, scrollBack)
    }

    /** The cells on screen are those a full redraw would show. */
    ghost predicate Drawn()
      requires Valid()
      reads this, history, screen, status
    {
      fullscreen || (RowsShown(screen[..], top, Visible()) && StatusShown(screen[..], status[..], top, cols))
    }

    /** The console's promise about cells and cursor, whenever no program owns the screen. */
    ghost predicate Agrees()
      requires Valid()
      reads this, history, screen, status
    {
      Drawn() && (fullscreen || cursor == Cursor(col, row + top, scrollBack == 0))
    }

    /** Boot: the 80x25 text display, cleared. */
    constructor ()
      ensures Valid() && Agrees() && !fullscreen
      ensures View() == Clear(Text([], 80, 25, 0, 0, LIGHT_GREY, 0))
    {
      history := new Line[HISTORY_LINES](_ => Blank(LIGHT_GREY));
      screen := new Line[MAX_ROWS](_ => Blank(LIGHT_GREY));
      status := new Cell[MAX_COLS](_ => Cell(0, 0));
      cols, rows, top, textRows := 80, 25, 0, 25;
      fullscreen, color := false, LIGHT_GREY;
      firstLine, lineCount, scrollBack, row, col := 0, 25, 0, 0, 0;
      cursor := Cursor(0, 0, false);
      new;
      ClearAll();
    }

    // ---------- Drawing through the display ----------

    method Put(x: int, y: int, cell: Cell)
      requires 0 <= y < screen.Length && 0 <= x < MAX_COLS
      modifies screen
      ensures screen[..] == old(screen[..])[y := old(screen[y])[x := cell]]
    {
      screen[y] := screen[y][x := cell];
    }

    /** Where the k-th oldest line is stored. */
    method Slot(k: int) returns (line: int)
      requires 0 <= firstLine < HISTORY_LINES && 0 <= k <= HISTORY_LINES
      ensures line == Ring(firstLine, k)
    {
      line := (firstLine + k) % HISTORY_LINES;
    }

    method MoveCursor()
      modifies this`cursor
      ensures cursor == if fullscreen then old(cursor) else Cursor(col, row + top, scrollBack == 0)
    {
      if !fullscreen {
        cursor := Cursor(col, row + top, scrollBack == 0);
      }
    }

    method DrawStatus()
      requires Valid()
      modifies screen
      ensures forall x :: 0 <= x < cols ==> screen[0][x] == status[x]
      ensures forall y :: 1 <= y < screen.Length ==> screen[y] == old(screen[y])
    {
      for x := 0 to cols
        invariant forall k :: 0 <= k < x ==> screen[0][k] == status[k]
        invariant forall y :: 1 <= y < screen.Length ==> screen[y] == old(screen[y])
      {
        Put(x, 0, status[x]);
      }
    }

    method DrawRow(y: int, line: Line)
      requires Valid() && 0 <= y < screen.Length
      modifies screen
      ensures forall x :: 0 <= x < cols ==> screen[y][x] == line[x]
      ensures forall k :: 0 <= k < screen.Length && k != y ==> screen[k] == old(screen[k])
    {
      for x := 0 to cols
        invariant forall k :: 0 <= k < x ==> screen[y][k] == line[k]
        invariant forall k :: 0 <= k < screen.Length && k != y ==> screen[k] == old(screen[k])
      {
        Put(x, y, line[x]);
      }
    }

    /** The loop over the text rows in `render`. */
    method DrawText(ghost p: Page)
      requires Valid() && p == Visible()
      modifies screen
      ensures FullyShown(screen[..], top, p)
    {
      var first := lineCount - textRows - scrollBack;
      for y := 0 to textRows
        modifies screen
        invariant forall s, x :: top <= s < top + y && 0 <= x < cols ==> screen[s][x] == RowLine(p, top, s)[x]
      {
        var line := Slot(first + y);
        assert history[line] == RowLine(p, top, y + top);
        DrawRow(y + top, history[line]);
      }
    }

    /** Draw the whole screen again from the history. */
    method Render()
      requires Valid()
      modifies screen, this`cursor
      ensures Agrees()
      ensures !fullscreen ==> FullyShown(screen[..], top, Visible())
    {
      if fullscreen {
        return;
      }
      DrawText(Visible());
      if top == 1 {
        DrawStatus();
      }
      MoveCursor();
      ShownIfFull(screen[..], top, Visible());
    }

    // ---------- Writing text ----------

    method ClearLine(line: int)
      requires 0 <= line < history.Length
      modifies history
      ensures history[..] == old(history[..])[line := Blank(color)]
    {
      for x := 0 to MAX_COLS
        invariant forall k :: 0 <= k < x ==> history[line][k] == Cell(SPACE, color)
        invariant forall k :: 0 <= k < history.Length && k != line ==> history[k] == old(history[k])
      {
        history[line] := history[line][x := Cell(SPACE, color)];
      }
      assert history[line] == Blank(color);
    }

    /** Put a character where the cursor is: always into the ring, and drawn if that row shows. */
    method StoreCell(c: Byte)
      requires Valid()
      modifies history, screen
      ensures Valid() && View() == Store(old(View()), c)
      ensures old(Drawn()) ==> Drawn()
    {
      ghost var t, h := View(), history[..];
      ghost var before := screen[..];
      var line := Slot(lineCount - textRows + row);
      history[line] := history[line][col := Cell(c, color)];
      RingUpdate(h, firstLine, lineCount, CursorLine(t), history[line]);
      assert history[..] == h[line := history[line]];
      if scrollBack == 0 && !fullscreen {
        Put(col, row + top, Cell(c, color));
      }
      if RowsShown(before, top, PageOf(t)) {
        StoreKeepsRows(before, top, t, c);
      }
    }

    /** A blank line at the bottom of the ring. */
    method PushLine()
      requires Valid()
      modifies this`firstLine, this`lineCount, history
      ensures Valid() && lineCount == Min(old(lineCount) + 1, HISTORY_LINES)
      ensures RingLines(history[..], firstLine, lineCount) == NewLine(old(View())).lines
    {
      ghost var h := history[..];
      if lineCount == HISTORY_LINES {
        RingShift(h, firstLine, Blank(color));
        firstLine := (firstLine + 1) % HISTORY_LINES;
      } else {
        RingGrow(h, firstLine, lineCount, Blank(color));
        lineCount := lineCount + 1;
      }
      var line := Slot(lineCount - 1);
      ClearLine(line);
    }

    /** Past the bottom row the ring takes a further line. */
    method StartLine()
      requires Valid() && row + 1 == textRows
      modifies this`firstLine, this`lineCount, this`scrollBack, this`row, this`cursor, history, screen
      ensures Valid() && View() == NewLine(old(View()))
      ensures Agrees()
    {
      PushLine();
      row := textRows - 1;
      if scrollBack != 0 && scrollBack < lineCount - textRows {
        scrollBack := scrollBack + 1;
      }
      Render();
    }

    /** `++row`, and a new line when that leaves the screen. */
    method NextRow()
      requires Valid()
      modifies this`firstLine, this`lineCount, this`scrollBack, this`row, this`cursor, history, screen
      ensures Valid() && View() == Down(old(View()))
      ensures old(Drawn()) ==> Drawn()
    {
      if row + 1 == textRows {
        StartLine();
      } else {
        row := row + 1;
      }
    }

    /** The default branch of `put_char`. */
    method PutPlain(c: Byte)
      requires Valid()
      modifies this`firstLine, this`lineCount, this`scrollBack, this`row, this`col, this`cursor, history, screen
      ensures Valid() && View() == Plain(old(View()), c)
      ensures old(Drawn()) ==> Drawn()
    {
      StoreCell(c);
      if col + 1 == cols {
        col := 0;
        NextRow();
      } else {
        col := col + 1;
      }
    }

    method Backspace()
      requires Valid()
      modifies this`row, this`col, history, screen
      ensures Valid() && View() == Store(StepBack(old(View())), SPACE)
      ensures old(Drawn()) ==> Drawn()
    {
      if col > 0 {
        col := col - 1;
      } else if row > 0 {
        row := row - 1;
        col := cols - 1;
      }
      StoreCell(SPACE);
    }

    method PutChar(c: Byte)
      requires Valid()
      modifies this`firstLine, this`lineCount, this`scrollBack, this`row, this`col, this`cursor, history, screen
      ensures Valid() && View() == ConsoleText.Put(old(View()), c)
      ensures old(Agrees()) ==> Agrees()
      decreases if c == TAB then 3 else 0
    {
      if c == NEWLINE {
        col := 0;
        NextRow();
      } else if c == RETURN {
        col := 0;
      } else if c == TAB {
        PutSpaces();
        return;
      } else if c == BACKSPACE {
        Backspace();
      } else {
        PutPlain(c);
      }
      MoveCursor();
    }

    method PutSpace()
      requires Valid()
      modifies this`firstLine, this`lineCount, this`scrollBack, this`row, this`col, this`cursor, history, screen
      ensures Valid() && View() == Plain(old(View()), SPACE) && col == if old(col) + 1 == cols then 0 else old(col) + 1
      ensures old(Agrees()) ==> Agrees()
      decreases 1, 0
    {
      PutChar(SPACE);
      assert col == View().col;
    }

    /** The loop of the tab: a space, and more until the next tab stop. */
    method PutSpaces()
      requires Valid()
      modifies this`firstLine, this`lineCount, this`scrollBack, this`row, this`col, this`cursor, history, screen
      ensures Valid() && View() == Spaces(old(View()))
      ensures old(Agrees()) ==> Agrees()
      decreases 2
    {
      ghost var agreed, goal := Agrees(), Spaces(View());
      ghost var left := SpaceOn(goal);
      while col % TAB_WIDTH != 0
        invariant Valid() && OnTheWay(View(), goal) && left == ToLineEnd()
        invariant agreed ==> Agrees()
        decreases left
      {
        NotAStop(col);
        ghost var before := left;
        left := SpaceOn(goal);
        assert left < before;
      }
    }

    /** How far the cursor is from the end of its line; 0 at the start of the next. */
    ghost function ToLineEnd(): (n: nat)
      requires Valid()
      reads this
    {
      if col == 0 then 0 else cols - col
    }

    /** One space of a tab. */
    method SpaceOn(ghost goal: Text) returns (ghost left: nat)
      requires Valid() && goal == Spaces(View())
      modifies this`firstLine, this`lineCount, this`scrollBack, this`row, this`col, this`cursor, history, screen
      ensures Valid() && OnTheWay(View(), goal) && left == ToLineEnd()
      ensures old(col) == 0 || left < old(ToLineEnd())
      ensures old(Agrees()) ==> Agrees()
      decreases 1, 1
    {
      ghost var t := View();
      PutSpace();
      SpacesFrom(t);
      left := ToLineEnd();
    }

    method PrintStr(s: seq<Byte>)
      requires Valid()
      modifies this`firstLine, this`lineCount, this`scrollBack, this`row, this`col, this`cursor, history, screen
      ensures Valid() && View() == Print(old(View()), s)
      ensures old(Agrees()) ==> Agrees()
    {
      ghost var goal := Print(View(), s);
      for i := 0 to |s|
        invariant Valid() && (old(Agrees()) ==> Agrees())
        invariant goal == Print(View(), s[i..])
      {
        assert s[i..][1..] == s[i + 1..];
        PutChar(s[i]);
      }
    }

    // ---------- Changing the screen size ----------

    /** Append blank lines until there are as many as wanted. */
    method FillLines(wanted: int)
      requires history.Length == HISTORY_LINES && 0 <= firstLine < HISTORY_LINES
      requires 0 <= lineCount <= HISTORY_LINES && wanted <= HISTORY_LINES
      modifies this`lineCount, history
      ensures lineCount == if old(lineCount) < wanted then wanted else old(lineCount)
      ensures RingLines(history[..], firstLine, lineCount) == Filled(old(RingLines(history[..], firstLine,
        lineCount)), wanted, color)
    {
      ghost var lines := RingLines(history[..], firstLine, lineCount);
      while lineCount < wanted
        invariant old(lineCount) <= lineCount && (lineCount == old(lineCount) || lineCount <= wanted)
        invariant RingLines(history[..], firstLine, lineCount) == Filled(lines, lineCount, color)
      {
        ghost var h := history[..];
        RingGrow(h, firstLine, lineCount, Blank(color));
        var line := Slot(lineCount);
        ClearLine(line);
        lineCount := lineCount + 1;
      }
    }

    /** Fit the history to a new number of rows, keeping the cursor on its line. */
    method Resize(newCols: int, newRows: int, newTop: int)
      requires Valid() && DisplayOk(Display(newCols, newRows)) && 0 <= newTop <= 1
      modifies this`cols, this`rows, this`top, this`textRows, this`lineCount, this`row, this`col, this`scrollBack,
        history
      ensures Valid() && cols == newCols && rows == newRows && top == newTop
      ensures View() == Relayout(old(View()), newCols, newRows - newTop)
    {
      ghost var t := View();
      var cursorLine := lineCount - textRows + row;
      cols := newCols;
      rows := newRows;
      top := newTop;
      textRows := rows - top;
      FillLines(textRows);
      TrimLines(cursorLine);
      if col >= cols {
        col := cols - 1;
      }
      scrollBack := 0;
    }

    /** The cursor's row among the newest `textRows` lines; lines below the cursor
        that pushed it off are dropped. */
    method TrimLines(cursorLine: int)
      requires history.Length == HISTORY_LINES && 0 <= firstLine < HISTORY_LINES
      requires 1 <= textRows <= lineCount <= HISTORY_LINES && 0 <= cursorLine < lineCount
      modifies this`lineCount, this`row
      ensures textRows <= lineCount <= HISTORY_LINES && 0 <= row < textRows &&
        row == cursorLine - (lineCount - textRows)
      ensures RingLines(history[..], firstLine, lineCount) == Trimmed(old(RingLines(history[..], firstLine,
        lineCount)), cursorLine, textRows)
    {
      row := cursorLine - (lineCount - textRows);
      if row < 0 {
        lineCount := if cursorLine + 1 > textRows then cursorLine + 1 else textRows;
        row := cursorLine - (lineCount - textRows);
      }
    }

    method ClearAll()
      requires Valid()
      modifies this`firstLine, this`lineCount, this`scrollBack, this`row, this`col, this`cursor, history, screen
      ensures Valid() && View() == Clear(old(View()))
      ensures Agrees()
    {
      firstLine := 0;
      lineCount := textRows;
      scrollBack := 0;
      row, col := 0, 0;
      for line := 0 to HISTORY_LINES
        modifies history
        invariant forall k :: 0 <= k < line ==> history[k] == Blank(color)
      {
        ClearLine(line);
      }
      Render();
    }

    // ---------- The display ----------

    /** A display was opened or reloaded: it shows whatever it starts with. */
    method Reopen(start: (int, int) -> Cell)
      modifies screen
    {
      for y := 0 to screen.Length {
        screen[y] := seq(MAX_COLS, x => start(x, y));
      }
    }

    /** Switch to another display; `opens` says whether it can be opened, and the
        two functions what the new or the old one shows at first. */
    method SetDisplay(next: Display, opens: bool, newShows: (int, int) -> Cell, oldShows: (int, int) -> Cell)
      returns (done: bool)
      requires Valid() && DisplayOk(next)
      modifies this`cols, this`rows, this`top, this`textRows, this`lineCount, this`row, this`col, this`scrollBack,
        this`cursor, history, screen
      ensures Valid() && Agrees() && done == opens && top == old(top)
      ensures View() == if opens then Relayout(old(View()), next.cols, next.rows - top) else old(View())
    {
      if !opens {
        Reopen(oldShows);
        Render();
        return false;
      }
      Reopen(newShows);
      Resize(next.cols, next.rows, top);
      Render();
      return true;
    }

    /** The font or theme changed, or graphics used the card. */
    method Reload(start: (int, int) -> Cell)
      requires Valid()
      modifies this`cursor, screen
      ensures Valid() && Agrees() && View() == old(View())
    {
      Reopen(start);
      Render();
    }

    // ---------- Scroll-back ----------

    method ScrollView(lines: int)
      requires Valid()
      modifies this`scrollBack, this`cursor, screen
      ensures Valid() && Agrees()
      ensures !fullscreen ==> FullyShown(screen[..], top, Visible())
      ensures View() == old(View()).(back := scrollBack)
      ensures scrollBack == if old(scrollBack) + lines < 0 then 0 else Min(old(scrollBack) + lines,
        lineCount - textRows)
    {
      var maxBack := lineCount - textRows;
      scrollBack := scrollBack + lines;
      if scrollBack < 0 {
        scrollBack := 0;
      }
      if scrollBack > maxBack {
        scrollBack := maxBack;
      }
      Render();
    }

    // ---------- Status bar ----------

    method StatusEnable(on: bool)
      requires Valid()
      modifies this`top, this`cols, this`rows, this`textRows, this`lineCount, this`row, this`col, this`scrollBack,
        this`cursor, history, screen, status
      ensures Valid() && top == (if on then 1 else 0) && cols == old(cols) && rows == old(rows)
      ensures View() == if top == old(top) then old(View()) else Relayout(old(View()), cols, rows - top)
      ensures forall x :: 0 <= x < MAX_COLS ==>
        status[x] == if top == old(top) then old(status[x]) else Cell(SPACE, color)
      ensures old(Agrees()) ==> Agrees()
    {
      var wanted := if on then 1 else 0;
      if wanted != top {
        for x := 0 to MAX_COLS
          modifies status
          invariant forall k :: 0 <= k < x ==> status[k] == Cell(SPACE, color)
        {
          status[x] := Cell(SPACE, color);
        }
        Resize(cols, rows, wanted);
        Render();
      }
    }

    /** Show `cells` in the status row. */
    method StatusSet(cells: seq<Cell>)
      requires Valid() && cols <= |cells|
      modifies status, screen
      ensures Valid() && View() == old(View())
      ensures forall x :: 0 <= x < MAX_COLS ==> status[x] == if x < cols then cells[x] else old(status[x])
      ensures old(Agrees()) ==> Agrees()
    {
      ghost var before := screen[..];
      for x := 0 to cols
        modifies status
        invariant forall k :: 0 <= k < MAX_COLS ==> status[k] == if k < x then cells[k] else old(status[k])
      {
        status[x] := cells[x];
      }
      if top == 1 && !fullscreen {
        DrawStatus();
        assert forall s :: 1 <= s < MAX_ROWS ==> screen[..][s] == before[s];
      }
    }

    // ---------- Full-screen programs ----------

    method Fullscreen(on: bool)
      requires Valid()
      modifies this`fullscreen, this`cursor, screen
      ensures Valid() && View() == old(View()) && fullscreen == on
      ensures Agrees()
      ensures on ==> !cursor.visible && forall y, x :: 0 <= y < rows && 0 <= x < cols ==>
        screen[y][x] == Cell(SPACE, LIGHT_GREY)
    {
      if on {
        cursor := Cursor(0, 0, false);
        fullscreen := true;
        for y := 0 to rows
          modifies screen
          invariant forall s, x :: 0 <= s < y && 0 <= x < cols ==> screen[s][x] == Cell(SPACE, LIGHT_GREY)
        {
          DrawRow(y, Blank(LIGHT_GREY));
        }
      } else {
        fullscreen := false;
        Render();
      }
    }

    /** Draw straight onto the screen; the promise stays good only for a program
        that owns it, or when nothing is drawn. */
    method PutAt(x: int, y: int, c: Byte, attr: Byte)
      requires Valid()
      modifies screen
      ensures Valid() && View() == old(View())
      ensures screen[..] == if 0 <= x < cols && 0 <= y < rows then old(screen[..])[y := old(screen[y])[x := Cell(c,
        attr)]] else old(screen[..])
      ensures fullscreen ==> Agrees()
    {
      if x < 0 || x >= cols || y < 0 || y >= rows {
        return;
      }
      Put(x, y, Cell(c, attr));
    }
  }
}
