/**
 * The graphics console: every cell is 16 rows of 8 pixels, and a cache of what
 * each cell shows lets `put` skip cells that would not change.  The pixels are
 * always those of a fresh drawing of all cells, the wallpaper and one cursor.
 */
module Framebuffer {
  import opened Arith
  import opened Words
  import opened ConsoleText

  const CELL_W := 8
  const CELL_H := 16
  const MAX_WIDTH := 1920
  const MAX_HEIGHT := 1080

  /** 0x00RRGGBB. */
  type Rgb = Word

  /** Eight pixels, the leftmost in the highest bit. */
  type Bits = Byte

  const ALL_LIT: Bits := 0xFF

  /** The mask shifted from 0x80 on selects the k-th pixel from the left. */
  predicate Lit(bits: Bits, k: nat)
    requires k < CELL_W
  {
    bits / [0x80, 0x40, 0x20, 0x10, 8, 4, 2, 1][k] % 2 == 1
  }

  /** Bit j of a number, counted from the lowest. */
  predicate Bit(n: nat, j: nat) {
    if j == 0 then n % 2 == 1 else Bit(n / 2, j - 1)
  }

  function TwoTo(j: nat): (d: nat)
    ensures d >= 1
  {
    if j == 0 then 1 else 2 * TwoTo(j - 1)
  }

  lemma HalfFirst(n: nat, d: nat)
    requires 0 < d
    ensures n / 2 / d == n / (2 * d)
  {
    var q, r := n / 2 / d, n / 2 % d;
    DivModUnique(n, 2 * d, q, 2 * r + n % 2);
  }

  lemma {:induction false} BitIs(n: nat, j: nat)
    ensures Bit(n, j) <==> n / TwoTo(j) % 2 == 1
  {
    if j > 0 {
      BitIs(n / 2, j - 1);
      HalfFirst(n, TwoTo(j - 1));
    }
  }

  lemma Masks()
    ensures [TwoTo(7), TwoTo(6), TwoTo(5), TwoTo(4), TwoTo(3), TwoTo(2), TwoTo(1), TwoTo(0)] ==
      [0x80, 0x40, 0x20, 0x10, 8, 4, 2, 1]
  {
  }

  lemma LitIsBit(bits: Bits, k: nat)
    requires k < CELL_W
    ensures Lit(bits, k) <==> Bit(bits, 7 - k)
    ensures Lit(ALL_LIT, k) && !Lit(0, k)
  {
    Masks();
    BitIs(bits, 7 - k);
  }

  /** The theme and the font: 16 colours, the two ends of the wallpaper, and 16
      bytes for every character. */
  datatype Look = Look(palette: seq<Rgb>, wallTop: Rgb, wallBottom: Rgb, font: seq<seq<Bits>>)

  /** The glyph of character 0 is blank, as in the UzOS font; clearing the screen relies on it. */
  ghost predicate LookOk(l: Look) {
    && |l.palette| == 16 && |l.font| == 256
    && (forall c :: 0 <= c < 256 ==> |l.font[c]| == CELL_H)
    && (forall r :: 0 <= r < CELL_H ==> l.font[0][r] == 0)
  }

  // ---------- Wallpaper ----------

  /** One channel, `ca + (cb - ca) * t / steps`: C's division rounds toward zero,
      so the step from a toward b is rounded down whichever way it goes. */
  function Mix(a: Byte, b: Byte, t: nat, steps: nat): int
    requires 0 < steps
  {
    if a <= b then a + (b - a) * t / steps else a - (a - b) * t / steps
  }

  function Channel(c: Rgb, k: nat): Byte
    requires k <= 2
  {
    if k == 0 then c % 256 else if k == 1 then c / 256 % 256 else c / 65536 % 256
  }

  lemma ShareOf(d: nat, t: nat, steps: nat)
    requires 0 < steps && t <= steps
    ensures 0 <= d * t / steps <= d && d * 0 / steps == 0 && d * steps / steps == d
  {
    MulMonotone(d, t, steps);
    DivModUnique(d * steps, steps, d, 0);
    QuotientAtMost(d * t, d, steps);
  }

  lemma QuotientAtMost(n: nat, q: nat, d: nat)
    requires 0 < d && n <= q * d
    ensures n / d <= q
  {
    MulMonotone(d, q + 1, if n / d >= q + 1 then n / d else q + 1);
  }

  lemma MixBetween(a: Byte, b: Byte, t: nat, steps: nat)
    requires 0 < steps && t <= steps
    ensures a <= b ==> a <= Mix(a, b, t, steps) <= b
    ensures b <= a ==> b <= Mix(a, b, t, steps) <= a
    ensures Mix(a, b, 0, steps) == a && Mix(a, b, steps, steps) == b
  {
    ShareOf(if a <= b then b - a else a - b, t, steps);
  }

  /** Of the way from a to b, t of `steps` parts, rounded down. */
  lemma MixIsShare(a: Byte, b: Byte, t: nat, steps: nat)
    requires 0 < steps && t <= steps
    ensures var all := if a <= b then b - a else a - b;
      var way := if a <= b then Mix(a, b, t, steps) - a else a - Mix(a, b, t, steps);
      way * steps <= all * t < (way + 1) * steps
  {
    var all := if a <= b then b - a else a - b;
    var way := all * t / steps;
    assert all * t == steps * way + all * t % steps;
    DistributeOne(way, steps);
  }

  /** Mix a and b channel by channel: t = 0 gives a, t = steps gives b. */
  function Blend(a: Rgb, b: Rgb, t: nat, steps: nat): Rgb
    requires 0 < steps && t <= steps
  {
    MixBetween(Channel(a, 0), Channel(b, 0), t, steps);
    MixBetween(Channel(a, 1), Channel(b, 1), t, steps);
    MixBetween(Channel(a, 2), Channel(b, 2), t, steps);
    Mix(Channel(a, 0), Channel(b, 0), t, steps)
    + 256 * Mix(Channel(a, 1), Channel(b, 1), t, steps)
    + 65536 * Mix(Channel(a, 2), Channel(b, 2), t, steps)
  }

  /** The gradient runs from one colour to the other, every channel staying between. */
  lemma BlendRuns(a: Rgb, b: Rgb, t: nat, steps: nat, k: nat)
    requires 0 < steps && t <= steps && k <= 2
    ensures Channel(Blend(a, b, 0, steps), k) == Channel(a, k) && Channel(Blend(a, b, steps, steps), k) == Channel(b, k)
    ensures var c := Channel(Blend(a, b, t, steps), k);
      Channel(a, k) <= c <= Channel(b, k) || Channel(b, k) <= c <= Channel(a, k)
    ensures Channel(Blend(a, b, t, steps), k) == Mix(Channel(a, k), Channel(b, k), t, steps)
  {
    MixBetween(Channel(a, k), Channel(b, k), t, steps);
    Unpack(a, b, t, steps);
    Unpack(a, b, 0, steps);
    Unpack(a, b, steps, steps);
  }

  lemma Unpack(a: Rgb, b: Rgb, t: nat, steps: nat)
    requires 0 < steps && t <= steps
    ensures forall k :: 0 <= k <= 2 ==> Channel(Blend(a, b, t, steps), k) == Mix(Channel(a, k), Channel(b, k), t, steps)
    ensures Blend(a, b, t, steps) < 0x100_0000
  {
    MixBetween(Channel(a, 0), Channel(b, 0), t, steps);
    MixBetween(Channel(a, 1), Channel(b, 1), t, steps);
    MixBetween(Channel(a, 2), Channel(b, 2), t, steps);
    var m0, m1, m2 := Mix(Channel(a, 0), Channel(b, 0), t, steps), Mix(Channel(a, 1), Channel(b, 1), t, steps),
      Mix(Channel(a, 2), Channel(b, 2), t, steps);
    ThreeBytes(m0, m1, m2);
  }

  lemma ThreeBytes(m0: Byte, m1: Byte, m2: Byte)
    ensures var c: Rgb := m0 + 256 * m1 + 65536 * m2;
      c < 0x100_0000 && Channel(c, 0) == m0 && Channel(c, 1) == m1 && Channel(c, 2) == m2
  {
    var c := m0 + 256 * m1 + 65536 * m2;
    DivModUnique(c, 256, m1 + 256 * m2, m0);
    DivModUnique(m1 + 256 * m2, 256, m2, m1);
    DivModUnique(c, 65536, m2, m0 + 256 * m1);
  }

  // ---------- What a pixel should be ----------

  /** The bits of pixel row r of a cell; the cursor underlines its two lowest rows. */
  function RowBits(look: Look, cell: Cell, underline: bool, r: nat): Bits
    requires LookOk(look) && r < CELL_H
  {
    if underline && r >= CELL_H - 2 then ALL_LIT else look.font[cell.ch][r]
  }

  function Background(look: Look, cell: Cell, wall: Rgb): Rgb
    requires LookOk(look)
  {
    if cell.attr / 16 != 0 then look.palette[cell.attr / 16] else wall
  }

  function CellPixel(look: Look, cell: Cell, underline: bool, wall: Rgb, r: nat, b: nat): Rgb
    requires LookOk(look) && r < CELL_H && b < CELL_W
  {
    if Lit(RowBits(look, cell, underline, r), b) then look.palette[cell.attr % 16] else Background(look, cell, wall)
  }

  /** With foreground f and background b: the pixel has colour f where the glyph's byte of
      that row has a 1, the highest bit leftmost, and on the underline; elsewhere colour
      b, or the wallpaper for b = 0. */
  lemma PixelColour(look: Look, cell: Cell, underline: bool, wall: Rgb, r: nat, k: nat, f: nat, b: nat)
    requires LookOk(look) && r < CELL_H && k < CELL_W && f < 16 && cell.attr == 16 * b + f
    ensures b < 16 && CellPixel(look, cell, underline, wall, r, k) ==
      if Bit(look.font[cell.ch][r], 7 - k) || (underline && r in {14, 15}) then look.palette[f]
      else if b != 0 then look.palette[b]
      else wall
  {
    LitIsBit(look.font[cell.ch][r], k);
  }

  /** Cell 0 draws nothing. */
  lemma BlankCell(look: Look, wall: Rgb, r: nat, k: nat)
    requires LookOk(look) && r < CELL_H && k < CELL_W
    ensures CellPixel(look, Cell(0, 0), false, wall, r, k) == wall
  {
    LitIsBit(0, k);
  }

  // ---------- Addresses ----------

  /** Where pixel (px, py) is stored: py rows of `width` pixels come before its row. */
  function Idx(width: nat, py: nat, px: nat): nat {
    if py == 0 then px else width + Idx(width, py - 1, px)
  }

  lemma {:induction false} IdxIs(width: nat, py: nat, px: nat)
    ensures Idx(width, py, px) == py * width + px
  {
    if py > 0 {
      IdxIs(width, py - 1, px);
      DistributeOne(py - 1, width);
    }
  }

  /** Two pixels never share an address. */
  lemma IdxInjective(width: nat, py: nat, px: nat, py': nat, px': nat)
    requires px < width && px' < width && Idx(width, py, px) == Idx(width, py', px')
    ensures py == py' && px == px'
  {
    IdxIs(width, py, px);
    IdxIs(width, py', px');
    QuotientUnique(width, py, px, py', px');
  }

  lemma IdxInRange(width: nat, height: nat, py: nat, px: nat)
    requires px < width && py < height
    ensures Idx(width, py, px) < height * width
  {
    IdxIs(width, py, px);
    MulMonotone(width, py + 1, height);
    DistributeOne(py, width);
  }

  class Fbcon {
    const fb: array<Rgb>                // the visible pixels, row after row
    const wallpaper: array<Rgb>         // the colour of each pixel row
    const shown: array2<Cell>           // what each cell shows now
    var look: Look
    var width: nat
    var height: nat
    var cursorX: nat
    var cursorY: nat
    var cursorVisible: bool

    ghost predicate Wf()
      reads this
    {
      && LookOk(look)
      && CELL_W <= width <= MAX_WIDTH && CELL_H <= height <= MAX_HEIGHT
      && height * width <= fb.Length && wallpaper.Length == MAX_HEIGHT && fb != wallpaper
      && shown.Length0 == MAX_ROWS && shown.Length1 == MAX_COLS
    }

    ghost predicate InGrid(x: int, y: int)
      reads this
    {
      0 <= x < width / CELL_W && 0 <= y < height / CELL_H
    }

    /** What a fresh drawing of everything would put at a pixel. */
    ghost function Fresh(py: nat, px: nat): Rgb
      requires Wf() && py < height && px < width
      reads this, wallpaper, shown
    {
      var x, y := px / CELL_W, py / CELL_H;
      if InGrid(x, y) then
        CellPixel(look, shown[y, x], IsCursor(x, y), wallpaper[py], py % CELL_H, px % CELL_W)
      else wallpaper[py]
    }

    predicate IsCursor(x: nat, y: nat)
      reads this
    {
      cursorVisible && x == cursorX && y == cursorY
    }

    /** The pixel on screen. */
    ghost function Pixel(py: nat, px: nat): Rgb
      requires Wf() && py < height && px < width
      reads this, fb
    {
      IdxInRange(width, height, py, px);
      fb[Idx(width, py, px)]
    }

    /** Every pixel is what a fresh drawing would give. */
    ghost predicate Valid()
      reads this, fb, wallpaper, shown
    {
      && Wf()
      && (cursorVisible ==> InGrid(cursorX, cursorY))
      && forall py, px :: 0 <= py < height && 0 <= px < width ==> Pixel(py, px) == Fresh(py, px)
    }

    /** So every pixel inside a cell has the colour of that cell's glyph, and the rest of
        the screen shows wallpaper. */
    lemma PixelIs(q: nat, p: nat, f: nat, b: nat)
      requires Valid() && q < height && p < width && f < 16
      requires var x, y := p / 8, q / 16; InGrid(x, y) ==> shown[y, x].attr == 16 * b + f
      ensures var x, y := p / 8, q / 16;
        Pixel(q, p) ==
          if !InGrid(x, y) then wallpaper[q]
          else if Bit(look.font[shown[y, x].ch][q % 16], 7 - p % 8)
            || (cursorVisible && x == cursorX && y == cursorY && q % 16 in {14, 15}) then look.palette[f]
          else if b != 0 then look.palette[b]
          else wallpaper[q]
    {
      var x, y := p / 8, q / 16;
      assert Pixel(q, p) == Fresh(q, p);
      if InGrid(x, y) {
        PixelColour(look, shown[y, x], IsCursor(x, y), wallpaper[q], q % 16, p % 8, f, b);
      }
    }

    /** One pixel. */
    method Plot(py: nat, px: nat, c: Rgb)
      requires Wf() && py < height && px < width
      modifies fb
      ensures forall q, p :: 0 <= q < height && 0 <= p < width ==>
        Pixel(q, p) == if q == py && p == px then c else old(Pixel(q, p))
    {
      forall q, p | 0 <= q < height && 0 <= p < width && Idx(width, q, p) == Idx(width, py, px)
        ensures q == py && p == px
      {
        IdxInjective(width, q, p, py, px);
      }
      IdxIs(width, py, px);
      IdxInRange(width, height, py, px);
      fb[py * width + px] := c;
    }

    /** The eight pixels of one row of a cell. */
    method DrawCellRow(py: nat, px: nat, bits: Bits, fg: Rgb, bg: Rgb)
      requires Wf() && py < height && px + CELL_W <= width
      modifies fb
      ensures forall q, p :: 0 <= q < height && 0 <= p < width ==>
        Pixel(q, p) ==
          if q == py && px <= p < px + CELL_W then (if Lit(bits, p - px) then fg else bg) else old(Pixel(q, p))
    {
      for b := 0 to CELL_W
        invariant forall q, p :: 0 <= q < height && 0 <= p < width ==>
          Pixel(q, p) ==
            if q == py && px <= p < px + b then (if Lit(bits, p - px) then fg else bg) else old(Pixel(q, p))
      {
        Plot(py, px + b, if Lit(bits, b) then fg else bg);
      }
    }

    /** All sixteen rows of a cell. */
    method DrawCell(x: nat, y: nat, cell: Cell, underline: bool)
      requires Wf() && InGrid(x, y)
      modifies fb
      ensures forall q, p :: 0 <= q < height && 0 <= p < width ==>
        Pixel(q, p) == if q / CELL_H == y && p / CELL_W == x
          then CellPixel(look, cell, underline, wallpaper[q], q % CELL_H, p % CELL_W) else old(Pixel(q, p))
      ensures forall q, p :: 0 <= q < height && 0 <= p < width && q / 16 == y && p / 8 == x ==>
        Pixel(q, p) ==
          if Bit(look.font[cell.ch][q % 16], 7 - p % 8) || (underline && q % 16 in {14, 15})
          then look.palette[cell.attr % 16]
          else if cell.attr / 16 != 0 then look.palette[cell.attr / 16] else wallpaper[q]
    {
      var fg := look.palette[cell.attr % 16];
      for r := 0 to CELL_H
        invariant forall q, p :: 0 <= q < height && 0 <= p < width ==>
          Pixel(q, p) == if y * CELL_H <= q < y * CELL_H + r && p / CELL_W == x
            then CellPixel(look, cell, underline, wallpaper[q], q - y * CELL_H, p % CELL_W) else old(Pixel(q, p))
      {
        var bg := if cell.attr / 16 != 0 then look.palette[cell.attr / 16] else wallpaper[y * CELL_H + r];
        var bits := if underline && r >= CELL_H - 2 then ALL_LIT else look.font[cell.ch][r];
        DrawCellRow(y * CELL_H + r, x * CELL_W, bits, fg, bg);
      }
      forall q, p | 0 <= q < height && 0 <= p < width && q / 16 == y && p / 8 == x
        ensures CellPixel(look, cell, underline, wallpaper[q], q % CELL_H, p % CELL_W) ==
          if Bit(look.font[cell.ch][q % 16], 7 - p % 8) || (underline && q % 16 in {14, 15})
          then look.palette[cell.attr % 16]
          else if cell.attr / 16 != 0 then look.palette[cell.attr / 16] else wallpaper[q]
      {
        PixelColour(look, cell, underline, wallpaper[q], q % 16, p % 8, cell.attr % 16, cell.attr / 16);
      }
    }

    /** The gradient from top to bottom, and no cell on it. */
    ghost predicate Empty()
      requires Wf()
      reads this, wallpaper, shown
    {
      && (forall y, x :: 0 <= y < MAX_ROWS && 0 <= x < MAX_COLS ==> shown[y, x] == Cell(0, 0))
      && forall y :: 0 <= y < height ==> wallpaper[y] == Blend(look.wallTop, look.wallBottom, y, height - 1)
    }

    /** The whole screen shows the gradient, and every cell shows "nothing". */
    method PaintWallpaper()
      requires Wf() && !cursorVisible
      modifies fb, wallpaper, shown
      ensures Valid()
      ensures Empty()
    {
      PaintRows();
      ClearShown();
      forall py, px | 0 <= py < height && 0 <= px < width ensures Pixel(py, px) == Fresh(py, px) {
        BlankCell(look, wallpaper[py], py % CELL_H, px % CELL_W);
      }
    }

    method PaintRows()
      requires Wf()
      modifies fb, wallpaper
      ensures forall y :: 0 <= y < height ==> wallpaper[y] == Blend(look.wallTop, look.wallBottom, y, height - 1)
      ensures forall q, p :: 0 <= q < height && 0 <= p < width ==> Pixel(q, p) == wallpaper[q]
    {
      for y := 0 to height
        invariant forall q :: 0 <= q < y ==> wallpaper[q] == Blend(look.wallTop, look.wallBottom, q, height - 1)
        invariant forall q, p :: 0 <= q < y && 0 <= p < width ==> Pixel(q, p) == wallpaper[q]
      {
        wallpaper[y] := Blend(look.wallTop, look.wallBottom, y, height - 1);
        PaintRow(y, wallpaper[y]);
      }
    }

    method PaintRow(y: nat, c: Rgb)
      requires Wf() && y < height
      modifies fb
      ensures forall q, p :: 0 <= q < height && 0 <= p < width ==> Pixel(q, p) == if q == y then c else old(Pixel(q, p))
    {
      for x := 0 to width
        invariant forall q, p :: 0 <= q < height && 0 <= p < width ==>
          Pixel(q, p) == if q == y && p < x then c else old(Pixel(q, p))
      {
        Plot(y, x, c);
      }
    }

    method ClearShown()
      requires shown.Length0 == MAX_ROWS && shown.Length1 == MAX_COLS
      modifies shown
      ensures forall y, x :: 0 <= y < MAX_ROWS && 0 <= x < MAX_COLS ==> shown[y, x] == Cell(0, 0)
    {
      for y := 0 to MAX_ROWS
        invariant forall q, p :: 0 <= q < y && 0 <= p < MAX_COLS ==> shown[q, p] == Cell(0, 0)
      {
        for x := 0 to MAX_COLS
          invariant forall q, p :: 0 <= q < y && 0 <= p < MAX_COLS ==> shown[q, p] == Cell(0, 0)
          invariant forall p :: 0 <= p < x ==> shown[y, p] == Cell(0, 0)
        {
          shown[y, x] := Cell(0, 0);
        }
      }
    }

    /** Switch to a size; `available` says whether the card accepts the mode. */
    method Open(w: nat, h: nat, available: bool) returns (done: bool)
      requires LookOk(look) && CELL_W <= w <= MAX_WIDTH && CELL_H <= h <= MAX_HEIGHT
      requires h * w <= fb.Length && wallpaper.Length == MAX_HEIGHT && fb != wallpaper
      requires shown.Length0 == MAX_ROWS && shown.Length1 == MAX_COLS
      modifies this`width, this`height, this`cursorVisible, fb, wallpaper, shown
      ensures done == available
      ensures done ==> Valid() && width == w && height == h && !cursorVisible && Empty()
      ensures old(Valid()) ==> Valid()
      ensures !done ==> unchanged(this, fb, wallpaper, shown)
    {
      if !available {
        return false;
      }
      width := w;
      height := h;
      cursorVisible := false;
      PaintWallpaper();
      return true;
    }

    /** A new look: everything is painted afresh. */
    method Reload(next: Look)
      requires Valid() && LookOk(next)
      modifies this`look, this`cursorVisible, fb, wallpaper, shown
      ensures Valid() && look == next && !cursorVisible && Empty()
    {
      look := next;
      cursorVisible := false;
      PaintWallpaper();
    }

    /** Show a cell; nothing is drawn when it shows that already. */
    method PutCell(x: nat, y: nat, cell: Cell)
      requires Valid() && InGrid(x, y)
      modifies fb, shown
      ensures Valid()
      ensures forall q, p :: 0 <= q < MAX_ROWS && 0 <= p < MAX_COLS ==>
        shown[q, p] == if q == y && p == x then cell else old(shown[q, p])
    {
      if shown[y, x] == cell {
        return;
      }
      shown[y, x] := cell;
      DrawCell(x, y, cell, IsCursor(x, y));
    }

    /** Move the underline cursor, or hide it. */
    method MoveCursor(x: nat, y: nat, visible: bool)
      requires Valid() && (visible ==> InGrid(x, y))
      modifies this`cursorX, this`cursorY, this`cursorVisible, fb
      ensures Valid() && cursorX == x && cursorY == y && cursorVisible == visible
    {
      if cursorVisible {
        HideCursor();
      }
      PlaceCursor(x, y);
      if visible {
        ShowCursor();
      }
    }

    method PlaceCursor(x: nat, y: nat)
      requires Valid() && !cursorVisible
      modifies this`cursorX, this`cursorY
      ensures Valid() && cursorX == x && cursorY == y
    {
      cursorX := x;
      cursorY := y;
      forall py, px | 0 <= py < height && 0 <= px < width ensures Pixel(py, px) == Fresh(py, px) {
        assert old(Pixel(py, px)) == old(Fresh(py, px));
      }
    }

    /** Draw the cell under the cursor without it. */
    method HideCursor()
      requires Valid() && cursorVisible
      modifies this`cursorVisible, fb
      ensures Valid() && !cursorVisible
    {
      DrawCell(cursorX, cursorY, shown[cursorY, cursorX], false);
      cursorVisible := false;
      forall py, px | 0 <= py < height && 0 <= px < width ensures Pixel(py, px) == Fresh(py, px) {
        assert old(Pixel(py, px)) == old(Fresh(py, px));
      }
    }

    method ShowCursor()
      requires Valid() && !cursorVisible && InGrid(cursorX, cursorY)
      modifies this`cursorVisible, fb
      ensures Valid() && cursorVisible
    {
      DrawCell(cursorX, cursorY, shown[cursorY, cursorX], true);
      cursorVisible := true;
      forall py, px | 0 <= py < height && 0 <= px < width ensures Pixel(py, px) == Fresh(py, px) {
        assert old(Pixel(py, px)) == old(Fresh(py, px));
      }
    }
  }
}
