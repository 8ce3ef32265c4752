/**
 * The desktop's windows (gui/wm): the table of slots, the stacking order and
 * dragging. The order lists every window in use exactly once, whatever is created,
 * destroyed or clicked; the other windows keep their order; a click goes to the
 * topmost window under it.
 */
module Windows {

  const MAX_WINDOWS := 8
  const TITLE_BAR_HEIGHT := 20
  const MAX_WIDTH := 1024
  const MAX_HEIGHT := 768

  datatype Window = Window(used: bool, x: int, y: int, width: int, height: int)

  /** The window manager's state; `stack` holds the ids in use, bottom to top. */
  datatype Desk = Desk(
    windows: seq<Window>, stack: seq<int>, dragging: int, dx: int, dy: int, pressed: bool)

  ghost predicate InUse(ws: seq<Window>, id: int) {
    0 <= id < |ws| && ws[id].used
  }

  ghost predicate Distinct(s: seq<int>) {
    forall i, j :: 0 <= i < j < |s| ==> s[i] != s[j]
  }

  ghost predicate Listed(ws: seq<Window>, stack: seq<int>) {
    Distinct(stack) && forall id: int :: id in stack <==> InUse(ws, id)
  }

  ghost predicate Consistent(d: Desk) {
    && |d.windows| == MAX_WINDOWS && Listed(d.windows, d.stack)
    && (d.dragging == -1 || InUse(d.windows, d.dragging))
  }

  // ---------- Taking an id out of the stack ----------

  /** The stack with its first `id` taken out and the gap closed. */
  function Without(s: seq<int>, id: int): seq<int> {
    if s == [] then [] else if s[0] == id then s[1..] else [s[0]] + Without(s[1..], id)
  }

  lemma {:induction false} WithoutAt(s: seq<int>, p: nat)
    requires p < |s| && s[p] !in s[..p]
    ensures Without(s, s[p]) == s[..p] + s[p + 1..]
  {
    if p > 0 {
      assert s[0] == s[..p][0] && s[0] != s[p];
      assert s[1..][..p - 1] == s[..p][1..];
      WithoutAt(s[1..], p - 1);
      assert s[..p] + s[p + 1..] == [s[0]] + (s[1..][..p - 1] + s[1..][p..]);
    }
  }

  lemma FirstAt(s: seq<int>, p: nat)
    requires Distinct(s) && p < |s|
    ensures s[p] !in s[..p]
  {
  }

  lemma {:induction false} WithoutNothing(s: seq<int>, id: int)
    requires id !in s
    ensures Without(s, id) == s
  {
    if s != [] {
      WithoutNothing(s[1..], id);
    }
  }

  /** What is left: the same ids but one, still distinct. */
  lemma WithoutKeeps(s: seq<int>, p: nat)
    requires Distinct(s) && p < |s|
    ensures |Without(s, s[p])| == |s| - 1 && Distinct(Without(s, s[p]))
    ensures forall a: int :: a in Without(s, s[p]) <==> a in s && a != s[p]
  {
    FirstAt(s, p);
    WithoutAt(s, p);
    var r := s[..p] + s[p + 1..];
    forall a: int ensures a in r <==> a in s && a != s[p] {
      if a in s && a != s[p] {
        var i :| 0 <= i < |s| && s[i] == a;
        assert r[if i < p then i else i - 1] == a;
      }
    }
  }

  /** `a` lies somewhere below `b`. */
  ghost predicate Below(s: seq<int>, a: int, b: int) {
    exists i, j :: 0 <= i < j < |s| && s[i] == a && s[j] == b
  }

  lemma GapClosed(s: seq<int>, p: nat, i: nat)
    requires p < |s| && i < |s| && i != p
    ensures var r := s[..p] + s[p + 1..]; r[if i < p then i else i - 1] == s[i]
  {
  }

  lemma BelowStays(s: seq<int>, p: nat, a: int, b: int)
    requires p < |s| && a != s[p] && b != s[p] && Below(s, a, b)
    ensures Below(s[..p] + s[p + 1..], a, b)
  {
    var r := s[..p] + s[p + 1..];
    var i, j :| 0 <= i < j < |s| && s[i] == a && s[j] == b;
    GapClosed(s, p, i);
    GapClosed(s, p, j);
    assert r[if i < p then i else i - 1] == a && r[if j < p then j else j - 1] == b;
  }

  lemma BelowWas(s: seq<int>, p: nat, a: int, b: int)
    requires p < |s| && Below(s[..p] + s[p + 1..], a, b)
    ensures Below(s, a, b)
  {
    var r := s[..p] + s[p + 1..];
    var i, j :| 0 <= i < j < |r| && r[i] == a && r[j] == b;
    var i', j' := if i < p then i else i + 1, if j < p then j else j + 1;
    GapClosed(s, p, i');
    GapClosed(s, p, j');
    assert s[i'] == a && s[j'] == b;
  }

  /** The others keep their order. */
  lemma OrderKept(s: seq<int>, p: nat, a: int, b: int)
    requires Distinct(s) && p < |s| && a != s[p] && b != s[p]
    ensures Below(Without(s, s[p]), a, b) <==> Below(s, a, b)
  {
    FirstAt(s, p);
    WithoutAt(s, p);
    if Below(s, a, b) {
      BelowStays(s, p, a, b);
    }
    if Below(Without(s, s[p]), a, b) {
      BelowWas(s, p, a, b);
    }
  }

  /** Distinct ids below n: at most n of them. */
  lemma {:induction false} AtMost(s: seq<int>, n: nat)
    requires Distinct(s) && forall a: int :: a in s ==> 0 <= a < n
    ensures |s| <= n
    decreases n
  {
    if s != [] {
      assert s[0] in s;
      if n - 1 in s {
        var p :| 0 <= p < |s| && s[p] == n - 1;
        WithoutKeeps(s, p);
        AtMost(Without(s, n - 1), n - 1);
      } else {
        AtMost(s, n - 1);
      }
    }
  }

  /** While a slot is free there is room in the order for its id. */
  lemma RoomFor(ws: seq<Window>, stack: seq<int>, id: int)
    requires Listed(ws, stack) && 0 <= id < |ws| && !ws[id].used
    ensures |stack| < |ws|
  {
    var more := stack + [id];
    assert id !in stack;
    forall i, j | 0 <= i < j < |more| ensures more[i] != more[j] {
      assert more[i] in stack;
    }
    forall a: int | a in more ensures 0 <= a < |ws| {
      assert a in stack || a == id;
    }
    AtMost(more, |ws|);
  }

  lemma FitsOrder(ws: seq<Window>, stack: seq<int>)
    requires Listed(ws, stack)
    ensures |stack| <= |ws|
  {
    AtMost(stack, |ws|);
  }

  // ---------- What the operations do ----------

  /** The lowest slot that is not in use, or -1. */
  ghost predicate IsFreeSlot(ws: seq<Window>, id: int) {
    && (id == -1 || (0 <= id < |ws| && !ws[id].used))
    && forall j :: 0 <= j < (if id == -1 then |ws| else id) && j < |ws| ==> ws[j].used
  }

  predicate SizeOk(width: int, height: int) {
    0 < width <= MAX_WIDTH && 0 < height <= MAX_HEIGHT
  }

  function Add(d: Desk, id: int, w: Window): Desk
    requires 0 <= id < |d.windows|
  {
    d.(windows := d.windows[id := w], stack := d.stack + [id])
  }

  function Destroy(d: Desk, id: int): Desk {
    if !(0 <= id < |d.windows| && d.windows[id].used) then d
    else d.(
      windows := d.windows[id := d.windows[id].(used := false)],
      stack := Without(d.stack, id),
      dragging := if d.dragging == id then -1 else d.dragging)
  }

  function Cleared(d: Desk): Desk {
    Desk(seq(|d.windows|, i requires 0 <= i < |d.windows| => d.windows[i].(used := false)), [], -1, d.dx, d.dy, false)
  }

  /** A window on a screen of that size, pulled back from its edges. */
  function Kept(w: Window, width: int, height: int): Window {
    if !w.used then w
    else
      var x := if w.x + w.width > width then width - w.width else w.x;
      var y := if w.y + w.height > height then height - w.height else w.y;
      w.(x := if x < 0 then 0 else x, y := if y < TITLE_BAR_HEIGHT then TITLE_BAR_HEIGHT else y)
  }

  function AllKept(d: Desk, width: int, height: int): Desk {
    d.(windows := seq(|d.windows|, i requires 0 <= i < |d.windows| => Kept(d.windows[i], width, height)))
  }

  /** The title bar is on the screen, the whole window where it fits, and nothing moves that was. */
  lemma KeptOnScreen(w: Window, width: int, height: int)
    requires w.used
    ensures
      var k := Kept(w, width, height);
      && k.x >= 0 && k.y - TITLE_BAR_HEIGHT >= 0 && k == w.(x := k.x, y := k.y)
      && (w.width <= width ==> k.x + k.width <= width)
      && (TITLE_BAR_HEIGHT + w.height <= height ==> k.y + k.height <= height)
      && (0 <= w.x && w.x + w.width <= width && TITLE_BAR_HEIGHT <= w.y && w.y + w.height <= height ==> k == w)
      && Kept(k, width, height) == k
  {
  }

  function Clamp(v: int, lo: int, hi: int): int {
    if v < lo then lo else if v > hi then hi else v
  }

  /** It moves no further than it must: a window that fits to the nearest place where it
      does, one that does not to the left and top, below the 20 rows of its title bar. */
  lemma KeptNearest(w: Window, width: int, height: int)
    requires w.used
    ensures var k := Kept(w, width, height);
      && k.x == (if w.width <= width then Clamp(w.x, 0, width - w.width) else 0)
      && k.y == (if 20 + w.height <= height then Clamp(w.y, 20, height - w.height) else 20)
  {
  }

  /** The window and its title bar. */
  predicate Hit(w: Window, px: int, py: int) {
    w.x <= px < w.x + w.width && w.y - TITLE_BAR_HEIGHT <= py < w.y + w.height
  }

  predicate OnTitle(w: Window, py: int) {
    py < w.y
  }

  predicate HitAt(ws: seq<Window>, stack: seq<int>, j: int, px: int, py: int)
    requires 0 <= j < |stack|
  {
    0 <= stack[j] < |ws| && Hit(ws[stack[j]], px, py)
  }

  /** The highest of the lowest n positions whose window is under the point, or -1. */
  function Topmost(ws: seq<Window>, stack: seq<int>, px: int, py: int, n: nat): int
    requires n <= |stack|
  {
    if n == 0 then -1 else if HitAt(ws, stack, n - 1, px, py) then n - 1 else Topmost(ws, stack, px, py, n - 1)
  }

  lemma {:induction false} TopmostIs(ws: seq<Window>, stack: seq<int>, px: int, py: int, n: nat)
    requires n <= |stack|
    ensures var hit := Topmost(ws, stack, px, py, n);
      && -1 <= hit < n && (hit >= 0 ==> HitAt(ws, stack, hit, px, py))
      && forall j: int :: 0 <= j < n && hit < j ==> !HitAt(ws, stack, j, px, py)
  {
    if n > 0 && !HitAt(ws, stack, n - 1, px, py) {
      TopmostIs(ws, stack, px, py, n - 1);
    }
  }

  function Raise(stack: seq<int>, id: int): seq<int> {
    Without(stack, id) + [id]
  }

  /** A click on the window with that id. */
  function Press(d: Desk, id: int, mx: int, my: int): Desk
    requires 0 <= id < |d.windows|
  {
    var w := d.windows[id];
    if OnTitle(w, my) then
      d.(stack := Raise(d.stack, id), dragging := id, dx := mx - w.x, dy := my - w.y)
    else d.(stack := Raise(d.stack, id))
  }

  function Drag(d: Desk, mx: int, my: int): Desk
    requires 0 <= d.dragging < |d.windows|
  {
    d.(windows := d.windows[d.dragging := d.windows[d.dragging].(x := mx - d.dx, y := my - d.dy)])
  }

  /** One frame of the mouse. */
  function Mouse(d: Desk, left: bool, mx: int, my: int): Desk
    requires d.dragging < |d.windows|
  {
    if !left then d.(pressed := false, dragging := -1)
    else if d.dragging >= 0 then Drag(d, mx, my).(pressed := true)
    else if d.pressed then d
    else
      var hit := Topmost(d.windows, d.stack, mx, my, |d.stack|);
      if 0 <= hit < |d.stack| && 0 <= d.stack[hit] < |d.windows|
      then Press(d, d.stack[hit], mx, my).(pressed := true)
      else d.(pressed := true)
  }

  // ---------- Every operation keeps the desk consistent ----------

  lemma AddKeeps(d: Desk, id: int, w: Window)
    requires Consistent(d) && 0 <= id < |d.windows| && !d.windows[id].used && w.used
    ensures Consistent(Add(d, id, w))
  {
    var e := Add(d, id, w);
    assert id !in d.stack;
    forall i, j | 0 <= i < j < |e.stack| ensures e.stack[i] != e.stack[j] {
      assert e.stack[i] in d.stack;
    }
    forall a: int ensures a in e.stack <==> InUse(e.windows, a) {
      assert a in e.stack <==> a in d.stack || a == id;
    }
  }

  lemma DestroyKeeps(d: Desk, id: int)
    requires Consistent(d)
    ensures Consistent(Destroy(d, id))
  {
    if InUse(d.windows, id) {
      var p :| 0 <= p < |d.stack| && d.stack[p] == id;
      WithoutKeeps(d.stack, p);
      var e := Destroy(d, id);
      forall a: int ensures a in e.stack <==> InUse(e.windows, a) {
        assert a in e.stack <==> InUse(d.windows, a) && a != id;
      }
    }
  }

  lemma RaiseKeeps(stack: seq<int>, p: nat)
    requires Distinct(stack) && p < |stack|
    ensures Distinct(Raise(stack, stack[p]))
    ensures forall a: int :: a in Raise(stack, stack[p]) <==> a in stack
  {
    var id := stack[p];
    WithoutKeeps(stack, p);
    var rest := Without(stack, id);
    var up := Raise(stack, id);
    forall i, j | 0 <= i < j < |up| ensures up[i] != up[j] {
      assert up[i] in rest;
    }
    forall a: int ensures a in up <==> a in stack {
      assert a in up <==> a in rest || a == id;
    }
  }

  lemma PressKeeps(d: Desk, p: nat, mx: int, my: int)
    requires Consistent(d) && p < |d.stack|
    ensures 0 <= d.stack[p] < |d.windows| && Consistent(Press(d, d.stack[p], mx, my))
  {
    assert d.stack[p] in d.stack;
    RaiseKeeps(d.stack, p);
  }

  lemma DragKeeps(d: Desk, mx: int, my: int)
    requires Consistent(d) && d.dragging >= 0
    ensures Consistent(Drag(d, mx, my))
  {
    var e := Drag(d, mx, my);
    forall a: int ensures a in e.stack <==> InUse(e.windows, a) {
      assert InUse(e.windows, a) <==> InUse(d.windows, a);
    }
  }

  lemma MouseKeeps(d: Desk, left: bool, mx: int, my: int)
    requires Consistent(d)
    ensures Consistent(Mouse(d, left, mx, my))
  {
    TopmostIs(d.windows, d.stack, mx, my, |d.stack|);
    var hit := Topmost(d.windows, d.stack, mx, my, |d.stack|);
    if left && d.dragging >= 0 {
      DragKeeps(d, mx, my);
    } else if left && !d.pressed && hit >= 0 {
      PressKeeps(d, hit, mx, my);
    }
  }

  // ---------- Clicks and drags ----------

  lemma OnTopOf(stack: seq<int>, p: nat, a: int)
    requires Distinct(stack) && p < |stack| && a in stack && a != stack[p]
    ensures Below(Raise(stack, stack[p]), a, stack[p])
  {
    WithoutKeeps(stack, p);
    var rest := Without(stack, stack[p]);
    assert a in rest;
    var i :| 0 <= i < |rest| && rest[i] == a;
    var up := Raise(stack, stack[p]);
    assert up[i] == a && up[|rest|] == stack[p];
  }

  /** A fresh press raises exactly the topmost window under it, which a press there then finds again. */
  lemma PressRaisesTopmost(d: Desk, mx: int, my: int)
    requires Consistent(d) && !d.pressed && d.dragging == -1
    ensures
      var hit := Topmost(d.windows, d.stack, mx, my, |d.stack|);
      var e := Mouse(d, true, mx, my);
      && e.windows == d.windows && e.pressed
      && (hit == -1 ==> e == d.(pressed := true))
      && (hit >= 0 ==>
            && hit < |d.stack| && InUse(d.windows, d.stack[hit]) && e.stack == Raise(d.stack, d.stack[hit])
            && Topmost(e.windows, e.stack, mx, my, |e.stack|) == |e.stack| - 1
            && e.dragging == (if OnTitle(d.windows[d.stack[hit]], my) then d.stack[hit] else -1))
  {
    TopmostIs(d.windows, d.stack, mx, my, |d.stack|);
    var hit := Topmost(d.windows, d.stack, mx, my, |d.stack|);
    if hit >= 0 {
      assert d.stack[hit] in d.stack;
    }
  }

  /** The point is on the window or on the 20 rows of title bar above it. */
  predicate Covers(w: Window, px: int, py: int) {
    w.x <= px < w.x + w.width && w.y - 20 <= py < w.y + w.height
  }

  /** No window from that position up covers the point. */
  ghost predicate NoneFrom(d: Desk, from: nat, px: int, py: int) {
    forall i :: from <= i < |d.stack| && InUse(d.windows, d.stack[i]) ==> !Covers(d.windows[d.stack[i]], px, py)
  }

  /** A fresh press on a window that no higher one covers there brings it to the top; on
      the title bar, above the window itself, it also takes hold of it at that spot. */
  lemma ClickGoesTo(d: Desk, mx: int, my: int, j: nat)
    requires Consistent(d) && !d.pressed && d.dragging == -1 && j < |d.stack|
    requires InUse(d.windows, d.stack[j]) && Covers(d.windows[d.stack[j]], mx, my)
    requires NoneFrom(d, j + 1, mx, my)
    ensures
      var e, id := Mouse(d, true, mx, my), d.stack[j];
      var w := d.windows[id];
      && e.pressed && e.windows == d.windows && e.stack == d.stack[..j] + d.stack[j + 1..] + [id]
      && (my >= w.y ==> e.dragging == -1)
      && (my < w.y ==> e.dragging == id && w.x + e.dx == mx && w.y + e.dy == my)
  {
    TopmostIs(d.windows, d.stack, mx, my, |d.stack|);
    var hit := Topmost(d.windows, d.stack, mx, my, |d.stack|);
    assert HitAt(d.windows, d.stack, j, mx, my);
    assert d.stack[hit] in d.stack && hit == j;
    FirstAt(d.stack, j);
    WithoutAt(d.stack, j);
  }

  /** A press beside all windows changes nothing, nor does holding the button without a
      window in hand; letting it go lets go of the window. */
  lemma OtherFrames(d: Desk, mx: int, my: int)
    requires Consistent(d)
    ensures Mouse(d, false, mx, my) == d.(pressed := false, dragging := -1)
    ensures d.pressed && d.dragging == -1 ==> Mouse(d, true, mx, my) == d
    ensures d.dragging == -1 && NoneFrom(d, 0, mx, my) ==> Mouse(d, true, mx, my) == d.(pressed := true)
  {
    TopmostIs(d.windows, d.stack, mx, my, |d.stack|);
    var hit := Topmost(d.windows, d.stack, mx, my, |d.stack|);
    if hit >= 0 {
      assert d.stack[hit] in d.stack && InUse(d.windows, d.stack[hit]);
    }
  }

  /** The raised window is above all others, and those keep their order. */
  lemma RaiseOrder(d: Desk, p: nat, a: int, b: int)
    requires Consistent(d) && p < |d.stack| && a in d.stack && a != d.stack[p]
    ensures Below(Raise(d.stack, d.stack[p]), a, d.stack[p])
    ensures b in d.stack && b != d.stack[p] ==>
              (Below(Raise(d.stack, d.stack[p]), a, b) <==> Below(d.stack, a, b))
  {
    OnTopOf(d.stack, p, a);
    if b in d.stack && b != d.stack[p] {
      OrderKept(d.stack, p, a, b);
      BelowSnoc(Without(d.stack, d.stack[p]), d.stack[p], a, b);
    }
  }

  lemma BelowSnoc(s: seq<int>, top: int, a: int, b: int)
    requires b != top
    ensures Below(s + [top], a, b) <==> Below(s, a, b)
  {
    var t := s + [top];
    if Below(s, a, b) {
      var i, j :| 0 <= i < j < |s| && s[i] == a && s[j] == b;
      assert t[i] == a && t[j] == b;
    }
    if Below(t, a, b) {
      var i, j :| 0 <= i < j < |t| && t[i] == a && t[j] == b;
      assert s[i] == a && s[j] == b;
    }
  }

  /** Frames with the button held, the pointer at these points. */
  function Held(d: Desk, points: seq<(int, int)>): Desk
    requires d.dragging < |d.windows|
    decreases |points|
  {
    if points == [] then d else Held(Mouse(d, true, points[0].0, points[0].1), points[1..])
  }

  /** While it is dragged a window follows the pointer: whatever the path, the grabbed spot stays under it. */
  lemma {:induction false} DragFollows(d: Desk, points: seq<(int, int)>)
    requires Consistent(d) && d.dragging >= 0 && points != []
    ensures
      var e := Held(d, points);
      var last := points[|points| - 1];
      && Consistent(e) && e.stack == d.stack && e.dragging == d.dragging
      && e.windows == d.windows[d.dragging := d.windows[d.dragging].(x := last.0 - d.dx, y := last.1 - d.dy)]
    decreases |points|
  {
    MouseKeeps(d, true, points[0].0, points[0].1);
    if |points| > 1 {
      DragFollows(Mouse(d, true, points[0].0, points[0].1), points[1..]);
    }
  }

  lemma Grabbed(d: Desk, mx: int, my: int, hit: nat)
    requires Consistent(d) && !d.pressed && d.dragging == -1
    requires hit == Topmost(d.windows, d.stack, mx, my, |d.stack|) && hit < |d.stack|
    requires InUse(d.windows, d.stack[hit]) && OnTitle(d.windows[d.stack[hit]], my)
    ensures
      var p := Mouse(d, true, mx, my);
      var w := d.windows[d.stack[hit]];
      && Consistent(p) && p.windows == d.windows && p.dragging == d.stack[hit]
      && p.dx == mx - w.x && p.dy == my - w.y
  {
    MouseKeeps(d, true, mx, my);
  }

  lemma MovedBy(p: Desk, mx: int, my: int, points: seq<(int, int)>)
    requires Consistent(p) && p.dragging >= 0 && points != []
    requires p.dx == mx - p.windows[p.dragging].x && p.dy == my - p.windows[p.dragging].y
    ensures
      var w := p.windows[p.dragging];
      var last := points[|points| - 1];
      Held(p, points).windows == p.windows[p.dragging := w.(x := w.x + last.0 - mx, y := w.y + last.1 - my)]
  {
    DragFollows(p, points);
  }

  /** A window grabbed by its title bar moves by exactly what the pointer moved since. */
  lemma GrabAndMove(d: Desk, mx: int, my: int, hit: nat, p: Desk, points: seq<(int, int)>)
    requires Consistent(d) && !d.pressed && d.dragging == -1 && points != []
    requires hit == Topmost(d.windows, d.stack, mx, my, |d.stack|) && hit < |d.stack|
    requires InUse(d.windows, d.stack[hit]) && OnTitle(d.windows[d.stack[hit]], my)
    requires p == Mouse(d, true, mx, my)
    ensures
      var w := d.windows[d.stack[hit]];
      var last := points[|points| - 1];
      Held(p, points).windows == d.windows[d.stack[hit] := w.(x := w.x + last.0 - mx, y := w.y + last.1 - my)]
  {
    Grabbed(d, mx, my, hit);
    MovedBy(p, mx, my, points);
  }

  // ---------- Runs ----------

  datatype Action =
    | Create(slot: int, window: Window)
    | Close(id: int)
    | CloseAll
    | Frame(left: bool, mx: int, my: int)
    | Resized(width: int, height: int)

  ghost predicate Enabled(d: Desk, a: Action) {
    a.Create? ==> a.slot >= 0 && IsFreeSlot(d.windows, a.slot) && a.window.used
  }

  ghost function Do(d: Desk, a: Action): Desk
    requires Consistent(d) && Enabled(d, a)
  {
    match a
    case Create(slot, w) => Add(d, slot, w)
    case Close(id) => Destroy(d, id)
    case CloseAll => Cleared(d)
    case Frame(left, mx, my) => Mouse(d, left, mx, my)
    case Resized(width, height) => AllKept(d, width, height)
  }

  lemma ClearedKeeps(d: Desk)
    requires Consistent(d)
    ensures Consistent(Cleared(d))
  {
  }

  lemma AllKeptKeeps(d: Desk, width: int, height: int)
    requires Consistent(d)
    ensures Consistent(AllKept(d, width, height))
  {
    var e := AllKept(d, width, height);
    forall a: int ensures a in e.stack <==> InUse(e.windows, a) {
      assert InUse(e.windows, a) <==> InUse(d.windows, a);
    }
  }

  lemma DoKeeps(d: Desk, a: Action)
    requires Consistent(d) && Enabled(d, a)
    ensures Consistent(Do(d, a))
  {
    match a
    case Create(slot, w) => AddKeeps(d, slot, w);
    case Close(id) => DestroyKeeps(d, id);
    case CloseAll => ClearedKeeps(d);
    case Frame(left, mx, my) => MouseKeeps(d, left, mx, my);
    case Resized(width, height) => AllKeptKeeps(d, width, height);
  }

  ghost predicate Follows(d: Desk, a: Action, e: Desk) {
    Consistent(d) ==> Enabled(d, a) && e == Do(d, a)
  }

  ghost predicate IsRun(desks: seq<Desk>, actions: seq<Action>) {
    && |desks| == |actions| + 1 && Consistent(desks[0])
    && forall i :: 0 <= i < |actions| ==> Follows(desks[i], actions[i], desks[i + 1])
  }

  /** Over every run: each window in use is in the order exactly once, and only those are. */
  lemma {:induction false} AlwaysConsistent(desks: seq<Desk>, actions: seq<Action>, i: nat)
    requires IsRun(desks, actions) && i < |desks|
    ensures Consistent(desks[i]) && |desks[i].stack| <= MAX_WINDOWS
  {
    if i > 0 {
      AlwaysConsistent(desks, actions, i - 1);
      assert Follows(desks[i - 1], actions[i - 1], desks[i - 1 + 1]);
      DoKeeps(desks[i - 1], actions[i - 1]);
    }
    FitsOrder(desks[i].windows, desks[i].stack);
  }

  class Manager {
    const windows: array<Window>
    const order: array<int>       // window ids, bottom to top
    var count: nat
    var dragging: int             // the window being dragged, or -1
    var dx: int
    var dy: int
    var pressed: bool

    ghost predicate Shaped()
      reads this
    {
      windows.Length == MAX_WINDOWS && order.Length == MAX_WINDOWS && count <= MAX_WINDOWS
    }

    ghost function View(): Desk
      requires Shaped()
      reads this, windows, order
    {
      Desk(windows[..], order[..count], dragging, dx, dy, pressed)
    }

    ghost predicate Valid()
      reads this, windows, order
    {
      Shaped() && Consistent(View())
    }

    constructor ()
      ensures Valid() && fresh(windows) && fresh(order) && count == 0 && dragging == -1 && !pressed
    {
      var ws := new Window[MAX_WINDOWS](_ => Window(false, 0, 0, 0, 0));
      var os := new int[MAX_WINDOWS](_ => 0);
      windows, order := ws, os;
      count, dragging, dx, dy, pressed := 0, -1, 0, 0, false;
    }

    /** Close the gap at position p. */
    method CloseGap(p: nat)
      requires Shaped() && p < count
      modifies order
      ensures order[..count - 1] == old(order[..p]) + old(order[p + 1..count])
    {
      var i := p;
      while i < count - 1
        invariant p <= i <= count - 1
        invariant forall k :: 0 <= k < p ==> order[k] == old(order[k])
        invariant forall k :: p <= k < i ==> order[k] == old(order[k + 1])
        invariant forall k :: i < k < count ==> order[k] == old(order[k])
      {
        order[i] := order[i + 1];
        i := i + 1;
      }
    }

    /** Where an id that is in the order stands. */
    method Find(id: int) returns (p: nat)
      requires Shaped() && id in order[..count]
      ensures p < count && order[p] == id && id !in order[..p]
    {
      p := 0;
      while order[p] != id
        invariant p < count && id !in order[..p]
        decreases count - p
      {
        assert order[..p + 1] == order[..p] + [order[p]];
        p := p + 1;
        assert order[..count][p..] == order[p..count];
        assert id in order[..count] ==> id in order[..p] || id in order[p..count];
      }
    }

    method DestroyWindow(id: int)
      requires Valid()
      modifies this`count, this`dragging, windows, order
      ensures Valid() && View() == Destroy(old(View()), id)
      ensures forall i :: 0 <= i < MAX_WINDOWS ==>
        windows[i] == old(windows[i]).(used := i != id && old(windows[i]).used)
    {
      DestroyKeeps(View(), id);
      if id < 0 || id >= MAX_WINDOWS || !windows[id].used {
        return;
      }
      assert InUse(View().windows, id);
      var p := Find(id);
      ghost var stack := order[..count];
      assert stack[p] == id && stack[..p] == order[..p] && stack[p + 1..] == order[p + 1..count];
      WithoutAt(stack, p);
      windows[id] := windows[id].(used := false);
      CloseGap(p);
      count := count - 1;
      if dragging == id {
        dragging := -1;
      }
    }

    method CountUsed() returns (used: nat)
      requires Shaped()
      ensures used < MAX_WINDOWS <==> exists i :: 0 <= i < MAX_WINDOWS && !windows[i].used
    {
      used := 0;
      var i := 0;
      while i < MAX_WINDOWS
        invariant 0 <= used <= i <= MAX_WINDOWS
        invariant used < i <==> exists j :: 0 <= j < i && !windows[j].used
      {
        if windows[i].used {
          used := used + 1;
        }
        i := i + 1;
      }
    }

    method FreeSlot() returns (id: int)
      requires Shaped()
      ensures IsFreeSlot(windows[..], id)
    {
      id := 0;
      while id < MAX_WINDOWS
        invariant 0 <= id <= MAX_WINDOWS && forall j :: 0 <= j < id ==> windows[j].used
      {
        if !windows[id].used {
          return;
        }
        id := id + 1;
      }
      id := -1;
    }

    /** Fill a free slot; new windows start on top. */
    method TakeSlot(id: nat, w: Window)
      requires Valid() && id < MAX_WINDOWS && !windows[id].used && w.used
      modifies this`count, windows, order
      ensures Valid() && View() == Add(old(View()), id, w)
    {
      AddKeeps(View(), id, w);
      RoomFor(windows[..], order[..count], id);
      ghost var stack := order[..count];
      windows[id] := w;
      order[count] := id;
      count := count + 1;
      assert order[..count] == stack + [id];
    }

    /** `memory` says whether there is room on the heap for the window's canvas. */
    method CreateWindow(x: int, y: int, width: int, height: int, memory: bool) returns (id: int)
      requires Valid()
      modifies this`count, windows, order
      ensures Valid()
      ensures id == -1 <==>
        !(0 < width <= 1024 && 0 < height <= 768) || !memory || forall i :: 0 <= i < 8 ==> old(windows[i]).used
      ensures id == -1 ==> View() == old(View())
      ensures id != -1 ==> IsFreeSlot(old(windows[..]), id)
      ensures id != -1 ==> View() == Add(old(View()), id, Window(true, x, y, width, height))
      ensures id != -1 ==> View().stack == old(View().stack) + [id]
      ensures id != -1 ==> View().windows == old(View().windows)[id := Window(true, x, y, width, height)]
    {
      if !SizeOk(width, height) {
        return -1;
      }
      var used := CountUsed();
      if used >= MAX_WINDOWS {
        return -1;
      }
      id := FreeSlot();
      if !memory {
        return -1;
      }
      TakeSlot(id, Window(true, x, y, width, height));
    }

    method RaiseToTop(p: nat)
      requires Valid() && p < count
      modifies order
      ensures order[..count] == Raise(old(order[..count]), old(order[p]))
    {
      ghost var stack := order[..count];
      FirstAt(stack, p);
      WithoutAt(stack, p);
      assert stack[..p] == order[..p] && stack[p + 1..] == order[p + 1..count];
      var id := order[p];
      CloseGap(p);
      order[count - 1] := id;
      assert order[..count] == order[..count - 1] + [id];
    }

    method DestroyAll()
      requires Valid()
      modifies this`count, this`dragging, this`pressed, windows, order
      ensures Valid() && View() == Cleared(old(View()))
    {
      ghost var before := View();
      var id := 0;
      while id < MAX_WINDOWS
        modifies this`count, this`dragging, windows, order
        invariant 0 <= id <= MAX_WINDOWS && Valid()
        invariant forall j :: 0 <= j < id ==> windows[j] == before.windows[j].(used := false)
        invariant forall j :: id <= j < MAX_WINDOWS ==> windows[j] == before.windows[j]
      {
        DestroyWindow(id);
        id := id + 1;
      }
      count, dragging, pressed := 0, -1, false;
    }

    /** The topmost window under the point, searched from the top. */
    method FindHit(px: int, py: int) returns (i: int)
      requires Valid()
      ensures i == Topmost(windows[..], order[..count], px, py, count)
      ensures i == -1 || 0 <= i < count
    {
      i := count - 1;
      while i >= 0
        invariant -1 <= i < count && Topmost(windows[..], order[..count], px, py, i + 1) ==
          Topmost(windows[..], order[..count], px, py, count)
      {
        assert order[i] == order[..count][i] && order[i] in order[..count];
        var w := windows[order[i]];
        if Hit(w, px, py) {
          return;
        }
        i := i - 1;
      }
    }

    /** A click on the window at position p. */
    method PressAt(p: nat, mx: int, my: int)
      requires Valid() && p < count && 0 <= order[p] < MAX_WINDOWS
      modifies this`dragging, this`dx, this`dy, order
      ensures Valid() && View() == Press(old(View()), old(order[p]), mx, my)
    {
      PressKeeps(View(), p, mx, my);
      var w := windows[order[p]];
      if my < w.y {
        dragging := order[p];
        dx := mx - w.x;
        dy := my - w.y;
      }
      RaiseToTop(p);
    }

    method HandleMouse(left: bool, mx: int, my: int)
      requires Valid()
      modifies this`dragging, this`dx, this`dy, this`pressed, windows, order
      ensures Valid() && View() == Mouse(old(View()), left, mx, my)
    {
      MouseKeeps(View(), left, mx, my);
      var justPressed := left && !pressed;
      pressed := left;
      if !left {
        dragging := -1;
        return;
      }
      if dragging >= 0 {
        windows[dragging] := windows[dragging].(x := mx - dx, y := my - dy);
        return;
      }
      if !justPressed {
        return;
      }
      var i := FindHit(mx, my);
      if i >= 0 {
        assert order[i] == order[..count][i] && order[i] in order[..count];
        PressAt(i, mx, my);
      }
    }

    method KeepOnScreen(width: int, height: int)
      requires Valid()
      modifies windows
      ensures Valid() && View() == AllKept(old(View()), width, height)
    {
      AllKeptKeeps(View(), width, height);
      var id := 0;
      while id < MAX_WINDOWS
        invariant 0 <= id <= MAX_WINDOWS
        invariant forall j :: 0 <= j < id ==> windows[j] == Kept(old(windows[j]), width, height)
        invariant forall j :: id <= j < MAX_WINDOWS ==> windows[j] == old(windows[j])
      {
        var w := windows[id];
        if w.used {
          if w.x + w.width > width {
            w := w.(x := width - w.width);
          }
          if w.y + w.height > height {
            w := w.(y := height - w.height);
          }
          if w.x < 0 {
            w := w.(x := 0);
          }
          if w.y < TITLE_BAR_HEIGHT {
            w := w.(y := TITLE_BAR_HEIGHT);
          }
          windows[id] := w;
        }
        id := id + 1;
      }
      assert View().windows == AllKept(old(View()), width, height).windows;
    }
  }
}
