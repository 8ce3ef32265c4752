/**
 * The RAM of the desktop's back buffer (gui/screen), with the page mapper and the
 * frame allocator it rests on.  Other parts of the kernel take and give back frames
 * whenever the screen is not inside the allocator.  Whatever they do: the buffer maps
 * exactly what it should, no frame is lost or used twice, and a closed screen has
 * none.  A failed resize keeps the old size, except when others took the frames it
 * had just given back; then the screen stays open without a buffer.
 */
module BackBuffer {
  import opened Words
  import Arith

  const PAGE_SIZE := 4096
  const PAGES_PER_TABLE := 1024
  const BUFFER_BYTES := 0x100_0000        // BACKBUFFER_END - BACKBUFFER_START
  const MAX_WIDTH := 2560
  const MAX_HEIGHT := 1600

  type Frame = nat

  function PagesFor(bytes: nat): nat {
    (bytes + PAGE_SIZE - 1) / PAGE_SIZE
  }

  /** A page table is needed for page k, when all before it are mapped. */
  function NewTable(k: nat): nat {
    if k % PAGES_PER_TABLE == 0 then 1 else 0
  }

  /** Page tables that cover the first n pages. */
  function TablesFor(n: nat): nat {
    if n == 0 then 0 else TablesFor(n - 1) + NewTable(n - 1)
  }

  lemma {:induction false} TablesForIs(n: nat)
    ensures TablesFor(n) == (n + PAGES_PER_TABLE - 1) / PAGES_PER_TABLE
  {
    if n > 0 {
      TablesForIs(n - 1);
    }
  }

  lemma {:induction false} NeedGrows(k: nat, n: nat)
    requires k <= n
    ensures TablesFor(k) <= TablesFor(n)
  {
    if k < n {
      NeedGrows(k, n - 1);
    }
  }

  /** Frames needed to map that many bytes: one a page, and one a page table. */
  function Need(bytes: nat): nat {
    PagesFor(bytes) + TablesFor(PagesFor(bytes))
  }

  /** The card takes 16-bit sizes and refuses what is zero or too large. */
  predicate ModeOk(width: int, height: int) {
    0 < width % 65536 <= MAX_WIDTH && 0 < height % 65536 <= MAX_HEIGHT
  }

  function Bytes(width: int, height: int): Word {
    Wrap(width * height * 4)
  }

  /** A size the card and the addresses of the buffer admit. */
  predicate Accepts(width: int, height: int) {
    ModeOk(width, height) && Bytes(width, height) <= BUFFER_BYTES
  }

  /**
   * A width beyond the card's is cut to 16 bits for the card but multiplied in 32
   * bits for the buffer: the buffer holds the whole canvas just if nothing is lost
   * there, as with every size the card can show.
   */
  lemma CanvasHeld(width: int, height: int)
    ensures Bytes(width, height) == 4 * width * height <==> 0 <= 4 * width * height < WORD_SIZE
    ensures 0 < width <= MAX_WIDTH && 0 < height <= MAX_HEIGHT ==>
              ModeOk(width, height) && Bytes(width, height) == 4 * width * height <= BUFFER_BYTES
  {
    assert width * height * 4 == 4 * width * height;
    if 0 < width <= MAX_WIDTH && 0 < height <= MAX_HEIGHT {
      CardSizesFit(width, height);
    }
  }

  lemma CardSizesFit(width: int, height: int)
    requires 0 < width <= MAX_WIDTH && 0 < height <= MAX_HEIGHT
    ensures ModeOk(width, height) && Bytes(width, height) == 4 * width * height <= BUFFER_BYTES
  {
    Arith.MulMonotone(height, width, MAX_WIDTH);
    assert width * height <= MAX_WIDTH * MAX_HEIGHT;
    assert width * height > 0;
    assert width * height * 4 == 4 * width * height;
  }

  /** The card shows the canvas's own size just if it is one of the card's sizes. */
  lemma ModeIsCanvas(width: int, height: int)
    requires ModeOk(width, height)
    ensures width % 65536 == width && height % 65536 == height <==>
              0 < width <= MAX_WIDTH && 0 < height <= MAX_HEIGHT
  {
  }

  lemma TooWide()
    ensures ModeOk(0x4000_0001, 1) && Bytes(0x4000_0001, 1) == 4 < 4 * 0x4000_0001
  {
  }

  ghost predicate Injective(m: map<nat, Frame>) {
    forall a, b :: a in m && b in m && a != b ==> m[a] != m[b]
  }

  ghost predicate UsesTable(pages: map<nat, Frame>, t: nat) {
    exists k :: k in pages && k / PAGES_PER_TABLE == t
  }

  /** A page table exists just while one of its pages is mapped. */
  ghost predicate TablesUsed(pages: map<nat, Frame>, tables: map<nat, Frame>) {
    forall t :: t in tables <==> UsesTable(pages, t)
  }

  /** The frames the screen has are those of its pages, of its page tables and those
      it has in hand, each for one of these only. */
  ghost predicate Parts(pages: map<nat, Frame>, tables: map<nat, Frame>, hand: set<Frame>, mine: set<Frame>) {
    && Injective(pages) && Injective(tables)
    && pages.Values !! tables.Values && hand !! pages.Values && hand !! tables.Values
    && mine == pages.Values + tables.Values + hand
  }

  lemma Taken(pages: map<nat, Frame>, tables: map<nat, Frame>, hand: set<Frame>, mine: set<Frame>, f: Frame)
    requires Parts(pages, tables, hand, mine) && f !in mine
    ensures Parts(pages, tables, hand + {f}, mine + {f}) && f !in hand
  {
  }

  lemma FirstTaken(pages: map<nat, Frame>, tables: map<nat, Frame>, mine: set<Frame>, f: Frame)
    requires Parts(pages, tables, {}, mine) && f !in mine
    ensures Parts(pages, tables, {f}, mine + {f})
  {
  }

  lemma GivenBack(pages: map<nat, Frame>, tables: map<nat, Frame>, mine: set<Frame>, f: Frame)
    requires Parts(pages, tables, {f}, mine)
    ensures Parts(pages, tables, {}, mine - {f}) && f in mine
  {
  }

  lemma IntoPages(pages: map<nat, Frame>, tables: map<nat, Frame>, mine: set<Frame>, k: nat, f: Frame)
    requires Parts(pages, tables, {f}, mine) && k !in pages
    ensures Parts(pages[k := f], tables, {}, mine)
  {
    ValuesAdd(pages, k, f);
  }

  lemma IntoTables(
    pages: map<nat, Frame>, tables: map<nat, Frame>, hand: set<Frame>, mine: set<Frame>, t: nat, f: Frame)
    requires Parts(pages, tables, hand + {f}, mine) && t !in tables && f !in hand
    ensures Parts(pages, tables[t := f], hand, mine)
  {
    assert f in hand + {f};
    ValuesAdd(tables, t, f);
  }

  lemma OutOfPages(pages: map<nat, Frame>, tables: map<nat, Frame>, mine: set<Frame>, k: nat)
    requires Parts(pages, tables, {}, mine) && k in pages
    ensures Parts(pages - {k}, tables, {pages[k]}, mine)
  {
    ValuesRemove(pages, k);
    assert pages[k] in pages.Values;
  }

  lemma OutOfTables(pages: map<nat, Frame>, tables: map<nat, Frame>, hand: set<Frame>, mine: set<Frame>, t: nat)
    requires Parts(pages, tables, hand, mine) && t in tables
    ensures Parts(pages, tables - {t}, hand, mine - {tables[t]}) && tables[t] in mine
  {
    ValuesRemove(tables, t);
    assert tables[t] in tables.Values;
  }

  lemma ValuesAdd(m: map<nat, Frame>, k: nat, f: Frame)
    requires Injective(m) && k !in m && f !in m.Values
    ensures Injective(m[k := f]) && m[k := f].Values == m.Values + {f}
  {
    var n := m[k := f];
    forall v | v in m.Values + {f} ensures v in n.Values {
      if v != f {
        var a :| a in m && m[a] == v;
        assert a in n && n[a] == v;
      } else {
        assert k in n && n[k] == v;
      }
    }
  }

  lemma ValuesRemove(m: map<nat, Frame>, k: nat)
    requires Injective(m) && k in m
    ensures Injective(m - {k}) && (m - {k}).Values == m.Values - {m[k]}
  {
    var n := m - {k};
    forall v | v in m.Values - {m[k]} ensures v in n.Values {
      var a :| a in m && m[a] == v;
      assert a in n && n[a] == v;
    }
  }

  lemma UseAdd(pages: map<nat, Frame>, k: nat, f: Frame, t: nat)
    ensures UsesTable(pages[k := f], t) <==> UsesTable(pages, t) || t == k / PAGES_PER_TABLE
  {
    var more := pages[k := f];
    if UsesTable(pages, t) {
      var a :| a in pages && a / PAGES_PER_TABLE == t;
      assert a in more;
    }
    assert k in more;
  }

  ghost predicate GainsTable(tables: map<nat, Frame>, tables': map<nat, Frame>, t: nat) {
    forall u :: u in tables' <==> u in tables || u == t
  }

  lemma TablesAfterAdd(pages: map<nat, Frame>, tables: map<nat, Frame>, k: nat, f: Frame, tables': map<nat, Frame>)
    requires TablesUsed(pages, tables) && GainsTable(tables, tables', k / PAGES_PER_TABLE)
    ensures TablesUsed(pages[k := f], tables')
  {
    forall t: nat ensures t in tables' <==> UsesTable(pages[k := f], t) {
      UseAdd(pages, k, f, t);
    }
  }

  lemma TablesAfterRemove(pages: map<nat, Frame>, tables: map<nat, Frame>, k: nat, tables': map<nat, Frame>)
    requires TablesUsed(pages, tables) && k in pages
    requires
      var t := k / PAGES_PER_TABLE;
      if UsesTable(pages - {k}, t) then tables' == tables else tables' == tables - {t}
    ensures TablesUsed(pages - {k}, tables')
  {
    var t := k / PAGES_PER_TABLE;
    assert UsesTable(pages, t);
    forall u: nat ensures u in tables' <==> UsesTable(pages - {k}, u) {
      if u != t {
        UseRemove(pages, k, u);
      }
    }
  }

  lemma UseRemove(pages: map<nat, Frame>, k: nat, t: nat)
    requires t != k / PAGES_PER_TABLE
    ensures UsesTable(pages - {k}, t) <==> UsesTable(pages, t)
  {
    if UsesTable(pages, t) {
      var a :| a in pages && a / PAGES_PER_TABLE == t;
      assert a in pages - {k};
    }
  }

  /** Exactly the pages from `first` on, below `count`, are mapped. */
  ghost predicate PagesAre(pages: map<nat, Frame>, first: nat, count: nat) {
    forall k: nat :: k in pages <==> first <= k < count
  }

  lemma OneMore(pages: map<nat, Frame>, k: nat, f: Frame)
    requires PagesAre(pages, 0, k)
    ensures PagesAre(pages[k := f], 0, k + 1)
  {
  }

  lemma OneLess(pages: map<nat, Frame>, k: nat, n: nat)
    requires PagesAre(pages, k, n)
    ensures PagesAre(pages - {k}, k + 1, n)
  {
  }

  lemma TableAt(pages: map<nat, Frame>, k: nat)
    requires PagesAre(pages, 0, k)
    ensures UsesTable(pages, k / PAGES_PER_TABLE) <==> k % PAGES_PER_TABLE != 0
  {
    if k % PAGES_PER_TABLE != 0 {
      assert k - 1 in pages && (k - 1) / PAGES_PER_TABLE == k / PAGES_PER_TABLE;
    }
  }

  lemma WholePages(k: nat)
    ensures k * PAGE_SIZE % PAGE_SIZE == 0 && k * PAGE_SIZE / PAGE_SIZE == k == PagesFor(k * PAGE_SIZE)
  {
  }

  lemma PagesSuffice(k: nat, bytes: nat)
    requires k <= PagesFor(bytes)
    ensures k * PAGE_SIZE < bytes <==> k < PagesFor(bytes)
  {
  }

  lemma TableMissing(pages: map<nat, Frame>, tables: map<nat, Frame>, k: nat)
    requires TablesUsed(pages, tables) && PagesAre(pages, 0, k)
    ensures k % PAGES_PER_TABLE == 0 <==> k / PAGES_PER_TABLE !in tables
    ensures NewTable(k) == if k / PAGES_PER_TABLE in tables then 0 else 1
  {
    TableAt(pages, k);
  }

  lemma NothingMapped(pages: map<nat, Frame>, tables: map<nat, Frame>, mine: set<Frame>, n: nat)
    requires TablesUsed(pages, tables) && PagesAre(pages, n, n) && Parts(pages, tables, {}, mine)
    ensures mine == {}
  {
    assert forall k :: k !in pages;
    assert forall t :: t !in tables;
  }

  lemma SomePages(bytes: nat)
    requires Need(bytes) > 0
    ensures PagesFor(bytes) * PAGE_SIZE > 0
  {
  }

  // ---------- How many frames that is ----------

  lemma {:induction false} ValuesSize(m: map<nat, Frame>)
    requires Injective(m)
    ensures |m.Values| == |m.Keys|
    decreases |m.Keys|
  {
    if m.Keys == {} {
      assert m.Values == {};
    } else {
      var k :| k in m.Keys;
      ValuesRemove(m, k);
      ValuesSize(m - {k});
      assert (m - {k}).Keys == m.Keys - {k};
      assert m[k] in m.Values;
    }
  }

  /** The numbers below n. */
  ghost function UpTo(n: nat): (s: set<nat>)
    ensures |s| == n && forall k: nat :: k in s <==> k < n
  {
    if n == 0 then {} else UpTo(n - 1) + {n - 1}
  }

  lemma TableKeys(pages: map<nat, Frame>, tables: map<nat, Frame>, k: nat)
    requires TablesUsed(pages, tables) && PagesAre(pages, 0, k)
    ensures tables.Keys == UpTo(TablesFor(k))
  {
    TablesForIs(k);
    forall t: nat ensures t in tables.Keys <==> t < TablesFor(k) {
      if t < TablesFor(k) {
        assert t * PAGES_PER_TABLE in pages;
        assert UsesTable(pages, t);
      }
    }
  }

  /** With k pages mapped the screen has one frame for each of them and for each table. */
  lemma FramesOf(pages: map<nat, Frame>, tables: map<nat, Frame>, mine: set<Frame>, k: nat)
    requires Parts(pages, tables, {}, mine) && TablesUsed(pages, tables) && PagesAre(pages, 0, k)
    ensures |mine| == k + TablesFor(k)
  {
    TableKeys(pages, tables, k);
    assert pages.Keys == UpTo(k);
    ValuesSize(pages);
    ValuesSize(tables);
    BothSizes(pages.Values, tables.Values, mine);
  }

  lemma BothSizes(a: set<Frame>, b: set<Frame>, mine: set<Frame>)
    requires a !! b && mine == a + b + {}
    ensures |mine| == |a| + |b|
  {
    assert mine == a + b;
  }

  lemma NothingLeft(a: set<Frame>, b: set<Frame>)
    requires a - b == {}
    ensures a <= b
  {
    forall f | f in a ensures f in b {
      assert f in a - b || f in b;
    }
  }

  /** Fewer frames than k + 1 pages need. */
  ghost predicate FewLeft(left: set<Frame>, k: nat) {
    |left| < k + 1 + TablesFor(k + 1)
  }

  /** The screen has all that others leave: k pages, perhaps one frame in hand. */
  lemma HasThemAll(
    pages: map<nat, Frame>, tables: map<nat, Frame>, mine: set<Frame>, k: nat, left: set<Frame>, f: Frame)
    requires Parts(pages, tables, {}, mine) && TablesUsed(pages, tables) && PagesAre(pages, 0, k)
    requires left <= mine || (k % PAGES_PER_TABLE == 0 && left <= mine + {f})
    ensures FewLeft(left, k)
  {
    FramesOf(pages, tables, mine, k);
    Arith.SubsetSize(left, if left <= mine then mine else mine + {f});
    assert |mine + {f}| <= |mine| + 1;
  }

  lemma EnoughLeft(pages: map<nat, Frame>, tables: map<nat, Frame>, mine: set<Frame>, k: nat, all: set<Frame>)
    requires Parts(pages, tables, {}, mine) && TablesUsed(pages, tables) && PagesAre(pages, 0, k) && mine <= all
    ensures k + TablesFor(k) <= |all|
  {
    FramesOf(pages, tables, mine, k);
    Arith.SubsetSize(mine, all);
  }

  /** No page table for page k was to be had, and its frame goes back. */
  lemma GaveUp(
    pages: map<nat, Frame>, tables: map<nat, Frame>, mine: set<Frame>, k: nat, left: set<Frame>, f: Frame)
    requires Parts(pages, tables, {f}, mine) && TablesUsed(pages, tables) && PagesAre(pages, 0, k)
    requires k % PAGES_PER_TABLE == 0 && left <= mine
    ensures Parts(pages, tables, {}, mine - {f}) && FewLeft(left, k)
  {
    GivenBack(pages, tables, mine, f);
    assert mine == (mine - {f}) + {f};
    HasThemAll(pages, tables, mine - {f}, k, left, f);
  }

  class Screen {
    /** The frames nobody else uses, at each moment the screen asks for one: other
        parts of the kernel take and give back frames in between. */
    const world: nat -> set<Frame>
    var clock: nat                  // how often the screen has asked
    var refused: nat                // how often it got none
    var mine: set<Frame>            // frames marked used for the screen: got, and not given back
    var pages: map<nat, Frame>      // page of the buffer -> its frame
    var tables: map<nat, Frame>     // 4 MiB of the buffer -> the frame of its page table
    var backBytes: nat              // how much of the buffer is mapped
    var modeWidth: nat              // the card's mode
    var modeHeight: nat
    var isOpen: bool
    var width: int                  // the canvas
    var height: int

    /** The frames marked used are exactly those of one page or one page table, none is
        used that is not marked, and page tables are there while needed. */
    ghost predicate Tidy()
      reads this
    {
      Parts(pages, tables, {}, mine) && TablesUsed(pages, tables)
    }

    /** The screen has, and others will leave, only frames of `all`. */
    ghost predicate Within(all: set<Frame>)
      reads this
    {
      mine <= all && forall m: nat :: clock <= m ==> world(m) <= all
    }

    /** Before the desktop: nothing mapped, and nothing open. */
    constructor (world: nat -> set<Frame>)
      ensures this.world == world && clock == 0 && refused == 0 && mine == {}
      ensures Valid() && !isOpen
    {
      this.world := world;
      clock, refused, mine, pages, tables, backBytes := 0, 0, {}, map[], map[], 0;
      modeWidth, modeHeight, isOpen, width, height := 0, 0, false, 0, 0;
    }

    // ---------- The frame allocator ----------

    /** A frame that neither others nor the screen use at this moment, if there is one. */
    method Alloc(ghost all: set<Frame>) returns (ok: bool, f: Frame)
      modifies this`mine, this`clock, this`refused
      ensures clock == old(clock) + 1 && refused == old(refused) + if ok then 0 else 1
      ensures ok ==> f !in old(mine) && mine == old(mine) + {f} && world(old(clock)) != {}
      ensures !ok ==> mine == old(mine) && world(old(clock)) <= mine
      ensures old(Within(all)) ==> Within(all)
    {
      f := 0;
      var pool := world(clock) - mine;
      clock := clock + 1;
      ok := pool != {};
      if !ok {
        NothingLeft(world(clock - 1), mine);
      }
      if ok {
        f :| f in pool;
        mine := mine + {f};
      } else {
        refused := refused + 1;
      }
    }

    method Release(f: Frame, ghost all: set<Frame>)
      modifies this`mine
      ensures mine == old(mine) - {f}
      ensures old(Within(all)) ==> Within(all)
    {
      mine := mine - {f};
    }

    // ---------- The page mapper ----------

    /** A page table for t, made from a frame; `hand` is what the caller has in hand. */
    method MakeTable(t: nat, ghost hand: set<Frame>, ghost all: set<Frame>) returns (ok: bool)
      requires Parts(pages, tables, hand, mine) && t !in tables
      modifies this`mine, this`clock, this`refused, this`tables
      ensures Parts(pages, tables, hand, mine)
      ensures clock == old(clock) + 1 && refused == old(refused) + if ok then 0 else 1
      ensures ok ==> GainsTable(old(tables), tables, t)
      ensures !ok ==> tables == old(tables) && mine == old(mine) && world(old(clock)) <= mine
      ensures old(Within(all)) ==> Within(all)
    {
      var f: Frame;
      ok, f := Alloc(all);
      if ok {
        Taken(pages, tables, hand, old(mine), f);
        IntoTables(pages, tables, hand, mine, t, f);
        tables := tables[t := f];
      }
    }

    method EnterPage(k: nat, frame: Frame)
      requires Parts(pages, tables, {frame}, mine) && k !in pages
      modifies this`pages
      ensures Parts(pages, tables, {}, mine) && pages == old(pages)[k := frame]
    {
      IntoPages(pages, tables, mine, k, frame);
      pages := pages[k := frame];
    }

    /** Map a page to a frame in hand; a page table is made when there is none yet. */
    method MapPage(k: nat, frame: Frame, ghost all: set<Frame>) returns (ok: bool)
      requires Parts(pages, tables, {frame}, mine) && TablesUsed(pages, tables) && k !in pages
      modifies this`mine, this`clock, this`refused, this`pages, this`tables
      ensures TablesUsed(pages, tables)
      ensures ok ==> Parts(pages, tables, {}, mine) && pages == old(pages)[k := frame] && refused == old(refused)
      ensures !ok ==> Parts(pages, tables, {frame}, mine) && pages == old(pages) && mine == old(mine)
      ensures !ok ==> refused == old(refused) + 1 && world(old(clock)) <= mine
      ensures !ok ==> k / PAGES_PER_TABLE !in old(tables)
      ensures clock == old(clock) + (if k / PAGES_PER_TABLE in old(tables) then 0 else 1)
      ensures old(Within(all)) ==> Within(all)
    {
      ok := true;
      if k / PAGES_PER_TABLE !in tables {
        ok := MakeTable(k / PAGES_PER_TABLE, {frame}, all);
      }
      if ok {
        EnterPage(k, frame);
        TablesAfterAdd(old(pages), old(tables), k, frame, tables);
      }
    }

    method ClearPage(k: nat)
      requires Parts(pages, tables, {}, mine) && k in pages
      modifies this`pages
      ensures Parts(pages, tables, {old(pages)[k]}, mine) && pages == old(pages) - {k}
    {
      OutOfPages(pages, tables, mine, k);
      pages := pages - {k};
    }

    method DropTable(t: nat, ghost hand: set<Frame>, ghost all: set<Frame>)
      requires Parts(pages, tables, hand, mine) && t in tables
      modifies this`mine, this`tables
      ensures Parts(pages, tables, hand, mine) && tables == old(tables) - {t}
      ensures old(Within(all)) ==> Within(all)
    {
      OutOfTables(pages, tables, hand, mine, t);
      var f := tables[t];
      tables := tables - {t};
      Release(f, all);
    }

    /** Unmap a page, whose frame is then in hand; with the last page of a page table
        the table's frame is given back. */
    method UnmapPage(k: nat, ghost all: set<Frame>)
      requires Tidy() && k in pages
      modifies this`mine, this`pages, this`tables
      ensures Parts(pages, tables, {old(pages)[k]}, mine) && TablesUsed(pages, tables)
      ensures pages == old(pages) - {k}
      ensures old(Within(all)) ==> Within(all)
    {
      var t := k / PAGES_PER_TABLE;
      assert UsesTable(pages, t);
      ghost var f := pages[k];
      ClearPage(k);
      if forall a :: a in pages ==> a / PAGES_PER_TABLE != t {
        DropTable(t, {f}, all);
      }
      TablesAfterRemove(old(pages), old(tables), k, tables);
    }

    // ---------- The back buffer ----------

    /** A frame for page k. */
    method FrameFor(k: nat, ghost all: set<Frame>) returns (ok: bool, f: Frame)
      requires Tidy() && PagesAre(pages, 0, k)
      modifies this`mine, this`clock, this`refused
      ensures clock == old(clock) + 1 && refused == old(refused) + if ok then 0 else 1
      ensures ok ==> Parts(pages, tables, {f}, mine) && world(old(clock)) != {}
      ensures !ok ==> Tidy() && FewLeft(world(clock - 1), k)
      ensures old(Within(all)) ==> Within(all)
    {
      ok, f := Alloc(all);
      if ok {
        FirstTaken(pages, tables, old(mine), f);
      } else {
        HasThemAll(pages, tables, mine, k, world(clock - 1), f);
      }
    }

    /** Map page k to it, or give it back. */
    method MapFrame(k: nat, f: Frame, ghost all: set<Frame>) returns (ok: bool)
      requires Parts(pages, tables, {f}, mine) && TablesUsed(pages, tables) && PagesAre(pages, 0, k)
      modifies this`mine, this`clock, this`refused, this`pages, this`tables
      ensures Tidy() && (ok ==> PagesAre(pages, 0, k + 1)) && (!ok ==> PagesAre(pages, 0, k))
      ensures clock == old(clock) + NewTable(k) && refused == old(refused) + if ok then 0 else 1
      ensures !ok ==> clock > old(clock) && FewLeft(world(clock - 1), k)
      ensures old(Within(all)) ==> Within(all)
    {
      TableMissing(pages, tables, k);
      OneMore(pages, k, f);
      ok := MapPage(k, f, all);
      if !ok {
        GaveUp(pages, tables, mine, k, world(clock - 1), f);
        Release(f, all);
      }
    }

    /** One round of the mapping loop: a frame, mapped as page k, or nothing changed. */
    method MapOne(k: nat, ghost all: set<Frame>) returns (ok: bool)
      requires Tidy() && PagesAre(pages, 0, k)
      modifies this`mine, this`clock, this`refused, this`pages, this`tables
      ensures Tidy() && (ok ==> PagesAre(pages, 0, k + 1)) && (!ok ==> PagesAre(pages, 0, k))
      ensures old(clock) < clock <= old(clock) + 1 + NewTable(k) && refused == old(refused) + if ok then 0 else 1
      ensures ok ==> clock == old(clock) + 1 + NewTable(k) && world(old(clock)) != {}
      ensures !ok ==> FewLeft(world(clock - 1), k)
      ensures old(Within(all)) ==> Within(all)
    {
      var f: Frame;
      ok, f := FrameFor(k, all);
      if ok {
        ok := MapFrame(k, f, all);
      }
    }

    /** One round of the unmapping loop: page k and its frame are given back. */
    method UnmapOne(k: nat, ghost n: nat, ghost all: set<Frame>)
      requires Tidy() && PagesAre(pages, k, n) && k < n
      modifies this`mine, this`pages, this`tables
      ensures Tidy() && PagesAre(pages, k + 1, n)
      ensures old(Within(all)) ==> Within(all)
    {
      var f := pages[k];
      OneLess(pages, k, n);
      UnmapPage(k, all);
      GivenBack(pages, tables, mine, f);
      Release(f, all);
    }

    method UnmapPages(n: nat, ghost all: set<Frame>)
      requires Tidy() && PagesAre(pages, 0, n)
      modifies this`mine, this`pages, this`tables
      ensures Tidy() && PagesAre(pages, n, n)
      ensures old(Within(all)) ==> Within(all)
    {
      var k := 0;
      while k < n
        modifies this`mine, this`pages, this`tables
        invariant k <= n && Tidy() && PagesAre(pages, k, n)
        invariant old(Within(all)) ==> Within(all)
      {
        if k in pages {
          UnmapOne(k, n, all);
        }
        k := k + 1;
      }
    }

    /** Map the first n pages of the buffer, as far as the frames go. */
    method MapPages(n: nat, ghost all: set<Frame>) returns (k: nat)
      requires Tidy() && PagesAre(pages, 0, 0)
      modifies this`mine, this`clock, this`refused, this`pages, this`tables
      ensures k <= n && Tidy() && PagesAre(pages, 0, k)
      ensures refused == old(refused) + if k == n then 0 else 1
      ensures old(clock) <= clock <= old(clock) + n + TablesFor(n)
      ensures k > 0 ==> clock > old(clock) && world(old(clock)) != {}
      ensures k == n ==> clock == old(clock) + n + TablesFor(n)
      ensures k < n ==> clock > old(clock) && |world(clock - 1)| < n + TablesFor(n)
      ensures old(Within(all)) ==> Within(all)
    {
      k := 0;
      while k < n
        modifies this`mine, this`clock, this`refused, this`pages, this`tables
        invariant k <= n && Tidy() && PagesAre(pages, 0, k) && refused == old(refused)
        invariant clock == old(clock) + k + TablesFor(k) && (k > 0 ==> world(old(clock)) != {})
        invariant old(Within(all)) ==> Within(all)
      {
        var ok := MapOne(k, all);
        if !ok {
          NeedGrows(k + 1, n);
          return;
        }
        k := k + 1;
      }
    }

    /** The buffer holds whole pages, from its first on. */
    ghost predicate Buffered()
      reads this
    {
      Tidy() && backBytes % PAGE_SIZE == 0 && PagesAre(pages, 0, backBytes / PAGE_SIZE)
    }

    /** Every page given back, and every frame. */
    method UnmapBackBuffer(ghost all: set<Frame>)
      requires Buffered()
      modifies this`mine, this`pages, this`tables, this`backBytes
      ensures Buffered() && backBytes == 0 && mine == {}
      ensures old(Within(all)) ==> Within(all)
    {
      var n := backBytes / PAGE_SIZE;
      UnmapPages(n, all);
      NothingMapped(pages, tables, mine, n);
      backBytes := 0;
    }

    /** Map that many bytes, or nothing at all: it fails just if the bytes do not fit the
        addresses or a frame was refused, when others left fewer than are needed. */
    method MapBackBuffer(bytes: nat, ghost all: set<Frame>) returns (ok: bool)
      requires Buffered() && backBytes == 0
      modifies this`mine, this`clock, this`refused, this`pages, this`tables, this`backBytes
      ensures Buffered() && backBytes == if ok then PagesFor(bytes) * PAGE_SIZE else 0
      ensures ok <==> bytes <= BUFFER_BYTES && refused == old(refused)
      ensures old(refused) <= refused <= old(refused) + if bytes <= BUFFER_BYTES then 1 else 0
      ensures ok && bytes > 0 ==> clock > old(clock) && world(old(clock)) != {}
      ensures old(clock) <= clock <= old(clock) + Need(bytes) && (ok ==> clock == old(clock) + Need(bytes))
      ensures refused > old(refused) ==> old(clock) < clock && |world(clock - 1)| < Need(bytes)
      ensures old(Within(all)) ==> Within(all)
    {
      if bytes > BUFFER_BYTES {
        return false;
      }
      var k := MapPages(PagesFor(bytes), all);
      backBytes := k * PAGE_SIZE;
      WholePages(k);
      PagesSuffice(k, bytes);
      if backBytes < bytes {
        UnmapBackBuffer(all);
        return false;
      }
      return true;
    }

    // ---------- Size ----------

    /** The card is in the mode of the canvas's size, cut to 16 bits. */
    ghost predicate SizeSet()
      reads this
    {
      Accepts(width, height) && modeWidth == width % 65536 && modeHeight == height % 65536
    }

    /** And exactly as much of the buffer is mapped as that size takes. */
    ghost predicate Shows()
      reads this
    {
      SizeSet() && backBytes == PagesFor(Bytes(width, height)) * PAGE_SIZE
    }

    /** Between two calls: an open screen has its whole buffer or none, a closed one none. */
    ghost predicate Valid()
      reads this
    {
      Buffered() && if isOpen then Shows() || (SizeSet() && backBytes == 0) else backBytes == 0
    }

    method SetVideoMode(w: int, h: int) returns (ok: bool)
      modifies this`modeWidth, this`modeHeight
      ensures ok == ModeOk(w, h)
      ensures ok ==> modeWidth == w % 65536 && modeHeight == h % 65536
      ensures !ok ==> modeWidth == old(modeWidth) && modeHeight == old(modeHeight)
    {
      ok := ModeOk(w, h);
      if ok {
        modeWidth, modeHeight := w % 65536, h % 65536;
      }
    }

    /** Switch the card and give the buffer that size; entered with nothing mapped. */
    method SetSize(w: int, h: int, ghost all: set<Frame>) returns (ok: bool)
      requires Buffered() && backBytes == 0
      modifies this`mine, this`clock, this`refused, this`pages, this`tables, this`backBytes
      modifies this`modeWidth, this`modeHeight, this`width, this`height
      ensures Buffered() && old(clock) <= clock <= old(clock) + Need(Bytes(w, h)) && (old(Within(all)) ==> Within(all))
      ensures ok <==> Accepts(w, h) && refused == old(refused)
      ensures old(refused) <= refused <= old(refused) + if Accepts(w, h) then 1 else 0
      ensures refused > old(refused) ==> old(clock) < clock && |world(clock - 1)| < Need(Bytes(w, h))
      ensures ok && Bytes(w, h) > 0 ==> clock > old(clock) && world(old(clock)) != {}
      ensures ok ==> Shows() && width == w && height == h && clock == old(clock) + Need(Bytes(w, h))
      ensures !ok ==> backBytes == 0 && width == old(width) && height == old(height)
      ensures ModeOk(w, h) ==> modeWidth == w % 65536 && modeHeight == h % 65536
    {
      ok := SetVideoMode(w, h);
      if !ok {
        return;
      }
      ok := MapBackBuffer(Bytes(w, h), all);
      if ok {
        width, height := w, h;
      }
    }

    /** Others left fewer than n frames at one of the moments the screen asked since. */
    ghost predicate Scarce(since: nat, n: nat)
      reads this
    {
      exists m: nat :: since <= m < clock && |world(m)| < n
    }

    ghost predicate SomeLeft(since: nat)
      reads this
    {
      exists m: nat :: since <= m < clock && world(m) != {}
    }

    /** Open, if the card is there, takes the size and no frame is refused. */
    method Open(w: int, h: int, cardPresent: bool, ghost all: set<Frame>) returns (ok: bool)
      requires Valid()
      modifies this
      ensures Valid() && ok == isOpen
      ensures isOpen <==> old(isOpen) || (cardPresent && Accepts(w, h) && refused == old(refused))
      ensures isOpen && !old(isOpen) ==> Shows() && width == w && height == h
      ensures old(isOpen) ==> width == old(width) && height == old(height) && backBytes == old(backBytes)
      ensures !isOpen ==> backBytes == 0 && clock <= old(clock) + Need(Bytes(w, h))
      ensures !isOpen && cardPresent && Accepts(w, h) ==> Scarce(old(clock), Need(Bytes(w, h)))
      ensures isOpen && !old(isOpen) ==> clock == old(clock) + Need(Bytes(w, h))
    {
      if isOpen {
        return true;
      }
      if !cardPresent {
        return false;
      }
      ok := SetSize(w, h, all);
      if ok {
        isOpen := true;
      }
    }

    /** Back to the size the screen had: with its buffer, or without if a frame is refused. */
    method Restore(ghost all: set<Frame>)
      requires Buffered() && backBytes == 0 && Accepts(width, height)
      modifies this`mine, this`clock, this`refused, this`pages, this`tables, this`backBytes
      modifies this`modeWidth, this`modeHeight, this`width, this`height
      ensures Buffered() && SizeSet() && width == old(width) && height == old(height)
      ensures clock >= old(clock) && (old(Within(all)) ==> Within(all))
      ensures old(refused) <= refused <= old(refused) + 1
      ensures if refused == old(refused) then Shows() else !Shows() && backBytes == 0 && mine == {}
      ensures refused > old(refused) ==> old(clock) < clock && |world(clock - 1)| < Need(Bytes(width, height))
      ensures Shows() && Bytes(width, height) > 0 ==> clock > old(clock) && world(old(clock)) != {}
    {
      var kept := SetSize(width, height, all);
      if !kept {
        SomePages(Bytes(width, height));
        NothingMapped(pages, tables, mine, 0);
      }
    }

    /** The new size, the old size, or the old size without a buffer: which of them is
        decided by the frames refused on the way. */
    method Resize(w: int, h: int, ghost all: set<Frame>) returns (ok: bool)
      requires Valid()
      modifies this`mine, this`clock, this`refused, this`pages, this`tables, this`backBytes
      modifies this`modeWidth, this`modeHeight, this`width, this`height
      ensures Valid()
      ensures ok <==> isOpen && Accepts(w, h) && refused == old(refused)
      ensures if ok then Shows() && width == w && height == h else width == old(width) && height == old(height)
      ensures isOpen && !ok ==> (Shows() <==> refused == old(refused) + if Accepts(w, h) then 1 else 0)
      ensures isOpen && !ok ==> (!Shows() <==> refused == old(refused) + if Accepts(w, h) then 2 else 1)
      ensures isOpen && !Shows() ==> backBytes == 0 && mine == {}
      ensures Accepts(w, h) && refused > old(refused) ==> Scarce(old(clock), Need(Bytes(w, h)))
      ensures isOpen && !Shows() ==> Scarce(old(clock), Need(Bytes(width, height)))
      ensures isOpen && Shows() && Bytes(width, height) > 0 ==> SomeLeft(old(clock))
      ensures old(Within(all)) ==> Within(all)
    {
      if !isOpen {
        return false;
      }
      UnmapBackBuffer(all);
      ok := SetSize(w, h, all);
      if !ok {
        Restore(all);
      }
    }

    /** Undisturbed, a resize works just if the frames suffice, and otherwise keeps the old
        size: the frames just given back are enough for it. */
    method ResizeUndisturbed(w: int, h: int, ghost all: set<Frame>) returns (ok: bool)
      requires Valid() && isOpen && Shows() && mine <= all && forall m: nat :: clock <= m ==> world(m) == all
      modifies this`mine, this`clock, this`refused, this`pages, this`tables, this`backBytes
      modifies this`modeWidth, this`modeHeight, this`width, this`height
      ensures Valid() && Shows()
      ensures ok <==> Accepts(w, h) && Need(Bytes(w, h)) <= |all|
      ensures if ok then width == w && height == h else width == old(width) && height == old(height)
    {
      WholePages(PagesFor(Bytes(width, height)));
      EnoughLeft(pages, tables, mine, PagesFor(Bytes(width, height)), all);
      ok := Resize(w, h, all);
      if ok {
        WholePages(PagesFor(Bytes(w, h)));
        EnoughLeft(pages, tables, mine, PagesFor(Bytes(w, h)), all);
      }
    }

    method Close(ghost all: set<Frame>)
      requires Valid()
      modifies this`mine, this`pages, this`tables, this`backBytes, this`modeWidth, this`modeHeight, this`isOpen
      ensures Valid() && !isOpen && mine == {}
    {
      if !isOpen {
        NothingMapped(pages, tables, mine, 0);
        return;
      }
      modeWidth, modeHeight := 0, 0;
      UnmapBackBuffer(all);
      isOpen := false;
    }
  }

  /** It does happen: others take the frames the moment they are given back, and the
      screen stays open with a canvas and no buffer. */
  method BufferLost(s: Screen, w: int, h: int)
    requires s.Valid() && s.isOpen && s.Shows() && Bytes(s.width, s.height) > 0
    requires Accepts(w, h) && Bytes(w, h) > 0 && forall m: nat :: s.clock <= m ==> s.world(m) == {}
    modifies s
    ensures s.Valid() && s.isOpen && s.backBytes == 0 && s.mine == {}
    ensures s.width == old(s.width) && s.height == old(s.height) && Bytes(s.width, s.height) > 0
  {
    var ok := s.Resize(w, h, {});
  }

  lemma OnePixel()
    ensures Accepts(1, 1) && Bytes(1, 1) == 4 && Need(Bytes(1, 1)) == 2
  {
    assert Bytes(1, 1) == 4 && PagesFor(4) == 1;
    TablesForIs(1);
  }

  /** One such run: a canvas of one pixel, and two frames, both taken by others after
      the screen was opened. */
  method BufferLostOnce() returns (s: Screen)
    ensures s.Valid() && s.isOpen && s.backBytes == 0 && s.mine == {} && s.width == 1 && s.height == 1
  {
    OnePixel();
    var frames: set<Frame> := {0, 1};
    s := new Screen(m => if m < 2 then frames else {});
    var ok := s.Open(1, 1, true, {});
    BufferLost(s, 1, 1);
  }
}
