/**
 The terminal's screen (src/flanterm/fb.c:592-918): a grid of what has been drawn, a queue of cells that
 changed since, and a map from cell to queue item. Together they must act as one plain grid, and a flush
 must bring the display in line with it.
 */
module Framebuffer {
  import opened Arith

  const NONE: int := -1

  /** `flanterm_fb_char`. */
  datatype Cell = Cell(c: nat, fg: nat, bg: nat)

  /** `flanterm_fb_queue_item`. */
  datatype Item = Item(x: nat, y: nat, c: Cell)

  function Swap(c: Cell): (r: Cell) {
    Cell(c.c, c.bg, c.fg)
  }

  predicate SameColours(c: Cell) {
    c.fg == c.bg
  }

  // -------------------------------------------------------------------------
  // Cells by number

  function CellNo(x: nat, y: nat, cols: nat): (i: nat) {
    y * cols + x
  }

  /** The number of cells; kept apart because products are hard on the prover. */
  ghost predicate Area(n: nat, rows: nat, cols: nat) {
    n == rows * cols
  }

  lemma CellNoBound(x: nat, y: nat, n: nat, rows: nat, cols: nat)
    requires Area(n, rows, cols) && x < cols && y < rows
    ensures CellNo(x, y, cols) < n
    ensures CellNo(x, y, cols) % cols == x && CellNo(x, y, cols) / cols == y
  {
    MulMonotone(cols, y + 1, rows);
    Distribute(cols, y, 1);
    DivModUnique(CellNo(x, y, cols), cols, y, x);
  }

  lemma CellNoOf(i: nat, n: nat, rows: nat, cols: nat)
    requires Area(n, rows, cols) && 0 < cols && i < n
    ensures i / cols < rows && CellNo(i % cols, i / cols, cols) == i
  {
    DivMod(i, cols);
    if i / cols >= rows {
      MulMonotone(cols, rows, i / cols);
    }
  }

  // -------------------------------------------------------------------------
  // The cache

  /** The drawn grid, the queue with the number of items in use, and the map; `NONE` stands for a null pointer. */
  datatype Cache = Cache(grid: seq<Cell>, queue: seq<Item>, slots: seq<int>, used: nat)

  ghost predicate Sized(k: Cache, n: nat) {
    |k.grid| == n && |k.queue| == n && |k.slots| == n && k.used <= n
  }

  /** A cell's map entry leads to an item about that cell. */
  ghost predicate Leads(k: Cache, cols: nat, i: nat)
    requires i < |k.slots| && k.used <= |k.queue|
  {
    k.slots[i] != NONE ==> 0 <= k.slots[i] < k.used && CellNo(k.queue[k.slots[i]].x, k.queue[k.slots[i]].y, cols) == i
  }

  /** An item is about a cell of the screen. */
  ghost predicate OnScreen(q: Item, n: nat, rows: nat, cols: nat) {
    q.x < cols && q.y < rows && CellNo(q.x, q.y, cols) < n
  }

  ghost predicate Coherent(k: Cache, n: nat, rows: nat, cols: nat) {
    && Sized(k, n)
    && (forall i: nat {:trigger Leads(k, cols, i)} :: i < n ==> Leads(k, cols, i))
    && (forall j {:trigger k.queue[j]} :: 0 <= j < k.used ==> OnScreen(k.queue[j], n, rows, cols))
  }

  /** An item that is in use is the one its cell leads to. */
  ghost predicate Home(k: Cache, n: nat, rows: nat, cols: nat, j: nat)
    requires Sized(k, n) && j < k.used
  {
    OnScreen(k.queue[j], n, rows, cols) && k.slots[CellNo(k.queue[j].x, k.queue[j].y, cols)] == j
  }

  ghost predicate Sound(k: Cache, n: nat, rows: nat, cols: nat) {
    && Coherent(k, n, rows, cols)
    && (forall j: nat {:trigger Home(k, n, rows, cols, j)} :: j < k.used ==> Home(k, n, rows, cols, j))
  }

  /** What a cell stands for: its queued contents, or what is drawn. */
  ghost function CellAt(k: Cache, i: nat): (r: Cell)
    requires i < |k.grid| && i < |k.slots|
  {
    if 0 <= k.slots[i] < |k.queue| then k.queue[k.slots[i]].c else k.grid[i]
  }

  ghost function Logical(k: Cache): (r: seq<Cell>)
    ensures |r| == |k.grid|
  {
    seq(|k.grid|, i requires 0 <= i < |k.grid| => if i < |k.slots| then CellAt(k, i) else k.grid[i])
  }

  ghost predicate Unqueued(k: Cache) {
    forall i {:trigger k.slots[i]} :: 0 <= i < |k.slots| ==> k.slots[i] == NONE
  }

  // -------------------------------------------------------------------------
  // There is always room in the queue

  /** Distinct numbers below `n` are at most `n`. */
  lemma {:induction false} Pigeonhole(s: seq<nat>, n: nat)
    requires forall i {:trigger s[i]} :: 0 <= i < |s| ==> s[i] < n
    requires forall i, j {:trigger s[i], s[j]} :: 0 <= i < j < |s| ==> s[i] != s[j]
    ensures |s| <= n
  {
    if s != [] {
      assert s[0] < n;
      if k :| 0 <= k < |s| && s[k] == n - 1 {
        Pigeonhole(s[..k] + s[k + 1..], n - 1);
      } else {
        Pigeonhole(s, n - 1);
      }
    }
  }

  ghost function CellNos(k: Cache, cols: nat): (s: seq<nat>)
    requires k.used <= |k.queue|
    ensures |s| == k.used
  {
    seq(k.used, j requires 0 <= j < k.used => CellNo(k.queue[j].x, k.queue[j].y, cols))
  }

  /** A cell that leads nowhere leaves room for one more item: items are about distinct cells. */
  lemma Room(k: Cache, n: nat, rows: nat, cols: nat, i: nat)
    requires Sound(k, n, rows, cols) && i < n && k.slots[i] == NONE
    ensures k.used < n
  {
    hide CellNo;
    var s := CellNos(k, cols) + [i];
    forall a, b {:trigger s[a], s[b]} | 0 <= a < b < |s|
      ensures s[a] != s[b]
    {
      assert Home(k, n, rows, cols, a);
      if b < k.used {
        assert Home(k, n, rows, cols, b);
      }
    }
    forall a {:trigger s[a]} | 0 <= a < |s|
      ensures s[a] < n
    {
      if a < k.used {
        assert Home(k, n, rows, cols, a);
      }
    }
    Pigeonhole(s, n);
  }

  // -------------------------------------------------------------------------
  // Queueing a cell

  /** A queued cell gets new contents in place. */
  lemma Requeue(k: Cache, n: nat, rows: nat, cols: nat, i: nat, c: Cell)
    requires Sound(k, n, rows, cols) && i < n && k.slots[i] != NONE
    ensures 0 <= k.slots[i] < k.used
    ensures var r := k.(queue := k.queue[k.slots[i] := k.queue[k.slots[i]].(c := c)]);
            Sound(r, n, rows, cols) && Logical(r) == Logical(k)[i := c]
  {
    hide CellNo;
    assert Leads(k, cols, i);
    var q := k.slots[i];
    var r := k.(queue := k.queue[q := k.queue[q].(c := c)]);
    forall a: nat {:trigger Leads(r, cols, a)} | a < n
      ensures Leads(r, cols, a)
    {
      assert Leads(k, cols, a);
    }
    forall j: nat {:trigger Home(r, n, rows, cols, j)} | j < r.used
      ensures Home(r, n, rows, cols, j)
    {
      assert Home(k, n, rows, cols, j);
    }
    forall a | 0 <= a < n
      ensures CellAt(r, a) == if a == i then c else CellAt(k, a)
    {
      assert Leads(k, cols, a);
    }
    assert Logical(r) == Logical(k)[i := c];
  }

  /** A cell that leads nowhere gets a new item. */
  lemma Enqueue(k: Cache, n: nat, rows: nat, cols: nat, x: nat, y: nat, c: Cell)
    requires Sound(k, n, rows, cols) && x < cols && y < rows && CellNo(x, y, cols) < n
    requires k.slots[CellNo(x, y, cols)] == NONE && k.used < n
    ensures var i := CellNo(x, y, cols);
            var r := Cache(k.grid, k.queue[k.used := Item(x, y, c)], k.slots[i := k.used], k.used + 1);
            Sound(r, n, rows, cols) && Logical(r) == Logical(k)[i := c]
  {
    hide CellNo;
    var i := CellNo(x, y, cols);
    var r := Cache(k.grid, k.queue[k.used := Item(x, y, c)], k.slots[i := k.used], k.used + 1);
    forall a: nat {:trigger Leads(r, cols, a)} | a < n
      ensures Leads(r, cols, a)
    {
      assert Leads(k, cols, a);
    }
    forall j: nat {:trigger Home(r, n, rows, cols, j)} | j < r.used
      ensures Home(r, n, rows, cols, j)
    {
      if j < k.used {
        assert Home(k, n, rows, cols, j);
      }
    }
    forall a | 0 <= a < n
      ensures CellAt(r, a) == if a == i then c else CellAt(k, a)
    {
      assert Leads(k, cols, a);
    }
    assert Logical(r) == Logical(k)[i := c];
  }

  // -------------------------------------------------------------------------
  // Plain grids

  /** One cell replaced; a place outside the screen is ignored. */
  function PutAt(cells: seq<Cell>, rows: nat, cols: nat, x: nat, y: nat, c: Cell): (r: seq<Cell>)
    ensures |r| == |cells|
  {
    if x < cols && y < rows && CellNo(x, y, cols) < |cells| then cells[CellNo(x, y, cols) := c] else cells
  }

  /** The rows from `top` on move up by one, as far as `bottom`; the last of them becomes blank. */
  function ScrolledUp(cells: seq<Cell>, cols: nat, top: nat, bottom: nat, blank: Cell): (r: seq<Cell>)
    requires 0 < cols
    ensures |r| == |cells|
  {
    seq(|cells|, i requires 0 <= i < |cells| =>
      var y := i / cols;
      if top <= y < bottom - 1 && i + cols < |cells| then cells[i + cols] else if y == bottom - 1 then blank
      else cells[i])
  }

  /** The rows from `top` on move down by one, as far as `bottom`; the first of them becomes blank. */
  function ScrolledDown(cells: seq<Cell>, cols: nat, top: nat, bottom: nat, blank: Cell): (r: seq<Cell>)
    requires 0 < cols
    ensures |r| == |cells|
  {
    seq(|cells|, i requires 0 <= i < |cells| =>
      var y := i / cols;
      if top < y < bottom && cols <= i then cells[i - cols] else if y == top then blank else cells[i])
  }

  lemma RowRange(i: nat, cols: nat, a: nat)
    requires 0 < cols
    ensures a <= i / cols <==> a * cols <= i
  {
    DivMod(i, cols);
    if a <= i / cols {
      MulMonotone(cols, a, i / cols);
    } else {
      MulMonotone(cols, i / cols + 1, a);
      Distribute(cols, i / cols, 1);
    }
  }

  /** The cells from `lo` up to `hi` taken from `src` on, the rest as they were. */
  ghost function Shifted(cells: seq<Cell>, lo: nat, hi: nat, src: nat): (r: seq<Cell>)
    requires lo <= hi <= |cells| && src + (hi - lo) <= |cells|
    ensures |r| == |cells|
  {
    seq(|cells|, i requires 0 <= i < |cells| => if lo <= i < hi then cells[src + (i - lo)] else cells[i])
  }

  /** `n` blank cells from `lo` on. */
  ghost function Blanked(cells: seq<Cell>, lo: nat, n: nat, blank: Cell): (r: seq<Cell>)
    requires lo + n <= |cells|
    ensures |r| == |cells|
  {
    seq(|cells|, i requires 0 <= i < |cells| => if lo <= i < lo + n then blank else cells[i])
  }

  lemma MarginRows(cols: nat, top: nat, bottom: nat, n: nat, rows: nat)
    requires Area(n, rows, cols) && top < bottom <= rows
    ensures top * cols <= (bottom - 1) * cols && (bottom - 1) * cols + cols == bottom * cols <= n
    ensures top * cols + cols == (top + 1) * cols <= bottom * cols
  {
    MulMonotone(cols, bottom, rows);
    Distribute(cols, bottom, 1);
    Distribute(cols, top, 1);
    MulMonotone(cols, top + 1, bottom);
  }

  lemma ScrolledUpSteps(cells: seq<Cell>, cols: nat, top: nat, bottom: nat, blank: Cell, t: nat, b: nat)
    requires 0 < cols && top < bottom && t == top * cols && b == (bottom - 1) * cols && t <= b
    requires b + cols == bottom * cols <= |cells|
    ensures Blanked(Shifted(cells, t, b, t + cols), b, cols, blank) == ScrolledUp(cells, cols, top, bottom, blank)
  {
    var r, e := Blanked(Shifted(cells, t, b, t + cols), b, cols, blank), ScrolledUp(cells, cols, top, bottom, blank);
    forall i | 0 <= i < |cells|
      ensures r[i] == e[i]
    {
      RowRange(i, cols, top);
      RowRange(i, cols, bottom - 1);
      RowRange(i, cols, bottom);
    }
  }

  lemma TopRow(cols: nat, top: nat, bottom: nat, n: nat, rows: nat, t: nat, b: nat)
    requires Area(n, rows, cols) && 0 < cols && top < rows && 0 < bottom <= rows && t == top * cols &&
             b == bottom * cols
    ensures t + cols == (top + 1) * cols <= n && cols <= b <= n
    ensures if top < bottom then t + cols <= b else b <= t
  {
    MarginRows(cols, top, rows, n, rows);
    MarginRows(cols, 0, bottom, n, rows);
    if top < bottom {
      MarginRows(cols, top, bottom, n, rows);
    } else {
      MulMonotone(cols, bottom, top);
    }
  }

  lemma ScrolledDownWhole(cells: seq<Cell>, moved: seq<Cell>, cols: nat, top: nat, bottom: nat, n: nat, rows: nat,
                          blank: Cell, t: nat, b: nat)
    requires Area(n, rows, cols) && |cells| == n && 0 < cols && top < rows && 0 < bottom <= rows && t == top * cols &&
             b == bottom * cols
    requires t + cols <= b ==> b <= n
    requires moved == if t + cols <= b then Shifted(cells, t + cols, b, t) else cells
    ensures t + cols <= n && Blanked(moved, t, cols, blank) == ScrolledDown(cells, cols, top, bottom, blank)
  {
    hide Area, Shifted, Blanked, ScrolledDown;
    TopRow(cols, top, bottom, n, rows, t, b);
    if top < bottom {
      ScrolledDownSteps(cells, cols, top, bottom, blank, t, b);
    } else {
      ScrolledNowhere(cells, cols, top, bottom, blank, t);
    }
  }

  lemma ScrolledNowhere(cells: seq<Cell>, cols: nat, top: nat, bottom: nat, blank: Cell, t: nat)
    requires 0 < cols && bottom <= top && t == top * cols && t + cols == (top + 1) * cols <= |cells|
    ensures Blanked(cells, t, cols, blank) == ScrolledDown(cells, cols, top, bottom, blank)
  {
    var r, e := Blanked(cells, t, cols, blank), ScrolledDown(cells, cols, top, bottom, blank);
    forall i | 0 <= i < |cells|
      ensures r[i] == e[i]
    {
      RowRange(i, cols, top);
      RowRange(i, cols, top + 1);
    }
  }

  lemma ScrolledDownSteps(cells: seq<Cell>, cols: nat, top: nat, bottom: nat, blank: Cell, t: nat, b: nat)
    requires 0 < cols && top < bottom && t == top * cols &&
             t + cols == (top + 1) * cols <= b == bottom * cols <= |cells|
    ensures Blanked(Shifted(cells, t + cols, b, t), t, cols, blank) == ScrolledDown(cells, cols, top, bottom, blank)
  {
    var r, e := Blanked(Shifted(cells, t + cols, b, t), t, cols, blank), ScrolledDown(cells, cols, top, bottom, blank);
    forall i | 0 <= i < |cells|
      ensures r[i] == e[i]
    {
      RowRange(i, cols, top);
      RowRange(i, cols, top + 1);
      RowRange(i, cols, bottom);
    }
  }

  lemma ShiftedSteps(cells: seq<Cell>, lo: nat, hi: nat, src: nat)
    requires lo <= hi <= |cells| && src + (hi - lo) <= |cells|
    ensures Shifted(cells, lo, lo, src) == cells
    ensures hi < |cells| && src + (hi - lo) < |cells| ==>
              Shifted(cells, lo, hi, src)[hi := cells[src + (hi - lo)]] == Shifted(cells, lo, hi + 1, src)
    ensures 0 < lo && 0 < src ==>
            Shifted(cells, lo, hi, src)[lo - 1 := cells[src - 1]] == Shifted(cells, lo - 1, hi, src - 1)
  {
  }

  lemma ShiftedRest(cells: seq<Cell>, lo: nat, hi: nat, src: nat, i: nat)
    requires lo <= hi <= |cells| && src + (hi - lo) <= |cells| && i < |cells| && !(lo <= i < hi)
    ensures Shifted(cells, lo, hi, src)[i] == cells[i]
  {
  }

  lemma BlankedSteps(cells: seq<Cell>, lo: nat, n: nat, blank: Cell)
    requires lo + n <= |cells|
    ensures Blanked(cells, lo, 0, blank) == cells
    ensures lo + n < |cells| ==> Blanked(cells, lo, n, blank)[lo + n := blank] == Blanked(cells, lo, n + 1, blank)
  {
  }

  /** What the rest of the terminal can see. */
  datatype View = View(cells: seq<Cell>, x: nat, y: nat, fg: nat, bg: nat, cursorOn: bool, scrollOn: bool, top: nat,
                       bottom: nat)

  class Screen {
    const rows: nat
    const cols: nat
    const size: nat
    const grid: array<Cell>
    const queue: array<Item>
    const slots: array<int>
    const display: array<Cell>
    var queueI: nat
    var cursorX: nat
    var cursorY: nat
    var oldCursorX: nat
    var oldCursorY: nat
    var cursorEnabled: bool
    var scrollEnabled: bool
    var top: nat
    var bottom: nat
    var textFg: nat
    var textBg: nat

    ghost function Contents(): (k: Cache)
      reads this`queueI, grid, queue, slots
    {
      Cache(grid[..], queue[..], slots[..], queueI)
    }

    ghost predicate Shape()
      reads this
    {
      && 0 < rows && 0 < cols && size < WORD && Area(size, rows, cols)
      && grid.Length == queue.Length == slots.Length == display.Length == size && grid != display && queueI <= size
      && cursorX < WORD && cursorY < WORD && top < rows && 0 < bottom <= rows
    }

    ghost predicate Valid()
      reads this, grid, queue, slots
    {
      Shape() && Sound(Contents(), size, rows, cols)
    }

    ghost function Seen(): (v: View)
      reads this, grid, queue, slots
    {
      View(Logical(Contents()), cursorX, cursorY, textFg, textBg, cursorEnabled, scrollEnabled, top, bottom)
    }

    /** `push_to_queue`. */
    method PushToQueue(c: Cell, x: nat, y: nat)
      requires Valid()
      modifies this`queueI, queue, slots
      ensures Valid()
      ensures Logical(Contents()) == PutAt(old(Logical(Contents())), rows, cols, x, y, c)
    {
      hide Area, CellNo, Sound, Logical;
      if x >= cols || y >= rows {
        return;
      }
      var i := CellNo(x, y, cols);
      CellNoBound(x, y, size, rows, cols);
      ghost var k := Contents();
      if slots[i] == NONE {
        if grid[i] == c {
          SameCell(k, i, c);
          return;
        }
        Room(k, size, rows, cols, i);
        Enqueue(k, size, rows, cols, x, y, c);
        queue[queueI] := Item(x, y, c);
        slots[i] := queueI;
        queueI := queueI + 1;
        assert Contents() == Cache(k.grid, k.queue[k.used := Item(x, y, c)], k.slots[i := k.used], k.used + 1);
      } else {
        Requeue(k, size, rows, cols, i, c);
        var q := slots[i];
        queue[q] := queue[q].(c := c);
        assert Contents() == k.(queue := k.queue[q := k.queue[q].(c := c)]);
      }
    }

    /** The cell a queue item or the grid holds, as `scroll`, `revscroll` and `move_character` look it up. */
    method Lookup(i: nat) returns (c: Cell)
      requires Valid() && i < size
      ensures c == Logical(Contents())[i]
    {
      hide CellNo;
      assert Leads(Contents(), cols, i);
      if slots[i] != NONE {
        c := queue[slots[i]].c;
      } else {
        c := grid[i];
      }
    }

    function Blank(): (c: Cell)
      reads this
    {
      Cell(32, textFg, textBg)
    }

    /** The loop that ends `scroll` and `revscroll`: one row becomes blank. */
    method BlankRow(y: nat, ghost lo: nat)
      requires Valid() && y < rows && lo == y * cols && lo + cols <= size
      modifies this`queueI, queue, slots
      ensures Valid()
      ensures Logical(Contents()) == Blanked(old(Logical(Contents())), lo, cols, Blank())
    {
      hide Area, Sound, Logical, Blanked;
      ghost var cells := Logical(Contents());
      BlankedSteps(cells, lo, 0, Blank());
      var i := 0;
      while i < cols
        invariant 0 <= i <= cols && Valid()
        invariant Logical(Contents()) == Blanked(cells, lo, i, Blank())
      {
        BlankedSteps(cells, lo, i, Blank());
        PushToQueue(Blank(), i, y);
        i := i + 1;
      }
    }

    /** A push to a cell given by its number. */
    method PushCell(c: Cell, i: nat)
      requires Valid() && i < size
      modifies this`queueI, queue, slots
      ensures Valid()
      ensures Logical(Contents()) == old(Logical(Contents()))[i := c]
    {
      hide Area, Sound, Logical, CellNo;
      CellNoOf(i, size, rows, cols);
      PushToQueue(c, i % cols, i / cols);
    }

    /** One step of the copying loops: cell `i` is pushed to cell `j`. */
    method CopyCell(i: nat, j: nat)
      requires Valid() && i < size && j < size
      modifies this`queueI, queue, slots
      ensures Valid()
      ensures Logical(Contents()) == old(Logical(Contents()))[j := old(Logical(Contents())[i])]
    {
      hide Area, Sound, Logical;
      var c := Lookup(i);
      PushCell(c, j);
    }

    /** The copying loop of `scroll`, from the cells `t` and `b` that start the first and last row. */
    method CopyUp(t: nat, b: nat)
      requires Valid() && t <= b && b + cols <= size
      modifies this`queueI, queue, slots
      ensures Valid()
      ensures Logical(Contents()) == Shifted(old(Logical(Contents())), t, b, t + cols)
    {
      hide Area, Sound, Logical, Shifted;
      ghost var cells := Logical(Contents());
      ShiftedSteps(cells, t, t, t + cols);
      var i := t + cols;
      while i < b + cols
        invariant t + cols <= i <= b + cols && Valid()
        invariant Logical(Contents()) == Shifted(cells, t, i - cols, t + cols)
      {
        ShiftedSteps(cells, t, i - cols, t + cols);
        ShiftedRest(cells, t, i - cols, t + cols, i);
        CopyCell(i, i - cols);
        i := i + 1;
      }
    }

    /** `flanterm_fb_scroll`: copies forwards in place. */
    method Scroll()
      requires Valid() && top < bottom
      modifies this`queueI, queue, slots
      ensures Valid()
      ensures Logical(Contents()) == ScrolledUp(old(Logical(Contents())), cols, top, bottom, Blank())
    {
      hide Area, Sound, Logical, ScrolledUp, Blanked, Shifted;
      MarginRows(cols, top, bottom, size, rows);
      ghost var cells := Logical(Contents());
      CopyUp(top * cols, (bottom - 1) * cols);
      BlankRow(bottom - 1, (bottom - 1) * cols);
      ScrolledUpSteps(cells, cols, top, bottom, Blank(), top * cols, (bottom - 1) * cols);
    }

    /** The copying loop of `revscroll`, down to a counter that may wrap below zero. */
    method CopyDown(t: nat, b: nat)
      requires Valid() && cols <= b <= size && t < size && (t + cols <= b || b - cols <= t)
      modifies this`queueI, queue, slots
      ensures Valid()
      ensures Logical(Contents()) == if t + cols <= b then Shifted(old(Logical(Contents())), t + cols, b, t)
              else old(Logical(Contents()))
    {
      hide Area, Sound, Logical, Shifted;
      ghost var cells := Logical(Contents());
      ShiftedSteps(cells, b, b, b - cols);
      var i := (b - cols + WORD - 1) % WORD;
      ghost var left := b - cols;
      while i >= t
        invariant left <= b - cols && (t <= left || left == b - cols) && Valid()
        invariant i == if left == 0 then WORD - 1 else left - 1
        invariant Logical(Contents()) == Shifted(cells, left + cols, b, left)
        decreases left
      {
        if i == WORD - 1 {
          break;
        }
        ShiftedSteps(cells, left + cols, b, left);
        ShiftedRest(cells, left + cols, b, left, i);
        CopyCell(i, i + cols);
        i := (i + WORD - 1) % WORD;
        left := left - 1;
      }
    }

    /**
     `flanterm_fb_revscroll`: copies backwards in place; if the top margin is not above the bottom one, only blanks a
     row.
     */
    method RevScroll()
      requires Valid()
      modifies this`queueI, queue, slots
      ensures Valid()
      ensures Logical(Contents()) == ScrolledDown(old(Logical(Contents())), cols, top, bottom, Blank())
    {
      hide Area, Sound, Logical, ScrolledDown, Blanked, Shifted;
      var t, b := top * cols, bottom * cols;
      TopRow(cols, top, bottom, size, rows, t, b);
      ghost var cells := Logical(Contents());
      CopyDown(t, b);
      ghost var moved := Logical(Contents());
      BlankRow(top, t);
      ScrolledDownWhole(cells, moved, cols, top, bottom, size, rows, Blank(), t, b);
    }

    /** `flanterm_fb_clear`. */
    method Clear(move: bool)
      requires Valid()
      modifies this`queueI, this`cursorX, this`cursorY, queue, slots
      ensures Valid()
      ensures Logical(Contents()) == Filled(size, Blank())
      ensures if move then cursorX == 0 && cursorY == 0 else cursorX == old(cursorX) && cursorY == old(cursorY)
    {
      hide Area, Sound, Logical, Blanked, CellNo, Filled;
      ghost var cells := Logical(Contents());
      BlankedSteps(cells, 0, 0, Blank());
      var i := 0;
      while i < size
        invariant 0 <= i <= size && Valid()
        invariant cursorX == old(cursorX) && cursorY == old(cursorY)
        invariant Logical(Contents()) == Blanked(cells, 0, i, Blank())
      {
        BlankedSteps(cells, 0, i, Blank());
        PushCell(Blank(), i);
        i := i + 1;
      }
      AllBlank(cells, Blank());
      if move {
        cursorX := 0;
        cursorY := 0;
      }
    }

    /** `flanterm_fb_move_character`. */
    method MoveCharacter(newX: nat, newY: nat, oldX: nat, oldY: nat)
      requires Valid()
      modifies this`queueI, queue, slots
      ensures Valid()
      ensures Logical(Contents()) == Moved(old(Logical(Contents())), rows, cols, newX, newY, oldX, oldY)
    {
      hide Area, Sound, Logical;
      if oldX >= cols || oldY >= rows || newX >= cols || newY >= rows {
        return;
      }
      CellNoBound(oldX, oldY, size, rows, cols);
      CellNoBound(newX, newY, size, rows, cols);
      var c := Lookup(CellNo(oldX, oldY, cols));
      PushToQueue(c, newX, newY);
    }

    /** `flanterm_fb_get_cursor_pos`. */
    method GetCursorPos() returns (x: nat, y: nat)
      requires Shape()
      ensures x < cols && y < rows && x == (if cursorX < cols then cursorX else cols - 1) &&
              y == (if cursorY < rows then cursorY else rows - 1)
    {
      x := if cursorX >= cols then cols - 1 else cursorX;
      y := if cursorY >= rows then rows - 1 else cursorY;
    }

    /** `flanterm_fb_set_cursor_pos`: too large is clamped; negative, as a 32-bit number, becomes zero. */
    method SetCursorPos(x: nat, y: nat)
      requires Shape() && x < WORD && y < WORD
      modifies this`cursorX, this`cursorY
      ensures cursorX == Clamped(x, cols) && cursorY == Clamped(y, rows)
    {
      var newX, newY := x, y;
      if newX >= cols {
        newX := if newX % WORD32 >= 0x8000_0000 then 0 else cols - 1;
      }
      if newY >= rows {
        newY := if newY % WORD32 >= 0x8000_0000 then 0 else rows - 1;
      }
      cursorX, cursorY := newX, newY;
    }

    /** Past the bottom margin, the cursor stays and the rows scroll. */
    method Roll()
      requires Valid() && top < bottom
      modifies this`queueI, this`cursorY, queue, slots
      ensures Valid()
      ensures Seen() == Rolled(old(Seen()), cols)
    {
      hide Area, Sound, Logical, ScrolledUp, Contents;
      if cursorY == bottom {
        cursorY := cursorY - 1;
        Scroll();
      }
    }

    /** The first half of `flanterm_fb_raw_putchar`: at the right edge, on to the next line. */
    method WrapLine()
      requires Valid() && top < bottom
      modifies this`queueI, this`cursorX, this`cursorY, queue, slots
      ensures Valid()
      ensures Seen() == Wrapped(old(Seen()), cols)
    {
      hide Area, Sound, Logical, Rolled, Contents;
      if cursorX >= cols && (cursorY < bottom - 1 || scrollEnabled) {
        cursorX := 0;
        cursorY := (cursorY + 1) % WORD;
        Roll();
        if cursorY >= cols {
          cursorY := cols - 1;
        }
      }
    }

    /** `flanterm_fb_raw_putchar`. */
    method RawPutchar(c: nat)
      requires Valid() && top < bottom
      modifies this`queueI, this`cursorX, this`cursorY, queue, slots
      ensures Valid()
      ensures Seen() == Typed(old(Seen()), rows, cols, c)
    {
      hide Area, Sound, Logical, Wrapped, Contents;
      WrapLine();
      PushToQueue(Cell(c, textFg, textBg), cursorX, cursorY);
      cursorX := (cursorX + 1) % WORD;
    }

    /** The cell under a cursor, if it is on the screen. */
    function CellUnder(x: nat, y: nat): (r: int)
      ensures r == NONE || (x < cols && y < rows && r == CellNo(x, y, cols))
    {
      if x < cols && y < rows then CellNo(x, y, cols) else NONE
    }

    /** `plot_char`, as far as it matters which cell shows what. */
    method PlotChar(c: Cell, x: nat, y: nat)
      requires Shape()
      modifies display
      ensures var i := CellUnder(x, y);
              if 0 <= i < size then display[..] == old(display[..])[i := c] else display[..] == old(display[..])
    {
      if x >= cols || y >= rows {
        return;
      }
      CellNoBound(x, y, size, rows, cols);
      display[CellNo(x, y, cols)] := c;
    }

    /** `draw_cursor`: the cell under the cursor is drawn in swapped colours, and its queue item is dropped. */
    method DrawCursor()
      requires Shape() && Coherent(Contents(), size, rows, cols)
      modifies grid, slots, display
      ensures Coherent(Contents(), size, rows, cols)
      ensures Logical(Contents()) == old(Logical(Contents()))
      ensures var i := CellUnder(cursorX, cursorY);
              if 0 <= i < size then
                && Contents() == Settled(old(Contents()), i)
                && display[..] == old(display[..])[i := Swap(old(Logical(Contents())[i]))]
              else Contents() == old(Contents()) && display[..] == old(display[..])
    {
      hide Area, CellNo, Coherent, Logical;
      if cursorX >= cols || cursorY >= rows {
        return;
      }
      CellNoBound(cursorX, cursorY, size, rows, cols);
      var i := CellNo(cursorX, cursorY, cols);
      ghost var k := Contents();
      CoherentCell(k, size, rows, cols, i);
      SettleKeeps(k, size, rows, cols, i);
      var c := if slots[i] != NONE then queue[slots[i]].c else grid[i];
      PlotChar(Swap(c), cursorX, cursorY);
      if slots[i] != NONE {
        grid[i] := queue[slots[i]].c;
        slots[i] := NONE;
      }
      assert Contents() == Settled(k, i);
    }

    /** The loop of the flush: every queued cell is drawn. */
    method DrainQueue()
      requires Shape() && Draining(Contents(), size, rows, cols, 0)
      modifies grid, slots, display
      ensures grid[..] == old(Logical(Contents()))
      ensures Unqueued(Contents())
      ensures Drawn(old(Contents()), slots[..], old(display[..]), display[..])
    {
      hide Area, Draining, Logical, CellNo, Drawn, CellAt;
      ghost var k, d := Contents(), display[..];
      DrainingFacts(k, size, rows, cols, 0);
      DrawnNothing(k, d);
      var j := 0;
      while j < queueI
        invariant 0 <= j <= queueI && Draining(Contents(), size, rows, cols, j)
        invariant Logical(Contents()) == Logical(k)
        invariant Drawn(k, slots[..], d, display[..])
      {
        ghost var now, shown := Contents(), display[..];
        DrainingFacts(now, size, rows, cols, j);
        var q := queue[j];
        var offset := CellNo(q.x, q.y, cols);
        if slots[offset] == NONE {
          DrainSkip(now, size, rows, cols, j);
        } else {
          DrainOne(now, size, rows, cols, j);
          PlotChar(q.c, q.x, q.y);
          grid[offset] := q.c;
          slots[offset] := NONE;
          assert Contents() == Settled(now, offset);
          DrawnOne(k, now, d, shown, offset);
        }
        j := j + 1;
      }
      Drained(Contents(), size, rows, cols);
    }

    /** The first half of the flush: the cursor and the queued cells are drawn. */
    method DrawQueued(ghost cursor: int) returns (ghost settled: Cache, ghost drawn: seq<Cell>)
      requires Valid() && cursor == if cursorEnabled then CellUnder(cursorX, cursorY) else NONE
      modifies grid, slots, display
      ensures grid[..] == old(Logical(Contents())) == Logical(settled)
      ensures Unqueued(Contents())
      ensures NONE <= cursor < size && Drawn(settled, slots[..], drawn, display[..])
      ensures if cursor == NONE then settled == old(Contents()) && drawn == old(display[..])
              else
                && settled == Settled(old(Contents()), cursor)
                && drawn == old(display[..])[cursor := Swap(old(Logical(Contents()))[cursor])]
    {
      hide Area, CellNo, Sound, Coherent, Logical, Draining, Drawn;
      SoundDrains(Contents(), size, rows, cols);
      CursorCells(cursorX, cursorY, oldCursorX, oldCursorY, size, rows, cols);
      if cursorEnabled {
        DrawCursor();
        if cursor != NONE {
          SettleDrains(old(Contents()), size, rows, cols, cursor);
        }
      }
      settled, drawn := Contents(), display[..];
      DrainQueue();
    }

    /**
     `flanterm_fb_double_buffer_flush`: queued cells, the cell the cursor has left and the one it is on are drawn.
     Nothing stays queued, the contents are the same as before, and a faithful display comes to show them.
     */
    method Flush()
      requires Valid()
      modifies this`queueI, this`oldCursorX, this`oldCursorY, grid, slots, display
      ensures Valid() && Seen() == old(Seen()) && queueI == 0
      ensures oldCursorX == cursorX && oldCursorY == cursorY
      ensures grid[..] == old(Logical(Contents()))
      ensures Unqueued(Contents())
      ensures Refreshed(old(Contents()), old(display[..]), display[..],
                        if cursorEnabled then CellUnder(cursorX, cursorY) else NONE,
                            CellUnder(old(oldCursorX), old(oldCursorY)))
      ensures old(Faithful()) ==> Showing() && Faithful()
    {
      hide Area, CellNo, Sound, Logical, Drawn, Refreshed, Shows, FaithfulTo, Settled;
      ghost var k, d := Contents(), display[..];
      ghost var cursor, trail := if cursorEnabled then CellUnder(cursorX, cursorY) else NONE,
        CellUnder(oldCursorX, oldCursorY);
      CursorCells(cursorX, cursorY, oldCursorX, oldCursorY, size, rows, cols);
      ghost var k1, d1 := DrawQueued(cursor);
      ghost var d2 := display[..];
      if oldCursorX != cursorX || oldCursorY != cursorY || !cursorEnabled {
        if oldCursorX < cols && oldCursorY < rows {
          PlotChar(grid[CellNo(oldCursorX, oldCursorY, cols)], oldCursorX, oldCursorY);
        }
      }
      RefreshedSteps(k, d, cursor, trail, k1, d1, slots[..], d2, display[..]);
      oldCursorX := cursorX;
      oldCursorY := cursorY;
      queueI := 0;
      EmptySound(Contents(), size, rows, cols);
      FlushShows(k, size, rows, cols, d, display[..], cursor, trail, CellUnder(cursorX, cursorY));
    }

    /** The display shows the grid, except perhaps where the cursor was at the last flush. */
    ghost predicate Faithful()
      reads this`oldCursorX, this`oldCursorY, grid, display
    {
      FaithfulTo(display[..], grid[..], CellUnder(oldCursorX, oldCursorY))
    }

    /** The display shows the contents, in swapped colours under an enabled cursor. */
    ghost predicate Showing()
      requires Shape()
      reads this, grid, queue, slots, display
    {
      Shows(display[..], Logical(Contents()), if cursorEnabled then CellUnder(cursorX, cursorY) else NONE)
    }

    /**
     `flanterm_fb_full_refresh`: the grid is drawn again. It never changes the contents, but it leaves the queue
     unsound exactly when the enabled cursor is on a queued cell, and it leaves a cell that the next flush will not
     repair exactly when the enabled cursor has moved since the last flush, unless swapping that cell's colours
     makes no difference.
     */
    method FullRefresh()
      requires Valid()
      modifies grid, slots, display
      ensures Shape() && Seen() == old(Seen())
      ensures var i := if cursorEnabled then CellUnder(cursorX, cursorY) else NONE;
              && display[..] ==
                 (if i == NONE || i >= size then old(grid[..])
                  else old(grid[..])[i := Swap(old(Logical(Contents()))[i])])
              && (Valid() <==> i == NONE || i >= size || old(slots[i]) == NONE)
              && (Unqueued(old(Contents())) ==> Showing() && Unqueued(Contents()))
              && (Faithful() <==>
                  i == NONE || i >= size || i == CellUnder(oldCursorX, oldCursorY) ||
                    SameColours(old(Logical(Contents()))[i]))
    {
      hide Area, CellNo, Sound, Coherent, Logical, FaithfulTo, Shows;
      DrawGrid();
      ghost var k := Contents();
      SoundDrains(k, size, rows, cols);
      CursorCells(cursorX, cursorY, oldCursorX, oldCursorY, size, rows, cols);
      CursorFaithful(k, NONE, CellUnder(oldCursorX, oldCursorY));
      if cursorEnabled {
        DrawCursor();
        if CellUnder(cursorX, cursorY) != NONE {
          SettledSound(k, size, rows, cols, CellUnder(cursorX, cursorY));
          CursorFaithful(k, CellUnder(cursorX, cursorY), CellUnder(oldCursorX, oldCursorY));
        }
      }
    }

    /** The loop of `full_refresh`: every cell of the grid is drawn. */
    method DrawGrid()
      requires Shape()
      modifies display
      ensures display[..] == grid[..]
    {
      hide Area, CellNo;
      var i := 0;
      while i < size
        invariant 0 <= i <= size
        invariant display[..i] == grid[..i]
      {
        CellNoOf(i, size, rows, cols);
        ghost var d := display[..];
        PlotChar(grid[i], i % cols, i / cols);
        assert display[..] == d[i := grid[i]];
        assert display[..i + 1] == d[..i] + [grid[i]];
        i := i + 1;
      }
    }

    /** The end of `flanterm_fb_init`: blank cells, nothing queued, the cursor on in the corner, everything drawn. */
    constructor (rows: nat, cols: nat, fg: nat, bg: nat)
      requires 0 < rows && 0 < cols && rows * cols < WORD
      ensures this.rows == rows && this.cols == cols && size == rows * cols && Unqueued(Contents()) && Valid() &&
              Faithful() && Showing()
      ensures fresh(grid) && fresh(queue) && fresh(slots) && fresh(display)
      ensures Seen() == View(Filled(rows * cols, Cell(32, fg, bg)), 0, 0, fg, bg, true, true, 0, rows)
      ensures oldCursorX == 0 && oldCursorY == 0 && queueI == 0
    {
      hide Sound, Logical, FaithfulTo, Shows, CellNo;
      this.rows, this.cols, size := rows, cols, rows * cols;
      grid := new Cell[rows * cols](_ => Cell(32, fg, bg));
      queue := new Item[rows * cols](_ => Item(0, 0, Cell(0, 0, 0)));
      slots := new int[rows * cols](_ => NONE);
      display := new Cell[rows * cols](_ => Cell(0, 0, 0));
      queueI, cursorX, cursorY, oldCursorX, oldCursorY := 0, 0, 0, 0, 0;
      cursorEnabled, scrollEnabled, top, bottom, textFg, textBg := true, true, 0, rows, fg, bg;
      new;
      EmptySound(Contents(), size, rows, cols);
      assert Unqueued(Contents());
      assert grid[..] == Filled(rows * cols, Cell(32, fg, bg));
      FullRefresh();
    }

    /** One call from the terminal; `Margins`, `Colours` and the switches are fields it writes directly. */
    method Perform(op: Op)
      requires Valid() && Faithful() && top < bottom && Allowed(op, rows)
      modifies this, grid, queue, slots, display
      ensures Valid() && Faithful() && top < bottom && Seen() == Applied(old(Seen()), op, rows, cols)
      ensures op.FlushAll? ==> Showing()
    {
      hide Area, Sound, Logical, FaithfulTo, Shows, Typed, ScrolledUp, ScrolledDown, Filled, Moved, Clamped, CellUnder;
      match op
      case Type(c) => RawPutchar(c);
      case ScrollUp => Scroll();
      case ScrollDown => RevScroll();
      case Erase(move) => Clear(move);
      case Position(x, y) => SetCursorPos(x, y);
      case Move(newX, newY, oldX, oldY) => MoveCharacter(newX, newY, oldX, oldY);
      case Colours(fg, bg) => textFg, textBg := fg, bg;
      case Switches(cursorOn, scrollOn) => cursorEnabled, scrollEnabled := cursorOn, scrollOn;
      case Margins(newTop, newBottom) => top, bottom := newTop, newBottom;
      case FlushAll => Flush();
    }

    /**
     Whole runs: whatever the terminal does, the cache acts as the plain grid, and each time it flushes the display
     comes to show that grid.
     */
    method Play(ops: seq<Op>)
      requires Valid() && Faithful() && top < bottom && forall i {:trigger ops[i]} :: 0 <= i < |ops| ==>
               Allowed(ops[i], rows)
      modifies this, grid, queue, slots, display
      ensures Valid() && Faithful() && Seen() == AppliedAll(old(Seen()), ops, rows, cols)
      ensures ops != [] && ops[|ops| - 1].FlushAll? ==> Showing()
    {
      hide Area, Sound, Logical, FaithfulTo, Shows, Contents, Applied, CellUnder;
      var i := 0;
      while i < |ops|
        invariant 0 <= i <= |ops| && Valid() && Faithful() && top < bottom
        invariant Seen() == AppliedAll(old(Seen()), ops[..i], rows, cols)
        invariant 0 < i && ops[i - 1].FlushAll? ==> Showing()
      {
        Perform(ops[i]);
        assert ops[..i + 1][..i] == ops[..i];
        i := i + 1;
      }
      assert ops[..i] == ops;
    }
  }

  datatype Op = Type(c: nat) | ScrollUp | ScrollDown | Erase(move: bool) | Position(x: nat, y: nat)
              | Move(newX: nat, newY: nat, oldX: nat, oldY: nat) | Colours(fg: nat, bg: nat)
              | Switches(cursorOn: bool, scrollOn: bool) | Margins(top: nat, bottom: nat) | FlushAll

  predicate Allowed(op: Op, rows: nat) {
    match op
    case Margins(top, bottom) => top < bottom <= rows
    case Position(x, y) => x < WORD && y < WORD
    case _ => true
  }

  /** The plain terminal: a flush changes nothing. */
  function Applied(v: View, op: Op, rows: nat, cols: nat): (r: View)
    requires 0 < rows && 0 < cols && v.top < v.bottom <= rows && Allowed(op, rows)
    ensures r.top < r.bottom <= rows
  {
    var blank := Cell(32, v.fg, v.bg);
    match op
    case Type(c) => Typed(v, rows, cols, c)
    case ScrollUp => v.(cells := ScrolledUp(v.cells, cols, v.top, v.bottom, blank))
    case ScrollDown => v.(cells := ScrolledDown(v.cells, cols, v.top, v.bottom, blank))
    case Erase(move) =>
      v.(cells := Filled(|v.cells|, blank), x := if move then 0 else v.x, y := if move then 0 else v.y)
    case Position(x, y) => v.(x := Clamped(x, cols), y := Clamped(y, rows))
    case Move(newX, newY, oldX, oldY) => v.(cells := Moved(v.cells, rows, cols, newX, newY, oldX, oldY))
    case Colours(fg, bg) => v.(fg := fg, bg := bg)
    case Switches(cursorOn, scrollOn) => v.(cursorOn := cursorOn, scrollOn := scrollOn)
    case Margins(top, bottom) => v.(top := top, bottom := bottom)
    case FlushAll => v
  }

  function AppliedAll(v: View, ops: seq<Op>, rows: nat, cols: nat): (r: View)
    requires 0 < rows && 0 < cols && v.top < v.bottom <= rows && forall i {:trigger ops[i]} :: 0 <= i < |ops| ==>
             Allowed(ops[i], rows)
    ensures r.top < r.bottom <= rows
  {
    if ops == [] then v else Applied(AppliedAll(v, ops[..|ops| - 1], rows, cols), ops[|ops| - 1], rows, cols)
  }

  /** A display that shows the grid, except for one cell drawn in swapped colours. */
  lemma CursorFaithful(k: Cache, i: int, trail: int)
    requires |k.grid| == |k.slots| && NONE <= i < |k.grid|
    ensures FaithfulTo(k.grid, k.grid, trail)
    ensures Unqueued(k) ==>
              Shows(if i == NONE then k.grid else k.grid[i := Swap(Logical(k)[i])], Logical(k), i)
    ensures i != NONE ==>
              (FaithfulTo(k.grid[i := Swap(Logical(k)[i])], Settled(k, i).grid, trail) <==>
               i == trail || SameColours(Logical(k)[i]))
  {
    if i != NONE {
      var d := k.grid[i := Swap(Logical(k)[i])];
      assert d[i] == Swap(Logical(k)[i]);
    }
  }

  ghost predicate FaithfulTo(display: seq<Cell>, grid: seq<Cell>, trail: int) {
    |display| == |grid| && forall i {:trigger display[i]} :: 0 <= i < |grid| && i != trail ==> display[i] == grid[i]
  }

  ghost predicate Shows(display: seq<Cell>, cells: seq<Cell>, cursor: int) {
    |display| == |cells| && forall i {:trigger display[i]} :: 0 <= i < |cells| ==>
      display[i] == if i == cursor then Swap(cells[i]) else cells[i]
  }

  /** A flush brings the display in line with the contents exactly when the cells it leaves alone were right. */
  lemma FlushShows(k: Cache, n: nat, rows: nat, cols: nat, before: seq<Cell>, after: seq<Cell>, cursor: int, trail: int,
                   next: int)
    requires Sound(k, n, rows, cols) && Refreshed(k, before, after, cursor, trail) && (cursor == NONE || cursor == next)
    ensures Shows(after, Logical(k), cursor) <==>
            (forall i {:trigger before[i]} :: 0 <= i < n && i != cursor && i != trail && k.slots[i] == NONE ==>
             before[i] == k.grid[i])
    ensures FaithfulTo(before, k.grid, trail) ==>
            Shows(after, Logical(k), cursor) && FaithfulTo(after, Logical(k), next)
  {
    forall i | 0 <= i < n && i != cursor && i != trail && k.slots[i] == NONE
      ensures after[i] == before[i] && Logical(k)[i] == k.grid[i]
    {
      assert RefreshedAt(k, before, after, cursor, trail, i);
    }
    forall i | 0 <= i < n && (i == cursor || i == trail || k.slots[i] != NONE)
      ensures after[i] == if i == cursor then Swap(Logical(k)[i]) else Logical(k)[i]
    {
      assert RefreshedAt(k, before, after, cursor, trail, i);
    }
  }

  /** Dropping a queued cell's map entry keeps the cache sound only if there was none. */
  lemma SettledSound(k: Cache, n: nat, rows: nat, cols: nat, i: nat)
    requires Sound(k, n, rows, cols) && i < n
    ensures Sound(Settled(k, i), n, rows, cols) <==> k.slots[i] == NONE
  {
    hide CellNo;
    SettleKeeps(k, n, rows, cols, i);
    assert Leads(k, cols, i);
    var r := Settled(k, i);
    if k.slots[i] == NONE {
      assert r.grid == k.grid && r.slots == k.slots;
    } else {
      assert !Home(r, n, rows, cols, k.slots[i]);
    }
  }

  /**
   What the display holds after a flush: a cell under the cursor, a queued one, the one the cursor left, or another.
   */
  ghost predicate RefreshedAt(k: Cache, before: seq<Cell>, after: seq<Cell>, cursor: int, trail: int, i: nat)
    requires |k.grid| == |k.slots| == |before| == |after| && i < |after|
  {
    after[i] == if i == cursor then Swap(Logical(k)[i]) else if k.slots[i] != NONE || i == trail then Logical(k)[i]
      else before[i]
  }

  ghost predicate Refreshed(k: Cache, before: seq<Cell>, after: seq<Cell>, cursor: int, trail: int) {
    && |k.grid| == |k.slots| == |before| == |after|
    && forall i: nat {:trigger RefreshedAt(k, before, after, cursor, trail, i)} :: i < |after| ==>
         RefreshedAt(k, before, after, cursor, trail, i)
  }

  lemma RefreshedSteps(k: Cache, d: seq<Cell>, cursor: int, trail: int, k1: Cache, d1: seq<Cell>, slots: seq<int>,
                       d2: seq<Cell>, d3: seq<Cell>)
    requires |k.grid| == |k.slots| == |d| && NONE <= cursor < |d| && NONE <= trail < |d|
    requires if cursor == NONE then k1 == k && d1 == d
             else k1 == Settled(k, cursor) && d1 == d[cursor := Swap(Logical(k)[cursor])]
    requires Logical(k1) == Logical(k) && Drawn(k1, slots, d1, d2)
    requires forall i {:trigger slots[i]} :: 0 <= i < |d| ==> slots[i] == NONE
    requires d3 == if trail == NONE || trail == cursor then d2 else d2[trail := Logical(k)[trail]]
    ensures Refreshed(k, d, d3, cursor, trail)
  {
    hide Logical;
    forall i: nat {:trigger RefreshedAt(k, d, d3, cursor, trail, i)} | i < |d3|
      ensures RefreshedAt(k, d, d3, cursor, trail, i)
    {
      assert DrawnAt(k1, slots, d1, d2, i);
    }
  }

  lemma CursorCells(x: nat, y: nat, oldX: nat, oldY: nat, n: nat, rows: nat, cols: nat)
    requires Area(n, rows, cols)
    ensures x < cols && y < rows ==> CellNo(x, y, cols) < n
    ensures oldX < cols && oldY < rows ==> CellNo(oldX, oldY, cols) < n
    ensures x < cols && y < rows && oldX < cols && oldY < rows && CellNo(x, y, cols) == CellNo(oldX, oldY, cols) ==>
              x == oldX && y == oldY
  {
    hide CellNo;
    if x < cols && y < rows {
      CellNoBound(x, y, n, rows, cols);
    }
    if oldX < cols && oldY < rows {
      CellNoBound(oldX, oldY, n, rows, cols);
    }
  }

  lemma SoundDrains(k: Cache, n: nat, rows: nat, cols: nat)
    requires Sound(k, n, rows, cols)
    ensures Coherent(k, n, rows, cols) && Draining(k, n, rows, cols, 0)
  {
    hide CellNo;
    forall m {:trigger k.queue[m]} | 0 <= m < k.used
      ensures k.slots[CellNo(k.queue[m].x, k.queue[m].y, cols)] == m
    {
      assert Home(k, n, rows, cols, m);
    }
    forall i {:trigger k.slots[i]} | 0 <= i < n && k.slots[i] != NONE
      ensures 0 <= k.slots[i]
    {
      assert Leads(k, cols, i);
    }
  }

  lemma SettleDrains(k: Cache, n: nat, rows: nat, cols: nat, i: nat)
    requires Coherent(k, n, rows, cols) && Draining(k, n, rows, cols, 0) && i < n
    ensures Sized(k, n) && Draining(Settled(k, i), n, rows, cols, 0)
  {
    hide CellNo;
    SettleKeeps(k, n, rows, cols, i);
  }

  lemma EmptySound(k: Cache, n: nat, rows: nat, cols: nat)
    requires Sized(k, n) && k.used == 0
    requires Unqueued(k)
    ensures Sound(k, n, rows, cols) && Logical(k) == k.grid
  {
  }

  /** Mid-flush: the first `j` items are done, a later one is where its cell leads or has been dropped. */
  ghost predicate Draining(k: Cache, n: nat, rows: nat, cols: nat, j: nat) {
    && Coherent(k, n, rows, cols) && j <= k.used
    && (forall i {:trigger k.slots[i]} :: 0 <= i < n && k.slots[i] != NONE ==> j <= k.slots[i])
    && (forall m {:trigger k.queue[m]} :: j <= m < k.used ==>
          k.slots[CellNo(k.queue[m].x, k.queue[m].y, cols)] == m ||
            k.slots[CellNo(k.queue[m].x, k.queue[m].y, cols)] == NONE)
  }

  /** A cell that has left the queue shows its contents; any other shows what it did. */
  ghost predicate DrawnAt(k: Cache, slots: seq<int>, before: seq<Cell>, after: seq<Cell>, i: nat)
    requires |k.grid| == |k.slots| == |slots| == |before| == |after| && i < |after|
  {
    && (k.slots[i] == NONE ==> slots[i] == NONE)
    && after[i] == if k.slots[i] != NONE && slots[i] == NONE then Logical(k)[i] else before[i]
  }

  ghost predicate Drawn(k: Cache, slots: seq<int>, before: seq<Cell>, after: seq<Cell>) {
    && |k.grid| == |k.slots| == |slots| == |before| == |after|
    && forall i: nat {:trigger DrawnAt(k, slots, before, after, i)} :: i < |after| ==>
       DrawnAt(k, slots, before, after, i)
  }

  lemma DrainingFacts(k: Cache, n: nat, rows: nat, cols: nat, j: nat)
    requires Draining(k, n, rows, cols, j)
    ensures Sized(k, n)
    ensures j < k.used ==> OnScreen(k.queue[j], n, rows, cols)
  {
  }

  lemma DrawnNothing(k: Cache, d: seq<Cell>)
    requires |k.grid| == |k.slots| == |d|
    ensures Drawn(k, k.slots, d, d)
  {
  }

  lemma DrawnOne(k: Cache, now: Cache, before: seq<Cell>, shown: seq<Cell>, i: nat)
    requires Drawn(k, now.slots, before, shown) && i < |shown| && |now.grid| == |shown|
    requires now.slots[i] != NONE && Logical(now) == Logical(k)
    ensures Drawn(k, now.slots[i := NONE], before, shown[i := CellAt(now, i)])
  {
    var slots, after := now.slots[i := NONE], shown[i := CellAt(now, i)];
    assert Logical(now)[i] == CellAt(now, i);
    forall a: nat {:trigger DrawnAt(k, slots, before, after, a)} | a < |after|
      ensures DrawnAt(k, slots, before, after, a)
    {
      assert DrawnAt(k, now.slots, before, shown, a);
    }
  }

  lemma DrainSkip(k: Cache, n: nat, rows: nat, cols: nat, j: nat)
    requires Draining(k, n, rows, cols, j) && j < k.used
    requires k.slots[CellNo(k.queue[j].x, k.queue[j].y, cols)] == NONE
    ensures Draining(k, n, rows, cols, j + 1)
  {
    hide CellNo;
    forall i {:trigger k.slots[i]} | 0 <= i < n && k.slots[i] != NONE
      ensures j + 1 <= k.slots[i]
    {
      assert Leads(k, cols, i);
    }
  }

  lemma DrainOne(k: Cache, n: nat, rows: nat, cols: nat, j: nat)
    requires Draining(k, n, rows, cols, j) && j < k.used
    requires k.slots[CellNo(k.queue[j].x, k.queue[j].y, cols)] != NONE
    ensures var i := CellNo(k.queue[j].x, k.queue[j].y, cols);
            && Draining(Settled(k, i), n, rows, cols, j + 1) && Logical(Settled(k, i)) == Logical(k)
            && CellAt(k, i) == k.queue[j].c
  {
    hide CellNo;
    var o := CellNo(k.queue[j].x, k.queue[j].y, cols);
    assert k.slots[o] == j;
    SettleKeeps(k, n, rows, cols, o);
    var r := Settled(k, o);
    forall i {:trigger r.slots[i]} | 0 <= i < n && r.slots[i] != NONE
      ensures j + 1 <= r.slots[i]
    {
      assert Leads(k, cols, i);
    }
  }

  /** When every item is done, no cell is queued and the grid is the whole truth. */
  lemma Drained(k: Cache, n: nat, rows: nat, cols: nat)
    requires Draining(k, n, rows, cols, k.used)
    ensures Unqueued(k)
    ensures Logical(k) == k.grid
  {
    forall i {:trigger k.slots[i]} | 0 <= i < n
      ensures k.slots[i] == NONE
    {
      assert Leads(k, cols, i);
    }
  }

  /** The cache with cell `i` no longer queued, its contents counted as drawn. */
  ghost function Settled(k: Cache, i: nat): (r: Cache)
    requires i < |k.grid| && i < |k.slots|
  {
    k.(grid := k.grid[i := CellAt(k, i)], slots := k.slots[i := NONE])
  }

  lemma CoherentCell(k: Cache, n: nat, rows: nat, cols: nat, i: nat)
    requires Coherent(k, n, rows, cols) && i < n
    ensures Sized(k, n) && (k.slots[i] != NONE ==> 0 <= k.slots[i] < k.used)
    ensures Logical(k)[i] == if k.slots[i] != NONE then k.queue[k.slots[i]].c else k.grid[i]
  {
    assert Leads(k, cols, i);
  }

  lemma SettleKeeps(k: Cache, n: nat, rows: nat, cols: nat, i: nat)
    requires Coherent(k, n, rows, cols) && i < n
    ensures Coherent(Settled(k, i), n, rows, cols) && Logical(Settled(k, i)) == Logical(k)
  {
    hide CellNo;
    var r := Settled(k, i);
    forall a: nat {:trigger Leads(r, cols, a)} | a < n
      ensures Leads(r, cols, a)
    {
      assert Leads(k, cols, a);
    }
    forall a: nat | a < n
      ensures CellAt(r, a) == CellAt(k, a)
    {
      assert Leads(k, cols, a);
    }
    assert Logical(r) == Logical(k);
  }

  function Filled(n: nat, c: Cell): (r: seq<Cell>) {
    seq(n, _ => c)
  }

  lemma AllBlank(cells: seq<Cell>, blank: Cell)
    ensures Blanked(cells, 0, |cells|, blank) == Filled(|cells|, blank)
  {
  }

  /** One cell copied to another place; nothing if either place is outside the screen. */
  function Moved(cells: seq<Cell>, rows: nat, cols: nat, newX: nat, newY: nat, oldX: nat, oldY: nat): (r: seq<Cell>) {
    if oldX < cols && oldY < rows && newX < cols && newY < rows && CellNo(oldX, oldY, cols) < |cells|
    then PutAt(cells, rows, cols, newX, newY, cells[CellNo(oldX, oldY, cols)]) else cells
  }

  function Clamped(x: nat, bound: nat): (r: nat)
    requires 0 < bound
    ensures r < bound && (x < bound ==> r == x)
  {
    if x < bound then x else if x % WORD32 >= 0x8000_0000 then 0 else bound - 1
  }

  /**
   What the clamping is for: the cursor moved by `k` places stays at the edge it would pass. That is so exactly if the
   32 bits that are looked at have the sign of the place, which they have as long as `k` is not huge.
   */
  lemma Saturates(x: nat, k: nat, bound: nat)
    requires x < bound && x + k < WORD
    ensures Clamped((x + WORD - k) % WORD, bound) == (if k <= x then x - k else 0) <==>
              k <= x || (bound <= WORD + x - k && (bound == 1 || (k - x - 1) % WORD32 < 0x8000_0000))
    ensures Clamped(x + k, bound) == Least(x + k, bound - 1) <==>
            x + k < bound || bound == 1 || (x + k) % WORD32 < 0x8000_0000
  {
    if k > x {
      LowBits(k - x - 1);
      assert (x + WORD - k) % WORD == WORD - 1 - (k - x - 1);
    }
  }

  /** The low 32 bits of a number and of its complement. */
  lemma LowBits(d: nat)
    requires d < WORD
    ensures (WORD - 1 - d) % WORD32 == WORD32 - 1 - d % WORD32
  {
    DivMod(d, WORD32);
    DivModUnique(WORD - 1 - d, WORD32, WORD32 - 1 - d / WORD32, WORD32 - 1 - d % WORD32);
  }

  /** A cursor that has gone past the bottom margin stays on the last row and the rows scroll. */
  function Rolled(v: View, cols: nat): (r: View)
    requires 0 < cols && v.top < v.bottom
  {
    if v.y == v.bottom then v.(y := v.y - 1, cells := ScrolledUp(v.cells, cols, v.top, v.bottom, Cell(32, v.fg, v.bg)))
    else v
  }

  /** At the right edge, the cursor goes to the next line. */
  function Wrapped(v: View, cols: nat): (r: View)
    requires 0 < cols && v.top < v.bottom
  {
    if v.x >= cols && (v.y < v.bottom - 1 || v.scrollOn) then
      var u := Rolled(v.(x := 0, y := (v.y + 1) % WORD), cols);
      if u.y >= cols then u.(y := cols - 1) else u
    else v
  }

  /** A character on the plain grid, after which the cursor advances. */
  function Typed(v: View, rows: nat, cols: nat, c: nat): (r: View)
    requires 0 < cols && v.top < v.bottom
  {
    var w := Wrapped(v, cols);
    w.(cells := PutAt(w.cells, rows, cols, w.x, w.y, Cell(c, w.fg, w.bg)), x := (w.x + 1) % WORD)
  }

  /**
   The row a character typed at the right edge belongs in: the next one, or the last one above the bottom margin after
   a scroll.
   */
  function NextRow(v: View): (y: nat) {
    if v.y + 1 == v.bottom then v.y else v.y + 1
  }

  /** The cells once the cursor has gone to the next row. */
  function CellsThen(v: View, cols: nat): (r: seq<Cell>)
    requires 0 < cols
    ensures |r| == |v.cells|
  {
    if v.y + 1 == v.bottom then ScrolledUp(v.cells, cols, v.top, v.bottom, Cell(32, v.fg, v.bg)) else v.cells
  }

  lemma WrappedThere(v: View, cols: nat)
    requires 0 < cols < WORD && v.top < v.bottom && cols <= v.x && v.y + 1 < WORD && v.scrollOn
    ensures Wrapped(v, cols) == v.(cells := CellsThen(v, cols), x := 0, y := Least(NextRow(v), cols - 1))
  {
    hide ScrolledUp;
  }

  /** A character has been put in column 0 of a row of the screen, which was scrolled first if need be. */
  ghost predicate TypedIn(v: View, r: View, rows: nat, cols: nat, c: nat, y: nat)
    requires 0 < cols
  {
    var cells := CellsThen(v, cols);
    && y < rows && CellNo(0, y, cols) < |cells|
    && r == v.(cells := cells[CellNo(0, y, cols) := Cell(c, v.fg, v.bg)], x := 1, y := y)
  }

  /**
   At the right edge a character goes in that row if and only if it is a row of the screen and its number is less than
   the number of columns. Otherwise the row is cut to the last such number, and below the screen the character is lost.
   */
  lemma WrapsInto(v: View, rows: nat, cols: nat, c: nat)
    requires 0 < cols < WORD && v.top < v.bottom <= rows < WORD && cols <= v.x && v.y + 1 < WORD && v.scrollOn
    requires Area(|v.cells|, rows, cols)
    ensures var r, y := Typed(v, rows, cols, c), Least(NextRow(v), cols - 1);
            && (TypedIn(v, r, rows, cols, c, NextRow(v)) <==> NextRow(v) < rows && NextRow(v) < cols)
            && (if y < rows then TypedIn(v, r, rows, cols, c, y) else r == v.(x := 1, y := y))
  {
    var y, cells := Least(NextRow(v), cols - 1), CellsThen(v, cols);
    WrappedThere(v, cols);
    if y < rows {
      CellNoBound(0, y, |v.cells|, rows, cols);
    } else {
      assert v.y + 1 != v.bottom && v.cells == cells;
    }
    hide ScrolledUp, Area, CellNo, Wrapped, CellsThen;
  }

  /**
   A character takes the cursor off the screen downwards exactly if it wraps on the last row of a screen that is
   wider than tall, with a margin below it.
   */
  lemma LeavesBelow(v: View, rows: nat, cols: nat, c: nat)
    requires 0 < cols && v.top < v.bottom <= rows < WORD && v.y < rows
    ensures Typed(v, rows, cols, c).y >= rows <==>
            v.x >= cols && v.scrollOn && v.y == rows - 1 && v.bottom < rows < cols
  {
    hide ScrolledUp, PutAt;
  }

  /** A screen of three rows and one column: the second character typed replaces the first instead of going below it. */
  method NarrowScreen() returns (s: Screen)
    ensures fresh(s) && s.Valid() && s.rows == 3 && s.cols == 1
    ensures var cells := s.Seen().cells; |cells| == 3 && cells[0].c == 66 && cells[1].c == 32
  {
    hide Sound, Logical, FaithfulTo, Shows, Filled, Area, Unqueued;
    s := new Screen(3, 1, 1, 0);
    ghost var v := s.Seen();
    FilledAt(3, Cell(32, 1, 0), 0);
    FilledAt(3, Cell(32, 1, 0), 1);
    s.RawPutchar(65);
    s.RawPutchar(66);
    assert Typed(v, 3, 1, 65) == v.(cells := v.cells[0 := Cell(65, 1, 0)], x := 1);
    ghost var w := Typed(v, 3, 1, 65);
    assert Typed(w, 3, 1, 66) == w.(cells := w.cells[0 := Cell(66, 1, 0)]);
  }

  lemma SameCell(k: Cache, i: nat, c: Cell)
    requires i < |k.grid| == |k.slots| && k.slots[i] == NONE && k.grid[i] == c
    ensures Logical(k)[i := c] == Logical(k)
  {
  }

  /**
   A full refresh with nothing queued, but after the cursor has moved, leaves the cell it moved to in swapped colours
   for good: after a flush the cursor is elsewhere, nothing is queued, and the cell is still wrong.
   */
  method StaleCursor() returns (s: Screen)
    ensures fresh(s) && s.Valid() && Unqueued(s.Contents()) && !s.Showing()
  {
    hide Area, Sound, Logical, Unqueued, Refreshed, FaithfulTo, Filled;
    s := RefreshAfterMove();
    s.SetCursorPos(2, 0);
    ghost var k, d := s.Contents(), s.display[..];
    s.Flush();
    RefreshedOther(k, d, s.display[..], 2, 0, 1);
    assert s.display[..][1] == Cell(32, 0, 1);
    FilledAt(3, Cell(32, 1, 0), 1);
  }

  method RefreshAfterMove() returns (s: Screen)
    ensures fresh(s) && fresh(s.grid) && fresh(s.queue) && fresh(s.slots) && fresh(s.display)
    ensures s.Valid() && s.rows == 1 && s.cols == 3 && s.size == 3 && Unqueued(s.Contents())
    ensures s.cursorEnabled && s.oldCursorX == 0 && s.oldCursorY == 0
    ensures s.Seen().cells == Filled(3, Cell(32, 1, 0)) && s.display[1] == Cell(32, 0, 1)
  {
    hide Sound, Logical, FaithfulTo, Shows, Filled;
    s := new Screen(1, 3, 1, 0);
    s.SetCursorPos(1, 0);
    FilledAt(3, Cell(32, 1, 0), 1);
    assert s.Contents().slots[1] == NONE;
    s.FullRefresh();
    assert s.display[..][1] == Cell(32, 0, 1);
  }

  lemma FilledAt(n: nat, c: Cell, i: nat)
    requires i < n
    ensures |Filled(n, c)| == n && Filled(n, c)[i] == c
  {
  }

  lemma RefreshedOther(k: Cache, before: seq<Cell>, after: seq<Cell>, cursor: int, trail: int, i: nat)
    requires Refreshed(k, before, after, cursor, trail) && i < |k.slots| && i != cursor && i != trail && Unqueued(k)
    ensures after[i] == before[i]
  {
    assert RefreshedAt(k, before, after, cursor, trail, i);
  }
}
