/**
 What the sequences that edit the screen do to the plain grid (src/flanterm/flanterm.c:562-817). The source does it by
 typing blanks, moving single cells and scrolling by one row; here it is said which cells change, and to what.
 */
module Editing {
  import opened Arith
  import opened Framebuffer

  /** A plain grid of the right size, with proper margins. */
  ghost predicate Proper(v: View, rows: nat, cols: nat) {
    && 0 < rows < WORD && 0 < cols < WORD && Area(|v.cells|, rows, cols) && |v.cells| < WORD
    && v.top < v.bottom <= rows
  }

  function BlankOf(v: View): (c: Cell) {
    Cell(32, v.fg, v.bg)
  }

  /** The cells from number `lo` up to number `hi` become blank. */
  ghost function Wiped(cells: seq<Cell>, lo: nat, hi: nat, blank: Cell): (r: seq<Cell>)
    ensures |r| == |cells|
  {
    seq(|cells|, i requires 0 <= i < |cells| => if lo <= i < hi then blank else cells[i])
  }

  // -------------------------------------------------------------------------
  // Typing blanks

  /** `n` blanks typed one after the other. */
  ghost function TypedBlanks(v: View, rows: nat, cols: nat, n: nat): (r: View)
    requires 0 < cols && v.top < v.bottom
    ensures r == v.(cells := r.cells, x := r.x, y := r.y) && |r.cells| == |v.cells|
  {
    if n == 0 then v else Typed(TypedBlanks(v, rows, cols, n - 1), rows, cols, 32)
  }

  lemma {:induction false} TypedTwice(v: View, rows: nat, cols: nat, a: nat, b: nat)
    requires 0 < cols && v.top < v.bottom
    ensures TypedBlanks(v, rows, cols, a + b) == TypedBlanks(TypedBlanks(v, rows, cols, a), rows, cols, b)
  {
    hide Typed;
    if b > 0 {
      TypedTwice(v, rows, cols, a, b - 1);
    }
  }

  /** The number of the first cell of a row, and of the row after it. */
  lemma RowOf(n: nat, rows: nat, cols: nat, y: nat)
    requires Area(n, rows, cols) && y < rows
    ensures CellNo(0, y, cols) + cols == CellNo(0, y + 1, cols) <= n
    ensures forall x {:trigger CellNo(x, y, cols)} :: CellNo(x, y, cols) == CellNo(0, y, cols) + x
  {
    Distribute(cols, y, 1);
    MulMonotone(cols, y + 1, rows);
  }

  /** Within a line, blanks wipe as many cells as there are blanks. */
  lemma {:induction false} BlanksInLine(v: View, rows: nat, cols: nat, n: nat)
    requires Proper(v, rows, cols) && v.y < rows && v.x + n <= cols
    ensures TypedBlanks(v, rows, cols, n)
         == v.(cells := Wiped(v.cells, CellNo(v.x, v.y, cols), CellNo(v.x, v.y, cols) + n, BlankOf(v)), x := v.x + n)
  {
    hide Area, CellNo, Typed;
    if n == 0 {
      assert v.cells == Wiped(v.cells, CellNo(v.x, v.y, cols), CellNo(v.x, v.y, cols), BlankOf(v));
    } else {
      BlanksInLine(v, rows, cols, n - 1);
      RowOf(|v.cells|, rows, cols, v.y);
      var i := CellNo(v.x, v.y, cols);
      var w := TypedBlanks(v, rows, cols, n - 1);
      BlankInLine(w, rows, cols);
      WipedMore(v.cells, i, i + n - 1, BlankOf(v));
    }
  }

  lemma BlankInLine(v: View, rows: nat, cols: nat)
    requires Proper(v, rows, cols) && v.y < rows && v.x < cols
    ensures CellNo(v.x, v.y, cols) < |v.cells|
    ensures Typed(v, rows, cols, 32) == v.(cells := v.cells[CellNo(v.x, v.y, cols) := BlankOf(v)], x := v.x + 1)
  {
    hide Area, CellNo, ScrolledUp;
    RowOf(|v.cells|, rows, cols, v.y);
  }

  lemma WipedMore(cells: seq<Cell>, lo: nat, hi: nat, blank: Cell)
    requires lo <= hi < |cells|
    ensures Wiped(cells, lo, hi, blank)[hi := blank] == Wiped(cells, lo, hi + 1, blank)
  {
  }

  /** On the last row, blanks past the right edge change nothing. */
  lemma {:induction false} BlanksPastEdge(v: View, rows: nat, cols: nat, n: nat)
    requires Proper(v, rows, cols) && !v.scrollOn && v.x >= cols && v.y >= v.bottom - 1 && v.x + n < WORD
    ensures TypedBlanks(v, rows, cols, n) == v.(x := v.x + n)
  {
    hide Typed;
    if n > 0 {
      BlanksPastEdge(v, rows, cols, n - 1);
      BlankPastEdge(v.(x := v.x + n - 1), rows, cols);
    }
  }

  lemma BlankPastEdge(v: View, rows: nat, cols: nat)
    requires 0 < cols <= v.x && v.top < v.bottom && !v.scrollOn && v.y >= v.bottom - 1 && v.x + 1 < WORD
    ensures Typed(v, rows, cols, 32) == v.(x := v.x + 1)
  {
    hide CellNo, ScrolledUp;
  }

  /** The row after a row, as `flanterm_fb_raw_putchar` has it: never past the number of columns. */
  function Below(y: nat, cols: nat): (r: nat)
    requires 0 < cols
  {
    if y + 1 >= cols then cols - 1 else y + 1
  }

  /** Further up, the cursor goes on to the next row. */
  lemma {:induction false} BlanksWrap(v: View, rows: nat, cols: nat, n: nat)
    requires Proper(v, rows, cols) && !v.scrollOn && v.x >= cols && v.y < v.bottom - 1 && 0 < n
    ensures TypedBlanks(v, rows, cols, n) == TypedBlanks(v.(x := 0, y := Below(v.y, cols)), rows, cols, n)
  {
    hide Area, CellNo, ScrolledUp, PutAt;
    var w := v.(x := 0, y := Below(v.y, cols));
    if n == 1 {
      assert Wrapped(v, cols) == w && Wrapped(w, cols) == w;
      assert TypedBlanks(v, rows, cols, 0) == v && TypedBlanks(w, rows, cols, 0) == w;
    } else {
      BlanksWrap(v, rows, cols, n - 1);
    }
  }

  /** The last row that blanks typed without scrolling can reach. */
  function LastRow(v: View, cols: nat): (r: nat)
    requires 0 < cols && v.top < v.bottom
    ensures r < v.bottom && r < cols
  {
    Least(v.bottom, cols) - 1
  }

  lemma WipedTwice(cells: seq<Cell>, lo: nat, mid: nat, hi: nat, blank: Cell)
    requires lo <= mid <= hi
    ensures Wiped(Wiped(cells, lo, mid, blank), mid, hi, blank) == Wiped(cells, lo, hi, blank)
    ensures Wiped(Wiped(cells, lo, hi, blank), lo, hi, blank) == Wiped(cells, lo, hi, blank)
  {
  }

  lemma RowsInOrder(cols: nat, a: nat, b: nat)
    requires a <= b
    ensures CellNo(0, a, cols) <= CellNo(0, b, cols) && (a < b ==> CellNo(0, a, cols) + cols <= CellNo(0, b, cols))
  {
    MulMonotone(cols, a, b);
    if a < b {
      MulMonotone(cols, a + 1, b);
      Distribute(cols, a, 1);
    }
  }

  /** Blanks from the start of a row on wipe as many cells as there are blanks, but none after the last row. */
  lemma {:induction false} BlanksFromRow(v: View, rows: nat, cols: nat, n: nat)
    requires Proper(v, rows, cols) && !v.scrollOn && v.x == 0 && v.y <= LastRow(v, cols) && n < WORD
    ensures TypedBlanks(v, rows, cols, n).cells
         == Wiped(v.cells, CellNo(0, v.y, cols), Least(CellNo(0, v.y, cols) + n, CellNo(0, LastRow(v, cols) + 1, cols)),
                  BlankOf(v))
    decreases n
  {
    hide Area, CellNo, TypedBlanks;
    var lo, last := CellNo(0, v.y, cols), LastRow(v, cols);
    RowOf(|v.cells|, rows, cols, v.y);
    RowsInOrder(cols, v.y + 1, last + 1);
    if n <= cols {
      BlanksInLine(v, rows, cols, n);
    } else {
      BlanksInLine(v, rows, cols, cols);
      var w := TypedBlanks(v, rows, cols, cols);
      TypedTwice(v, rows, cols, cols, n - cols);
      if v.y == v.bottom - 1 {
        BlanksPastEdge(w, rows, cols, n - cols);
      } else {
        BlanksWrap(w, rows, cols, n - cols);
        BlanksFromRow(w.(x := 0, y := Below(v.y, cols)), rows, cols, n - cols);
        WipedTwice(v.cells, lo, lo + cols, Least(lo + n, CellNo(0, last + 1, cols)), BlankOf(v));
      }
    }
  }

  /**
   Which cells `n` blanks wipe: the rest of the line, and then, if there is a next row to go to, cells from its start
   on.
   */
  ghost function Spaced(v: View, cols: nat, n: nat): (r: seq<Cell>)
    requires v.x < cols && v.top < v.bottom
    ensures |r| == |v.cells|
  {
    var i := CellNo(v.x, v.y, cols);
    var line := Wiped(v.cells, i, i + Least(n, cols - v.x), BlankOf(v));
    if n <= cols - v.x || v.y >= v.bottom - 1 then line
    else
      var next := CellNo(0, Below(v.y, cols), cols);
      Wiped(line, next, Least(next + (n - (cols - v.x)), CellNo(0, LastRow(v, cols) + 1, cols)), BlankOf(v))
  }

  lemma BlanksSpaced(v: View, rows: nat, cols: nat, n: nat)
    requires Proper(v, rows, cols) && !v.scrollOn && v.x < cols && v.y < rows && v.x + n < WORD
    ensures TypedBlanks(v, rows, cols, n).cells == Spaced(v, cols, n)
  {
    hide Area, CellNo, TypedBlanks, Wiped;
    if n <= cols - v.x {
      BlanksInLine(v, rows, cols, n);
    } else {
      var k := cols - v.x;
      BlanksInLine(v, rows, cols, k);
      var w := TypedBlanks(v, rows, cols, k);
      TypedTwice(v, rows, cols, k, n - k);
      if v.y >= v.bottom - 1 {
        BlanksPastEdge(w, rows, cols, n - k);
      } else {
        BlanksWrap(w, rows, cols, n - k);
        BlanksFromRow(w.(x := 0, y := Below(v.y, cols)), rows, cols, n - k);
      }
    }
  }

  /** Off the screen, blanks change nothing. */
  lemma {:induction false} BlanksOffScreen(v: View, rows: nat, cols: nat, n: nat)
    requires Proper(v, rows, cols) && !v.scrollOn && v.y >= rows
    ensures TypedBlanks(v, rows, cols, n).cells == v.cells && TypedBlanks(v, rows, cols, n).y == v.y
  {
    hide Area, CellNo, ScrolledUp;
    if n > 0 {
      BlanksOffScreen(v, rows, cols, n - 1);
    }
  }

  /** The same from any cursor: one that waits at the right edge goes on to the next row first, if it can. */
  ghost function SpacedFrom(v: View, rows: nat, cols: nat, n: nat): (r: seq<Cell>)
    requires 0 < cols && v.top < v.bottom
    ensures |r| == |v.cells|
  {
    if v.y >= rows then v.cells
    else if v.x < cols then Spaced(v, cols, n)
    else if n == 0 || v.y >= v.bottom - 1 then v.cells
    else
      var next := CellNo(0, Below(v.y, cols), cols);
      Wiped(v.cells, next, Least(next + n, CellNo(0, LastRow(v, cols) + 1, cols)), BlankOf(v))
  }

  lemma BlanksAnywhere(v: View, rows: nat, cols: nat, n: nat)
    requires Proper(v, rows, cols) && !v.scrollOn && v.x + n < WORD
    ensures TypedBlanks(v, rows, cols, n).cells == SpacedFrom(v, rows, cols, n)
  {
    hide Area, CellNo, TypedBlanks, Spaced;
    if v.y >= rows {
      BlanksOffScreen(v, rows, cols, n);
    } else if v.x < cols {
      BlanksSpaced(v, rows, cols, n);
    } else if n == 0 {
      TypedNone(v, rows, cols);
    } else if v.y >= v.bottom - 1 {
      BlanksPastEdge(v, rows, cols, n);
    } else {
      BlanksWrap(v, rows, cols, n);
      BlanksFromRow(v.(x := 0, y := Below(v.y, cols)), rows, cols, n);
    }
  }

  lemma TypedNone(v: View, rows: nat, cols: nat)
    requires 0 < cols && v.top < v.bottom
    ensures TypedBlanks(v, rows, cols, 0) == v
  {
  }

  // -------------------------------------------------------------------------
  // Erasing

  /** Where a cursor is, as `flanterm_fb_get_cursor_pos` says. */
  function Column(v: View, cols: nat): (x: nat)
    requires 0 < cols
    ensures x < cols
  {
    Least(v.x, cols - 1)
  }

  function Row(v: View, rows: nat): (y: nat)
    requires 0 < rows
    ensures y < rows
  {
    Least(v.y, rows - 1)
  }

  /** How many blanks control sequence J types: the cells from the cursor to the end of the screen. */
  function CellsFrom(x: nat, y: nat, rows: nat, cols: nat): (r: nat)
    requires x < cols && y < rows
  {
    var rowsRemaining: nat := rows - (y + 1);
    rowsRemaining * cols + (cols - (x + 1)) + 1
  }

  lemma CellsFromRows(n: nat, x: nat, y: nat, rows: nat, cols: nat)
    requires Area(n, rows, cols) && x < cols && y < rows
    ensures CellNo(x, y, cols) + CellsFrom(x, y, rows, cols) == n && x <= CellNo(x, y, cols)
  {
    Distribute(cols, rows, y + 1);
    Distribute(cols, y, 1);
  }

  /** The rest of a line, unless the cursor waits at the right edge; then the rows below, as far as blanks get. */
  ghost function ErasedRest(v: View, rows: nat, cols: nat): (r: seq<Cell>)
    requires 0 < cols && v.top < v.bottom
    ensures |r| == |v.cells|
  {
    if v.y >= rows then v.cells
    else
      var line := if v.x < cols then Wiped(v.cells, CellNo(v.x, v.y, cols), CellNo(0, v.y + 1, cols), BlankOf(v))
          else v.cells;
      if v.y >= v.bottom - 1 then line
      else Wiped(line, CellNo(0, Below(v.y, cols), cols), CellNo(0, LastRow(v, cols) + 1, cols), BlankOf(v))
  }

  lemma EraseRest(v: View, rows: nat, cols: nat)
    requires Proper(v, rows, cols)
    ensures SpacedFrom(v, rows, cols, CellsFrom(Column(v, cols), Row(v, rows), rows, cols)) == ErasedRest(v, rows, cols)
  {
    hide Area, CellNo, CellsFrom, Wiped;
    if v.y < rows {
      var n := |v.cells|;
      var x := Column(v, cols);
      CellsFromRows(n, x, v.y, rows, cols);
      RowOf(n, rows, cols, v.y);
      if v.y < v.bottom - 1 {
        var next, last := Below(v.y, cols), LastRow(v, cols);
        RowOf(n, rows, cols, last);
        RowOf(n, rows, cols, v.y + 1);
      }
    }
  }

  /** No cell is blank already, so that what an erasure leaves out can be seen. */
  ghost predicate Inked(v: View) {
    forall i {:trigger v.cells[i]} :: 0 <= i < |v.cells| ==> v.cells[i] != BlankOf(v)
  }

  lemma Unlike(v: View, cells: seq<Cell>, lo: nat, hi: nat, i: nat)
    requires Inked(v) && |cells| == |v.cells| && lo <= i < hi && i < |cells| && cells[i] == v.cells[i]
    ensures cells != Wiped(v.cells, lo, hi, BlankOf(v))
  {
    assert Wiped(v.cells, lo, hi, BlankOf(v))[i] == BlankOf(v);
  }

  /** Everything from the cursor on is erased, whatever it is, if and only if the blanks can get to the last row. */
  lemma ErasesRest(v: View, rows: nat, cols: nat)
    requires Proper(v, rows, cols)
    ensures var whole := ErasedRest(v, rows, cols) ==
            Wiped(v.cells, CellNo(Column(v, cols), Row(v, rows), cols), |v.cells|, BlankOf(v));
            var reached := v.x < cols && v.y < rows && (v.y == rows - 1 || v.bottom == rows <= cols);
            (reached ==> whole) && (Inked(v) ==> (whole <==> reached))
  {
    hide Area, CellNo, Inked, Wiped;
    var n := |v.cells|;
    var x, y := Column(v, cols), Row(v, rows);
    var lo := CellNo(x, y, cols);
    RowOf(n, rows, cols, y);
    RowOf(n, rows, cols, rows - 1);
    RowsInOrder(cols, y, rows - 1);
    LastIs(n, rows, cols);
    if v.y < rows && v.y < v.bottom - 1 {
      var next, last := Below(v.y, cols), LastRow(v, cols);
      RowsInOrder(cols, v.y + 1, rows - 1);
      RowsInOrder(cols, last + 1, rows);
      if last < rows - 1 {
        RowsInOrder(cols, last + 1, rows - 1);
      }
      if next > y {
        RowsInOrder(cols, y + 1, next);
      } else {
        RowsInOrder(cols, last + 1, y + 1);
      }
    }
    if v.x < cols && v.y < rows && (v.y == rows - 1 || v.bottom == rows <= cols) {
      if v.y < v.bottom - 1 {
        WipedTwice(v.cells, lo, CellNo(0, v.y + 1, cols), n, BlankOf(v));
      }
    } else if Inked(v) {
      var i := if v.y < rows && v.x >= cols && !(v.y < v.bottom - 1 && v.y + 1 >= cols) then lo else n - 1;
      ErasedAt(v, rows, cols, i);
      Unlike(v, ErasedRest(v, rows, cols), lo, n, i);
    }
  }

  lemma LastIs(n: nat, rows: nat, cols: nat)
    requires Area(n, rows, cols)
    ensures CellNo(0, rows, cols) == n
  {
  }

  /** A cell that is neither in the rest of the line nor in the rows below stays. */
  lemma ErasedAt(v: View, rows: nat, cols: nat, i: nat)
    requires 0 < cols && v.top < v.bottom && i < |v.cells|
    requires v.y < rows ==> (v.x >= cols || !(CellNo(v.x, v.y, cols) <= i < CellNo(0, v.y + 1, cols)))
    requires v.y < rows && v.y < v.bottom - 1 ==>
             !(CellNo(0, Below(v.y, cols), cols) <= i < CellNo(0, LastRow(v, cols) + 1, cols))
    ensures ErasedRest(v, rows, cols)[i] == v.cells[i]
  {
  }

  /** Everything up to a place, as far as blanks get. */
  ghost function ErasedTo(v: View, cols: nat, x: nat, y: nat): (r: seq<Cell>)
    requires 0 < cols && v.top < v.bottom
    ensures |r| == |v.cells|
  {
    Wiped(v.cells, 0, Least(CellNo(x, y, cols) + 1, CellNo(0, LastRow(v, cols) + 1, cols)), BlankOf(v))
  }

  /** Everything up to a place is erased, whatever it is, if and only if blanks can get to its row. */
  lemma ErasesTo(v: View, rows: nat, cols: nat, x: nat, y: nat)
    requires Proper(v, rows, cols) && x < cols && y < rows
    ensures var whole := ErasedTo(v, cols, x, y) == Wiped(v.cells, 0, CellNo(x, y, cols) + 1, BlankOf(v));
            var reached := y < v.bottom && y < cols;
            (reached ==> whole) && (Inked(v) ==> (whole <==> reached))
  {
    hide Area, CellNo, Inked, Wiped;
    var i, last := CellNo(x, y, cols), LastRow(v, cols);
    RowOf(|v.cells|, rows, cols, y);
    if y <= last {
      RowsInOrder(cols, y + 1, last + 1);
    } else {
      RowsInOrder(cols, last + 1, y);
      if Inked(v) {
        WipedAt(v.cells, 0, CellNo(0, last + 1, cols), BlankOf(v), i);
        Unlike(v, ErasedTo(v, cols, x, y), 0, i + 1, i);
      }
    }
  }

  lemma WipedAt(cells: seq<Cell>, lo: nat, hi: nat, blank: Cell, i: nat)
    requires i < |cells|
    ensures Wiped(cells, lo, hi, blank)[i] == if lo <= i < hi then blank else cells[i]
  {
  }

  /**
   The rest of the line is erased if and only if the cursor is on the screen; one that waits at the right edge erases
   below.
   */
  lemma ErasesLine(v: View, rows: nat, cols: nat)
    requires Proper(v, rows, cols)
    ensures var x, y := Column(v, cols), Row(v, rows);
            var whole := SpacedFrom(v, rows, cols, cols - x) ==
                Wiped(v.cells, CellNo(x, y, cols), CellNo(0, y + 1, cols), BlankOf(v));
            var here := v.y < rows && (v.x < cols || (cols == 1 && v.y == 0 && 1 < v.bottom));
            (here ==> whole) && (Inked(v) ==> (whole <==> here))
  {
    hide Area, CellNo, Inked, Wiped;
    var x, y := Column(v, cols), Row(v, rows);
    var i := CellNo(x, y, cols);
    RowOf(|v.cells|, rows, cols, y);
    if v.y < rows && v.x >= cols && v.y < v.bottom - 1 {
      var next, last := Below(y, cols), LastRow(v, cols);
      RowOf(|v.cells|, rows, cols, last);
      RowsInOrder(cols, next, last);
      RowsInOrder(cols, Least(y, next), y);
      RowsInOrder(cols, y, if next > y then next else y);
      if Inked(v) && !(cols == 1 && v.y == 0) {
        WipedAt(v.cells, CellNo(0, next, cols), Least(CellNo(0, next, cols) + 1, CellNo(0, last + 1, cols)), BlankOf(v),
                i);
        Unlike(v, SpacedFrom(v, rows, cols, cols - x), i, CellNo(0, y + 1, cols), i);
      }
    } else if !(v.y < rows && v.x < cols) && Inked(v) {
      Unlike(v, SpacedFrom(v, rows, cols, cols - x), i, CellNo(0, y + 1, cols), i);
    }
  }

  /** Blanks over some cells stay in the line if and only if there is room for them or no row to go on to. */
  lemma BlanksStay(v: View, rows: nat, cols: nat, n: nat)
    requires Proper(v, rows, cols) && v.x < cols && v.y < rows && n <= cols
    ensures var i := CellNo(v.x, v.y, cols);
            var line := Spaced(v, cols, n) == Wiped(v.cells, i, i + Least(n, cols - v.x), BlankOf(v));
            var fits := v.x + n <= cols || v.y >= v.bottom - 1;
            (fits ==> line) && (Inked(v) ==> (line <==> fits))
  {
    hide Area, CellNo, Inked, Wiped;
    if Inked(v) && v.x + n > cols && v.y < v.bottom - 1 {
      var i, next, last := CellNo(v.x, v.y, cols), Below(v.y, cols), LastRow(v, cols);
      var line := Wiped(v.cells, i, i + (cols - v.x), BlankOf(v));
      var j := CellNo(0, next, cols);
      RowOf(|v.cells|, rows, cols, v.y);
      RowOf(|v.cells|, rows, cols, last);
      RowsInOrder(cols, next, last);
      RowsInOrder(cols, Least(v.y, next), v.y);
      RowsInOrder(cols, v.y, if next > v.y then next else v.y);
      WipedAt(v.cells, i, i + (cols - v.x), BlankOf(v), j);
      WipedAt(line, j, Least(j + (n - (cols - v.x)), CellNo(0, last + 1, cols)), BlankOf(v), j);
      InkedAt(v, j);
    }
  }

  lemma InkedAt(v: View, i: nat)
    requires Inked(v) && i < |v.cells|
    ensures v.cells[i] != BlankOf(v)
  {
  }

  // -------------------------------------------------------------------------
  // Opening and closing gaps

  /** A gap of `n` cells before number `end`; the cells from `lo` on move right. With no gap at all they are wiped. */
  ghost function Opened(cells: seq<Cell>, lo: nat, end: nat, n: nat, blank: Cell): (r: seq<Cell>)
    ensures |r| == |cells|
  {
    seq(|cells|, i requires 0 <= i < |cells| =>
      if !(lo <= i < end) then cells[i] else if 0 < n && lo + n <= i then cells[i - n] else blank)
  }

  /** The cells after a gap of `n` cells move left; the places they leave stay as they are. */
  ghost function Closed(cells: seq<Cell>, lo: nat, end: nat, n: nat): (r: seq<Cell>)
    ensures |r| == |cells|
  {
    seq(|cells|, i requires 0 <= i < |cells| => if lo <= i && i + n < end <= |cells| then cells[i + n] else cells[i])
  }

  /** Control sequence @ once the cells from number `i` on have been moved and wiped. */
  lemma OpenStep(cells: seq<Cell>, i: nat, end: nat, n: nat, blank: Cell)
    requires i < end <= |cells|
    ensures var c := Opened(cells, i + 1, end, n, blank);
            var m := if i + n < end then c[i + n := c[i]] else c;
            m[i := blank] == Opened(cells, i, end, n, blank)
  {
    var c := Opened(cells, i + 1, end, n, blank);
    var m := if i + n < end then c[i + n := c[i]] else c;
    var r, e := m[i := blank], Opened(cells, i, end, n, blank);
    forall k | 0 <= k < |cells|
      ensures r[k] == e[k]
    {
    }
  }

  /**
   What opening a gap is meant to do: as many blanks as it has cells, and the rest of the line after them as far as
   it fits.
   */
  ghost function PutIn(v: View, cols: nat, x: nat, y: nat, n: nat): (r: seq<Cell>)
    requires x < cols
    ensures |r| == |v.cells|
  {
    var lo, end := CellNo(x, y, cols), CellNo(0, y + 1, cols);
    seq(|v.cells|, i requires 0 <= i < |v.cells| =>
      if !(lo <= i < end) then v.cells[i] else if lo + n <= i then v.cells[i - n] else BlankOf(v))
  }

  /** Nothing but blanks from the cursor to the end of its line. */
  ghost predicate BlankRest(v: View, cols: nat, x: nat, y: nat) {
    forall i {:trigger v.cells[i]} :: CellNo(x, y, cols) <= i < CellNo(0, y + 1, cols) && i < |v.cells| ==>
      v.cells[i] == BlankOf(v)
  }

  /**
   Control sequence @ does so if and only if the gap has a cell, or the rest of the line is blank: a gap of none
   wipes it.
   */
  lemma OpensGap(v: View, rows: nat, cols: nat, x: nat, y: nat, n: nat)
    requires Proper(v, rows, cols) && x < cols && y < rows
    ensures Opened(v.cells, CellNo(x, y, cols), CellNo(0, y + 1, cols), n, BlankOf(v)) == PutIn(v, cols, x, y, n) <==>
              0 < n || BlankRest(v, cols, x, y)
  {
    var lo, end := CellNo(x, y, cols), CellNo(0, y + 1, cols);
    var r, e := Opened(v.cells, lo, end, n, BlankOf(v)), PutIn(v, cols, x, y, n);
    hide CellNo;
    if n == 0 {
      forall i | 0 <= i < |v.cells|
        ensures r[i] == e[i] <==> (lo <= i < end ==> v.cells[i] == BlankOf(v))
      {
      }
      if r == e {
        assert BlankRest(v, cols, x, y);
      }
    } else {
      assert r == e;
    }
  }

  /** Control sequence P once the cells up to number `i` have been moved. */
  lemma CloseStep(cells: seq<Cell>, lo: nat, i: nat, n: nat)
    requires lo + n <= i < |cells|
    ensures Closed(cells, lo, i, n)[i - n := Closed(cells, lo, i, n)[i]] == Closed(cells, lo, i + 1, n)
  {
    var c := Closed(cells, lo, i, n);
    var r, e := c[i - n := c[i]], Closed(cells, lo, i + 1, n);
    forall k | 0 <= k < |cells|
      ensures r[k] == e[k]
    {
    }
  }

  /** `n` cells taken out of the line, and blanks typed where the source thinks the line has become free. */
  ghost function Deleted(v: View, cols: nat, x: nat, y: nat, n: nat): (r: seq<Cell>)
    requires x < cols < WORD && v.top < v.bottom && n < WORD
    ensures |r| == |v.cells|
  {
    Spaced(v.(cells := Closed(v.cells, CellNo(x, y, cols), CellNo(0, y + 1, cols), n),
              x := Clamped((cols + WORD - n) % WORD, cols), y := y),
           cols, Least(n, cols))
  }

  /** What taking cells out of a line is meant to do: the rest moves up, and the end of the line becomes blank. */
  ghost function TakenOut(v: View, cols: nat, x: nat, y: nat, n: nat): (r: seq<Cell>)
    requires x < cols
  {
    var k, lo, end := Least(n, cols - x), CellNo(x, y, cols), CellNo(0, y + 1, cols);
    Wiped(Closed(v.cells, lo, end, k), if k <= end then end - k else 0, end, BlankOf(v))
  }

  /**
   Control sequence P does so if and only if there are as many cells to take out. With fewer, it is so only if the
   blanks happen to start at the cursor and stay in the line, or to come back to its row from the start.
   */
  lemma DeletesRest(v: View, rows: nat, cols: nat, x: nat, y: nat, n: nat)
    requires Proper(v, rows, cols) && x < cols && y < rows && n < WORD
    ensures var start := Clamped((cols + WORD - n) % WORD, cols);
            var right := Deleted(v, cols, x, y, n) == TakenOut(v, cols, x, y, n);
            var fits := || x + n <= cols
                        || (start == x && (x == 0 || y >= v.bottom - 1))
                        || (x == 0 && y < v.bottom - 1 && Below(y, cols) == y);
            (fits ==> right) && (Inked(v) ==> (right <==> fits))
  {
    hide Area, CellNo, Inked, Clamped, Deleted, TakenOut;
    if x + n <= cols {
      DeletesAll(v, rows, cols, x, y, n);
    } else {
      DeletesTooMany(v, rows, cols, x, y, n);
    }
  }

  lemma DeletesAll(v: View, rows: nat, cols: nat, x: nat, y: nat, n: nat)
    requires Proper(v, rows, cols) && y < rows && x + n <= cols && x < cols
    ensures Deleted(v, cols, x, y, n) == TakenOut(v, cols, x, y, n)
  {
    hide Area, CellNo;
    var lo, end, blank := CellNo(x, y, cols), CellNo(0, y + 1, cols), BlankOf(v);
    RowOf(|v.cells|, rows, cols, y);
    var start := Clamped((cols + WORD - n) % WORD, cols);
    assert 0 < n ==> start == cols - n;
    if n == 0 {
      assert Closed(v.cells, lo, end, 0) == v.cells;
      assert Wiped(v.cells, end, end, blank) == v.cells;
      assert Spaced(v.(cells := v.cells, x := start, y := y), cols, 0) == v.cells;
    }
  }

  lemma DeletesTooMany(v: View, rows: nat, cols: nat, x: nat, y: nat, n: nat)
    requires Proper(v, rows, cols) && x < cols && y < rows && n < WORD && x + n > cols
    ensures var start := Clamped((cols + WORD - n) % WORD, cols);
            var right := Deleted(v, cols, x, y, n) == TakenOut(v, cols, x, y, n);
            var fits := (start == x && (x == 0 || y >= v.bottom - 1)) ||
                (x == 0 && y < v.bottom - 1 && Below(y, cols) == y);
            (fits ==> right) && (Inked(v) ==> (right <==> fits))
  {
    var start := Clamped((cols + WORD - n) % WORD, cols);
    var row, lo, end, blank := CellNo(0, y, cols), CellNo(x, y, cols), CellNo(0, y + 1, cols), BlankOf(v);
    hide Area, CellNo, Inked, Clamped, Wiped, Deleted, TakenOut, Spaced;
    RowOf(|v.cells|, rows, cols, y);
    DeletedForm(v, rows, cols, x, y, n);
    if start == 0 || n <= cols || y >= v.bottom - 1 {
      if Inked(v) && start != x {
        DifferentStart(v, row + start, lo, end);
      }
    } else {
      var line, next := Wiped(v.cells, row + start, end, blank), CellNo(0, Below(y, cols), cols);
      if Below(y, cols) == y {
        WipedRound(v.cells, row, row + start, end, blank);
        if Inked(v) && x != 0 {
          DifferentStart(v, row, lo, end);
        }
      } else if Inked(v) {
        BelowApart(cols, y);
        WipedAt(line, next, next + start, blank, next);
        WipedAt(v.cells, lo, end, blank, next);
        InkedAt(v, next);
      }
    }
  }

  /** What is wiped when more cells are to be taken out than there are. */
  lemma DeletedForm(v: View, rows: nat, cols: nat, x: nat, y: nat, n: nat)
    requires Proper(v, rows, cols) && x < cols && y < rows && n < WORD && x + n > cols
    ensures var start := Clamped((cols + WORD - n) % WORD, cols);
            var row, lo, end := CellNo(0, y, cols), CellNo(x, y, cols), CellNo(0, y + 1, cols);
            var line, next := Wiped(v.cells, row + start, end, BlankOf(v)), CellNo(0, Below(y, cols), cols);
            && TakenOut(v, cols, x, y, n) == Wiped(v.cells, lo, end, BlankOf(v))
            && (n <= cols ==> start < x)
            && if start == 0 || n <= cols || y >= v.bottom - 1 then Deleted(v, cols, x, y, n) == line
               else Deleted(v, cols, x, y, n) == Wiped(line, next, next + start, BlankOf(v)) && next + cols <= |v.cells|
  {
    var start := Clamped((cols + WORD - n) % WORD, cols);
    assert n <= cols ==> start == cols - n;
    hide Area, CellNo, Clamped, Wiped;
    var lo, end := CellNo(x, y, cols), CellNo(0, y + 1, cols);
    RowOf(|v.cells|, rows, cols, y);
    ClosedNothing(v.cells, lo, end, n);
    ClosedNothing(v.cells, lo, end, cols - x);
    if !(start == 0 || n <= cols || y >= v.bottom - 1) {
      SpacedRound(v.(x := start, y := y), rows, cols);
    }
  }

  lemma ClosedNothing(cells: seq<Cell>, lo: nat, end: nat, n: nat)
    requires lo + n >= end
    ensures Closed(cells, lo, end, n) == cells
  {
  }

  /** Wiping from different places on can be seen. */
  lemma DifferentStart(v: View, a: nat, b: nat, end: nat)
    requires Inked(v) && a != b && a < end <= |v.cells| && b < end
    ensures Wiped(v.cells, a, end, BlankOf(v)) != Wiped(v.cells, b, end, BlankOf(v))
  {
    var i := Least(a, b);
    WipedAt(v.cells, a, end, BlankOf(v), i);
    WipedAt(v.cells, b, end, BlankOf(v), i);
    InkedAt(v, i);
  }

  lemma WipedRound(cells: seq<Cell>, row: nat, mid: nat, end: nat, blank: Cell)
    requires row <= mid <= end
    ensures Wiped(Wiped(cells, mid, end, blank), row, mid, blank) == Wiped(cells, row, end, blank)
  {
  }

  /** A line's worth of blanks that do not start at the start of one go on in the next row. */
  lemma SpacedRound(v: View, rows: nat, cols: nat)
    requires Proper(v, rows, cols) && 0 < v.x < cols && v.y < v.bottom - 1
    ensures var i, next := CellNo(v.x, v.y, cols), CellNo(0, Below(v.y, cols), cols);
            && Spaced(v, cols, cols) ==
               Wiped(Wiped(v.cells, i, CellNo(0, v.y + 1, cols), BlankOf(v)), next, next + v.x, BlankOf(v))
            && next + cols <= |v.cells|
  {
    hide Area, CellNo, Wiped;
    RowOf(|v.cells|, rows, cols, v.y);
    RowOf(|v.cells|, rows, cols, LastRow(v, cols));
    RowOf(|v.cells|, rows, cols, Below(v.y, cols));
    RowsInOrder(cols, Below(v.y, cols) + 1, LastRow(v, cols) + 1);
  }

  lemma BelowApart(cols: nat, y: nat)
    requires 0 < cols && Below(y, cols) != y
    ensures CellNo(0, Below(y, cols), cols) >= CellNo(0, y + 1, cols) ||
            CellNo(0, Below(y, cols), cols) + cols <= CellNo(0, y, cols)
  {
    RowsInOrder(cols, Least(Below(y, cols), y + 1), y + 1);
    if Below(y, cols) < y {
      RowsInOrder(cols, Below(y, cols), y);
    }
  }

  // -------------------------------------------------------------------------
  // Scrolling by several rows

  /** The cells from `t` up to `b` move up by `k`. */
  ghost function MovedUp(cells: seq<Cell>, t: nat, b: nat, k: nat, blank: Cell): (r: seq<Cell>)
    ensures |r| == |cells|
  {
    seq(|cells|, i requires 0 <= i < |cells| =>
      if !(t <= i < b) then cells[i] else if i + k < b && i + k < |cells| then cells[i + k] else blank)
  }

  /** The cells from `t` up to `b` move down by `k`. */
  ghost function MovedDown(cells: seq<Cell>, t: nat, b: nat, k: nat, blank: Cell): (r: seq<Cell>)
    ensures |r| == |cells|
  {
    seq(|cells|, i requires 0 <= i < |cells| =>
      if !(t <= i < b) then cells[i] else if t + k <= i then cells[i - k] else blank)
  }

  lemma ScrollOnce(cells: seq<Cell>, rows: nat, cols: nat, top: nat, bottom: nat, k: nat, blank: Cell)
    requires 0 < cols && Area(|cells|, rows, cols) && top < bottom <= rows
    ensures var t, b := CellNo(0, top, cols), CellNo(0, bottom, cols);
            ScrolledUp(MovedUp(cells, t, b, k, blank), cols, top, bottom, blank) ==
              MovedUp(cells, t, b, k + cols, blank)
  {
    var t, b := CellNo(0, top, cols), CellNo(0, bottom, cols);
    RowOf(|cells|, rows, cols, bottom - 1);
    RowsInOrder(cols, top, bottom - 1);
    var m := MovedUp(cells, t, b, k, blank);
    var r, e := ScrolledUp(m, cols, top, bottom, blank), MovedUp(cells, t, b, k + cols, blank);
    forall i | 0 <= i < |cells|
      ensures r[i] == e[i]
    {
      hide CellNo, Area;
      RowAt(i, cols, top);
      RowAt(i, cols, bottom - 1);
      RowAt(i, cols, bottom);
    }
  }

  lemma RowAt(i: nat, cols: nat, a: nat)
    requires 0 < cols
    ensures a <= i / cols <==> CellNo(0, a, cols) <= i
  {
    RowRange(i, cols, a);
  }

  /** A top margin at or below the bottom one stands for its own row. */
  function RowEnd(top: nat, bottom: nat): (r: nat) {
    if bottom <= top then top + 1 else bottom
  }

  lemma RevScrollOnce(cells: seq<Cell>, rows: nat, cols: nat, top: nat, bottom: nat, k: nat, blank: Cell)
    requires 0 < cols && Area(|cells|, rows, cols) && top < rows && 0 < bottom <= rows
    ensures var t, b := CellNo(0, top, cols), CellNo(0, RowEnd(top, bottom), cols);
            ScrolledDown(MovedDown(cells, t, b, k, blank), cols, top, bottom, blank) ==
              MovedDown(cells, t, b, k + cols, blank)
  {
    var t, b := CellNo(0, top, cols), CellNo(0, RowEnd(top, bottom), cols);
    RowOf(|cells|, rows, cols, top);
    RowsInOrder(cols, top + 1, RowEnd(top, bottom));
    var m := MovedDown(cells, t, b, k, blank);
    var r, e := ScrolledDown(m, cols, top, bottom, blank), MovedDown(cells, t, b, k + cols, blank);
    forall i | 0 <= i < |cells|
      ensures r[i] == e[i]
    {
      hide CellNo, Area;
      RowAt(i, cols, top);
      RowAt(i, cols, top + 1);
      RowAt(i, cols, bottom);
      RowAt(i, cols, RowEnd(top, bottom));
    }
  }
}
