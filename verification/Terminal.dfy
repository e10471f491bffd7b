/**
 The terminal (src/flanterm/flanterm.c:86-916, 1422-1573): bytes in, operations on the screen out. Whatever the bytes
 are, each does what its step on the plain grid says, the parser's counters and indices stay in range, every loop ends,
 and when the terminal flushes the display shows what was written.
 */
module Terminal {
  import opened Arith
  import opened Framebuffer
  import opened Editing
  import opened Parser

  class Terminal {
    const screen: Screen
    const tables: Tables
    var ctx: Context

    /** The screen is sound, shows what it has drawn, and has proper margins. */
    ghost predicate Display()
      reads screen, screen.grid, screen.queue, screen.slots, screen.display
    {
      screen.Valid() && screen.top < screen.bottom && screen.Faithful()
    }

    /** The screen is sound and the parser in range, also in the middle of a sequence. */
    ghost predicate Live()
      reads this, screen, screen.grid, screen.queue, screen.slots, screen.display
    {
      TablesOk(tables) && InRange(ctx) && Display()
    }

    /** Between the operations of a sequence, the cursor is beside the screen as well. */
    ghost predicate Valid()
      reads this, screen, screen.grid, screen.queue, screen.slots, screen.display
    {
      Live() && Beside(ctx, screen.Seen(), screen.cols, Most(screen.rows, screen.cols)) && 3 * screen.size < WORD
    }

    /** Between bytes, scrolling is on. */
    ghost predicate Resting()
      reads this, screen, screen.grid, screen.queue, screen.slots, screen.display
    {
      Valid() && screen.scrollEnabled
    }

    lemma ValidNear()
      requires Valid()
      ensures Near(screen.Seen())
    {
      hide Display, InRange, Proper;
      SeenProper();
      BesideNear(ctx, screen.Seen(), screen.rows, screen.cols, Most(screen.rows, screen.cols));
    }

    /** The attributes and colours in force. */
    ghost function Chosen(): (s: Colours)
      reads this, screen
    {
      Colours.Chosen(ctx.attributes, screen.textFg, screen.textBg)
    }

    /** `flanterm_context_reinit`. */
    method Reinit()
      requires TablesOk(tables) && InRange(ctx) && screen.Valid() && screen.Faithful()
      modifies this, screen`cursorEnabled, screen`scrollEnabled, screen`top, screen`bottom
      ensures Live() && ctx == Fresh(old(ctx))
      ensures screen.cursorEnabled && screen.scrollEnabled && screen.top == 0 && screen.bottom == screen.rows
    {
      hide Area, Sound, FaithfulTo, InRange;
      ctx := Fresh(ctx);
      screen.cursorEnabled, screen.scrollEnabled := true, true;
      screen.top, screen.bottom := 0, screen.rows;
    }

    constructor (rows: nat, cols: nat, tables: Tables)
      requires 0 < rows && 0 < cols && 3 * (rows * cols) < WORD && TablesOk(tables)
      ensures Resting() && fresh(screen) && this.tables == tables && ctx.autoflush
      ensures fresh(screen.grid) && fresh(screen.queue) && fresh(screen.slots) && fresh(screen.display)
    {
      hide Area, Sound, FaithfulTo;
      var none := Attributes(false, false, false, 0, 0);
      screen := new Screen(rows, cols, tables.defaultFg, 0xFFFF_FFFF);
      this.tables := tables;
      ctx := Context(8, true, NO_FLAGS, true, 0, 0, 0, [0, 1], 0, 0,
                     Params(seq(MAX_VALUES, _ => 0), 0, false), 0, 0, none, Saved(none, 0, 0, 0, 0, 0));
      new;
      Reinit();
    }

    // -------------------------------------------------------------------------
    // Colours

    /** The colour of the text or of its background. */
    method Paint(fg: bool, colour: nat)
      requires Live()
      modifies screen`textFg, screen`textBg
      ensures Live() && Chosen() == Painted(old(Chosen()), fg, colour)
    {
      hide Area, Sound, FaithfulTo, InRange;
      if fg {
        screen.textFg := colour;
      } else {
        screen.textBg := colour;
      }
    }

    /** `set_text_fg` and its kin: an index into one of the two palettes. */
    method PaintIndex(fg: bool, bright: bool, c: nat)
      requires Live() && c < 8
      modifies screen`textFg, screen`textBg
      ensures Live() && Chosen() == Painted(old(Chosen()), fg, OfPalette(tables, bright, c))
    {
      hide Display, InRange;
      Paint(fg, if bright then tables.bright[c] else tables.ansi[c]);
    }

    /** `set_text_fg_default` and its kin. */
    method PaintDefault(fg: bool, bright: bool)
      requires Live()
      modifies screen`textFg, screen`textBg
      ensures Live() && Chosen() == Painted(old(Chosen()), fg, OfDefault(tables, fg, bright))
    {
      hide Display, InRange;
      Paint(fg, if fg then (if bright then tables.defaultFgBright else tables.defaultFg)
                else if bright then tables.defaultBgBright else NO_BACKGROUND);
    }

    /** A remembered colour, or the default where there is none. */
    method PaintAgain(fg: bool, bright: bool, c: nat)
      requires Live() && ColourOk(c)
      modifies screen`textFg, screen`textBg
      ensures Live() && Chosen() == Painted(old(Chosen()), fg, Remembered(tables, fg, bright, c))
    {
      hide Display, InRange, Painted;
      if c != NO_COLOUR {
        PaintIndex(fg, bright, c);
      } else {
        PaintDefault(fg, bright);
      }
    }

    /** `swap_palette`. */
    method SwapPalette()
      requires Live()
      modifies screen`textFg, screen`textBg
      ensures Live() && Chosen() == Swapped(old(Chosen()))
    {
      hide Area, Sound, FaithfulTo, InRange;
      screen.textFg, screen.textBg := screen.textBg, screen.textFg;
    }

    method SetAttributes(a: Attributes)
      requires Live() && AttributesOk(a)
      modifies this
      ensures Live() && Recoloured(old(ctx), ctx) && Chosen() == old(Chosen()).(attributes := a)
    {
      hide Display;
      ctx := ctx.(attributes := a);
    }

    /** The default case of `sgr`. */
    method ResetColours()
      requires Live()
      modifies this, screen`textFg, screen`textBg
      ensures Live() && Recoloured(old(ctx), ctx) && Chosen() == ByDefault(tables)
    {
      hide Display, InRange;
      if ctx.attributes.reverseVideo {
        SwapPalette();
      }
      SetAttributes(NO_ATTRIBUTES);
      PaintDefault(false, false);
      PaintDefault(true, false);
    }

    /** The one-number cases of `sgr` that set or clear an attribute. */
    method SgrAttribute(v: nat)
      requires Live()
      modifies this, screen`textFg, screen`textBg
      ensures Live() && Recoloured(old(ctx), ctx)
      ensures AttributesOk(old(ctx).attributes) && Chosen() == AttributeSet(tables, old(Chosen()), v)
    {
      hide Display, InRange, Recoloured, Painted, Remembered, Swapped, ColourOk;
      var a := ctx.attributes;
      RecolouredItself(ctx);
      if v == 1 {
        SetAttributes(a.(bold := true));
        PaintAgain(!a.reverseVideo, true, a.primary);
      } else if v == 5 {
        SetAttributes(a.(bgBold := true));
        PaintAgain(a.reverseVideo, true, a.bg);
      } else if v == 22 {
        SetAttributes(a.(bold := false));
        PaintAgain(!a.reverseVideo, false, a.primary);
      } else if v == 25 {
        SetAttributes(a.(bgBold := false));
        PaintAgain(a.reverseVideo, false, a.bg);
      } else if v == 7 && !a.reverseVideo {
        SetAttributes(a.(reverseVideo := true));
        SwapPalette();
      } else if v == 27 && a.reverseVideo {
        SetAttributes(a.(reverseVideo := false));
        SwapPalette();
      }
    }

    /** The one-number cases of `sgr` that choose a colour. */
    method SgrColour(v: nat)
      requires Live()
      modifies this, screen`textFg, screen`textBg
      ensures Live() && Recoloured(old(ctx), ctx)
      ensures TablesOk(tables) && Chosen() == ColourSet(tables, old(Chosen()), v)
    {
      hide Display, InRange, Recoloured, Painted, OfPalette, OfDefault, Swapped;
      var a := ctx.attributes;
      RecolouredItself(ctx);
      if 30 <= v <= 37 {
        SetAttributes(a.(primary := v - 30));
        PaintIndex(!a.reverseVideo, a.bold, v - 30);
      } else if 40 <= v <= 47 {
        SetAttributes(a.(bg := v - 40));
        PaintIndex(a.reverseVideo, a.bgBold, v - 40);
      } else if 90 <= v <= 97 {
        SetAttributes(a.(primary := v - 90));
        PaintIndex(!a.reverseVideo, true, v - 90);
      } else if 100 <= v <= 107 {
        SetAttributes(a.(bg := v - 100));
        PaintIndex(a.reverseVideo, true, v - 100);
      } else if v == 39 || v == 49 {
        SetAttributes(if v == 39 then a.(primary := NO_COLOUR) else a.(bg := NO_COLOUR));
        if a.reverseVideo {
          SwapPalette();
        }
        PaintDefault(v == 39, if v == 39 then a.bold else a.bgBold);
        if a.reverseVideo {
          SwapPalette();
        }
      }
    }

    /**
     The cases 38 and 48 of `sgr`: a colour by three more numbers or by one; returns the last one used, or to stop.
     */
    method SgrExtended(i: nat) returns (j: nat, stop: bool)
      requires Live() && i < ctx.params.count
      modifies screen`textFg, screen`textBg
      ensures Live() && (!stop ==> i < j < ctx.params.count) && ParamsOk(ctx.params)
      ensures (Chosen(), j, stop) == Extended(tables, old(Chosen()), ctx.params, i)
    {
      hide Display, Painted, OfPalette, Rgb;
      var v, n := ctx.params.values, ctx.params.count;
      var fg := v[i] == 38;
      j := i + 1;
      if j >= n {
        return j, true;
      }
      if v[j] == 2 {
        if j + 3 >= n {
          return j, true;
        }
        Paint(fg, tables.rgb(Rgb(v[j + 1], v[j + 2], v[j + 3])));
        j := j + 3;
      } else if v[j] == 5 {
        if j + 1 >= n {
          return j, true;
        }
        var col := v[j + 1];
        j := j + 1;
        if col < 8 {
          PaintIndex(fg, false, col);
        } else if col < 16 {
          PaintIndex(fg, true, col - 8);
        } else if col < 256 {
          Paint(fg, tables.rgb(tables.col256[col - 16]));
        }
      }
      stop := false;
    }

    /** `sgr`. */
    method Sgr()
      requires Live()
      modifies this, screen`textFg, screen`textBg
      ensures Live() && Recoloured(old(ctx), ctx) && InRange(old(ctx)) && TablesOk(tables)
      ensures Chosen() == Coloured(tables, old(Chosen()), old(ctx).params)
    {
      hide Display, InRange, Recoloured, ByDefault, Extended, SgrOne, AttributesOk;
      RecolouredItself(ctx);
      SavedFact(ctx);
      if ctx.params.count == 0 {
        ResetColours();
        return;
      }
      var i, n := 0, ctx.params.count;
      while i < n
        invariant Live() && Recoloured(old(ctx), ctx) && n == ctx.params.count && ctx.params == old(ctx).params &&
                  AttributesOk(ctx.attributes)
        invariant ColouredFrom(tables, Chosen(), ctx.params, i) ==
                  ColouredFrom(tables, old(Chosen()), old(ctx).params, 0)
        decreases n - i
      {
        ghost var before := ctx;
        ParamsFact(ctx, i);
        var v := ctx.params.values[i];
        if v == 38 || v == 48 {
          var stop;
          i, stop := SgrExtended(i);
          if stop {
            return;
          }
        } else {
          SgrPlain(v);
          RecolouredTwice(old(ctx), before, ctx);
        }
        RecolouredItself(ctx);
        i := i + 1;
      }
    }

    /** The one-number cases of `sgr`. */
    method SgrPlain(v: nat)
      requires Live()
      modifies this, screen`textFg, screen`textBg
      ensures Live() && Recoloured(old(ctx), ctx)
      ensures TablesOk(tables) && AttributesOk(old(ctx).attributes) && Chosen() == SgrOne(tables, old(Chosen()), v)
    {
      hide Display, InRange, Recoloured, ByDefault, AttributeSet, ColourSet, AttributesOk;
      RecolouredItself(ctx);
      if v == 0 {
        ResetColours();
      } else {
        SgrAttribute(v);
        ghost var between := ctx;
        RecolouredItself(ctx);
        SgrColour(v);
        RecolouredTwice(old(ctx), between, ctx);
      }
    }

    // -------------------------------------------------------------------------
    // The screen's operations

    /** The plain grid has the screen's size and proper margins. */
    lemma SeenProper()
      requires Live()
      ensures Proper(screen.Seen(), screen.rows, screen.cols) && |screen.Seen().cells| == screen.size
    {
      hide Sound, FaithfulTo, InRange;
      AreaBounds(screen.size, screen.rows, screen.cols);
    }

    method Put(c: nat)
      requires Live()
      modifies screen`queueI, screen`cursorX, screen`cursorY, screen.queue, screen.slots
      ensures Live() && screen.Seen() == Typed(old(screen.Seen()), screen.rows, screen.cols, c)
    {
      hide Area, Sound, FaithfulTo, InRange, Typed;
      screen.RawPutchar(c);
    }

    method Blanks(n: nat)
      requires Live()
      modifies screen`queueI, screen`cursorX, screen`cursorY, screen.queue, screen.slots
      ensures Live() && 0 < screen.cols && old(screen.Seen()).top < old(screen.Seen()).bottom
      ensures screen.Seen() == TypedBlanks(old(screen.Seen()), screen.rows, screen.cols, n)
    {
      hide Display, InRange, Typed;
      SeenProper();
      ghost var before := screen.Seen();
      TypedNone(before, screen.rows, screen.cols);
      var i := 0;
      while i < n
        invariant 0 <= i <= n && Live() && screen.Seen() == TypedBlanks(before, screen.rows, screen.cols, i)
      {
        Put(0x20);
        i := i + 1;
      }
    }

    method MoveTo(x: nat, y: nat)
      requires Live() && x < WORD && y < WORD
      modifies screen`cursorX, screen`cursorY
      ensures Live() && 0 < screen.cols && 0 < screen.rows
      ensures screen.Seen() == old(screen.Seen()).(x := Clamped(x, screen.cols), y := Clamped(y, screen.rows))
    {
      hide Area, Sound, FaithfulTo, InRange, Logical, Clamped;
      screen.SetCursorPos(x, y);
    }

    method Where() returns (x: nat, y: nat)
      requires Live()
      ensures x < screen.cols < WORD && y < screen.rows < WORD && screen.top < screen.bottom <= screen.rows
      ensures x == Column(screen.Seen(), screen.cols) && y == Row(screen.Seen(), screen.rows)
    {
      hide Sound, FaithfulTo, InRange;
      x, y := screen.GetCursorPos();
      AreaBounds(screen.size, screen.rows, screen.cols);
    }

    method ScrollUp(n: nat)
      requires Live()
      modifies screen`queueI, screen.queue, screen.slots
      ensures Live()
      ensures screen.Seen() == Upwards(old(screen.Seen()), screen.cols, n)
    {
      hide Area, Sound, FaithfulTo, InRange, Logical, ScrolledUp, MovedUp, CellNo;
      ghost var before := screen.Seen();
      SeenProper();
      UpwardsNone(before, screen.cols);
      var i := 0;
      while i < n
        invariant 0 <= i <= n && Live() && screen.Seen() == Upwards(before, screen.cols, i)
      {
        screen.Scroll();
        UpwardsStep(before, screen.rows, screen.cols, i);
        i := i + 1;
      }
    }

    /** `revscroll`, some times over, with a top margin that may lie below the bottom one while it lasts. */
    method ScrollDown(n: nat, top: nat)
      requires Live() && top < screen.rows
      modifies screen`queueI, screen`top, screen.queue, screen.slots
      ensures Live()
      ensures screen.Seen() == Downwards(old(screen.Seen()), screen.cols, top, n)
    {
      hide Area, Sound, FaithfulTo, InRange, Logical, ScrolledDown, MovedDown, CellNo;
      ghost var before := screen.Seen();
      SeenProper();
      DownwardsNone(before, screen.cols, top);
      var kept := screen.top;
      screen.top := top;
      var i := 0;
      while i < n
        invariant 0 <= i <= n && screen.Valid() && screen.Faithful() && screen.top == top
        invariant screen.Seen() == Downwards(before, screen.cols, top, i).(top := top)
      {
        screen.RevScroll();
        DownwardsStep(before, screen.rows, screen.cols, top, i);
        i := i + 1;
      }
      screen.top := kept;
    }

    method MoveCell(newX: nat, newY: nat, oldX: nat, oldY: nat)
      requires Live()
      modifies screen`queueI, screen.queue, screen.slots
      ensures Live()
      ensures screen.Seen() ==
              old(screen.Seen()).(cells := Moved(old(screen.Seen()).cells, screen.rows, screen.cols, newX, newY, oldX,
                                                 oldY))
    {
      hide Area, Sound, FaithfulTo, InRange, Logical, Moved;
      screen.MoveCharacter(newX, newY, oldX, oldY);
    }

    method Wipe(move: bool)
      requires Live()
      modifies screen`queueI, screen`cursorX, screen`cursorY, screen.queue, screen.slots
      ensures Live() && screen.Seen() == AllWiped(old(screen.Seen()), move)
    {
      hide Area, Sound, FaithfulTo, InRange, Logical, Filled;
      SeenProper();
      screen.Clear(move);
    }

    method FlushScreen()
      requires Live()
      modifies screen`queueI, screen`oldCursorX, screen`oldCursorY, screen.grid, screen.slots, screen.display
      ensures Live() && screen.Showing() && screen.Seen() == old(screen.Seen())
    {
      hide Area, Sound, FaithfulTo, InRange, Refreshed, Unqueued, Shows;
      screen.Flush();
    }

    // -------------------------------------------------------------------------
    // Control sequences

    /** From the corner up to the cursor, row by row. */
    method EraseUpTo(x: nat, y: nat)
      requires Live() && x < screen.cols < WORD && y < screen.rows < WORD && !screen.scrollEnabled
      modifies screen`queueI, screen`cursorX, screen`cursorY, screen.queue, screen.slots
      ensures Live() && 0 < screen.cols && old(screen.Seen()).top < old(screen.Seen()).bottom
      ensures screen.Seen() ==
              old(screen.Seen()).(cells := ErasedTo(old(screen.Seen()), screen.cols, x, y), x := x, y := y)
    {
      hide Display, InRange, Typed, CellNo, TypedBlanks, Clamped;
      SeenProper();
      ghost var start := screen.Seen().(x := 0, y := 0);
      ghost var rows, cols := screen.rows, screen.cols;
      ClampedOn(0, cols);
      ClampedOn(0, rows);
      MoveTo(0, 0);
      TypedNone(start, rows, cols);
      CellNoZero(cols);
      var yc, done := 0, false;
      while yc < screen.rows && !done
        invariant 0 <= yc <= rows && Live() && (done || yc <= y)
        invariant done ==> screen.Seen() == TypedTo(start, rows, cols, x, y)
        invariant !done ==> screen.Seen() == TypedBlanks(start, rows, cols, CellNo(0, yc, cols))
        decreases rows - yc
      {
        var xc := 0;
        while xc < screen.cols && !done
          invariant 0 <= xc <= cols && Live() && (done || yc < y || xc <= x)
          invariant done ==> screen.Seen() == TypedTo(start, rows, cols, x, y)
          invariant !done ==> screen.Seen() == TypedBlanks(start, rows, cols, CellNo(xc, yc, cols))
          decreases cols - xc
        {
          Put(0x20);
          TypedNext(start, rows, cols, xc, yc);
          if xc == x && yc == y {
            ClampedOn(x, cols);
            ClampedOn(y, rows);
            MoveTo(x, y);
            done := true;
          }
          xc := xc + 1;
        }
        RowFull(cols, yc);
        yc := yc + 1;
      }
      TypedToErases(start, rows, cols, x, y);
    }

    /** Control sequences J: erase from the cursor on, up to it, or everything. */
    method EraseDisplay(v: nat, x: nat, y: nat)
      requires Valid() && x < screen.cols < WORD && y < screen.rows < WORD && !screen.scrollEnabled
      requires x == Column(screen.Seen(), screen.cols) && y == Row(screen.Seen(), screen.rows)
      modifies screen`queueI, screen`cursorX, screen`cursorY, screen.queue, screen.slots
      ensures Valid() && 0 < screen.cols && old(screen.Seen()).top < old(screen.Seen()).bottom
      ensures screen.Seen() == DisplayErased(old(screen.Seen()), screen.rows, screen.cols, v, x, y)
    {
      hide Display, InRange, CellsFrom, Clamped, TypedBlanks, SpacedFrom, ErasedRest, ErasedTo, Filled;
      SeenProper();
      ValidNear();
      ghost var before := screen.Seen();
      if v == 0 {
        Blanks(CellsFrom(x, y, screen.rows, screen.cols));
        ClampedOn(x, screen.cols);
        ClampedOn(y, screen.rows);
        MoveTo(x, y);
        RestTyped(before, screen.rows, screen.cols);
      } else if v == 1 {
        EraseUpTo(x, y);
      } else if v == 2 || v == 3 {
        Wipe(false);
      }
    }

    /** Control sequences K: the same for a line. */
    method EraseLine(v: nat, x: nat, y: nat)
      requires Valid() && x < screen.cols < WORD && y < screen.rows < WORD && !screen.scrollEnabled
      requires x == Column(screen.Seen(), screen.cols) && y == Row(screen.Seen(), screen.rows)
      modifies screen`queueI, screen`cursorX, screen`cursorY, screen.queue, screen.slots
      ensures Valid() && 0 < screen.cols && old(screen.Seen()).top < old(screen.Seen()).bottom
      ensures screen.Seen() == LineErased(old(screen.Seen()), screen.rows, screen.cols, v, x, y)
    {
      hide Display, InRange, Clamped, TypedBlanks, SpacedFrom, CellNo, Wiped;
      SeenProper();
      ValidNear();
      ghost var before := screen.Seen();
      ghost var rows, cols := screen.rows, screen.cols;
      ClampedOn(0, cols);
      ClampedOn(x, cols);
      ClampedOn(y, rows);
      if v == 0 {
        Blanks(screen.cols - x);
        MoveTo(x, y);
        LineTyped(before, rows, cols, cols - x);
      } else if v == 1 {
        MoveTo(0, y);
        Blanks(x);
        BlanksInLine(before.(x := 0, y := y), rows, cols, x);
        RowOf(screen.size, rows, cols, y);
      } else if v == 2 {
        MoveTo(0, y);
        Blanks(screen.cols);
        BlanksInLine(before.(x := 0, y := y), rows, cols, cols);
        RowOf(screen.size, rows, cols, y);
        MoveTo(x, y);
      }
    }

    /** Control sequences @: a gap of `v` cells; the counter runs down to the cursor, which is never behind it. */
    method OpenGap(v: nat, x: nat, y: nat)
      requires Valid() && x < screen.cols < WORD && y < screen.rows < WORD
      modifies screen`queueI, screen`cursorX, screen`cursorY, screen.queue, screen.slots
      ensures Valid()
      ensures screen.Seen() == GapOpened(old(screen.Seen()), screen.cols, v, x, y)
    {
      hide Display, InRange, Clamped, Typed, Moved, CellNo, Opened;
      SeenProper();
      ghost var before := screen.Seen();
      ghost var rows, cols := screen.rows, screen.cols;
      ClampedOn(y, rows);
      GapNone(before, rows, cols, v, y);
      var i := screen.cols - 1;
      while true
        invariant x <= i < cols && Live()
        invariant screen.Seen() == GapOpened(before, cols, v, i + 1, y).(x := screen.cursorX, y := screen.cursorY)
        decreases i
      {
        MoveCell(i + v, y, i, y);
        ClampedOn(i, cols);
        MoveTo(i, y);
        Put(0x20);
        GapStep(before, rows, cols, v, i, y);
        if i == x {
          break;
        }
        i := i - 1;
      }
      ClampedOn(x, cols);
      MoveTo(x, y);
    }

    /** Control sequences P and X: close a gap, if asked to, and blank `v` cells. */
    method CloseGap(close: bool, v: nat, x: nat, y: nat)
      requires Valid() && x < screen.cols < WORD && y < screen.rows < WORD && v < WORD && !screen.scrollEnabled
      modifies screen`queueI, screen`cursorX, screen`cursorY, screen.queue, screen.slots
      ensures Valid() && 0 < screen.cols && old(screen.Seen()).top < old(screen.Seen()).bottom
      ensures screen.Seen() == GapClosed(old(screen.Seen()), screen.rows, screen.cols, close, v, x, y)
    {
      hide Display, InRange, Clamped, TypedBlanks, SpacedFrom, Moved, CellNo, Closed;
      SeenProper();
      ValidNear();
      ghost var before := screen.Seen();
      ghost var rows, cols := screen.rows, screen.cols;
      ClampedOn(x, cols);
      ClampedOn(y, rows);
      if close {
        var i := x + v;
        CloseNone(before, cols, v, x, y, i);
        while i < screen.cols
          invariant x + v <= i && Live() && (i <= cols || i == x + v)
          invariant screen.Seen() == before.(cells := Closed(before.cells, CellNo(x, y, cols), CellNo(i, y, cols), v))
          decreases cols - i
        {
          MoveCell(i - v, y, i, y);
          CloseMoved(before, rows, cols, v, x, y, i);
          i := i + 1;
        }
        CloseAll(before, rows, cols, v, x, y, i);
        MoveTo((screen.cols + WORD - v) % WORD, y);
      }
      ghost var after := screen.Seen();
      Blanks(Least(v, screen.cols));
      MoveTo(x, y);
      ClosedTyped(before, after, rows, cols, close, v, x, y);
    }

    /** Control sequences r. */
    method SetMargins()
      requires Valid()
      modifies screen`top, screen`bottom, screen`cursorX, screen`cursorY
      ensures Valid() && ParamsOk(ctx.params) && 0 < screen.rows
      ensures var m := MarginsFor(ctx.params, screen.rows);
              screen.Seen() == old(screen.Seen()).(x := 0, y := 0, top := m.0, bottom := m.1)
    {
      hide Area, Sound, FaithfulTo, Clamped, Logical;
      var m := MarginsFor(ctx.params, screen.rows);
      screen.top, screen.bottom := m.0, m.1;
      ClampedOn(0, screen.cols);
      ClampedOn(0, screen.rows);
      MoveTo(0, 0);
    }

    /** The cases of `control_sequence_parse` that act on the screen only. */
    method ControlScreen(c: nat)
      requires Valid() && !screen.scrollEnabled
      modifies screen`queueI, screen`cursorX, screen`cursorY, screen`top, screen`bottom, screen.queue, screen.slots
      ensures Valid() && ParamsOk(ctx.params) && Proper(old(screen.Seen()), screen.rows, screen.cols)
      ensures screen.Seen() ==
              Controlled(old(screen.Seen()), screen.rows, screen.cols, c, ctx.params, ctx.savedX, ctx.savedY)
    {
      hide Display, InRange, Target, IsTarget, Clamped, Upwards, Downwards, DisplayErased, LineErased, GapOpened,
        GapClosed, Proper;
      SavedFact(ctx);
      SeenProper();
      var x, y := Where();
      var v, w := ctx.params.values[0], ctx.params.values[1];
      if IsTarget(c) {
        var t := Target(c, v, w, x, y, screen.rows, screen.cols, screen.top, screen.bottom);
        ClampedOn(t.0, screen.cols);
        ClampedOn(t.1, screen.rows);
        MoveTo(t.0, t.1);
      } else if c == 0x4D {
        ScrollUp(Least(v, screen.rows));
      } else if c == 0x4C {
        ScrollDown(Least(v, screen.rows), y);
      } else if c == 0x4A {
        EraseDisplay(v, x, y);
      } else if c == 0x4B {
        EraseLine(v, x, y);
      } else if c == 0x40 {
        OpenGap(v, x, y);
      } else if c == 0x50 || c == 0x58 {
        CloseGap(c == 0x50, v, x, y);
      } else if c == 0x75 {
        MoveTo(ctx.savedX, ctx.savedY);
      } else if c == 0x72 {
        SetMargins();
      }
    }

    /** The switch in `control_sequence_parse`. */
    method Control(c: nat)
      requires Valid() && !screen.scrollEnabled
      modifies this, screen, screen.queue, screen.slots
      ensures Valid() && Quiet(old(ctx), ctx) && Proper(old(screen.Seen()), screen.rows, screen.cols)
      ensures (ctx, screen.Seen()) == ControlActs(tables, old(ctx), old(screen.Seen()), screen.rows, screen.cols, c)
    {
      hide Display, InRange, Quiet, Controlled, Logical, Proper;
      SeenProper();
      var p := ctx.params;
      SavedFact(ctx);
      if c == 0x6D {
        Sgr();
        RecolouredQuiet(old(ctx), ctx);
      } else if c == 0x73 {
        var x, y := Where();
        SaveQuiet(ctx, x, y);
        ctx := ctx.(savedX := x, savedY := y);
      } else if (c == 0x68 || c == 0x6C) && p.count != 0 && p.values[0] == 4 {
        FlagsQuiet(ctx, ctx.flags.(insertMode := c == 0x68));
        ctx := ctx.(flags := ctx.flags.(insertMode := c == 0x68));
      } else {
        RecolouredItself(ctx);
        RecolouredQuiet(ctx, ctx);
        ControlScreen(c);
      }
    }

    /** A new parser state, with the screen as it is. */
    method Become(c: Context)
      requires Live() && InRange(c)
      modifies this
      ensures Live() && ctx == c
    {
      hide Display, InRange;
      ctx := c;
    }

    method SetFlags(f: Flags)
      requires Live()
      modifies this
      ensures Live() && ctx == old(ctx).(flags := f) && Quiet(old(ctx), ctx)
    {
      hide Display, InRange, Quiet;
      FlagsQuiet(ctx, f);
      ctx := ctx.(flags := f);
    }

    method SetScrolling(b: bool)
      requires Live()
      modifies screen`scrollEnabled
      ensures Live() && screen.Seen() == old(screen.Seen()).(scrollOn := b)
    {
      hide Area, Sound, FaithfulTo, InRange, Logical;
      screen.scrollEnabled := b;
    }

    method SetCursorShown(b: bool)
      requires Live()
      modifies screen`cursorEnabled
      ensures Live() && screen.Seen() == old(screen.Seen()).(cursorOn := b)
    {
      hide Area, Sound, FaithfulTo, InRange, Logical;
      screen.cursorEnabled := b;
    }

    /** `control_sequence_parse`. */
    method ControlSequenceParse(c: nat)
      requires Valid() && c < 256
      modifies this, screen, screen.queue, screen.slots
      ensures Valid() && screen.scrollEnabled == old(screen.scrollEnabled) && Quiet(old(ctx), ctx) &&
              Proper(old(screen.Seen()), screen.rows, screen.cols)
      ensures (ctx, screen.Seen()) == SequenceActs(tables, old(ctx), old(screen.Seen()), screen.rows, screen.cols, c)
    {
      hide Display, InRange, Quiet, ControlParsed, ControlActs, Proper;
      SeenProper();
      ghost var before := ctx;
      SavedFact(ctx);
      var parsed := ControlParsed(ctx.params, ctx.flags, ctx.escapeOffset, c);
      Parsed(ctx, parsed.0, parsed.1);
      Become(ctx.(params := parsed.0, flags := parsed.1));
      match parsed.2 {
        case Nothing =>
        case CursorShown(on) => SetCursorShown(on);
        case Dispatch =>
          var scrolling := screen.scrollEnabled;
          SetScrolling(false);
          ghost var between := ctx;
          Control(c);
          SetScrolling(scrolling);
          QuietSteps(before, between, ctx);
          ghost var acted := ctx;
          SetFlags(ctx.flags.(controlSequence := false, escape := false));
          QuietSteps(before, acted, ctx);
      }
    }

    // -------------------------------------------------------------------------
    // Escape sequences

    /** `save_state`. */
    method SaveState()
      requires Live()
      modifies this
      ensures Live() && Quiet(old(ctx), ctx) && ctx == StateSaved(old(ctx), screen.Seen())
    {
      hide Area, Sound, FaithfulTo;
      ctx := ctx.(saved := Saved(ctx.attributes, ctx.currentCharset, screen.textFg, screen.textBg, screen.cursorX,
                                 screen.cursorY));
    }

    /** `restore_state`. */
    method RestoreState()
      requires Live()
      modifies this, screen`textFg, screen`textBg, screen`cursorX, screen`cursorY
      ensures Live() && Quiet(old(ctx), ctx) && (ctx, screen.Seen()) == StateRestored(old(ctx), old(screen.Seen()))
    {
      hide Area, Sound, FaithfulTo, Logical;
      var saved := ctx.saved;
      ctx := ctx.(attributes := saved.attributes, currentCharset := saved.charset);
      screen.textFg, screen.textBg, screen.cursorX, screen.cursorY := saved.textFg, saved.textBg, saved.x, saved.y;
    }

    /** A line feed: scrolls at the bottom margin, else goes down. */
    method LineFeed(x: nat, y: nat)
      requires Live() && x < screen.cols < WORD && y < screen.rows < WORD
      modifies screen`queueI, screen`cursorX, screen`cursorY, screen.queue, screen.slots
      ensures Live() && 0 < screen.rows
      ensures screen.Seen() == LineFed(old(screen.Seen()), screen.rows, screen.cols, x, y)
    {
      hide Display, InRange, Clamped, Upwards;
      var _, _ := Where();
      ClampedOn(x, screen.cols);
      ClampedOn(y, screen.rows);
      if y == screen.bottom - 1 {
        ScrollUp(1);
        MoveTo(x, y);
      } else {
        MoveTo(x, (y + 1) % WORD);
      }
    }

    /** A reverse line feed: scrolls at the top margin, else goes up. */
    method ReverseLineFeed(y: nat)
      requires Live() && y < screen.rows < WORD
      modifies screen`queueI, screen`cursorX, screen`cursorY, screen`top, screen.queue, screen.slots
      ensures Live() && 0 < screen.rows
      ensures screen.Seen() == ReverseFed(old(screen.Seen()), screen.rows, screen.cols, y)
    {
      hide Display, InRange, Clamped, Downwards;
      var _, _ := Where();
      ClampedOn(0, screen.cols);
      ClampedOn(y, screen.rows);
      if y == screen.top {
        ScrollDown(1, screen.top);
        MoveTo(0, y);
      } else {
        MoveTo(0, (y + WORD - 1) % WORD);
      }
    }

    /** Escape sequence c. */
    method Reset()
      requires Live()
      modifies this, screen, screen.queue, screen.slots
      ensures Live() && Quiet(old(ctx), ctx)
      ensures InRange(old(ctx)) && (ctx, screen.Seen()) == StartedOver(old(ctx), old(screen.Seen()), screen.rows)
    {
      hide Display, InRange;
      ReinitValid();
      Wipe(true);
    }

    method ReinitValid()
      requires Live()
      modifies this, screen`cursorEnabled, screen`scrollEnabled, screen`top, screen`bottom
      ensures Live() && Quiet(old(ctx), ctx) && InRange(old(ctx)) && ctx == Fresh(old(ctx))
      ensures screen.Seen() == old(screen.Seen()).(cursorOn := true, scrollOn := true, top := 0, bottom := screen.rows)
    {
      hide Area, Sound, FaithfulTo, InRange, Logical;
      Reinit();
    }

    /** The sequences of one character after the escape. */
    method EscapeOne(c: nat)
      requires Resting()
      modifies this, screen, screen.queue, screen.slots
      ensures Resting() && Quiet(old(ctx), ctx) && InRange(old(ctx)) &&
              Proper(old(screen.Seen()), screen.rows, screen.cols)
      ensures (ctx, screen.Seen()) == EscapeOneActs(old(ctx), old(screen.Seen()), screen.rows, screen.cols, c)
    {
      hide Display, InRange, Quiet, Proper, StateSaved, StateRestored, StartedOver, LineFed, ReverseFed;
      SeenProper();
      var x, y := Where();
      QuietItself(ctx);
      if c == 0x37 {
        SaveState();
      } else if c == 0x38 {
        RestoreState();
      } else if c == 0x63 {
        Reset();
      } else if c == 0x44 {
        LineFeed(x, y);
      } else if c == 0x45 {
        LineFeed(0, y);
      } else if c == 0x4D {
        ReverseLineFeed(y);
      } else if c == 0x28 || c == 0x29 {
        Selecting(ctx, c - 0x27);
        Become(ctx.(gSelect := c - 0x27));
      }
      EscapeOneBeside(old(ctx), old(screen.Seen()), screen.rows, screen.cols, c, Most(screen.rows, screen.cols));
    }

    /** `escape_parse`. */
    method EscapeParse(c: nat)
      requires Resting() && c < 256
      modifies this, screen, screen.queue, screen.slots
      ensures Resting() && Quiet(old(ctx), ctx) && InRange(old(ctx)) &&
              Proper(old(screen.Seen()), screen.rows, screen.cols)
      ensures (ctx, screen.Seen()) == EscapeActs(tables, old(ctx), old(screen.Seen()), screen.rows, screen.cols, c)
    {
      hide Display, InRange, Quiet, OscParsed, Proper, SequenceActs, EscapeOneActs;
      SeenProper();
      ghost var before := ctx;
      Counting(ctx);
      Become(ctx.(escapeOffset := ctx.escapeOffset + 1));
      ghost var counted := ctx;
      if ctx.flags.osc {
        SetFlags(OscParsed(ctx.flags, c));
      } else if ctx.flags.controlSequence {
        ControlSequenceParse(c);
      } else if c == 0x5D {
        SetFlags(ctx.flags.(oscEscape := false, osc := true));
      } else if c == 0x5B {
        var p := Params(seq(MAX_VALUES, _ => 0), 0, false);
        Parsed(ctx, p, ctx.flags.(controlSequence := true));
        Become(ctx.(params := p, flags := ctx.flags.(controlSequence := true)));
      } else {
        EscapeOne(c);
        ghost var acted := ctx;
        SetFlags(ctx.flags.(escape := false));
        QuietSteps(counted, acted, ctx);
      }
      QuietSteps(before, counted, ctx);
    }

    // -------------------------------------------------------------------------
    // Bytes

    /** A code point that is complete: its glyph, or a replacement as wide as it is. */
    method PrintCodePoint(cp: nat)
      requires Live()
      modifies screen`queueI, screen`cursorX, screen`cursorY, screen.queue, screen.slots
      ensures Live() && Proper(old(screen.Seen()), screen.rows, screen.cols)
      ensures screen.Seen() == Printed(tables, old(screen.Seen()), screen.rows, screen.cols, cp)
    {
      hide Display, InRange, Typed, TypedBlanks;
      SeenProper();
      var glyph := tables.cp437(cp);
      if glyph.NoGlyph? {
        var width := tables.width(cp);
        if width > 0 {
          Put(0xFE);
          TypedNone(screen.Seen(), screen.rows, screen.cols);
        }
        if width > 1 {
          Blanks(width - 1);
        }
      } else {
        Put(glyph.c);
      }
    }

    /** In insert mode, the rest of the line moves right by one. */
    method InsertCell(x: nat, y: nat)
      requires Live() && x < screen.cols && y < screen.rows
      modifies screen`queueI, screen.queue, screen.slots
      ensures Live() && screen.Seen() == Inserted(old(screen.Seen()), screen.cols, x, y)
    {
      hide Display, InRange, Moved, Inserted;
      SeenProper();
      ghost var before := screen.Seen();
      InsertNone(before, screen.rows, screen.cols, y);
      var i := screen.cols - 1;
      while true
        invariant x <= i < screen.cols && Live() && screen.Seen() == Inserted(before, screen.cols, i + 1, y)
        decreases i
      {
        MoveCell(i + 1, y, i, y);
        InsertStep(before, screen.rows, screen.cols, i, y);
        if i == x {
          break;
        }
        i := i - 1;
      }
    }

    /** A byte outside of any sequence, through the character set. */
    method PutGlyph(c: nat, x: nat, y: nat)
      requires Live() && x < screen.cols && y < screen.rows
      modifies screen`queueI, screen`cursorX, screen`cursorY, screen.queue, screen.slots
      ensures Live() && InRange(ctx) && Proper(old(screen.Seen()), screen.rows, screen.cols)
      ensures screen.Seen() == GlyphPut(tables, ctx, old(screen.Seen()), screen.rows, screen.cols, c, x, y)
    {
      hide Display, InRange, Proper, Typed, Inserted;
      SeenProper();
      if ctx.flags.insertMode {
        InsertCell(x, y);
      }
      CharsetFact(ctx);
      if ctx.charsets[ctx.currentCharset] == 1 && c in tables.special {
        Put(tables.special[c]);
      } else {
        Put(if 0x20 <= c <= 0x7E then c else 0xFE);
      }
    }

    /** The end of `flanterm_putchar`: control characters and printable ones. */
    method PutPlain(c: nat)
      requires Resting() && c < 256
      modifies this, screen, screen.queue, screen.slots
      ensures Resting() && Quiet(old(ctx), ctx) && InRange(old(ctx)) &&
              Proper(old(screen.Seen()), screen.rows, screen.cols)
      ensures (ctx, screen.Seen()) == PlainActs(tables, old(ctx), old(screen.Seen()), screen.rows, screen.cols, c)
    {
      hide Display, InRange, Quiet, Proper, Clamped, LineFed, GlyphPut;
      SeenProper();
      var x, y := Where();
      QuietItself(ctx);
      CharsetFact(ctx);
      if c == 0x00 || c == 0x7F || c == 0x07 {
      } else if c == 0x1B {
        StartEscape(ctx);
        Become(ctx.(escapeOffset := 0, flags := ctx.flags.(escape := true)));
      } else if c == 0x09 {
        if x / ctx.tabSize + 1 >= screen.cols {
          MoveTo(screen.cols - 1, y);
        } else {
          MoveTo((x / ctx.tabSize + 1) * ctx.tabSize % WORD, y);
        }
      } else if c == 0x0B || c == 0x0C || c == 0x0A {
        LineFeed(if ctx.onlcr then 0 else x, y);
      } else if c == 0x08 {
        MoveTo((x + WORD - 1) % WORD, y);
      } else if c == 0x0D {
        MoveTo(0, y);
      } else if c == 14 || c == 15 {
        Shift(ctx, if c == 14 then 1 else 0);
        Become(ctx.(currentCharset := if c == 14 then 1 else 0));
      } else {
        PutGlyph(c, x, y);
      }
      PlainBeside(tables, old(ctx), old(screen.Seen()), screen.rows, screen.cols, c, Most(screen.rows, screen.cols));
    }

    /** A byte that is no part of a code point. */
    method PutByte(c: nat)
      requires Resting() && c < 256
      modifies this, screen, screen.queue, screen.slots
      ensures Resting() && Quiet(old(ctx), ctx) && InRange(old(ctx)) &&
              Proper(old(screen.Seen()), screen.rows, screen.cols)
      ensures (ctx, screen.Seen()) == ByteActs(tables, old(ctx), old(screen.Seen()), screen.rows, screen.cols, c)
    {
      hide Display, InRange, Quiet, Proper, EscapeActs, PlainActs, Selected;
      SeenProper();
      if ctx.flags.escape {
        EscapeParse(c);
      } else if ctx.gSelect != 0 {
        SelectOk(ctx, c);
        Become(Selected(ctx, c));
      } else {
        PutPlain(c);
      }
      EscapeOrPlain(tables, old(ctx), old(screen.Seen()), screen.rows, screen.cols, c, Most(screen.rows, screen.cols));
    }

    /** `flanterm_putchar`. */
    method Putchar(c: nat)
      requires Resting() && c < 256
      modifies this, screen, screen.queue, screen.slots
      ensures Resting() && (old(ctx).autoflush ==> ctx.autoflush)
      ensures InRange(old(ctx)) && Proper(old(screen.Seen()), screen.rows, screen.cols)
      ensures (ctx, screen.Seen()) == Stepped(tables, old(ctx), old(screen.Seen()), screen.rows, screen.cols, c)
    {
      hide Display, InRange, UnicodeStep, Printed, ByteActs, Proper;
      SeenProper();
      UnicodeFact(ctx, c);
      if ctx.flags.discardNext || c == 0x18 || c == 0x1A {
        Become(Cancelled(ctx));
      } else {
        match UnicodeStep(ctx.codePoint, ctx.unicodeRemaining, c) {
          case More(cp, n) => Become(ctx.(codePoint := cp, unicodeRemaining := n));
          case Complete(cp) =>
            Become(ctx.(codePoint := cp, unicodeRemaining := 0));
            PrintCodePoint(cp);
          case Other =>
            Become(ctx.(unicodeRemaining := 0));
            PutByte(c);
        }
      }
      StepBeside(tables, old(ctx), old(screen.Seen()), screen.rows, screen.cols, c, Most(screen.rows, screen.cols));
    }

    lemma RestingSteady()
      requires Resting()
      ensures TablesOk(tables) && Steady((ctx, screen.Seen()), screen.rows, screen.cols)
    {
      hide Sound, FaithfulTo, InRange, Proper, Beside;
      SeenProper();
    }

    /**
     `flanterm_write`: any bytes at all are a run of their steps, and a display that is flushed shows where it ends.
     */
    method Write(bytes: seq<nat>)
      requires Resting() && Bytes(bytes)
      modifies this, screen, screen.grid, screen.queue, screen.slots, screen.display
      ensures Resting() && (old(ctx).autoflush ==> ctx.autoflush) && (ctx.autoflush ==> screen.Showing())
      ensures TablesOk(tables) && Steady((old(ctx), old(screen.Seen())), screen.rows, screen.cols)
      ensures (ctx, screen.Seen()) == Ran(tables, (old(ctx), old(screen.Seen())), screen.rows, screen.cols, bytes)
    {
      hide Display, InRange, Stepped, Proper, Steady, Beside;
      RestingSteady();
      ghost var whole := Ran(tables, (ctx, screen.Seen()), screen.rows, screen.cols, bytes);
      var i := 0;
      assert bytes[0..] == bytes;
      while i < |bytes|
        invariant 0 <= i <= |bytes| && Resting() && (old(ctx).autoflush ==> ctx.autoflush)
        invariant Steady((ctx, screen.Seen()), screen.rows, screen.cols)
        invariant Bytes(bytes[i..]) && Ran(tables, (ctx, screen.Seen()), screen.rows, screen.cols, bytes[i..]) == whole
      {
        assert bytes[i..][0] == bytes[i] && bytes[i..][1..] == bytes[i + 1..];
        Putchar(bytes[i]);
        RestingSteady();
        i := i + 1;
      }
      if ctx.autoflush {
        FlushScreen();
      }
    }

    /**
     The bytes of a code point print it, as its glyph or as a replacement and blanks: from any state, also the middle of
     another code point, except when the next byte is to be discarded.
     */
    method WriteCodePoint(cp: nat)
      requires Resting() && 0x80 <= cp < 0x11_0000 && !ctx.flags.discardNext
      modifies this, screen, screen.queue, screen.slots
      ensures Resting() && ctx == old(ctx).(codePoint := cp, unicodeRemaining := 0)
      ensures 0 < screen.cols && old(screen.Seen()).top < old(screen.Seen()).bottom
      ensures screen.Seen() == Printed(tables, old(screen.Seen()), screen.rows, screen.cols, cp)
    {
      hide Display, InRange, UnicodeStep, Printed, Stepped, Proper;
      SeenProper();
      UnicodeFact(ctx, 0);
      var e := Encoded(cp);
      EncodedSteps(cp, ctx.codePoint, ctx.unicodeRemaining);
      CodePointStep(tables, ctx, screen.Seen(), screen.rows, screen.cols, e[0]);
      Putchar(e[0]);
      var i := 1;
      ghost var last := |e| - 1;
      while i < |e| - 1
        invariant 1 <= i <= |e| - 1 && Resting() && screen.Seen() == old(screen.Seen())
        invariant ctx == old(ctx).(codePoint := Sofar(cp, |e|, i), unicodeRemaining := |e| - i)
      {
        EncodedAt(cp, i);
        CodePointStep(tables, ctx, screen.Seen(), screen.rows, screen.cols, e[i]);
        Putchar(e[i]);
        i := i + 1;
      }
      EncodedAt(cp, i);
      CodePointStep(tables, ctx, screen.Seen(), screen.rows, screen.cols, e[i]);
      Putchar(e[i]);
    }
  }
}
