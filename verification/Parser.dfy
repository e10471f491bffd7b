/**
 What the terminal's parser makes of a byte (src/flanterm/flanterm.c:86-916, 1422-1573), on a parser state and a plain
 grid: parameters, code points, colours, cursor movement, editing.
 */
module Parser {
  import opened Arith
  import opened Framebuffer
  import opened Editing

  const MAX_VALUES: nat := 16

  /** `(size_t)-1`, which stands for no colour. */
  const NO_COLOUR: nat := 0xFFFF_FFFF_FFFF_FFFF

  /** The background that lets the canvas show through. */
  const NO_BACKGROUND: nat := 0xFFFF_FFFF

  /** What `unicode_to_cp437` finds for a code point; it says -1 for nothing. */
  datatype Glyph = NoGlyph | Glyph(c: nat)

  /** The tables of the terminal and of the framebuffer. */
  datatype Tables = Tables(ansi: seq<nat>, bright: seq<nat>, col256: seq<nat>, defaultFg: nat, defaultFgBright: nat,
                           defaultBgBright: nat, rgb: nat -> nat, cp437: nat -> Glyph, width: nat -> nat,
                             special: map<nat, nat>)

  predicate TablesOk(t: Tables) {
    |t.ansi| == 8 && |t.bright| == 8 && |t.col256| == 240
  }

  /** The text attributes, by which colours are chosen again when one of them changes. */
  datatype Attributes = Attributes(bold: bool, bgBold: bool, reverseVideo: bool, primary: nat, bg: nat)

  /** What escape sequences 7 and 8 save and restore. */
  datatype Saved = Saved(attributes: Attributes, charset: nat, textFg: nat, textBg: nat, x: nat, y: nat)

  /** The parameters of a control sequence: `esc_values`, `esc_values_i` and `rrr`. */
  datatype Params = Params(values: seq<nat>, count: nat, pending: bool)

  /** What the parser is in the middle of. */
  datatype Flags = Flags(controlSequence: bool, escape: bool, osc: bool, oscEscape: bool, discardNext: bool,
                         decPrivate: bool, insertMode: bool)

  const NO_FLAGS := Flags(false, false, false, false, false, false, false)

  /** The parser's part of `flanterm_context`. */
  datatype Context = Context(tabSize: nat, autoflush: bool, flags: Flags, onlcr: bool, codePoint: nat,
                             unicodeRemaining: nat, gSelect: nat, charsets: seq<nat>, currentCharset: nat,
                               escapeOffset: nat,
                             params: Params, savedX: nat, savedY: nat, attributes: Attributes, saved: Saved)

  predicate ColourOk(c: nat) {
    c < 8 || c == NO_COLOUR
  }

  predicate AttributesOk(a: Attributes) {
    ColourOk(a.primary) && ColourOk(a.bg)
  }

  /** At most sixteen numbers of 32 bits, and one under way only if there is room for it. */
  predicate ParamsOk(p: Params) {
    && |p.values| == MAX_VALUES && p.count <= MAX_VALUES && (p.pending ==> p.count < MAX_VALUES)
    && forall i {:trigger p.values[i]} :: 0 <= i < MAX_VALUES ==> p.values[i] < WORD32
  }

  /** Every counter and index of the parser is in range. */
  predicate InRange(c: Context) {
    && 0 < c.tabSize && CodePointOk(c.codePoint, c.unicodeRemaining) && c.gSelect <= 2 && |c.charsets| == 2 &&
       c.currentCharset <= 1
    && ParamsOk(c.params) && AttributesOk(c.attributes) && c.savedX < WORD && c.savedY < WORD
    && AttributesOk(c.saved.attributes) && c.saved.charset <= 1 && c.saved.x < WORD && c.saved.y < WORD
  }

  // -------------------------------------------------------------------------
  // Parameters

  /** A digit, a separator or the end of a control sequence; true if there is more to come. */
  function Collected(p: Params, c: nat): (r: (Params, bool))
    requires ParamsOk(p)
    ensures ParamsOk(r.0) && (!r.1 ==> !r.0.pending)
  {
    if 0x30 <= c <= 0x39 then
      if p.count == MAX_VALUES then (p, true)
      else (p.(pending := true, values := p.values[p.count := (p.values[p.count] * 10 % WORD32 + (c - 0x30)) % WORD32]),
            true)
    else if p.pending then (p.(count := p.count + 1, pending := false), c == 0x3B)
    else if c == 0x3B then
      if p.count == MAX_VALUES then (p, true)
      else (p.(values := p.values[p.count := 0], count := p.count + 1), true)
    else (p, false)
  }

  /** The parameters not given take a default: zero for some sequences and one for the others. */
  function Defaulted(p: Params, c: nat): (r: Params)
    requires ParamsOk(p)
    ensures ParamsOk(r) && r.count == p.count
    ensures forall i {:trigger r.values[i]} :: 0 <= i < MAX_VALUES ==>
              r.values[i] == if i < p.count then p.values[i] else if c == 0x4A || c == 0x4B || c == 0x71 then 0 else 1
  {
    var d := if c == 0x4A || c == 0x4B || c == 0x71 then 0 else 1;
    p.(values := p.values[..p.count] + seq(MAX_VALUES - p.count, _ => d))
  }

  /** Some bytes of a control sequence, one after the other. */
  ghost function Fed(p: Params, s: seq<nat>): (r: Params)
    requires ParamsOk(p)
    ensures ParamsOk(r)
    decreases |s|
  {
    if s == [] then p else Fed(Collected(p, s[0]).0, s[1..])
  }

  /** The number that some digits continue. */
  ghost function Number(v: nat, digits: seq<nat>): (r: nat)
    requires forall i {:trigger digits[i]} :: 0 <= i < |digits| ==> 0x30 <= digits[i] <= 0x39
    decreases |digits|
  {
    if digits == [] then v else Number(v * 10 + (digits[0] - 0x30), digits[1..])
  }

  lemma Congruent(v: nat, d: nat)
    ensures (v % WORD32 * 10 % WORD32 + d) % WORD32 == (v * 10 + d) % WORD32
  {
    var q, r := v / WORD32, v % WORD32;
    var a, b := r * 10 / WORD32, r * 10 % WORD32;
    var c, e := (b + d) / WORD32, (b + d) % WORD32;
    assert v == WORD32 * q + r && r * 10 == WORD32 * a + b && b + d == WORD32 * c + e;
    DivModUnique(v * 10 + d, WORD32, 10 * q + a + c, e);
  }

  /** Digits are collected into one number, as far as 32 bits hold it. */
  lemma {:induction false} DigitsCollected(p: Params, v: nat, digits: seq<nat>)
    requires ParamsOk(p) && p.count < MAX_VALUES && p.values[p.count] == v % WORD32 && digits != []
    requires forall i {:trigger digits[i]} :: 0 <= i < |digits| ==> 0x30 <= digits[i] <= 0x39
    ensures Fed(p, digits) == p.(pending := true, values := p.values[p.count := Number(v, digits) % WORD32])
    decreases |digits|
  {
    var q, w := Collected(p, digits[0]).0, v * 10 + (digits[0] - 0x30);
    Congruent(v, digits[0] - 0x30);
    if |digits| == 1 {
      assert digits[1..] == [];
    } else {
      DigitsCollected(q, w, digits[1..]);
      assert p.values[p.count := w % WORD32][p.count := Number(w, digits[1..]) % WORD32] ==
          p.values[p.count := Number(w, digits[1..]) % WORD32];
    }
  }

  lemma {:induction false} FedConcat(p: Params, s: seq<nat>, t: seq<nat>)
    requires ParamsOk(p)
    ensures Fed(p, s + t) == Fed(Fed(p, s), t)
    decreases |s|
  {
    if s == [] {
      assert s + t == t;
    } else {
      FedConcat(Collected(p, s[0]).0, s[1..], t);
      assert (s + t)[1..] == s[1..] + t;
    }
  }

  /** A number and the separator after it: one more parameter. */
  lemma NumberCollected(p: Params, digits: seq<nat>)
    requires ParamsOk(p) && !p.pending && p.count < MAX_VALUES && p.values[p.count] == 0 && digits != []
    requires forall i {:trigger digits[i]} :: 0 <= i < |digits| ==> 0x30 <= digits[i] <= 0x39
    ensures Fed(p, digits + [0x3B]) ==
            p.(count := p.count + 1, values := p.values[p.count := Number(0, digits) % WORD32])
  {
    FedConcat(p, digits, [0x3B]);
    DigitsCollected(p, 0, digits);
    var q := Fed(p, digits);
    assert Fed(q, [0x3B]) == Fed(Collected(q, 0x3B).0, [0x3B][1..]);
  }

  // -------------------------------------------------------------------------
  // UTF-8

  /** 64 to the power of the number of bytes still to come. */
  function Scale(remaining: nat): (r: nat)
    requires remaining <= 3
  {
    match remaining case 0 => 1 case 1 => 64 case 2 => 4096 case 3 => 262144
  }

  /** The code point so far has room for the bytes to come, so that adding their bits is the same as setting them. */
  predicate CodePointOk(codePoint: nat, remaining: nat) {
    remaining <= 3 && codePoint % Scale(remaining) == 0
  }

  datatype Unicode = Complete(codePoint: nat) | More(codePoint: nat, remaining: nat) | Other

  /** One byte, in the middle of a sequence or at its start; a byte that does not continue one starts afresh. */
  function UnicodeStep(codePoint: nat, remaining: nat, c: nat): (r: Unicode)
    requires CodePointOk(codePoint, remaining) && c < 256
    ensures r.More? ==> 0 < r.remaining <= 3
  {
    if remaining != 0 && 0x80 <= c < 0xC0 then
      var cp := codePoint + c % 64 * Scale(remaining - 1);
      if remaining == 1 then Complete(cp) else More(cp, remaining - 1)
    else if 0xC0 <= c <= 0xDF then More(c % 32 * 64, 1)
    else if 0xE0 <= c <= 0xEF then More(c % 16 * 4096, 2)
    else if 0xF0 <= c <= 0xF7 then More(c % 8 * 262144, 3)
    else Other
  }

  lemma StepOk(codePoint: nat, remaining: nat, c: nat)
    requires CodePointOk(codePoint, remaining) && c < 256
    ensures var r := UnicodeStep(codePoint, remaining, c); r.More? ==> CodePointOk(r.codePoint, r.remaining)
  {
    if remaining != 0 && 0x80 <= c < 0xC0 {
      if remaining == 3 {
        StillAligned(codePoint, 4096, c % 64);
      } else if remaining == 2 {
        StillAligned(codePoint, 64, c % 64);
      }
    } else {
      StillAligned(0, 64, c % 32);
      StillAligned(0, 4096, c % 16);
      StillAligned(0, 262144, c % 8);
    }
  }

  lemma StillAligned(codePoint: nat, scale: nat, d: nat)
    requires 0 < scale && codePoint % (64 * scale) == 0
    ensures (codePoint + d * scale) % scale == 0
  {
    var k := codePoint / (64 * scale);
    DivMod(codePoint, 64 * scale);
    MultipleOf(scale, k, d);
    DivModUnique(codePoint + d * scale, scale, 64 * k + d, 0);
  }

  lemma MultipleOf(scale: nat, k: nat, d: nat)
    ensures 64 * scale * k + d * scale == scale * (64 * k + d)
  {
    Distribute(scale, 64 * k, d);
  }

  /** Section 3 of RFC 3629, for code points of more than one byte. */
  function Encoded(cp: nat): (r: seq<nat>)
    requires 0x80 <= cp < 0x11_0000
    ensures 2 <= |r| <= 4 && forall i {:trigger r[i]} :: 0 <= i < |r| ==> 0x80 <= r[i] < 0xF8
  {
    if cp < 0x800 then [0xC0 + cp / 64, 0x80 + cp % 64]
    else if cp < 0x1_0000 then [0xE0 + cp / 4096, 0x80 + cp / 64 % 64, 0x80 + cp % 64]
    else [0xF0 + cp / 262144, 0x80 + cp / 4096 % 64, 0x80 + cp / 64 % 64, 0x80 + cp % 64]
  }

  lemma StartsTwo(before: nat, remaining: nat, q: nat)
    requires q < 32 && CodePointOk(before, remaining)
    ensures UnicodeStep(before, remaining, 0xC0 + q) == More(q * 64, 1)
  {
  }

  lemma StartsThree(before: nat, remaining: nat, q: nat)
    requires q < 16 && CodePointOk(before, remaining)
    ensures UnicodeStep(before, remaining, 0xE0 + q) == More(q * 4096, 2)
  {
  }

  lemma StartsFour(before: nat, remaining: nat, q: nat)
    requires q < 8 && CodePointOk(before, remaining)
    ensures UnicodeStep(before, remaining, 0xF0 + q) == More(q * 262144, 3)
  {
  }

  lemma Continues(codePoint: nat, remaining: nat, d: nat)
    requires 0 < remaining && CodePointOk(codePoint, remaining) && d < 64
    ensures UnicodeStep(codePoint, remaining, 0x80 + d) ==
            if remaining == 1 then Complete(codePoint + d)
            else More(codePoint + d * Scale(remaining - 1), remaining - 1)
  {
  }

  // -------------------------------------------------------------------------
  // Where control sequences lead

  /** Up, to the top margin at most if that or the bottom margin is crossed. */
  function RowAbove(v: nat, y: nat, top: nat, bottom: nat): (r: nat)
    requires top < bottom
    ensures r <= y
  {
    var dest := y - Least(v, y);
    if (dest <= top <= y || dest <= bottom <= y) && dest < top then top else dest
  }

  /** Down, to the bottom margin at most if one of the margins is crossed. */
  function RowBelow(v: nat, y: nat, rows: nat, top: nat, bottom: nat): (r: nat)
    requires y < rows && top < bottom <= rows
    ensures r < rows
  {
    var dest := if y + v > rows - 1 then rows - 1 else y + v;
    if (y <= top <= dest || y <= bottom <= dest) && dest >= bottom then bottom - 1 else dest
  }

  /** Where the cursor sequences send the cursor: always a place on the screen. */
  function Target(c: nat, v: nat, w: nat, x: nat, y: nat, rows: nat, cols: nat, top: nat, bottom: nat): (r: (nat, nat))
    requires x < cols && y < rows && top < bottom <= rows
    ensures r.0 < cols && r.1 < rows
  {
    if c == 0x46 || c == 0x41 then (if c == 0x46 then 0 else x, RowAbove(v, y, top, bottom))
    else if c == 0x45 || c == 0x65 || c == 0x42 then (if c == 0x45 then 0 else x, RowBelow(v, y, rows, top, bottom))
    else if c == 0x61 || c == 0x43 then (if x + v > cols - 1 then cols - 1 else x + v, y)
    else if c == 0x44 then (x - Least(v, x), y)
    else if c == 0x64 then (x, Least((v + WORD32 - 1) % WORD32, rows - 1))
    else if c == 0x47 || c == 0x60 then (Least((v + WORD32 - 1) % WORD32, cols - 1), y)
    else if c == 0x48 || c == 0x66
        then (Least(if w == 0 then 0 else w - 1, cols - 1), Least(if v == 0 then 0 else v - 1, rows - 1))
    else (x, y)
  }

  /** A final byte of one of the cursor sequences. */
  predicate IsTarget(c: nat) {
    c in {0x46, 0x41, 0x45, 0x65, 0x42, 0x61, 0x43, 0x44, 0x64, 0x47, 0x60, 0x48, 0x66}
  }

  /** The margins a control sequence r asks for, or the whole screen if they make no sense. */
  function MarginsFor(p: Params, rows: nat): (r: (nat, nat))
    requires ParamsOk(p) && 0 < rows
    ensures r.0 < r.1 <= rows
  {
    var v, w := if p.values[0] == 0 then 1 else p.values[0], if p.values[1] == 0 then 1 else p.values[1];
    var top, bottom := if p.count > 0 then v - 1 else 0, if p.count > 1 then w else rows;
    if top >= rows || bottom > rows || top >= bottom - 1 then (0, rows) else (top, bottom)
  }

  /** The rows between the margins, moved up by `n`. */
  ghost function Upwards(v: View, cols: nat, n: nat): (r: View) {
    v.(cells := MovedUp(v.cells, CellNo(0, v.top, cols), CellNo(0, v.bottom, cols), n * cols, BlankOf(v)))
  }

  lemma UpwardsNone(v: View, cols: nat)
    ensures Upwards(v, cols, 0) == v
  {
    assert Upwards(v, cols, 0).cells == v.cells;
  }

  lemma UpwardsStep(v: View, rows: nat, cols: nat, n: nat)
    requires Proper(v, rows, cols)
    ensures Upwards(v, cols, n + 1).cells == ScrolledUp(Upwards(v, cols, n).cells, cols, v.top, v.bottom, BlankOf(v))
  {
    hide Area, CellNo, MovedUp, ScrolledUp;
    Distribute(cols, n, 1);
    ScrollOnce(v.cells, rows, cols, v.top, v.bottom, n * cols, BlankOf(v));
  }

  /** The rows from `top` to the bottom margin, moved down by `n`. */
  ghost function Downwards(v: View, cols: nat, top: nat, n: nat): (r: View) {
    v.(cells := MovedDown(v.cells, CellNo(0, top, cols), CellNo(0, RowEnd(top, v.bottom), cols), n * cols, BlankOf(v)))
  }

  lemma DownwardsNone(v: View, cols: nat, top: nat)
    ensures Downwards(v, cols, top, 0) == v
  {
    assert Downwards(v, cols, top, 0).cells == v.cells;
  }

  lemma DownwardsStep(v: View, rows: nat, cols: nat, top: nat, n: nat)
    requires Proper(v, rows, cols) && top < rows
    ensures Downwards(v, cols, top, n + 1).cells ==
            ScrolledDown(Downwards(v, cols, top, n).cells, cols, top, v.bottom, BlankOf(v))
  {
    hide Area, CellNo, MovedDown, ScrolledDown;
    Distribute(cols, n, 1);
    RevScrollOnce(v.cells, rows, cols, top, v.bottom, n * cols, BlankOf(v));
  }

  ghost function AllWiped(v: View, move: bool): (r: View) {
    v.(cells := Filled(|v.cells|, BlankOf(v)), x := if move then 0 else v.x, y := if move then 0 else v.y)
  }

  /** The cursor's column is so far from 2^64 that two screenfuls of blanks do not wrap it around. */
  ghost predicate Near(v: View) {
    v.x + 2 * |v.cells| < WORD
  }

  /** Control sequences J. */
  ghost function DisplayErased(v: View, rows: nat, cols: nat, a: nat, x: nat, y: nat): (r: View)
    requires 0 < cols && v.top < v.bottom
  {
    if a == 0 then v.(cells := ErasedRest(v, rows, cols), x := x, y := y)
    else if a == 1 then v.(cells := ErasedTo(v, cols, x, y), x := x, y := y)
    else if a == 2 || a == 3 then AllWiped(v, false)
    else v
  }

  /** Control sequences K; the second of them leaves the cell under the cursor. */
  ghost function LineErased(v: View, rows: nat, cols: nat, a: nat, x: nat, y: nat): (r: View)
    requires x < cols && v.top < v.bottom
  {
    if a == 0 then v.(cells := SpacedFrom(v, rows, cols, cols - x), x := x, y := y)
    else if a == 1 then v.(cells := Wiped(v.cells, CellNo(0, y, cols), CellNo(x, y, cols), BlankOf(v)), x := x, y := y)
    else if a == 2
        then v.(cells := Wiped(v.cells, CellNo(0, y, cols), CellNo(0, y + 1, cols), BlankOf(v)), x := x, y := y)
    else v
  }

  /** Control sequences @. */
  ghost function GapOpened(v: View, cols: nat, a: nat, x: nat, y: nat): (r: View) {
    v.(cells := Opened(v.cells, CellNo(x, y, cols), CellNo(0, y + 1, cols), a, BlankOf(v)), x := x, y := y)
  }

  /** Control sequences P and X. */
  ghost function GapClosed(v: View, rows: nat, cols: nat, close: bool, a: nat, x: nat, y: nat): (r: View)
    requires x < cols < WORD && v.top < v.bottom && a < WORD
  {
    v.(cells := if close then Deleted(v, cols, x, y, a) else SpacedFrom(v, rows, cols, Least(a, cols)), x := x, y := y)
  }

  /** What the control sequences that edit the screen or move the cursor do to the plain grid. */
  ghost function Controlled(v: View, rows: nat, cols: nat, c: nat, p: Params, savedX: nat, savedY: nat): (r: View)
    requires Proper(v, rows, cols) && ParamsOk(p)
  {
    var a, x, y := p.values[0], Column(v, cols), Row(v, rows);
    if IsTarget(c) then
      var t := Target(c, a, p.values[1], x, y, rows, cols, v.top, v.bottom);
      v.(x := t.0, y := t.1)
    else if c == 0x4D then Upwards(v, cols, Least(a, rows))
    else if c == 0x4C then Downwards(v, cols, y, Least(a, rows))
    else if c == 0x4A then DisplayErased(v, rows, cols, a, x, y)
    else if c == 0x4B then LineErased(v, rows, cols, a, x, y)
    else if c == 0x40 then GapOpened(v, cols, a, x, y)
    else if c == 0x50 || c == 0x58 then GapClosed(v, rows, cols, c == 0x50, a, x, y)
    else if c == 0x75 then v.(x := Clamped(savedX, cols), y := Clamped(savedY, rows))
    else if c == 0x72 then var m := MarginsFor(p, rows); v.(x := 0, y := 0, top := m.0, bottom := m.1)
    else v
  }

  lemma ClampedOn(x: nat, bound: nat)
    requires x < bound
    ensures Clamped(x, bound) == x
  {
  }

  lemma CellNoZero(cols: nat)
    ensures CellNo(0, 0, cols) == 0
  {
  }

  lemma RowFull(cols: nat, y: nat)
    ensures CellNo(cols, y, cols) == CellNo(0, y + 1, cols)
  {
    Distribute(cols, y, 1);
  }

  /** The blanks of control sequence J 1, and the cursor put back. */
  ghost function TypedTo(start: View, rows: nat, cols: nat, x: nat, y: nat): (r: View)
    requires 0 < cols && start.top < start.bottom
  {
    TypedBlanks(start, rows, cols, CellNo(x, y, cols) + 1).(x := x, y := y)
  }

  lemma TypedNext(start: View, rows: nat, cols: nat, x: nat, y: nat)
    requires 0 < cols && start.top < start.bottom
    ensures CellNo(x + 1, y, cols) == CellNo(x, y, cols) + 1
    ensures Typed(TypedBlanks(start, rows, cols, CellNo(x, y, cols)), rows, cols, 0x20) ==
            TypedBlanks(start, rows, cols, CellNo(x, y, cols) + 1)
  {
    hide Typed;
  }

  lemma TypedToErases(start: View, rows: nat, cols: nat, x: nat, y: nat)
    requires Proper(start, rows, cols) && !start.scrollOn && start.x == 0 && start.y == 0 && x < cols && y < rows
    ensures TypedTo(start, rows, cols, x, y) == start.(cells := ErasedTo(start, cols, x, y), x := x, y := y)
  {
    hide Area, CellNo, TypedBlanks, Wiped;
    CellNoZero(cols);
    CellNoBound(x, y, |start.cells|, rows, cols);
    BlanksFromRow(start, rows, cols, CellNo(x, y, cols) + 1);
  }

  lemma RestTyped(v: View, rows: nat, cols: nat)
    requires Proper(v, rows, cols) && !v.scrollOn
    ensures var n := CellsFrom(Column(v, cols), Row(v, rows), rows, cols);
            Near(v) ==> TypedBlanks(v, rows, cols, n).cells == ErasedRest(v, rows, cols)
  {
    hide Area, CellNo, TypedBlanks, CellsFrom, ErasedRest, SpacedFrom;
    CellsFromRows(|v.cells|, Column(v, cols), Row(v, rows), rows, cols);
    if Near(v) {
      BlanksAnywhere(v, rows, cols, CellsFrom(Column(v, cols), Row(v, rows), rows, cols));
      EraseRest(v, rows, cols);
    }
  }

  lemma LineTyped(v: View, rows: nat, cols: nat, n: nat)
    requires Proper(v, rows, cols) && !v.scrollOn && n <= cols
    ensures Near(v) ==> TypedBlanks(v, rows, cols, n).cells == SpacedFrom(v, rows, cols, n)
  {
    hide Area, CellNo, TypedBlanks, SpacedFrom;
    RowOf(|v.cells|, rows, cols, 0);
    if Near(v) {
      BlanksAnywhere(v, rows, cols, n);
    }
  }

  lemma GapNone(v: View, rows: nat, cols: nat, a: nat, y: nat)
    requires Proper(v, rows, cols) && y < rows
    ensures GapOpened(v, cols, a, cols, y) == v.(x := cols, y := y)
  {
    hide Area, CellNo;
    RowFull(cols, y);
    assert GapOpened(v, cols, a, cols, y).cells == v.cells;
  }

  lemma GapStep(v: View, rows: nat, cols: nat, a: nat, i: nat, y: nat)
    requires Proper(v, rows, cols) && y < rows && i < cols
    ensures var w := GapOpened(v, cols, a, i + 1, y);
            var m := w.(cells := Moved(w.cells, rows, cols, i + a, y, i, y), x := i, y := y);
            Typed(m, rows, cols, 0x20) == GapOpened(v, cols, a, i, y).(x := i + 1, y := y)
  {
    hide Area, CellNo, Opened, ScrolledUp;
    var n, lo := |v.cells|, CellNo(i, y, cols);
    RowOf(n, rows, cols, y);
    OpenStep(v.cells, lo, CellNo(0, y + 1, cols), a, BlankOf(v));
  }

  lemma CloseNone(v: View, cols: nat, a: nat, x: nat, y: nat, i: nat)
    requires i == x + a
    ensures v == v.(cells := Closed(v.cells, CellNo(x, y, cols), CellNo(i, y, cols), a))
  {
    assert Closed(v.cells, CellNo(x, y, cols), CellNo(i, y, cols), a) == v.cells;
  }

  lemma CloseMoved(v: View, rows: nat, cols: nat, a: nat, x: nat, y: nat, i: nat)
    requires Proper(v, rows, cols) && y < rows && x + a <= i < cols
    ensures var c := Closed(v.cells, CellNo(x, y, cols), CellNo(i, y, cols), a);
            Moved(c, rows, cols, i - a, y, i, y) == Closed(v.cells, CellNo(x, y, cols), CellNo(i + 1, y, cols), a)
  {
    hide Area, CellNo, Closed;
    RowOf(|v.cells|, rows, cols, y);
    CloseStep(v.cells, CellNo(x, y, cols), CellNo(i, y, cols), a);
  }

  lemma CloseAll(v: View, rows: nat, cols: nat, a: nat, x: nat, y: nat, i: nat)
    requires Proper(v, rows, cols) && y < rows && x < cols && x + a <= i && (i == cols || (cols <= i == x + a))
    ensures Closed(v.cells, CellNo(x, y, cols), CellNo(i, y, cols), a) ==
            Closed(v.cells, CellNo(x, y, cols), CellNo(0, y + 1, cols), a)
  {
    hide Area, CellNo;
    RowFull(cols, y);
    RowOf(|v.cells|, rows, cols, y);
    assert forall k :: 0 <= k < |v.cells| ==>
      Closed(v.cells, CellNo(x, y, cols), CellNo(i, y, cols), a)[k] ==
        Closed(v.cells, CellNo(x, y, cols), CellNo(0, y + 1, cols), a)[k];
  }

  /** The blanks of control sequences P and X. */
  lemma ClosedTyped(v: View, after: View, rows: nat, cols: nat, close: bool, a: nat, x: nat, y: nat)
    requires Proper(v, rows, cols) && !v.scrollOn && x < cols && y < rows && a < WORD
    requires after == if !close then v
                      else v.(cells := Closed(v.cells, CellNo(x, y, cols), CellNo(0, y + 1, cols), a),
                              x := Clamped((cols + WORD - a) % WORD, cols), y := y)
    ensures Near(v) ==>
            TypedBlanks(after, rows, cols, Least(a, cols)).(x := x, y := y) == GapClosed(v, rows, cols, close, a, x, y)
  {
    hide Area, CellNo, TypedBlanks, SpacedFrom, Closed, Clamped, Spaced;
    if close && Near(v) {
      RowOf(|v.cells|, rows, cols, 0);
      BlanksSpaced(after, rows, cols, Least(a, cols));
    } else if !close {
      LineTyped(v, rows, cols, Least(a, cols));
    }
  }

  /** The parser's part of `flanterm_context_reinit`. */
  function Fresh(c: Context): (r: Context)
    requires InRange(c)
    ensures InRange(r)
  {
    Context(8, true, NO_FLAGS, true, c.codePoint, 0, 0, [0, 1], 0, 0,
            c.params.(count := 0, pending := false), 0, 0, NO_ATTRIBUTES, c.saved)
  }

  // -------------------------------------------------------------------------
  // Colours

  /** The attributes and colours in force. */
  datatype Colours = Chosen(attributes: Attributes, fg: nat, bg: nat)

  const NO_ATTRIBUTES := Attributes(false, false, false, NO_COLOUR, NO_COLOUR)

  function Painted(s: Colours, fg: bool, colour: nat): (r: Colours) {
    if fg then s.(fg := colour) else s.(bg := colour)
  }

  function Swapped(s: Colours): (r: Colours) {
    s.(fg := s.bg, bg := s.fg)
  }

  function OfPalette(t: Tables, bright: bool, c: nat): (r: nat)
    requires TablesOk(t) && c < 8
  {
    if bright then t.bright[c] else t.ansi[c]
  }

  function OfDefault(t: Tables, fg: bool, bright: bool): (r: nat) {
    if fg then (if bright then t.defaultFgBright else t.defaultFg) else if bright then t.defaultBgBright
    else NO_BACKGROUND
  }

  function Remembered(t: Tables, fg: bool, bright: bool, c: nat): (r: nat)
    requires TablesOk(t) && ColourOk(c)
  {
    if c != NO_COLOUR then OfPalette(t, bright, c) else OfDefault(t, fg, bright)
  }

  /** The number 0, or none at all, forgets everything. */
  function ByDefault(t: Tables): (r: Colours) {
    Chosen(NO_ATTRIBUTES, OfDefault(t, true, false), OfDefault(t, false, false))
  }

  function AttributeSet(t: Tables, s: Colours, v: nat): (r: Colours)
    requires TablesOk(t) && AttributesOk(s.attributes)
    ensures AttributesOk(r.attributes)
  {
    var a := s.attributes;
    if v == 1 then Painted(s.(attributes := a.(bold := true)), !a.reverseVideo,
                           Remembered(t, !a.reverseVideo, true, a.primary))
    else if v == 5
        then Painted(s.(attributes := a.(bgBold := true)), a.reverseVideo, Remembered(t, a.reverseVideo, true, a.bg))
    else if v == 22
        then Painted(s.(attributes := a.(bold := false)), !a.reverseVideo,
                     Remembered(t, !a.reverseVideo, false, a.primary))
    else if v == 25
        then Painted(s.(attributes := a.(bgBold := false)), a.reverseVideo, Remembered(t, a.reverseVideo, false, a.bg))
    else if v == 7 && !a.reverseVideo then Swapped(s.(attributes := a.(reverseVideo := true)))
    else if v == 27 && a.reverseVideo then Swapped(s.(attributes := a.(reverseVideo := false)))
    else s
  }

  function ColourSet(t: Tables, s: Colours, v: nat): (r: Colours)
    requires TablesOk(t)
    ensures AttributesOk(s.attributes) ==> AttributesOk(r.attributes)
  {
    var a := s.attributes;
    if 30 <= v <= 37
        then Painted(s.(attributes := a.(primary := v - 30)), !a.reverseVideo, OfPalette(t, a.bold, v - 30))
    else if 40 <= v <= 47
        then Painted(s.(attributes := a.(bg := v - 40)), a.reverseVideo, OfPalette(t, a.bgBold, v - 40))
    else if 90 <= v <= 97
        then Painted(s.(attributes := a.(primary := v - 90)), !a.reverseVideo, OfPalette(t, true, v - 90))
    else if 100 <= v <= 107
        then Painted(s.(attributes := a.(bg := v - 100)), a.reverseVideo, OfPalette(t, true, v - 100))
    else if v == 39 || v == 49 then
      var u := s.(attributes := if v == 39 then a.(primary := NO_COLOUR) else a.(bg := NO_COLOUR));
      var w := Painted(if a.reverseVideo then Swapped(u) else u, v == 39,
                       OfDefault(t, v == 39, if v == 39 then a.bold else a.bgBold));
      if a.reverseVideo then Swapped(w) else w
    else s
  }

  /** What one number does. */
  function SgrOne(t: Tables, s: Colours, v: nat): (r: Colours)
    requires TablesOk(t) && AttributesOk(s.attributes)
    ensures AttributesOk(r.attributes)
  {
    if v == 0 then ByDefault(t) else ColourSet(t, AttributeSet(t, s, v), v)
  }

  /** Three numbers as one colour; as the source has it, one that is too large spills into its neighbours. */
  function Rgb(red: nat, green: nat, blue: nat): (r: nat)
    requires red < WORD32 && green < WORD32 && blue < WORD32
  {
    (((red as bv32) << 16) | ((green as bv32) << 8) | (blue as bv32)) as nat
  }

  /** The numbers 38 and 48 take more numbers after them; if there are too few, the rest is given up. */
  function Extended(t: Tables, s: Colours, p: Params, i: nat): (r: (Colours, nat, bool))
    requires TablesOk(t) && ParamsOk(p) && i < p.count
    ensures r.0.attributes == s.attributes && (!r.2 ==> i < r.1 < p.count)
  {
    var v, j := p.values, i + 1;
    var fg := v[i] == 38;
    if j >= p.count then (s, j, true)
    else if v[j] == 2 then
      if j + 3 >= p.count then (s, j, true)
      else (Painted(s, fg, t.rgb(Rgb(v[j + 1], v[j + 2], v[j + 3]))), j + 3, false)
    else if v[j] == 5 then
      if j + 1 >= p.count then (s, j, true)
      else
        var col := v[j + 1];
        (if col < 8 then Painted(s, fg, OfPalette(t, false, col))
         else if col < 16 then Painted(s, fg, OfPalette(t, true, col - 8))
         else if col < 256 then Painted(s, fg, t.rgb(t.col256[col - 16]))
         else s, j + 1, false)
    else (s, j, false)
  }

  function ColouredFrom(t: Tables, s: Colours, p: Params, i: nat): (r: Colours)
    requires TablesOk(t) && ParamsOk(p) && AttributesOk(s.attributes)
    ensures AttributesOk(r.attributes)
    decreases p.count - i
  {
    if i >= p.count then s
    else if p.values[i] == 38 || p.values[i] == 48 then
      var e := Extended(t, s, p, i);
      if e.2 then e.0 else ColouredFrom(t, e.0, p, e.1 + 1)
    else ColouredFrom(t, SgrOne(t, s, p.values[i]), p, i + 1)
  }

  /** What a control sequence m does. */
  function Coloured(t: Tables, s: Colours, p: Params): (r: Colours)
    requires TablesOk(t) && ParamsOk(p) && AttributesOk(s.attributes)
    ensures AttributesOk(r.attributes)
  {
    if p.count == 0 then ByDefault(t) else ColouredFrom(t, s, p, 0)
  }

  /** The colours are those the attributes stand for: text and background, or the other way round in reverse video. */
  predicate Looks(t: Tables, s: Colours)
    requires TablesOk(t) && AttributesOk(s.attributes)
  {
    var a := s.attributes;
    var text, back := Remembered(t, true, a.bold, a.primary), Remembered(t, false, a.bgBold, a.bg);
    if a.reverseVideo then s.fg == back && s.bg == text else s.fg == text && s.bg == back
  }

  /**
   One number keeps it so if and only if it is none of these: a bright colour by its own number, which is not
   remembered as bright; and bold or blink in reverse video without a colour of its own, for which the wrong default is
   taken. These do so only if the two colours are the same.
   */
  lemma LooksKept(t: Tables, s: Colours, v: nat)
    requires TablesOk(t) && AttributesOk(s.attributes) && Looks(t, s)
    ensures var a := s.attributes;
            var text, back := a.reverseVideo && a.primary == NO_COLOUR, a.reverseVideo && a.bg == NO_COLOUR;
            Looks(t, SgrOne(t, s, v)) <==>
              && (90 <= v <= 97 && !a.bold ==> t.bright[v - 90] == t.ansi[v - 90])
              && (100 <= v <= 107 && !a.bgBold ==> t.bright[v - 100] == t.ansi[v - 100])
              && ((v == 1 && text) || (v == 5 && back) ==> t.defaultFgBright == t.defaultBgBright)
              && ((v == 22 && text) || (v == 25 && back) ==> t.defaultFg == NO_BACKGROUND)
  {
  }

  /** Reverse video on and off again is nothing, and so is it twice over. */
  lemma ReverseTwice(t: Tables, s: Colours)
    requires TablesOk(t) && AttributesOk(s.attributes)
    ensures !s.attributes.reverseVideo ==> SgrOne(t, SgrOne(t, s, 7), 27) == s && SgrOne(t, s, 27) == s
    ensures SgrOne(t, SgrOne(t, s, 7), 7) == SgrOne(t, s, 7)
  {
  }

  // -------------------------------------------------------------------------
  // What each byte does, on a parser state and a plain grid

  /** The switch in `control_sequence_parse`. */
  ghost function ControlActs(t: Tables, x: Context, v: View, rows: nat, cols: nat, c: nat): (r: (Context, View))
    requires TablesOk(t) && InRange(x) && Proper(v, rows, cols)
  {
    SavedFact(x);
    RecolouredItself(x);
    var p := x.params;
    if c == 0x6D then
      var s := Coloured(t, Chosen(x.attributes, v.fg, v.bg), p);
      (x.(attributes := s.attributes), v.(fg := s.fg, bg := s.bg))
    else if c == 0x73 then (x.(savedX := Column(v, cols), savedY := Row(v, rows)), v)
    else if (c == 0x68 || c == 0x6C) && p.count != 0 && p.values[0] == 4
        then (x.(flags := x.flags.(insertMode := c == 0x68)), v)
    else (x, Controlled(v, rows, cols, c, p, x.savedX, x.savedY))
  }

  /** A byte of a control sequence; while one is carried out nothing scrolls. */
  ghost function SequenceActs(t: Tables, x: Context, v: View, rows: nat, cols: nat, c: nat): (r: (Context, View))
    requires TablesOk(t) && InRange(x) && Proper(v, rows, cols)
  {
    SavedFact(x);
    var p := ControlParsed(x.params, x.flags, x.escapeOffset, c);
    var y := x.(params := p.0, flags := p.1);
    Parsed(x, p.0, p.1);
    match p.2
    case Nothing => (y, v)
    case CursorShown(on) => (y, v.(cursorOn := on))
    case Dispatch =>
      var w := ControlActs(t, y, v.(scrollOn := false), rows, cols, c);
      (w.0.(flags := w.0.flags.(controlSequence := false, escape := false)), w.1.(scrollOn := v.scrollOn))
  }

  ghost function StateSaved(x: Context, v: View): (r: Context) {
    x.(saved := Saved(x.attributes, x.currentCharset, v.fg, v.bg, v.x, v.y))
  }

  ghost function StateRestored(x: Context, v: View): (r: (Context, View)) {
    var s := x.saved;
    (x.(attributes := s.attributes, currentCharset := s.charset),
     v.(fg := s.textFg, bg := s.textBg, x := s.x, y := s.y))
  }

  ghost function LineFed(v: View, rows: nat, cols: nat, x: nat, y: nat): (r: View)
    requires 0 < rows
  {
    if y == v.bottom - 1 then Upwards(v, cols, 1).(x := x, y := y) else v.(x := x, y := Clamped((y + 1) % WORD, rows))
  }

  ghost function ReverseFed(v: View, rows: nat, cols: nat, y: nat): (r: View)
    requires 0 < rows
  {
    if y == v.top then Downwards(v, cols, v.top, 1).(x := 0, y := y)
    else v.(x := 0, y := Clamped((y + WORD - 1) % WORD, rows))
  }

  ghost function StartedOver(x: Context, v: View, rows: nat): (r: (Context, View))
    requires InRange(x)
  {
    (Fresh(x), AllWiped(v, true).(cursorOn := true, scrollOn := true, top := 0, bottom := rows))
  }

  /** The sequences of one character after the escape. */
  ghost function EscapeOneActs(x: Context, v: View, rows: nat, cols: nat, c: nat): (r: (Context, View))
    requires InRange(x) && Proper(v, rows, cols)
  {
    if c == 0x37 then (StateSaved(x, v), v)
    else if c == 0x38 then StateRestored(x, v)
    else if c == 0x63 then StartedOver(x, v, rows)
    else if c == 0x44 then (x, LineFed(v, rows, cols, Column(v, cols), Row(v, rows)))
    else if c == 0x45 then (x, LineFed(v, rows, cols, 0, Row(v, rows)))
    else if c == 0x4D then (x, ReverseFed(v, rows, cols, Row(v, rows)))
    else if c == 0x28 || c == 0x29 then (x.(gSelect := c - 0x27), v)
    else (x, v)
  }

  /** A byte after an escape. */
  ghost function EscapeActs(t: Tables, x: Context, v: View, rows: nat, cols: nat, c: nat): (r: (Context, View))
    requires TablesOk(t) && InRange(x) && Proper(v, rows, cols)
  {
    Counting(x);
    SavedFact(x);
    var y := x.(escapeOffset := x.escapeOffset + 1);
    if y.flags.osc then (y.(flags := OscParsed(y.flags, c)), v)
    else if y.flags.controlSequence then SequenceActs(t, y, v, rows, cols, c)
    else if c == 0x5D then (y.(flags := y.flags.(oscEscape := false, osc := true)), v)
    else if c == 0x5B then
      (y.(params := Params(seq(MAX_VALUES, _ => 0), 0, false), flags := y.flags.(controlSequence := true)), v)
    else
      var w := EscapeOneActs(y, v, rows, cols, c);
      (w.0.(flags := w.0.flags.(escape := false)), w.1)
  }

  /** A code point: its glyph, or a replacement as wide as it is. */
  ghost function Printed(t: Tables, v: View, rows: nat, cols: nat, cp: nat): (r: View)
    requires 0 < cols && v.top < v.bottom
  {
    var glyph, width := t.cp437(cp), t.width(cp);
    if glyph.Glyph? then Typed(v, rows, cols, glyph.c)
    else if width == 0 then v
    else TypedBlanks(Typed(v, rows, cols, 0xFE), rows, cols, width - 1)
  }

  /** In insert mode, the cells of a line from one on move right by one. */
  ghost function Inserted(v: View, cols: nat, x: nat, y: nat): (r: View) {
    v.(cells := seq(|v.cells|, i requires 0 <= i < |v.cells| =>
         if CellNo(x, y, cols) < i < CellNo(0, y + 1, cols) then v.cells[i - 1] else v.cells[i]))
  }

  lemma InsertNone(v: View, rows: nat, cols: nat, y: nat)
    requires Proper(v, rows, cols) && y < rows
    ensures Inserted(v, cols, cols, y) == v
  {
    RowFull(cols, y);
    assert Inserted(v, cols, cols, y).cells == v.cells;
  }

  lemma InsertStep(v: View, rows: nat, cols: nat, i: nat, y: nat)
    requires Proper(v, rows, cols) && y < rows && i < cols
    ensures var w := Inserted(v, cols, i + 1, y);
            w.(cells := Moved(w.cells, rows, cols, i + 1, y, i, y)) == Inserted(v, cols, i, y)
  {
    hide Area, CellNo;
    RowOf(|v.cells|, rows, cols, y);
    var r, e := Moved(Inserted(v, cols, i + 1, y).cells, rows, cols, i + 1, y, i, y), Inserted(v, cols, i, y).cells;
    forall k | 0 <= k < |v.cells|
      ensures r[k] == e[k]
    {
    }
  }

  /** A byte outside of any sequence, through the character set. */
  ghost function GlyphPut(t: Tables, x: Context, v: View, rows: nat, cols: nat, c: nat, column: nat,
                          row: nat): (r: View)
    requires InRange(x) && Proper(v, rows, cols)
  {
    CharsetFact(x);
    var w := if x.flags.insertMode then Inserted(v, cols, column, row) else v;
    Typed(w, rows, cols,
          if x.charsets[x.currentCharset] == 1 && c in t.special then t.special[c] else if 0x20 <= c <= 0x7E then c
          else 0xFE)
  }

  /** A byte outside of any sequence. */
  ghost function PlainActs(t: Tables, x: Context, v: View, rows: nat, cols: nat, c: nat): (r: (Context, View))
    requires InRange(x) && Proper(v, rows, cols)
  {
    CharsetFact(x);
    var column, row := Column(v, cols), Row(v, rows);
    if c == 0x00 || c == 0x7F || c == 0x07 then (x, v)
    else if c == 0x1B then (x.(escapeOffset := 0, flags := x.flags.(escape := true)), v)
    else if c == 0x09 then
      (x, v.(x := if column / x.tabSize + 1 >= cols then cols - 1
             else Clamped((column / x.tabSize + 1) * x.tabSize % WORD, cols), y := row))
    else if c == 0x0B || c == 0x0C || c == 0x0A then (x, LineFed(v, rows, cols, if x.onlcr then 0 else column, row))
    else if c == 0x08 then (x, v.(x := Clamped((column + WORD - 1) % WORD, cols), y := row))
    else if c == 0x0D then (x, v.(x := 0, y := row))
    else if c == 14 || c == 15 then (x.(currentCharset := if c == 14 then 1 else 0), v)
    else (x, GlyphPut(t, x, v, rows, cols, c, column, row))
  }

  /** A byte that is no part of a code point. */
  ghost function ByteActs(t: Tables, x: Context, v: View, rows: nat, cols: nat, c: nat): (r: (Context, View))
    requires TablesOk(t) && InRange(x) && Proper(v, rows, cols)
  {
    if x.flags.escape then EscapeActs(t, x, v, rows, cols, c)
    else if x.gSelect != 0 then (Selected(x, c), v)
    else PlainActs(t, x, v, rows, cols, c)
  }

  /** The step of one byte. */
  ghost function Stepped(t: Tables, x: Context, v: View, rows: nat, cols: nat, c: nat): (r: (Context, View))
    requires TablesOk(t) && InRange(x) && Proper(v, rows, cols) && c < 256
  {
    UnicodeFact(x, c);
    if x.flags.discardNext || c == 0x18 || c == 0x1A then (Cancelled(x), v)
    else match UnicodeStep(x.codePoint, x.unicodeRemaining, c)
    case More(cp, n) => (x.(codePoint := cp, unicodeRemaining := n), v)
    case Complete(cp) => (x.(codePoint := cp, unicodeRemaining := 0), Printed(t, v, rows, cols, cp))
    case Other => ByteActs(t, x.(unicodeRemaining := 0), v, rows, cols, c)
  }

  /** A byte that takes a code point further changes nothing else, and the last one prints it. */
  lemma CodePointStep(t: Tables, x: Context, v: View, rows: nat, cols: nat, c: nat)
    requires TablesOk(t) && InRange(x) && Proper(v, rows, cols) && c < 256 && !x.flags.discardNext && c != 0x18 &&
             c != 0x1A
    ensures CodePointOk(x.codePoint, x.unicodeRemaining)
    ensures match UnicodeStep(x.codePoint, x.unicodeRemaining, c)
            case More(cp, n) => Stepped(t, x, v, rows, cols, c) == (x.(codePoint := cp, unicodeRemaining := n), v)
            case Complete(cp) =>
              && 0 < cols && v.top < v.bottom
              && Stepped(t, x, v, rows, cols, c) ==
                 (x.(codePoint := cp, unicodeRemaining := 0), Printed(t, v, rows, cols, cp))
            case Other => true
  {
    hide ByteActs, UnicodeStep, InRange, Typed;
    UnicodeFact(x, c);
  }

  // The cursor stays near the screen

  /** The cursor, and the one that is saved, are at most one place past the right edge and above row `limit`. */
  ghost predicate Beside(x: Context, v: View, cols: nat, limit: nat) {
    v.x <= cols && x.saved.x <= cols && v.y < limit && x.saved.y < limit
  }

  /**
   A row no byte takes the cursor to: one as far down as the screen is wide, or the one below the screen if that is
   below the margins too.
   */
  predicate Bounds(limit: nat, bottom: nat, rows: nat, cols: nat) {
    rows <= limit && (cols <= limit || limit == bottom == rows)
  }

  /** That is far from 2^64 on any screen of which there could be three. */
  lemma BesideNear(x: Context, v: View, rows: nat, cols: nat, limit: nat)
    requires Proper(v, rows, cols) && Beside(x, v, cols, limit) && 3 * |v.cells| < WORD
    ensures Near(v)
  {
    hide Area;
    RowOf(|v.cells|, rows, cols, 0);
  }

  lemma ControlledBeside(x: Context, v: View, rows: nat, cols: nat, c: nat, p: Params, savedX: nat, savedY: nat,
                         limit: nat)
    requires Proper(v, rows, cols) && ParamsOk(p) && Beside(x, v, cols, limit) && Bounds(limit, v.bottom, rows, cols)
    ensures Beside(x, Controlled(v, rows, cols, c, p, savedX, savedY), cols, limit)
  {
    hide Proper, Upwards, Downwards, ErasedRest, ErasedTo, SpacedFrom, Deleted, Opened, Wiped, Clamped, Target,
      MarginsFor, IsTarget;
    ShapesKept(v, cols);
  }

  /** Only the cells differ. */
  ghost predicate SameButCells(v: View, w: View) {
    w == v.(cells := w.cells) && |w.cells| == |v.cells|
  }

  /** Moving rows leaves the cursor where it is. */
  lemma ShapesKept(v: View, cols: nat)
    ensures forall n: nat {:trigger Upwards(v, cols, n)} :: SameButCells(v, Upwards(v, cols, n))
    ensures forall t: nat, n: nat {:trigger Downwards(v, cols, t, n)} :: SameButCells(v, Downwards(v, cols, t, n))
  {
  }

  lemma ControlBeside(t: Tables, x: Context, v: View, rows: nat, cols: nat, c: nat, limit: nat)
    requires TablesOk(t) && InRange(x) && Proper(v, rows, cols) && Beside(x, v, cols, limit) &&
             Bounds(limit, v.bottom, rows, cols)
    ensures var r := ControlActs(t, x, v, rows, cols, c); Beside(r.0, r.1, cols, limit)
  {
    hide Proper, InRange, Controlled, Coloured;
    SavedFact(x);
    ControlledBeside(x, v, rows, cols, c, x.params, x.savedX, x.savedY, limit);
  }

  lemma SequenceBeside(t: Tables, x: Context, v: View, rows: nat, cols: nat, c: nat, limit: nat)
    requires TablesOk(t) && InRange(x) && Proper(v, rows, cols) && Beside(x, v, cols, limit) &&
             Bounds(limit, v.bottom, rows, cols)
    ensures var r := SequenceActs(t, x, v, rows, cols, c); Beside(r.0, r.1, cols, limit) && r.1.scrollOn == v.scrollOn
  {
    hide InRange, ControlActs, ControlParsed;
    SavedFact(x);
    var p := ControlParsed(x.params, x.flags, x.escapeOffset, c);
    Parsed(x, p.0, p.1);
    if p.2.Dispatch? {
      ControlBeside(t, x.(params := p.0, flags := p.1), v.(scrollOn := false), rows, cols, c, limit);
    }
  }

  lemma EscapeOneBeside(x: Context, v: View, rows: nat, cols: nat, c: nat, limit: nat)
    requires InRange(x) && Proper(v, rows, cols) && Beside(x, v, cols, limit) && Bounds(limit, v.bottom, rows, cols) &&
             v.scrollOn
    ensures var r := EscapeOneActs(x, v, rows, cols, c); Beside(r.0, r.1, cols, limit) && r.1.scrollOn
  {
    hide Clamped, Filled, InRange;
    ShapesKept(v, cols);
    hide Upwards, Downwards;
  }

  lemma EscapeBeside(t: Tables, x: Context, v: View, rows: nat, cols: nat, c: nat, limit: nat)
    requires TablesOk(t) && InRange(x) && Proper(v, rows, cols) && Beside(x, v, cols, limit) &&
             Bounds(limit, v.bottom, rows, cols) && v.scrollOn
    ensures var r := EscapeActs(t, x, v, rows, cols, c); Beside(r.0, r.1, cols, limit) && r.1.scrollOn
  {
    hide InRange, Proper, SequenceActs, EscapeOneActs, OscParsed;
    Counting(x);
    var y := x.(escapeOffset := x.escapeOffset + 1);
    SequenceBeside(t, y, v, rows, cols, c, limit);
    EscapeOneBeside(y, v, rows, cols, c, limit);
  }

  lemma TypedBeside(v: View, rows: nat, cols: nat, c: nat, limit: nat)
    requires 0 < cols < WORD && v.top < v.bottom && v.x <= cols && v.y < limit && v.scrollOn &&
             Bounds(limit, v.bottom, rows, cols)
    ensures Typed(v, rows, cols, c).x <= cols && Typed(v, rows, cols, c).y < limit && Typed(v, rows, cols, c).scrollOn
    ensures Typed(v, rows, cols, c).top == v.top && Typed(v, rows, cols, c).bottom == v.bottom
  {
    hide PutAt, ScrolledUp;
  }

  lemma {:induction false} BlanksBeside(v: View, rows: nat, cols: nat, n: nat, limit: nat)
    requires 0 < cols < WORD && v.top < v.bottom && v.x <= cols && v.y < limit && v.scrollOn &&
             Bounds(limit, v.bottom, rows, cols)
    ensures TypedBlanks(v, rows, cols, n).x <= cols && TypedBlanks(v, rows, cols, n).y < limit &&
            TypedBlanks(v, rows, cols, n).scrollOn
    ensures TypedBlanks(v, rows, cols, n).top == v.top && TypedBlanks(v, rows, cols, n).bottom == v.bottom
  {
    hide Typed;
    if n > 0 {
      BlanksBeside(v, rows, cols, n - 1, limit);
      TypedBeside(TypedBlanks(v, rows, cols, n - 1), rows, cols, 32, limit);
    }
  }

  lemma PrintedBeside(t: Tables, v: View, rows: nat, cols: nat, cp: nat, limit: nat)
    requires 0 < cols < WORD && v.top < v.bottom && v.x <= cols && v.y < limit && v.scrollOn &&
             Bounds(limit, v.bottom, rows, cols)
    ensures Printed(t, v, rows, cols, cp).x <= cols && Printed(t, v, rows, cols, cp).y < limit &&
            Printed(t, v, rows, cols, cp).scrollOn
  {
    hide Typed, TypedBlanks;
    var glyph, width := t.cp437(cp), t.width(cp);
    if glyph.Glyph? {
      TypedBeside(v, rows, cols, glyph.c, limit);
    } else if width > 0 {
      TypedBeside(v, rows, cols, 0xFE, limit);
      BlanksBeside(Typed(v, rows, cols, 0xFE), rows, cols, width - 1, limit);
    }
  }

  lemma PlainBeside(t: Tables, x: Context, v: View, rows: nat, cols: nat, c: nat, limit: nat)
    requires InRange(x) && Proper(v, rows, cols) && Beside(x, v, cols, limit) && Bounds(limit, v.bottom, rows, cols) &&
             v.scrollOn
    ensures var r := PlainActs(t, x, v, rows, cols, c); Beside(r.0, r.1, cols, limit) && r.1.scrollOn
  {
    hide Clamped, Typed, InRange, Area;
    ShapesKept(v, cols);
    hide Upwards;
    CharsetFact(x);
    var column, row := Column(v, cols), Row(v, rows);
    var w := if x.flags.insertMode then Inserted(v, cols, column, row) else v;
    var glyph := if x.charsets[x.currentCharset] == 1 && c in t.special then t.special[c]
        else if 0x20 <= c <= 0x7E then c else 0xFE;
    TypedBeside(w, rows, cols, glyph, limit);
  }

  /** Every byte keeps it so. */
  lemma StepBeside(t: Tables, x: Context, v: View, rows: nat, cols: nat, c: nat, limit: nat)
    requires TablesOk(t) && InRange(x) && Proper(v, rows, cols) && c < 256 && Beside(x, v, cols, limit) &&
             Bounds(limit, v.bottom, rows, cols) && v.scrollOn
    ensures var r := Stepped(t, x, v, rows, cols, c); Beside(r.0, r.1, cols, limit) && r.1.scrollOn
  {
    UnicodeFact(x, c);
    hide InRange, UnicodeStep, Printed, EscapeActs, PlainActs, Area;
    match UnicodeStep(x.codePoint, x.unicodeRemaining, c)
    case More(_, _) =>
    case Complete(cp) => PrintedBeside(t, v, rows, cols, cp, limit);
    case Other =>
      var y := x.(unicodeRemaining := 0);
      EscapeOrPlain(t, y, v, rows, cols, c, limit);
  }

  lemma EscapeOrPlain(t: Tables, x: Context, v: View, rows: nat, cols: nat, c: nat, limit: nat)
    requires TablesOk(t) && InRange(x) && Proper(v, rows, cols) && Beside(x, v, cols, limit) &&
             Bounds(limit, v.bottom, rows, cols) && v.scrollOn
    ensures var r := ByteActs(t, x, v, rows, cols, c); Beside(r.0, r.1, cols, limit) && r.1.scrollOn
  {
    hide InRange, EscapeActs, PlainActs, Proper;
    EscapeBeside(t, x, v, rows, cols, c, limit);
    PlainBeside(t, x, v, rows, cols, c, limit);
  }

  // Runs

  /** A parser state in range and a proper grid. */
  ghost predicate Steady(s: (Context, View), rows: nat, cols: nat) {
    InRange(s.0) && Grid(s.1, rows, cols)
  }

  /** A proper grid with a cursor in 64 bits. */
  ghost predicate Grid(v: View, rows: nat, cols: nat) {
    Proper(v, rows, cols) && v.x < WORD && v.y < WORD
  }

  /** The grid keeps its size and its margins stay proper. */
  lemma SameShape(v: View, w: View, rows: nat, cols: nat)
    requires Grid(v, rows, cols) && |w.cells| == |v.cells| && w.top < w.bottom <= rows && w.x < WORD && w.y < WORD
    ensures Grid(w, rows, cols)
  {
  }

  lemma GridFacts(v: View, rows: nat, cols: nat)
    requires Grid(v, rows, cols)
    ensures Proper(v, rows, cols) && 0 < rows < WORD && 0 < cols < WORD && v.top < v.bottom <= rows && v.x < WORD &&
            v.y < WORD
  {
  }

  lemma EditedSteady(v: View, rows: nat, cols: nat, c: nat, a: nat, x: nat, y: nat)
    requires Grid(v, rows, cols) && a < WORD && x < cols && y < rows
    ensures Grid(DisplayErased(v, rows, cols, a, x, y), rows, cols) &&
            Grid(LineErased(v, rows, cols, a, x, y), rows, cols)
    ensures Grid(GapOpened(v, cols, a, x, y), rows, cols) &&
            Grid(GapClosed(v, rows, cols, c == 0x50, a, x, y), rows, cols)
  {
    GridFacts(v, rows, cols);
    hide Grid, Proper, ErasedRest, ErasedTo, SpacedFrom, Deleted, Opened, Wiped, CellNo, Filled;
    SameShape(v, DisplayErased(v, rows, cols, a, x, y), rows, cols);
    SameShape(v, LineErased(v, rows, cols, a, x, y), rows, cols);
    SameShape(v, GapOpened(v, cols, a, x, y), rows, cols);
    SameShape(v, GapClosed(v, rows, cols, c == 0x50, a, x, y), rows, cols);
  }

  lemma RowsSteady(v: View, rows: nat, cols: nat, y: nat, n: nat)
    requires Grid(v, rows, cols)
    ensures Grid(Upwards(v, cols, n), rows, cols) && Grid(Downwards(v, cols, y, n), rows, cols)
  {
    GridFacts(v, rows, cols);
    hide Grid, Proper, MovedUp, MovedDown, CellNo;
    SameShape(v, Upwards(v, cols, n), rows, cols);
    SameShape(v, Downwards(v, cols, y, n), rows, cols);
  }

  lemma PlacedSteady(v: View, rows: nat, cols: nat, x: nat, y: nat)
    requires Grid(v, rows, cols) && x < WORD && y < WORD
    ensures Grid(v.(x := x, y := y), rows, cols)
  {
  }

  lemma ControlledSteady(v: View, rows: nat, cols: nat, c: nat, p: Params, savedX: nat, savedY: nat)
    requires Grid(v, rows, cols) && Proper(v, rows, cols) && ParamsOk(p)
    ensures Grid(Controlled(v, rows, cols, c, p, savedX, savedY), rows, cols)
  {
    GridFacts(v, rows, cols);
    var a, x, y := p.values[0], Column(v, cols), Row(v, rows);
    EditedSteady(v, rows, cols, c, a, x, y);
    RowsSteady(v, rows, cols, y, Least(a, rows));
    PlacedSteady(v, rows, cols, Clamped(savedX, cols), Clamped(savedY, rows));
    var t := Target(c, a, p.values[1], x, y, rows, cols, v.top, v.bottom);
    PlacedSteady(v, rows, cols, t.0, t.1);
    var m := MarginsFor(p, rows);
    SameShape(v, v.(x := 0, y := 0, top := m.0, bottom := m.1), rows, cols);
    hide Grid, Proper, DisplayErased, LineErased, GapOpened, GapClosed, Upwards, Downwards, Clamped, Target, MarginsFor,
      IsTarget, ParamsOk, Column, Row;
  }

  lemma ControlSteady(t: Tables, x: Context, v: View, rows: nat, cols: nat, c: nat)
    requires TablesOk(t) && Steady((x, v), rows, cols)
    ensures Steady(ControlActs(t, x, v, rows, cols, c), rows, cols)
  {
    SavedFact(x);
    RecolouredItself(x);
    GridFacts(v, rows, cols);
    ControlledSteady(v, rows, cols, c, x.params, x.savedX, x.savedY);
    var s := Coloured(t, Chosen(x.attributes, v.fg, v.bg), x.params);
    SameShape(v, v.(fg := s.fg, bg := s.bg), rows, cols);
    hide Controlled, Coloured, Proper, Grid;
  }

  lemma SequenceSteady(t: Tables, x: Context, v: View, rows: nat, cols: nat, c: nat)
    requires TablesOk(t) && Steady((x, v), rows, cols)
    ensures Steady(SequenceActs(t, x, v, rows, cols, c), rows, cols)
  {
    SavedFact(x);
    GridFacts(v, rows, cols);
    SameShape(v, v.(scrollOn := false), rows, cols);
    SameShape(v, v.(cursorOn := true), rows, cols);
    SameShape(v, v.(cursorOn := false), rows, cols);
    hide InRange, ControlActs, ControlParsed, Proper, Grid;
    var p := ControlParsed(x.params, x.flags, x.escapeOffset, c);
    Parsed(x, p.0, p.1);
    if p.2.Dispatch? {
      var y := x.(params := p.0, flags := p.1);
      ControlSteady(t, y, v.(scrollOn := false), rows, cols, c);
      var w := ControlActs(t, y, v.(scrollOn := false), rows, cols, c);
      FlagsQuiet(w.0, w.0.flags.(controlSequence := false, escape := false));
      GridFacts(w.1, rows, cols);
      SameShape(w.1, w.1.(scrollOn := v.scrollOn), rows, cols);
    }
  }

  lemma FedSteady(v: View, rows: nat, cols: nat, x: nat, y: nat)
    requires Grid(v, rows, cols) && x < cols && y < rows
    ensures Grid(LineFed(v, rows, cols, x, y), rows, cols) && Grid(ReverseFed(v, rows, cols, y), rows, cols)
  {
    GridFacts(v, rows, cols);
    RowsSteady(v, rows, cols, v.top, 1);
    PlacedSteady(Upwards(v, cols, 1), rows, cols, x, y);
    PlacedSteady(Downwards(v, cols, v.top, 1), rows, cols, 0, y);
    PlacedSteady(v, rows, cols, x, Clamped((y + 1) % WORD, rows));
    PlacedSteady(v, rows, cols, 0, Clamped((y + WORD - 1) % WORD, rows));
    hide Grid, Upwards, Downwards, Clamped;
  }

  lemma SavedSteady(x: Context, v: View, rows: nat, cols: nat)
    requires Steady((x, v), rows, cols)
    ensures Steady((StateSaved(x, v), v), rows, cols) && Steady(StateRestored(x, v), rows, cols)
  {
    hide Area;
  }

  lemma StartedSteady(x: Context, v: View, rows: nat, cols: nat)
    requires Steady((x, v), rows, cols)
    ensures Steady(StartedOver(x, v, rows), rows, cols)
  {
    GridFacts(v, rows, cols);
    hide Proper, Grid;
    SameShape(v, StartedOver(x, v, rows).1, rows, cols);
  }

  lemma EscapeOneSteady(x: Context, v: View, rows: nat, cols: nat, c: nat)
    requires Steady((x, v), rows, cols)
    ensures Steady(EscapeOneActs(x, v, rows, cols, c), rows, cols)
  {
    GridFacts(v, rows, cols);
    SavedSteady(x, v, rows, cols);
    StartedSteady(x, v, rows, cols);
    FedSteady(v, rows, cols, Column(v, cols), Row(v, rows));
    FedSteady(v, rows, cols, 0, Row(v, rows));
    hide InRange, Grid, Proper, StateSaved, StateRestored, StartedOver, LineFed, ReverseFed;
    if c == 0x28 || c == 0x29 {
      Selecting(x, c - 0x27);
    }
  }

  lemma EscapeSteady(t: Tables, x: Context, v: View, rows: nat, cols: nat, c: nat)
    requires TablesOk(t) && Steady((x, v), rows, cols)
    ensures Steady(EscapeActs(t, x, v, rows, cols, c), rows, cols)
  {
    GridFacts(v, rows, cols);
    hide InRange, Proper, Grid, SequenceActs, EscapeOneActs, OscParsed;
    Counting(x);
    var y := x.(escapeOffset := x.escapeOffset + 1);
    FlagsQuiet(y, OscParsed(y.flags, c));
    FlagsQuiet(y, y.flags.(oscEscape := false, osc := true));
    Parsed(y, Params(seq(MAX_VALUES, _ => 0), 0, false), y.flags.(controlSequence := true));
    SequenceSteady(t, y, v, rows, cols, c);
    EscapeOneSteady(y, v, rows, cols, c);
    var w := EscapeOneActs(y, v, rows, cols, c);
    FlagsQuiet(w.0, w.0.flags.(escape := false));
  }

  lemma TypedSteady(v: View, rows: nat, cols: nat, c: nat)
    requires Grid(v, rows, cols)
    ensures Proper(v, rows, cols) && Grid(Typed(v, rows, cols, c), rows, cols)
  {
    GridFacts(v, rows, cols);
    hide Grid, Proper, ScrolledUp, PutAt;
    SameShape(v, Typed(v, rows, cols, c), rows, cols);
  }

  lemma {:induction false} BlanksSteady(v: View, rows: nat, cols: nat, n: nat)
    requires Grid(v, rows, cols) && Proper(v, rows, cols)
    ensures Grid(TypedBlanks(v, rows, cols, n), rows, cols)
  {
    GridFacts(v, rows, cols);
    hide Proper, Typed, Grid;
    if n > 0 {
      BlanksSteady(v, rows, cols, n - 1);
      TypedSteady(TypedBlanks(v, rows, cols, n - 1), rows, cols, 32);
    }
  }

  lemma PrintedSteady(t: Tables, v: View, rows: nat, cols: nat, cp: nat)
    requires Grid(v, rows, cols) && Proper(v, rows, cols)
    ensures Grid(Printed(t, v, rows, cols, cp), rows, cols)
  {
    GridFacts(v, rows, cols);
    hide Proper, Typed, TypedBlanks, Grid;
    var glyph, width := t.cp437(cp), t.width(cp);
    TypedSteady(v, rows, cols, if glyph.Glyph? then glyph.c else 0xFE);
    if glyph.NoGlyph? && width > 0 {
      TypedSteady(Typed(v, rows, cols, 0xFE), rows, cols, 32);
      BlanksSteady(Typed(v, rows, cols, 0xFE), rows, cols, width - 1);
    }
  }

  lemma GlyphSteady(t: Tables, x: Context, v: View, rows: nat, cols: nat, c: nat, column: nat, row: nat)
    requires InRange(x) && Grid(v, rows, cols) && Proper(v, rows, cols)
    ensures Grid(GlyphPut(t, x, v, rows, cols, c, column, row), rows, cols)
  {
    GridFacts(v, rows, cols);
    CharsetFact(x);
    hide InRange, Proper, Grid, Typed, CellNo;
    var w := if x.flags.insertMode then Inserted(v, cols, column, row) else v;
    SameShape(v, w, rows, cols);
    TypedSteady(w, rows, cols,
                if x.charsets[x.currentCharset] == 1 && c in t.special then t.special[c]
                else if 0x20 <= c <= 0x7E then c else 0xFE);
  }

  lemma PlainSteady(t: Tables, x: Context, v: View, rows: nat, cols: nat, c: nat)
    requires Steady((x, v), rows, cols)
    ensures Steady(PlainActs(t, x, v, rows, cols, c), rows, cols)
  {
    GridFacts(v, rows, cols);
    CharsetFact(x);
    StartEscape(x);
    Shift(x, 0);
    Shift(x, 1);
    var column, row := Column(v, cols), Row(v, rows);
    GlyphSteady(t, x, v, rows, cols, c, column, row);
    FedSteady(v, rows, cols, if x.onlcr then 0 else column, row);
    PlacedSteady(v, rows, cols, cols - 1, row);
    PlacedSteady(v, rows, cols, Clamped((column / x.tabSize + 1) * x.tabSize % WORD, cols), row);
    PlacedSteady(v, rows, cols, Clamped((column + WORD - 1) % WORD, cols), row);
    PlacedSteady(v, rows, cols, 0, row);
    hide InRange, Grid, Proper, Clamped, LineFed, GlyphPut, Column, Row;
  }

  /** Every byte keeps the parser in range and the grid proper. */
  lemma StepSteady(t: Tables, x: Context, v: View, rows: nat, cols: nat, c: nat)
    requires TablesOk(t) && Steady((x, v), rows, cols) && c < 256
    ensures Steady(Stepped(t, x, v, rows, cols, c), rows, cols)
  {
    GridFacts(v, rows, cols);
    UnicodeFact(x, c);
    hide InRange, UnicodeStep, Printed, EscapeActs, PlainActs, Proper, Grid;
    match UnicodeStep(x.codePoint, x.unicodeRemaining, c)
    case More(_, _) =>
    case Complete(cp) => PrintedSteady(t, v, rows, cols, cp);
    case Other =>
      var y := x.(unicodeRemaining := 0);
      SelectOk(y, c);
      EscapeSteady(t, y, v, rows, cols, c);
      PlainSteady(t, y, v, rows, cols, c);
  }

  ghost predicate Bytes(s: seq<nat>) {
    forall i {:trigger s[i]} :: 0 <= i < |s| ==> s[i] < 256
  }

  /** A run: the bytes one after the other. */
  ghost function Ran(t: Tables, s: (Context, View), rows: nat, cols: nat, bytes: seq<nat>): (r: (Context, View))
    requires TablesOk(t) && Steady(s, rows, cols) && Bytes(bytes)
    ensures Steady(r, rows, cols)
    decreases |bytes|
  {
    if bytes == [] then s
    else
      StepSteady(t, s.0, s.1, rows, cols, bytes[0]);
      Ran(t, Stepped(t, s.0, s.1, rows, cols, bytes[0]), rows, cols, bytes[1..])
  }

  lemma {:induction false} RanConcat(t: Tables, s: (Context, View), rows: nat, cols: nat, a: seq<nat>, b: seq<nat>)
    requires TablesOk(t) && Steady(s, rows, cols) && Bytes(a) && Bytes(b)
    ensures Bytes(a + b) && Ran(t, s, rows, cols, a + b) == Ran(t, Ran(t, s, rows, cols, a), rows, cols, b)
    decreases |a|
  {
    hide Stepped, InRange, Proper;
    if a == [] {
      assert a + b == b;
    } else {
      assert Bytes(a + b);
      assert (a + b)[1..] == a[1..] + b && (a + b)[0] == a[0];
      StepSteady(t, s.0, s.1, rows, cols, a[0]);
      RanConcat(t, Stepped(t, s.0, s.1, rows, cols, a[0]), rows, cols, a[1..], b);
    }
  }

  lemma RanOne(t: Tables, s: (Context, View), rows: nat, cols: nat, c: nat)
    requires TablesOk(t) && Steady(s, rows, cols) && c < 256
    ensures Ran(t, s, rows, cols, [c]) == Stepped(t, s.0, s.1, rows, cols, c)
  {
    hide Stepped, Steady;
    StepSteady(t, s.0, s.1, rows, cols, c);
    assert [c][1..] == [];
  }

  // -------------------------------------------------------------------------
  // Facts about parser states

  /** The code point after `i` of its `n` bytes. */
  ghost function Sofar(cp: nat, n: nat, i: nat): (r: nat)
    requires 2 <= n <= 4 && 1 <= i <= n
  {
    cp / Scale(n - i) * Scale(n - i)
  }

  /** The first byte of a code point says how many follow, also in the middle of another one. */
  lemma EncodedSteps(cp: nat, before: nat, remaining: nat)
    requires 0x80 <= cp < 0x11_0000 && CodePointOk(before, remaining)
    ensures var e := Encoded(cp);
            UnicodeStep(before, remaining, e[0]) == More(Sofar(cp, |e|, 1), |e| - 1) && 0x80 <= e[0] < 0xF8
  {
    hide UnicodeStep;
    if cp < 0x800 {
      StartsTwo(before, remaining, cp / 64);
    } else if cp < 0x1_0000 {
      StartsThree(before, remaining, cp / 4096);
    } else {
      StartsFour(before, remaining, cp / 262144);
    }
  }

  lemma SofarStep(cp: nat, k: nat)
    requires 1 <= k <= 3
    ensures cp / Scale(k - 1) * Scale(k - 1) == cp / Scale(k) * Scale(k) + cp / Scale(k - 1) % 64 * Scale(k - 1)
    ensures CodePointOk(cp / Scale(k) * Scale(k), k)
  {
    var s := Scale(k - 1);
    var a := cp / s;
    assert Scale(k) == 64 * s;
    DivMod(a, 64);
    DivMod(cp, s);
    Distribute(s, 64 * (a / 64), a % 64);
    DivModUnique(cp, 64 * s, a / 64, s * (a % 64) + cp % s) by {
      MulMonotone(s, a % 64, 63);
    }
    StillAligned(0, 64 * s, cp / (64 * s));
  }

  lemma ScaleZero()
    ensures Scale(0) == 1
  {
  }

  lemma EncodedByte(cp: nat, i: nat)
    requires 0x80 <= cp < 0x11_0000 && 1 <= i < |Encoded(cp)|
    ensures |Encoded(cp)| - i - 1 <= 2 && Encoded(cp)[i] == 0x80 + cp / Scale(|Encoded(cp)| - i - 1) % 64
  {
  }

  /** Each further byte adds six bits. */
  lemma EncodedAt(cp: nat, i: nat)
    requires 0x80 <= cp < 0x11_0000 && 1 <= i < |Encoded(cp)|
    ensures var e := Encoded(cp);
            && 0x80 <= e[i] < 0xC0 && CodePointOk(Sofar(cp, |e|, i), |e| - i)
            && UnicodeStep(Sofar(cp, |e|, i), |e| - i, e[i]) ==
               if i == |e| - 1 then Complete(cp) else More(Sofar(cp, |e|, i + 1), |e| - i - 1)
  {
    hide UnicodeStep, Encoded, Scale;
    var e := Encoded(cp);
    EncodedByte(cp, i);
    SofarStep(cp, |e| - i);
    Continues(Sofar(cp, |e|, i), |e| - i, e[i] - 0x80);
    assert Scale(0) == 1 by { ScaleZero(); }
  }

  lemma CharsetFact(x: Context)
    requires InRange(x)
    ensures |x.charsets| == 2 && x.currentCharset <= 1 && 0 < x.tabSize
  {
  }

  lemma StartEscape(x: Context)
    requires InRange(x)
    ensures var r := x.(escapeOffset := 0, flags := x.flags.(escape := true)); InRange(r) && Quiet(x, r)
  {
  }

  lemma Shift(x: Context, k: nat)
    requires InRange(x) && k <= 1
    ensures InRange(x.(currentCharset := k)) && Quiet(x, x.(currentCharset := k))
  {
  }

  /** A character set chosen for one of the two slots. */
  function Selected(x: Context, c: nat): (r: Context) {
    var k := x.gSelect - 1;
    if 0 <= k < |x.charsets| && (c == 0x42 || c == 0x30)
        then x.(gSelect := 0, charsets := x.charsets[k := if c == 0x42 then 0 else 1])
    else x.(gSelect := 0)
  }

  lemma SelectOk(x: Context, c: nat)
    requires InRange(x)
    ensures InRange(Selected(x, c)) && Quiet(x, Selected(x, c))
  {
  }

  /** A cancelled sequence. */
  function Cancelled(x: Context): (r: Context) {
    x.(flags := x.flags.(discardNext := false, escape := false, controlSequence := false, osc := false,
                         oscEscape := false),
       unicodeRemaining := 0, gSelect := 0)
  }

  lemma UnicodeFact(x: Context, c: nat)
    requires InRange(x) && c < 256
    ensures CodePointOk(x.codePoint, x.unicodeRemaining)
    ensures InRange(Cancelled(x)) && InRange(x.(unicodeRemaining := 0))
    ensures match UnicodeStep(x.codePoint, x.unicodeRemaining, c)
            case More(cp, n) => InRange(x.(codePoint := cp, unicodeRemaining := n))
            case Complete(cp) => InRange(x.(codePoint := cp, unicodeRemaining := 0))
            case Other => true
  {
    hide UnicodeStep, ParamsOk, AttributesOk;
    StepOk(x.codePoint, x.unicodeRemaining, c);
  }

  lemma QuietItself(x: Context)
    ensures Quiet(x, x)
  {
  }

  lemma Selecting(x: Context, g: nat)
    requires InRange(x) && g <= 2
    ensures InRange(x.(gSelect := g)) && Quiet(x, x.(gSelect := g))
  {
  }

  /** `osc_parse`: any byte but an escape ends it. */
  function OscParsed(f: Flags, c: nat): (r: Flags) {
    if !(f.oscEscape && c == 0x5C) && c == 0x1B then f.(oscEscape := true)
    else f.(oscEscape := false, osc := false, escape := false)
  }

  lemma Counting(x: Context)
    requires InRange(x)
    ensures InRange(x.(escapeOffset := x.escapeOffset + 1)) && Quiet(x, x.(escapeOffset := x.escapeOffset + 1))
  {
  }

  datatype Outcome = Nothing | CursorShown(on: bool) | Dispatch

  /** The parsing half of `control_sequence_parse`: the parameters, the flags, and what is left to do. */
  function ControlParsed(p: Params, f: Flags, escapeOffset: nat, c: nat): (r: (Params, Flags, Outcome))
    requires ParamsOk(p)
    ensures ParamsOk(r.0)
  {
    if escapeOffset == 2 && c == 0x5B
        then (p, f.(discardNext := true, controlSequence := false, escape := false), Nothing)
    else if escapeOffset == 2 && c == 0x3F then (p, f.(decPrivate := true), Nothing)
    else
      var collected := Collected(p, c);
      if collected.1 then (collected.0, f, Nothing)
      else
        var q := Defaulted(collected.0, c);
        if !f.decPrivate then (q, f, Dispatch)
        else (q, f.(decPrivate := false, controlSequence := false, escape := false),
              if q.count != 0 && (c == 0x68 || c == 0x6C) && q.values[0] == 25 then CursorShown(c == 0x68) else Nothing)
  }

  lemma Parsed(x: Context, p: Params, f: Flags)
    requires InRange(x) && ParamsOk(p)
    ensures InRange(x.(params := p, flags := f)) && Quiet(x, x.(params := p, flags := f))
  {
  }

  lemma QuietSteps(a: Context, b: Context, c: Context)
    requires Quiet(a, b) && Quiet(b, c)
    ensures Quiet(a, c)
  {
  }

  lemma SavedFact(c: Context)
    requires InRange(c)
    ensures ParamsOk(c.params) && c.savedX < WORD && c.savedY < WORD && |c.params.values| == MAX_VALUES &&
            c.params.values[0] < WORD32 && c.params.values[1] < WORD32
  {
  }

  lemma RecolouredQuiet(a: Context, b: Context)
    requires Recoloured(a, b)
    ensures Quiet(a, b)
  {
  }

  lemma SaveQuiet(c: Context, x: nat, y: nat)
    requires InRange(c) && x < WORD && y < WORD
    ensures InRange(c.(savedX := x, savedY := y)) && Quiet(c, c.(savedX := x, savedY := y))
  {
  }

  lemma FlagsQuiet(x: Context, f: Flags)
    requires InRange(x)
    ensures InRange(x.(flags := f)) && Quiet(x, x.(flags := f))
  {
  }

  /** What decoding and flushing depend on is left alone, or reset. */
  ghost predicate Quiet(a: Context, b: Context) {
    && b.codePoint == a.codePoint && (b.unicodeRemaining == a.unicodeRemaining || b.unicodeRemaining == 0)
    && (a.autoflush ==> b.autoflush)
  }

  lemma AreaBounds(n: nat, rows: nat, cols: nat)
    requires Area(n, rows, cols) && 0 < rows && 0 < cols && n < WORD
    ensures rows < WORD && cols < WORD
  {
    CellNoBound(cols - 1, 0, n, rows, cols);
    CellNoBound(0, rows - 1, n, rows, cols);
    RowsFit(rows, cols);
  }

  lemma RowsFit(rows: nat, cols: nat)
    requires 0 < rows && 0 < cols
    ensures rows <= rows * cols && cols <= rows * cols
  {
  }

  /** Only the attributes differ. */
  ghost predicate Recoloured(a: Context, b: Context) {
    b == a.(attributes := b.attributes)
  }

  lemma RecolouredItself(a: Context)
    ensures Recoloured(a, a) && (InRange(a) ==> AttributesOk(a.attributes))
  {
  }

  lemma RecolouredTwice(a: Context, b: Context, c: Context)
    requires Recoloured(a, b) && Recoloured(b, c)
    ensures Recoloured(a, c) && c.params == a.params == b.params
  {
  }

  lemma ParamsFact(c: Context, i: nat)
    requires InRange(c) && i < c.params.count
    ensures i < |c.params.values| == MAX_VALUES && c.params.values[i] < WORD32
  {
  }
}
