/**
 Laws about whole sequences of bytes (src/flanterm/flanterm.c:480-500, 502-564, 819-916, 1422-1573): operating system
 commands, cursor positioning, saving and restoring. They are about runs of `Parser.Stepped`, which are what
 `Terminal.Write` performs.
 */
module Sequences {
  import opened Arith
  import opened Framebuffer
  import opened Editing
  import opened Parser

  const ESC: nat := 0x1B

  /** In the middle of nothing. */
  predicate AtRest(x: Context) {
    && x.flags == NO_FLAGS.(insertMode := x.flags.insertMode, decPrivate := x.flags.decPrivate)
    && x.unicodeRemaining == 0 && x.gSelect == 0
  }

  // -------------------------------------------------------------------------
  // Single steps

  lemma EscapeStep(t: Tables, x: Context, v: View, rows: nat, cols: nat)
    requires TablesOk(t) && Steady((x, v), rows, cols) && AtRest(x)
    ensures Proper(v, rows, cols) &&
            Stepped(t, x, v, rows, cols, ESC) == (x.(escapeOffset := 0, flags := x.flags.(escape := true)), v)
  {
    GridFacts(v, rows, cols);
    hide InRange, Proper, Grid, GlyphPut, LineFed, Clamped;
    UnicodeFact(x, ESC);
    assert x.(unicodeRemaining := 0) == x;
  }

  /** A byte that starts no code point, and is part of one only in the middle of it. */
  predicate Single(c: nat) {
    c < 0xC0 || 0xF8 <= c < 256
  }

  /** A byte after an escape that is neither part of a code point nor cancels the sequence. */
  lemma EscapedStep(t: Tables, x: Context, v: View, rows: nat, cols: nat, c: nat)
    requires TablesOk(t) && Steady((x, v), rows, cols) && Single(c) && c != 0x18 && c != 0x1A
    requires x.flags.escape && !x.flags.discardNext && x.unicodeRemaining == 0
    ensures Proper(v, rows, cols) && Stepped(t, x, v, rows, cols, c) == EscapeActs(t, x, v, rows, cols, c)
  {
    GridFacts(v, rows, cols);
    hide InRange, Proper, Grid, EscapeActs, PlainActs;
    UnicodeFact(x, c);
    assert x.(unicodeRemaining := 0) == x;
  }

  /** Two bytes are a step and a step. */
  lemma RanTwo(t: Tables, s: (Context, View), rows: nat, cols: nat, a: nat, b: nat)
    requires TablesOk(t) && Steady(s, rows, cols) && a < 256 && b < 256
    ensures Bytes([a, b]) && Steady(Stepped(t, s.0, s.1, rows, cols, a), rows, cols)
    ensures var m := Stepped(t, s.0, s.1, rows, cols, a);
            Ran(t, s, rows, cols, [a, b]) == Stepped(t, m.0, m.1, rows, cols, b)
  {
    GridFacts(s.1, rows, cols);
    hide Stepped, InRange, Proper, Grid;
    StepSteady(t, s.0, s.1, rows, cols, a);
    RanOne(t, Stepped(t, s.0, s.1, rows, cols, a), rows, cols, b);
    assert [a, b][1..] == [b];
  }

  // -------------------------------------------------------------------------
  // Operating system commands

  /** In the middle of a command, `n` bytes after its escape. */
  function Open(x: Context, n: nat, escaped: bool): (r: Context) {
    x.(escapeOffset := n, flags := x.flags.(escape := true, osc := true, oscEscape := escaped))
  }

  predicate Cancels(c: nat) {
    c == 0x18 || c == 0x1A
  }

  /** At rest again after a command that byte `c` ended. */
  function Closed(x: Context, n: nat, c: nat): (r: Context) {
    x.(escapeOffset := if Cancels(c) then n else n + 1)
  }

  lemma OscOpens(t: Tables, x: Context, v: View, rows: nat, cols: nat)
    requires TablesOk(t) && Steady((x, v), rows, cols) && AtRest(x)
    ensures Bytes([ESC, 0x5D]) && Ran(t, (x, v), rows, cols, [ESC, 0x5D]) == (Open(x, 1, false), v)
  {
    hide Stepped, InRange, Proper, Grid, SequenceActs, EscapeOneActs, OscParsed;
    EscapeStep(t, x, v, rows, cols);
    RanTwo(t, (x, v), rows, cols, ESC, 0x5D);
    var y := x.(escapeOffset := 0, flags := x.flags.(escape := true));
    EscapedStep(t, y, v, rows, cols, 0x5D);
  }

  /** One byte of a command: an escape keeps it open, any other ends it, and none has another effect. */
  lemma OscByte(t: Tables, x: Context, v: View, rows: nat, cols: nat, n: nat, escaped: bool, c: nat)
    requires TablesOk(t) && Steady((Open(x, n, escaped), v), rows, cols) && AtRest(x) && Single(c)
    ensures Proper(v, rows, cols)
    ensures Stepped(t, Open(x, n, escaped), v, rows, cols, c) ==
            (if c == ESC then Open(x, n + 1, true) else Closed(x, n, c), v)
  {
    GridFacts(v, rows, cols);
    if Cancels(c) {
      hide InRange, Proper, Grid, ByteActs;
      UnicodeFact(Open(x, n, escaped), c);
    } else {
      hide Stepped, InRange, Proper, Grid, SequenceActs, EscapeOneActs;
      EscapedStep(t, Open(x, n, escaped), v, rows, cols, c);
    }
  }

  /** How many escapes some bytes start with. */
  function Escapes(s: seq<nat>): (n: nat)
    ensures n <= |s|
    ensures n < |s| ==> s[n] != ESC
    ensures forall i {:trigger s[i]} :: 0 <= i < n ==> s[i] == ESC
  {
    if s == [] || s[0] != ESC then 0
    else
      var m := Escapes(s[1..]);
      assert forall i :: 0 < i < m + 1 ==> s[i] == s[1..][i - 1];
      m + 1
  }

  ghost predicate NoCodePoints(s: seq<nat>) {
    forall i {:trigger s[i]} :: 0 <= i < |s| ==> Single(s[i])
  }

  lemma {:induction false} OscBytes(t: Tables, x: Context, v: View, rows: nat, cols: nat, n: nat, escaped: bool,
                                    s: seq<nat>)
    requires TablesOk(t) && Steady((Open(x, n, escaped), v), rows, cols) && AtRest(x) && NoCodePoints(s) && Bytes(s)
    ensures var k := Escapes(s);
            && Bytes(s[k..])
            && if k == |s| then Ran(t, (Open(x, n, escaped), v), rows, cols, s) == (Open(x, n + k, escaped || 0 < k), v)
               else && Bytes(s[k + 1..]) && Steady((Closed(x, n + k, s[k]), v), rows, cols)
                    && Ran(t, (Open(x, n, escaped), v), rows, cols, s) ==
                       Ran(t, (Closed(x, n + k, s[k]), v), rows, cols, s[k + 1..])
    decreases |s|
  {
    hide Stepped, InRange, Proper, Grid;
    if s != [] {
      OscByte(t, x, v, rows, cols, n, escaped, s[0]);
      StepSteady(t, Open(x, n, escaped), v, rows, cols, s[0]);
      if s[0] == ESC {
        assert NoCodePoints(s[1..]) && Bytes(s[1..]);
        OscBytes(t, x, v, rows, cols, n + 1, true, s[1..]);
        var k := Escapes(s[1..]);
        assert s[1..][k..] == s[k + 1..];
        if k < |s| - 1 {
          assert s[1..][k + 1..] == s[k + 2..] && s[1..][k] == s[k + 1];
        }
      }
    }
  }

  /**
   A command of any bytes that are not part of code points: its escapes are swallowed and the first other byte with
   them, and what follows is handled as if there had been no command.
   */
  lemma OscRuns(t: Tables, x: Context, v: View, rows: nat, cols: nat, s: seq<nat>)
    requires TablesOk(t) && Steady((x, v), rows, cols) && AtRest(x) && NoCodePoints(s) && Bytes(s)
    ensures var k := Escapes(s);
            && Bytes([ESC, 0x5D] + s)
            && if k == |s| then Ran(t, (x, v), rows, cols, [ESC, 0x5D] + s) == (Open(x, k + 1, 0 < k), v)
               else
                 var y := Closed(x, k + 1, s[k]);
                 && Bytes(s[k + 1..]) && Steady((y, v), rows, cols) && AtRest(y)
                 && Ran(t, (x, v), rows, cols, [ESC, 0x5D] + s) == Ran(t, (y, v), rows, cols, s[k + 1..])
  {
    hide InRange, Proper, Grid, Ran;
    OscOpens(t, x, v, rows, cols);
    RanConcat(t, (x, v), rows, cols, [ESC, 0x5D], s);
    OscBytes(t, x, v, rows, cols, 1, false, s);
  }

  /** All of it is taken while the command is open. */
  ghost predicate SwallowedWhole(t: Tables, x: Context, v: View, rows: nat, cols: nat, s: seq<nat>)
    requires TablesOk(t) && Steady((x, v), rows, cols) && Bytes(s)
  {
    forall i {:trigger s[..i]} :: 0 <= i < |s| ==>
      Bytes([ESC, 0x5D] + s[..i]) && Ran(t, (x, v), rows, cols, [ESC, 0x5D] + s[..i]).0.flags.osc
  }

  /** The text of a command is swallowed whole if and only if no byte of it but the last is other than an escape. */
  lemma OscSwallows(t: Tables, x: Context, v: View, rows: nat, cols: nat, s: seq<nat>)
    requires TablesOk(t) && Steady((x, v), rows, cols) && AtRest(x) && NoCodePoints(s) && Bytes(s)
    ensures SwallowedWhole(t, x, v, rows, cols, s) <==> Escapes(s) + 1 >= |s|
    ensures Escapes(s) + 1 >= |s| ==> Bytes([ESC, 0x5D] + s) && Ran(t, (x, v), rows, cols, [ESC, 0x5D] + s).1 == v
  {
    hide InRange, Proper, Grid, Ran, Steady;
    OscRuns(t, x, v, rows, cols, s);
    var k := Escapes(s);
    if k + 1 == |s| {
      RanNone(t, (Closed(x, k + 1, s[k]), v), rows, cols, s[k + 1..]);
    }
    forall i {:trigger s[..i]} | 0 <= i < |s|
      ensures Bytes([ESC, 0x5D] + s[..i])
      ensures i <= k ==> Ran(t, (x, v), rows, cols, [ESC, 0x5D] + s[..i]).0.flags.osc
      ensures i == k + 1 ==> !Ran(t, (x, v), rows, cols, [ESC, 0x5D] + s[..i]).0.flags.osc
    {
      assert NoCodePoints(s[..i]) && Bytes(s[..i]);
      OscRuns(t, x, v, rows, cols, s[..i]);
      EscapesOfPrefix(s, i);
      if i == k + 1 {
        RanNone(t, (Closed(x, k + 1, s[k]), v), rows, cols, s[..i][k + 1..]);
      }
    }
    if k + 1 < |s| {
      assert s[..k + 1] == s[..k + 1];
    }
  }

  lemma RanNone(t: Tables, s: (Context, View), rows: nat, cols: nat, b: seq<nat>)
    requires TablesOk(t) && Steady(s, rows, cols) && b == []
    ensures Bytes(b) && Ran(t, s, rows, cols, b) == s
  {
  }

  lemma {:induction false} EscapesOfPrefix(s: seq<nat>, i: nat)
    requires i <= |s|
    ensures Escapes(s[..i]) == Least(i, Escapes(s))
  {
    var p := s[..i];
    if i > 0 && s[0] == ESC {
      EscapesOfPrefix(s[1..], i - 1);
      assert p[1..] == s[1..][..i - 1];
    }
  }

  /** ESC ] 0 ; a BEL, a title as other terminals take it: the 0 ends it, and the rest is typed. */
  lemma OscTitle(t: Tables, x: Context, v: View, rows: nat, cols: nat)
    requires TablesOk(t) && Steady((x, v), rows, cols) && AtRest(x) && !x.flags.insertMode
    requires x.charsets[x.currentCharset] == 0
    ensures Proper(v, rows, cols) && Bytes([ESC, 0x5D, 0x30, 0x3B, 0x61, 0x07])
    ensures Ran(t, (x, v), rows, cols, [ESC, 0x5D, 0x30, 0x3B, 0x61, 0x07]).1 ==
            Typed(Typed(v, rows, cols, 0x3B), rows, cols, 0x61)
  {
    GridFacts(v, rows, cols);
    var s := [0x30, 0x3B, 0x61, 0x07];
    OscRuns(t, x, v, rows, cols, s);
    assert [ESC, 0x5D] + s == [ESC, 0x5D, 0x30, 0x3B, 0x61, 0x07];
    var y := Closed(x, 1, 0x30);
    assert Escapes(s) == 0 && s[1..] == [0x3B, 0x61, 0x07];
    hide InRange, Proper, Grid, Stepped, Typed;
    PrintableStep(t, y, v, rows, cols, 0x3B);
    StepSteady(t, y, v, rows, cols, 0x3B);
    var w := Typed(v, rows, cols, 0x3B);
    PrintableStep(t, y, w, rows, cols, 0x61);
    StepSteady(t, y, w, rows, cols, 0x61);
    var u := Typed(w, rows, cols, 0x61);
    BellStep(t, y, u, rows, cols);
    RanOne(t, (y, u), rows, cols, 0x07);
    assert [0x3B, 0x61, 0x07][1..] == [0x61, 0x07] && [0x61, 0x07][1..] == [0x07];
  }

  lemma PrintableStep(t: Tables, x: Context, v: View, rows: nat, cols: nat, c: nat)
    requires TablesOk(t) && Steady((x, v), rows, cols) && AtRest(x) && !x.flags.insertMode && 0x20 <= c <= 0x7E
    requires x.charsets[x.currentCharset] == 0
    ensures Proper(v, rows, cols) && Stepped(t, x, v, rows, cols, c) == (x, Typed(v, rows, cols, c))
  {
    GridFacts(v, rows, cols);
    CharsetFact(x);
    hide InRange, Proper, Grid, LineFed, Clamped, Typed;
    UnicodeFact(x, c);
    assert x.(unicodeRemaining := 0) == x;
  }

  lemma BellStep(t: Tables, x: Context, v: View, rows: nat, cols: nat)
    requires TablesOk(t) && Steady((x, v), rows, cols) && AtRest(x)
    ensures Proper(v, rows, cols) && Stepped(t, x, v, rows, cols, 0x07) == (x, v)
  {
    GridFacts(v, rows, cols);
    hide InRange, Proper, Grid, LineFed, Clamped, GlyphPut;
    UnicodeFact(x, 0x07);
    assert x.(unicodeRemaining := 0) == x;
  }

  /** A code point is printed even inside a command, which stays open. */
  lemma OscCodePoint(t: Tables, x: Context, v: View, rows: nat, cols: nat, n: nat, escaped: bool, cp: nat)
    requires TablesOk(t) && Steady((Open(x, n, escaped), v), rows, cols) && AtRest(x) && 0x80 <= cp < 0x11_0000
    ensures Bytes(Encoded(cp)) && 0 < cols && v.top < v.bottom
    ensures Ran(t, (Open(x, n, escaped), v), rows, cols, Encoded(cp)) ==
            (Open(x.(codePoint := cp), n, escaped), Printed(t, v, rows, cols, cp))
  {
    GridFacts(v, rows, cols);
    var e, y := Encoded(cp), Open(x, n, escaped);
    hide InRange, Proper, Grid, Stepped, UnicodeStep, Printed, Encoded;
    UnicodeFact(y, 0);
    EncodedSteps(cp, y.codePoint, 0);
    EncodedBytes(cp);
    CodePointStep(t, y, v, rows, cols, e[0]);
    StepSteady(t, y, v, rows, cols, e[0]);
    CodePointRest(t, y, v, rows, cols, cp, 1);
    assert e[1..] == Encoded(cp)[1..];
  }

  lemma EncodedBytes(cp: nat)
    requires 0x80 <= cp < 0x11_0000
    ensures 2 <= |Encoded(cp)| <= 4 && Bytes(Encoded(cp))
  {
    var e := Encoded(cp);
    EncodedSteps(cp, 0, 0);
    forall i {:trigger e[i]} | 0 <= i < |e|
      ensures e[i] < 256
    {
      if i > 0 {
        EncodedAt(cp, i);
      }
    }
  }

  /** The further bytes of a code point, from whatever state. */
  lemma {:induction false} CodePointRest(t: Tables, x: Context, v: View, rows: nat, cols: nat, cp: nat, i: nat)
    requires TablesOk(t) && 0x80 <= cp < 0x11_0000 && 1 <= i < |Encoded(cp)| && !x.flags.discardNext
    requires Steady((x.(codePoint := Sofar(cp, |Encoded(cp)|, i), unicodeRemaining := |Encoded(cp)| - i), v), rows,
                    cols)
    ensures Bytes(Encoded(cp)[i..]) && 0 < cols && v.top < v.bottom
    ensures Ran(t, (x.(codePoint := Sofar(cp, |Encoded(cp)|, i), unicodeRemaining := |Encoded(cp)| - i), v), rows, cols,
                Encoded(cp)[i..])
         == (x.(codePoint := cp, unicodeRemaining := 0), Printed(t, v, rows, cols, cp))
    decreases |Encoded(cp)| - i
  {
    GridFacts(v, rows, cols);
    var e := Encoded(cp);
    var y := x.(codePoint := Sofar(cp, |e|, i), unicodeRemaining := |e| - i);
    hide InRange, Proper, Grid, Stepped, UnicodeStep, Printed, Encoded, Sofar;
    EncodedBytes(cp);
    EncodedAt(cp, i);
    CodePointStep(t, y, v, rows, cols, e[i]);
    StepSteady(t, y, v, rows, cols, e[i]);
    assert e[i..][1..] == e[i + 1..] && e[i..][0] == e[i];
    if i < |e| - 1 {
      CodePointRest(t, x, v, rows, cols, cp, i + 1);
    }
  }

  // -------------------------------------------------------------------------
  // Cursor positioning

  /** In the middle of a control sequence. */
  function InSequence(x: Context, p: Params, n: nat): (r: Context) {
    x.(escapeOffset := n, params := p, flags := x.flags.(escape := true, controlSequence := true))
  }

  /** What decides how text is typed is the same, and no mark of a private sequence is left. */
  predicate SameModes(x: Context, y: Context) {
    y.flags == x.flags.(decPrivate := false) && y.charsets == x.charsets && y.currentCharset == x.currentCharset
  }

  function NoParams(): (p: Params)
    ensures ParamsOk(p)
  {
    Params(seq(MAX_VALUES, _ => 0), 0, false)
  }

  lemma SequenceOpens(t: Tables, x: Context, v: View, rows: nat, cols: nat)
    requires TablesOk(t) && Steady((x, v), rows, cols) && AtRest(x)
    ensures Bytes([ESC, 0x5B]) && Ran(t, (x, v), rows, cols, [ESC, 0x5B]) == (InSequence(x, NoParams(), 1), v)
  {
    hide Stepped, InRange, Proper, Grid, SequenceActs, EscapeOneActs, OscParsed;
    EscapeStep(t, x, v, rows, cols);
    RanTwo(t, (x, v), rows, cols, ESC, 0x5B);
    var y := x.(escapeOffset := 0, flags := x.flags.(escape := true));
    EscapedStep(t, y, v, rows, cols, 0x5B);
  }

  /** Digits and separators. */
  ghost predicate Numeric(s: seq<nat>) {
    forall i {:trigger s[i]} :: 0 <= i < |s| ==> 0x30 <= s[i] <= 0x39 || s[i] == 0x3B
  }

  /** A byte of a control sequence. */
  lemma SequenceStep(t: Tables, x: Context, v: View, rows: nat, cols: nat, p: Params, n: nat, c: nat)
    requires TablesOk(t) && Steady((InSequence(x, p, n), v), rows, cols) && AtRest(x) && c < 0xC0 && c != 0x18 &&
             c != 0x1A
    ensures Proper(v, rows, cols) && InRange(InSequence(x, p, n + 1))
    ensures Stepped(t, InSequence(x, p, n), v, rows, cols, c) ==
            SequenceActs(t, InSequence(x, p, n + 1), v, rows, cols, c)
  {
    GridFacts(v, rows, cols);
    hide Stepped, Proper, Grid, SequenceActs, EscapeOneActs;
    EscapedStep(t, InSequence(x, p, n), v, rows, cols, c);
  }

  lemma CollectStep(t: Tables, x: Context, v: View, rows: nat, cols: nat, p: Params, n: nat, c: nat)
    requires TablesOk(t) && Steady((InSequence(x, p, n), v), rows, cols) && AtRest(x) &&
             (0x30 <= c <= 0x39 || c == 0x3B)
    ensures Proper(v, rows, cols) && ParamsOk(p)
    ensures Stepped(t, InSequence(x, p, n), v, rows, cols, c) == (InSequence(x, Collected(p, c).0, n + 1), v)
  {
    hide Stepped, Proper, Grid, ControlActs;
    SequenceStep(t, x, v, rows, cols, p, n, c);
  }

  lemma {:induction false} CollectBytes(t: Tables, x: Context, v: View, rows: nat, cols: nat, p: Params, n: nat,
                                        s: seq<nat>)
    requires TablesOk(t) && Steady((InSequence(x, p, n), v), rows, cols) && AtRest(x) && Numeric(s)
    ensures Bytes(s) && ParamsOk(p)
    ensures Ran(t, (InSequence(x, p, n), v), rows, cols, s) == (InSequence(x, Fed(p, s), n + |s|), v)
    decreases |s|
  {
    SequenceParams(x, p, n);
    hide Stepped, InRange, Proper, Grid, Collected;
    if s != [] {
      CollectStep(t, x, v, rows, cols, p, n, s[0]);
      StepSteady(t, InSequence(x, p, n), v, rows, cols, s[0]);
      assert Numeric(s[1..]);
      CollectBytes(t, x, v, rows, cols, Collected(p, s[0]).0, n + 1, s[1..]);
    }
  }

  lemma SequenceParams(x: Context, p: Params, n: nat)
    ensures InRange(InSequence(x, p, n)) ==> ParamsOk(p)
  {
  }

  ghost predicate Digits(s: seq<nat>) {
    s != [] && forall i {:trigger s[i]} :: 0 <= i < |s| ==> 0x30 <= s[i] <= 0x39
  }

  /** The number some digits spell, as far as 32 bits hold it, counted from zero. */
  ghost function FromZero(digits: seq<nat>): (r: nat)
    requires Digits(digits)
  {
    var n := Number(0, digits) % WORD32;
    if n == 0 then 0 else n - 1
  }

  ghost function PositionBytes(row: seq<nat>, column: seq<nat>): (r: seq<nat>) {
    [ESC, 0x5B] + (row + [0x3B] + column) + [0x48]
  }

  /** What is collected from two numbers with a separator between them. */
  lemma TwoCollected(row: seq<nat>, column: seq<nat>)
    requires Digits(row) && Digits(column)
    ensures Numeric(row + [0x3B] + column)
    ensures var p := Fed(NoParams(), row + [0x3B] + column);
            p.count == 1 && p.pending && p.values[0] == Number(0, row) % WORD32 &&
              p.values[1] == Number(0, column) % WORD32
  {
    var p := NoParams();
    NumberCollected(p, row);
    var q := Fed(p, row + [0x3B]);
    DigitsCollected(q, 0, column);
    FedConcat(p, row + [0x3B], column);
  }

  /**
   ESC [ r ; c H, for any two numbers: the cursor goes to that row and column, counted from one and clamped to the
   screen, and nothing else changes. A private sequence that was cancelled makes it do nothing.
   */
  lemma CursorPositioned(t: Tables, x: Context, v: View, rows: nat, cols: nat, row: seq<nat>, column: seq<nat>)
    requires TablesOk(t) && Steady((x, v), rows, cols) && AtRest(x) && Digits(row) && Digits(column)
    ensures Bytes(PositionBytes(row, column)) && 0 < rows && 0 < cols
    ensures var r := Ran(t, (x, v), rows, cols, PositionBytes(row, column));
            && AtRest(r.0) && SameModes(x, r.0)
            && r.1 == if x.flags.decPrivate then v
               else v.(x := Least(FromZero(column), cols - 1), y := Least(FromZero(row), rows - 1))
  {
    TwoCollected(row, column);
    hide Steady, Fed, Number, Stepped, Ran, Numeric, AtRest, Bytes;
    PositionedBy(t, x, v, rows, cols, row + [0x3B] + column);
  }

  /** ESC [ ? and a cancelling byte: the parser is at rest, but the next control sequence is taken for a private one. */
  lemma PrivateLeft(t: Tables, x: Context, v: View, rows: nat, cols: nat)
    requires TablesOk(t) && Steady((x, v), rows, cols) && AtRest(x)
    ensures Bytes([ESC, 0x5B] + [0x3F, 0x18])
    ensures var r := Ran(t, (x, v), rows, cols, [ESC, 0x5B] + [0x3F, 0x18]);
            AtRest(r.0) && r.0.flags.decPrivate && r.1 == v
  {
    var y := InSequence(x, NoParams(), 1);
    SequenceOpens(t, x, v, rows, cols);
    RanConcat(t, (x, v), rows, cols, [ESC, 0x5B], [0x3F, 0x18]);
    RanTwo(t, (y, v), rows, cols, 0x3F, 0x18);
    PrivateStep(t, x, v, rows, cols);
    var z := InSequence(x, NoParams(), 2);
    CancelStep(t, z.(flags := z.flags.(decPrivate := true)), v, rows, cols);
    hide Stepped, Steady, Ran;
  }

  lemma PrivateStep(t: Tables, x: Context, v: View, rows: nat, cols: nat)
    requires TablesOk(t) && Steady((InSequence(x, NoParams(), 1), v), rows, cols) && AtRest(x)
    ensures Proper(v, rows, cols)
    ensures var z := InSequence(x, NoParams(), 2);
            Stepped(t, InSequence(x, NoParams(), 1), v, rows, cols, 0x3F) ==
              (z.(flags := z.flags.(decPrivate := true)), v)
  {
    SequenceStep(t, x, v, rows, cols, NoParams(), 1, 0x3F);
    hide Stepped, Proper, Grid, InRange, ControlActs, Collected;
  }

  lemma CancelStep(t: Tables, x: Context, v: View, rows: nat, cols: nat)
    requires TablesOk(t) && Steady((x, v), rows, cols)
    ensures Proper(v, rows, cols) && Stepped(t, x, v, rows, cols, 0x18) == (Cancelled(x), v)
  {
    GridFacts(v, rows, cols);
    hide InRange, Proper, Grid, ByteActs;
    UnicodeFact(x, 0x18);
  }

  lemma PositionedBy(t: Tables, x: Context, v: View, rows: nat, cols: nat, s: seq<nat>)
    requires TablesOk(t) && Steady((x, v), rows, cols) && AtRest(x) && Numeric(s)
    requires var p := Fed(NoParams(), s); p.count == 1 && p.pending
    ensures Bytes([ESC, 0x5B] + s + [0x48]) && 0 < rows && 0 < cols
    ensures var r, p := Ran(t, (x, v), rows, cols, [ESC, 0x5B] + s + [0x48]), Fed(NoParams(), s);
            && AtRest(r.0) && SameModes(x, r.0)
            && r.1 == if x.flags.decPrivate then v
                      else v.(x := Least(if p.values[1] == 0 then 0 else p.values[1] - 1, cols - 1),
                              y := Least(if p.values[0] == 0 then 0 else p.values[0] - 1, rows - 1))
  {
    hide *;
    SteadySize((x, v), rows, cols);
    SequenceRuns(t, x, v, rows, cols, s, 0x48);
    PositionStep(t, x, v, rows, cols, Fed(NoParams(), s), 1 + |s|);
  }

  lemma SteadySize(s: (Context, View), rows: nat, cols: nat)
    requires Steady(s, rows, cols)
    ensures 0 < rows && 0 < cols
  {
  }

  /** Numbers and the byte after them: the step of that byte with what has been collected. */
  lemma SequenceRuns(t: Tables, x: Context, v: View, rows: nat, cols: nat, s: seq<nat>, c: nat)
    requires TablesOk(t) && Steady((x, v), rows, cols) && AtRest(x) && Numeric(s) && c < 256
    ensures Bytes([ESC, 0x5B] + s + [c]) && Steady((InSequence(x, Fed(NoParams(), s), 1 + |s|), v), rows, cols)
    ensures Ran(t, (x, v), rows, cols, [ESC, 0x5B] + s + [c]) ==
            Stepped(t, InSequence(x, Fed(NoParams(), s), 1 + |s|), v, rows, cols, c)
  {
    hide InRange, Proper, Grid, Fed, Stepped, Ran, Numeric;
    SequenceOpens(t, x, v, rows, cols);
    CollectBytes(t, x, v, rows, cols, NoParams(), 1, s);
    RanConcat(t, (x, v), rows, cols, [ESC, 0x5B], s);
    RanConcat(t, (x, v), rows, cols, [ESC, 0x5B] + s, [c]);
    RanOne(t, (InSequence(x, Fed(NoParams(), s), 1 + |s|), v), rows, cols, c);
  }

  lemma PositionStep(t: Tables, x: Context, v: View, rows: nat, cols: nat, p: Params, n: nat)
    requires TablesOk(t) && Steady((InSequence(x, p, n), v), rows, cols) && AtRest(x) && 0 < rows && 0 < cols
    requires ParamsOk(p) && p.count == 1 && p.pending
    ensures Proper(v, rows, cols)
    ensures var r := Stepped(t, InSequence(x, p, n), v, rows, cols, 0x48);
            && AtRest(r.0) && SameModes(x, r.0)
            && r.1 == if x.flags.decPrivate then v
                      else v.(x := Least(if p.values[1] == 0 then 0 else p.values[1] - 1, cols - 1),
                              y := Least(if p.values[0] == 0 then 0 else p.values[0] - 1, rows - 1))
  {
    SequenceStep(t, x, v, rows, cols, p, n, 0x48);
    var y := InSequence(x, p, n + 1);
    var parsed := ControlParsed(p, y.flags, n + 1, 0x48);
    assert parsed.0.values[0] == p.values[0] && parsed.0.values[1] == p.values[1];
    if !x.flags.decPrivate {
      Parsed(y, parsed.0, parsed.1);
      PositionActs(t, y.(params := parsed.0, flags := parsed.1), v.(scrollOn := false), rows, cols);
    }
    hide Stepped, Proper, Grid, InRange, ControlActs;
  }

  lemma PositionActs(t: Tables, x: Context, v: View, rows: nat, cols: nat)
    requires TablesOk(t) && InRange(x) && Proper(v, rows, cols) && 0 < rows && 0 < cols &&
             |x.params.values| == MAX_VALUES
    ensures var a, b := x.params.values[0], x.params.values[1];
            ControlActs(t, x, v, rows, cols, 0x48) ==
              (x, v.(x := Least(if b == 0 then 0 else b - 1, cols - 1),
                     y := Least(if a == 0 then 0 else a - 1, rows - 1)))
  {
    hide Proper, Coloured, Upwards, Downwards, DisplayErased, LineErased, GapOpened, GapClosed, MarginsFor, Clamped;
  }

  // -------------------------------------------------------------------------
  // Margins and text

  ghost function MarginBytes(top: seq<nat>, bottom: seq<nat>): (r: seq<nat>) {
    [ESC, 0x5B] + (top + [0x3B] + bottom) + [0x72]
  }

  /** The number some digits spell, as far as 32 bits hold it, and one for none. */
  ghost function FromOne(digits: seq<nat>): (r: nat)
    requires Digits(digits)
    ensures 0 < r
  {
    var n := Number(0, digits) % WORD32;
    if n == 0 then 1 else n
  }

  /** The margins two numbers ask for: at least two rows of the screen, or all of it. */
  function Margins(a: nat, b: nat, rows: nat): (r: (nat, nat))
    requires 0 < a && 0 < b
  {
    if a < b <= rows then (a - 1, b) else (0, rows)
  }

  /** ESC [ t ; b r, for any two numbers: the margins are set and the cursor goes to the top left corner. */
  lemma MarginsSet(t: Tables, x: Context, v: View, rows: nat, cols: nat, top: seq<nat>, bottom: seq<nat>)
    requires TablesOk(t) && Steady((x, v), rows, cols) && AtRest(x) && Digits(top) && Digits(bottom) &&
             !x.flags.decPrivate
    ensures Bytes(MarginBytes(top, bottom))
    ensures var r := Ran(t, (x, v), rows, cols, MarginBytes(top, bottom));
            var m := Margins(FromOne(top), FromOne(bottom), rows);
            && AtRest(r.0) && SameModes(x, r.0)
            && r.1 == v.(x := 0, y := 0, top := m.0, bottom := m.1)
  {
    TwoCollected(top, bottom);
    hide Steady, Fed, Number, Stepped, Ran, Numeric, AtRest, Bytes;
    var s := top + [0x3B] + bottom;
    SequenceRuns(t, x, v, rows, cols, s, 0x72);
    MarginsStep(t, x, v, rows, cols, Fed(NoParams(), s), 1 + |s|);
  }

  lemma MarginsStep(t: Tables, x: Context, v: View, rows: nat, cols: nat, p: Params, n: nat)
    requires TablesOk(t) && Steady((InSequence(x, p, n), v), rows, cols) && AtRest(x) && !x.flags.decPrivate
    requires ParamsOk(p) && p.count == 1 && p.pending
    ensures Proper(v, rows, cols)
    ensures var r := Stepped(t, InSequence(x, p, n), v, rows, cols, 0x72);
            var m := Margins(if p.values[0] == 0 then 1 else p.values[0], if p.values[1] == 0 then 1 else p.values[1],
                             rows);
            && AtRest(r.0) && SameModes(x, r.0)
            && r.1 == v.(x := 0, y := 0, top := m.0, bottom := m.1)
  {
    SequenceStep(t, x, v, rows, cols, p, n, 0x72);
    var y := InSequence(x, p, n + 1);
    var parsed := ControlParsed(p, y.flags, n + 1, 0x72);
    assert parsed.0.values[0] == p.values[0] && parsed.0.values[1] == p.values[1] && parsed.0.count == 2;
    Parsed(y, parsed.0, parsed.1);
    MarginsActs(t, y.(params := parsed.0, flags := parsed.1), v.(scrollOn := false), rows, cols);
    hide Stepped, Proper, Grid, InRange, ControlActs;
  }

  lemma MarginsActs(t: Tables, x: Context, v: View, rows: nat, cols: nat)
    requires TablesOk(t) && InRange(x) && Proper(v, rows, cols) && |x.params.values| == MAX_VALUES &&
             x.params.count == 2
    ensures var a, b := x.params.values[0], x.params.values[1];
            var m := Margins(if a == 0 then 1 else a, if b == 0 then 1 else b, rows);
            ControlActs(t, x, v, rows, cols, 0x72) == (x, v.(x := 0, y := 0, top := m.0, bottom := m.1))
  {
    hide Proper, Coloured, Upwards, Downwards, DisplayErased, LineErased, GapOpened, GapClosed, Clamped;
  }

  ghost predicate Printable(s: seq<nat>) {
    forall i {:trigger s[i]} :: 0 <= i < |s| ==> 0x20 <= s[i] <= 0x7E
  }

  /** Bytes are typed as the characters they are. */
  predicate TypesText(x: Context) {
    AtRest(x) && !x.flags.insertMode && x.currentCharset < |x.charsets| && x.charsets[x.currentCharset] == 0
  }

  ghost function TypedText(v: View, rows: nat, cols: nat, s: seq<nat>): (r: View)
    requires 0 < cols && v.top < v.bottom
    ensures r.top == v.top && r.bottom == v.bottom
  {
    if s == [] then v else Typed(TypedText(v, rows, cols, s[..|s| - 1]), rows, cols, s[|s| - 1])
  }

  /** Printable bytes are typed one after the other, and change nothing else. */
  lemma {:induction false} TextTyped(t: Tables, x: Context, v: View, rows: nat, cols: nat, s: seq<nat>)
    requires TablesOk(t) && Steady((x, v), rows, cols) && TypesText(x) && Printable(s)
    ensures Bytes(s) && 0 < cols && v.top < v.bottom
    ensures Ran(t, (x, v), rows, cols, s) == (x, TypedText(v, rows, cols, s))
    decreases |s|
  {
    GridFacts(v, rows, cols);
    hide InRange, Grid, Stepped, Typed, Proper;
    if s != [] {
      var a, c := s[..|s| - 1], s[|s| - 1];
      TextTyped(t, x, v, rows, cols, a);
      var w := TypedText(v, rows, cols, a);
      RanConcat(t, (x, v), rows, cols, a, [c]);
      RanOne(t, (x, w), rows, cols, c);
      PrintableStep(t, x, w, rows, cols, c);
      assert a + [c] == s;
    }
  }

  /** Up to a whole line from its start stays in the line. */
  lemma {:induction false} TextInLine(v: View, rows: nat, cols: nat, s: seq<nat>)
    requires 0 < cols < WORD && v.top < v.bottom && v.x == 0 && |s| <= cols
    ensures var r := TypedText(v, rows, cols, s); r.x == |s| && r.y == v.y && r.scrollOn == v.scrollOn
    decreases |s|
  {
    if s != [] {
      TextInLine(v, rows, cols, s[..|s| - 1]);
      hide TypedText, PutAt;
    }
  }

  /** A printable byte takes the cursor below the screen exactly in the case of `Framebuffer.LeavesBelow`. */
  lemma StepLeavesBelow(t: Tables, x: Context, v: View, rows: nat, cols: nat, c: nat)
    requires TablesOk(t) && Steady((x, v), rows, cols) && TypesText(x) && 0x20 <= c <= 0x7E && v.y < rows
    ensures Proper(v, rows, cols)
    ensures Stepped(t, x, v, rows, cols, c).1.y >= rows <==>
            v.x >= cols && v.scrollOn && v.y == rows - 1 && v.bottom < rows < cols
  {
    GridFacts(v, rows, cols);
    PrintableStep(t, x, v, rows, cols, c);
    LeavesBelow(v, rows, cols, c);
    hide Stepped, Typed;
  }

  /** The bytes that set margins above the last row and go to the start of that row. */
  ghost function ToLastRow(top: seq<nat>, bottom: seq<nat>, row: seq<nat>): (r: seq<nat>) {
    MarginBytes(top, bottom) + PositionBytes(row, [0x31])
  }

  lemma LastRowReached(t: Tables, x: Context, v: View, rows: nat, cols: nat, top: seq<nat>, bottom: seq<nat>,
                       row: seq<nat>)
    requires TablesOk(t) && Steady((x, v), rows, cols) && TypesText(x) && !x.flags.decPrivate
    requires Digits(top) && Digits(bottom) && Digits(row)
    requires FromOne(top) < FromOne(bottom) < rows && FromZero(row) >= rows - 1
    ensures Bytes(ToLastRow(top, bottom, row))
    ensures var r := Ran(t, (x, v), rows, cols, ToLastRow(top, bottom, row));
            && TypesText(r.0)
            && r.1 == v.(x := 0, y := rows - 1, top := FromOne(top) - 1, bottom := FromOne(bottom))
  {
    assert Number(0, [0x31]) == 1;
    hide Steady, Number, Stepped, Ran, Bytes, MarginBytes, PositionBytes, AtRest;
    MarginsSet(t, x, v, rows, cols, top, bottom);
    var m := Ran(t, (x, v), rows, cols, MarginBytes(top, bottom));
    CursorPositioned(t, m.0, m.1, rows, cols, row, [0x31]);
    RanConcat(t, (x, v), rows, cols, MarginBytes(top, bottom), PositionBytes(row, [0x31]));
  }

  /**
   On a screen wider than tall, with a bottom margin above the last row, a line of text is typed into the last row from
   its start: the next character is lost, and the cursor is below the screen.
   */
  lemma LostBelow(t: Tables, x: Context, v: View, rows: nat, cols: nat, top: seq<nat>, bottom: seq<nat>, row: seq<nat>,
                  line: seq<nat>, c: nat)
    requires TablesOk(t) && Steady((x, v), rows, cols) && TypesText(x) && !x.flags.decPrivate && v.scrollOn &&
             rows < cols
    requires Digits(top) && Digits(bottom) && Digits(row)
    requires FromOne(top) < FromOne(bottom) < rows && FromZero(row) >= rows - 1
    requires Printable(line) && |line| == cols && 0x20 <= c <= 0x7E
    ensures Bytes(ToLastRow(top, bottom, row) + line) && Bytes(ToLastRow(top, bottom, row) + line + [c])
    ensures var before := Ran(t, (x, v), rows, cols, ToLastRow(top, bottom, row) + line);
            var after := Ran(t, (x, v), rows, cols, ToLastRow(top, bottom, row) + line + [c]);
            before.1.y == rows - 1 && after.1 == before.1.(x := 1, y := rows)
  {
    LastRowReached(t, x, v, rows, cols, top, bottom, row);
    var s := ToLastRow(top, bottom, row);
    var m := Ran(t, (x, v), rows, cols, s);
    TextTyped(t, m.0, m.1, rows, cols, line);
    var w := TypedText(m.1, rows, cols, line);
    RanConcat(t, (x, v), rows, cols, s, line);
    RanConcat(t, (x, v), rows, cols, s + line, [c]);
    OverEdge(t, m.0, m.1, rows, cols, line, c);
    hide *;
  }

  lemma OverEdge(t: Tables, x: Context, v: View, rows: nat, cols: nat, line: seq<nat>, c: nat)
    requires TablesOk(t) && Steady((x, v), rows, cols) && TypesText(x) && Printable(line) && |line| == cols &&
             0x20 <= c <= 0x7E
    requires 0 < cols && v.top < v.bottom < rows < cols && v.x == 0 && v.y == rows - 1 && v.scrollOn
    requires var w := TypedText(v, rows, cols, line); Steady((x, w), rows, cols)
    ensures var w := TypedText(v, rows, cols, line);
            w.y == rows - 1 && Ran(t, (x, w), rows, cols, [c]) == (x, w.(x := 1, y := rows))
  {
    var w := TypedText(v, rows, cols, line);
    GridFacts(w, rows, cols);
    TextInLine(v, rows, cols, line);
    RanOne(t, (x, w), rows, cols, c);
    PrintableStep(t, x, w, rows, cols, c);
    assert Area(|w.cells|, rows, cols);
    WrapsInto(w, rows, cols, c);
    hide Typed, Stepped, TypedText, Area;
  }

  /** Such bytes: ESC [ 1 ; 3 r, ESC [ 5 ; 1 H and eleven characters, on five rows of ten. */
  lemma LostOnFiveRows(t: Tables, x: Context, v: View)
    requires TablesOk(t) && Steady((x, v), 5, 10) && TypesText(x) && !x.flags.decPrivate && v.scrollOn
    ensures var s := [ESC, 0x5B, 0x31, 0x3B, 0x33, 0x72, ESC, 0x5B, 0x35, 0x3B, 0x31, 0x48] + seq(10, _ => 0x61);
            && Bytes(s) && Bytes(s + [0x62])
            && Ran(t, (x, v), 5, 10, s + [0x62]).1 == Ran(t, (x, v), 5, 10, s).1.(x := 1, y := 5)
  {
    var line: seq<nat> := seq(10, _ => 0x61);
    assert Number(0, [0x31]) == 1 && Number(0, [0x33]) == 3 && Number(0, [0x35]) == 5;
    assert ToLastRow([0x31], [0x33], [0x35]) == [ESC, 0x5B, 0x31, 0x3B, 0x33, 0x72, ESC, 0x5B, 0x35, 0x3B, 0x31, 0x48];
    LostBelow(t, x, v, 5, 10, [0x31], [0x33], [0x35], line, 0x62);
    hide Ran, Steady, Bytes;
  }

  // -------------------------------------------------------------------------
  // Saving and restoring

  /** The byte completes ESC 7. */
  predicate Saves(x: Context, c: nat) {
    c == 0x37 && x.flags.escape && !x.flags.osc && !x.flags.controlSequence && !x.flags.discardNext
  }

  /** No other byte touches what is saved. */
  lemma SavedKept(t: Tables, x: Context, v: View, rows: nat, cols: nat, c: nat)
    requires TablesOk(t) && Steady((x, v), rows, cols) && c < 256 && !Saves(x, c)
    ensures Proper(v, rows, cols) && Stepped(t, x, v, rows, cols, c).0.saved == x.saved
  {
    GridFacts(v, rows, cols);
    UnicodeFact(x, c);
    hide InRange, Proper, Grid, Printed, PlainActs, EscapeActs;
    if !x.flags.discardNext && c != 0x18 && c != 0x1A && UnicodeStep(x.codePoint, x.unicodeRemaining, c).Other? {
      var y := x.(unicodeRemaining := 0);
      if y.flags.escape {
        EscapeSaved(t, y, v, rows, cols, c);
      } else if y.gSelect == 0 {
        PlainSaved(t, y, v, rows, cols, c);
      }
    }
  }

  lemma EscapeSaved(t: Tables, x: Context, v: View, rows: nat, cols: nat, c: nat)
    requires TablesOk(t) && InRange(x) && Proper(v, rows, cols) && (c != 0x37 || x.flags.osc || x.flags.controlSequence)
    ensures EscapeActs(t, x, v, rows, cols, c).0.saved == x.saved
  {
    Counting(x);
    var y := x.(escapeOffset := x.escapeOffset + 1);
    SequenceSaved(t, y, v, rows, cols, c);
    hide InRange, Proper, SequenceActs, OscParsed, LineFed, ReverseFed, Filled;
  }

  lemma SequenceSaved(t: Tables, x: Context, v: View, rows: nat, cols: nat, c: nat)
    requires TablesOk(t) && InRange(x) && Proper(v, rows, cols)
    ensures SequenceActs(t, x, v, rows, cols, c).0.saved == x.saved
  {
    SavedFact(x);
    hide InRange, ControlActs, ControlParsed;
    var p := ControlParsed(x.params, x.flags, x.escapeOffset, c);
    Parsed(x, p.0, p.1);
    if p.2.Dispatch? {
      ControlSaved(t, x.(params := p.0, flags := p.1), v.(scrollOn := false), rows, cols, c);
    }
  }

  lemma ControlSaved(t: Tables, x: Context, v: View, rows: nat, cols: nat, c: nat)
    requires TablesOk(t) && InRange(x) && Proper(v, rows, cols)
    ensures ControlActs(t, x, v, rows, cols, c).0.saved == x.saved
  {
    SavedFact(x);
    RecolouredItself(x);
    hide InRange, Controlled, Coloured, Proper;
  }

  lemma PlainSaved(t: Tables, x: Context, v: View, rows: nat, cols: nat, c: nat)
    requires InRange(x) && Proper(v, rows, cols)
    ensures PlainActs(t, x, v, rows, cols, c).0.saved == x.saved
  {
    CharsetFact(x);
    hide InRange, Proper, LineFed, GlyphPut, Clamped;
  }

  /** None of the bytes completes ESC 7. */
  ghost predicate NeverSaves(t: Tables, s: (Context, View), rows: nat, cols: nat, bytes: seq<nat>)
    requires TablesOk(t) && Steady(s, rows, cols) && Bytes(bytes)
    decreases |bytes|
  {
    bytes == [] || (
      && !Saves(s.0, bytes[0])
      && (StepSteady(t, s.0, s.1, rows, cols, bytes[0]);
          NeverSaves(t, Stepped(t, s.0, s.1, rows, cols, bytes[0]), rows, cols, bytes[1..])))
  }

  lemma {:induction false} RunKeepsSaved(t: Tables, s: (Context, View), rows: nat, cols: nat, bytes: seq<nat>)
    requires TablesOk(t) && Steady(s, rows, cols) && Bytes(bytes) && NeverSaves(t, s, rows, cols, bytes)
    ensures Ran(t, s, rows, cols, bytes).0.saved == s.0.saved
    decreases |bytes|
  {
    hide Stepped, InRange, Proper, Grid, Saves;
    if bytes != [] {
      StepSteady(t, s.0, s.1, rows, cols, bytes[0]);
      SavedKept(t, s.0, s.1, rows, cols, bytes[0]);
      RunKeepsSaved(t, Stepped(t, s.0, s.1, rows, cols, bytes[0]), rows, cols, bytes[1..]);
    }
  }

  lemma SaveRuns(t: Tables, x: Context, v: View, rows: nat, cols: nat)
    requires TablesOk(t) && Steady((x, v), rows, cols) && AtRest(x)
    ensures Bytes([ESC, 0x37]) && Ran(t, (x, v), rows, cols, [ESC, 0x37]) == (StateSaved(x, v).(escapeOffset := 1), v)
  {
    hide Stepped, InRange, Proper, Grid, SequenceActs, OscParsed;
    EscapeStep(t, x, v, rows, cols);
    RanTwo(t, (x, v), rows, cols, ESC, 0x37);
    var y := x.(escapeOffset := 0, flags := x.flags.(escape := true));
    EscapedStep(t, y, v, rows, cols, 0x37);
  }

  lemma RestoreRuns(t: Tables, x: Context, v: View, rows: nat, cols: nat)
    requires TablesOk(t) && Steady((x, v), rows, cols) && AtRest(x)
    ensures Bytes([ESC, 0x38])
    ensures var r := StateRestored(x, v); Ran(t, (x, v), rows, cols, [ESC, 0x38]) == (r.0.(escapeOffset := 1), r.1)
  {
    hide Stepped, InRange, Proper, Grid, SequenceActs, OscParsed;
    EscapeStep(t, x, v, rows, cols);
    RanTwo(t, (x, v), rows, cols, ESC, 0x38);
    var y := x.(escapeOffset := 0, flags := x.flags.(escape := true));
    EscapedStep(t, y, v, rows, cols, 0x38);
  }

  /**
   ESC 7, any bytes that complete no further ESC 7 and leave the parser at rest, ESC 8: attributes, character set,
   colours and cursor are as they were before, and the rest is as the bytes have left it.
   */
  lemma SavedAndRestored(t: Tables, x: Context, v: View, rows: nat, cols: nat, bytes: seq<nat>, y: Context, w: View)
    requires TablesOk(t) && Steady((x, v), rows, cols) && AtRest(x) && Bytes(bytes)
    requires Steady((StateSaved(x, v).(escapeOffset := 1), v), rows, cols)
    requires NeverSaves(t, (StateSaved(x, v).(escapeOffset := 1), v), rows, cols, bytes)
    requires (y, w) == Ran(t, (StateSaved(x, v).(escapeOffset := 1), v), rows, cols, bytes) && AtRest(y)
    ensures Bytes([ESC, 0x37] + bytes + [ESC, 0x38])
    ensures Ran(t, (x, v), rows, cols, [ESC, 0x37] + bytes + [ESC, 0x38])
         == (y.(attributes := x.attributes, currentCharset := x.currentCharset, escapeOffset := 1),
             w.(fg := v.fg, bg := v.bg, x := v.x, y := v.y))
  {
    hide InRange, Proper, Grid, Stepped, Ran, NeverSaves;
    SaveRuns(t, x, v, rows, cols);
    RunKeepsSaved(t, (StateSaved(x, v).(escapeOffset := 1), v), rows, cols, bytes);
    RanConcat(t, (x, v), rows, cols, [ESC, 0x37], bytes);
    RestoreRuns(t, y, w, rows, cols);
    RanConcat(t, (x, v), rows, cols, [ESC, 0x37] + bytes, [ESC, 0x38]);
  }
}
