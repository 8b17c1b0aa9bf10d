/** Drawing a QR code on a terminal, and reading the drawing back. */
module Qr {
  import opened Wrappers
  import opened Text

  const QUIET: nat := 4

  /** The grid, row by row, `true` for dark. */
  datatype Modules = Modules(size: nat, dark: seq<bool>)

  ghost predicate Square(m: Modules) {
    m.size > 0 && |m.dark| == m.size * m.size
  }

  function New(size: nat, dark: seq<bool>): (r: Option<Modules>)
    ensures r.Some? <==> Square(Modules(size, dark))
    ensures r.Some? ==> r.value == Modules(size, dark)
  {
    if size > 0 && |dark| == size * size then Some(Modules(size, dark)) else None
  }

  lemma MulMonotone(a: nat, b: nat, d: nat)
    requires a <= b
    ensures a * d <= b * d
  {
    assert b * d == a * d + (b - a) * d;
  }

  lemma IndexInGrid(x: nat, y: nat, size: nat)
    requires x < size && y < size
    ensures y * size + x < size * size
  {
    MulMonotone(y + 1, size, size);
  }

  /** Dark inside the code where the grid says so; light everywhere outside. */
  predicate IsDark(m: Modules, x: nat, y: nat)
    requires Square(m)
  {
    if x >= m.size || y >= m.size then false
    else
      IndexInGrid(x, y, m.size);
      m.dark[y * m.size + x]
  }

  /** The same, with the quiet zone's offset. */
  predicate InkAt(m: Modules, x: nat, y: nat)
    requires Square(m)
  {
    x >= QUIET && y >= QUIET && IsDark(m, x - QUIET, y - QUIET)
  }

  datatype Blocks = Full | Half

  function Span(size: nat): nat {
    size + 2 * QUIET
  }

  function Columns(size: nat, blocks: Blocks): nat {
    if blocks.Full? then Span(size) * 2 else Span(size)
  }

  /** An odd number of module rows still needs the line that holds the last. */
  function Rows(size: nat, blocks: Blocks): nat {
    if blocks.Full? then Span(size) else (Span(size) + 1) / 2
  }

  function Fit(size: nat, available: nat): Option<Blocks> {
    if Columns(size, Full) <= available then Some(Full)
    else if Columns(size, Half) <= available then Some(Half)
    else None
  }

  const INK: string := "\U{1b}[30;47m"
  const RESET: string := "\U{1b}[0m"

  const BOTH: char := '\U{2588}'
  const UPPER: char := '\U{2580}'
  const LOWER: char := '\U{2584}'

  /** The characters of one line's column `x`. */
  function Cell(m: Modules, blocks: Blocks, line: nat, x: nat): string
    requires Square(m)
  {
    match blocks
    case Full => if InkAt(m, x, line) then [BOTH, BOTH] else [' ', ' ']
    case Half =>
      match (InkAt(m, x, line * 2), InkAt(m, x, line * 2 + 1))
      case (true, true) => [BOTH]
      case (true, false) => [UPPER]
      case (false, true) => [LOWER]
      case (false, false) => [' ']
  }

  /** A line's cells from column `x` on. */
  function Cells(m: Modules, blocks: Blocks, line: nat, x: nat): (r: string)
    requires Square(m)
    ensures x <= Span(m.size) ==> |r| == (Span(m.size) - x) * (if blocks.Full? then 2 else 1)
    ensures forall k :: 0 <= k < |r| ==> r[k] in [BOTH, UPPER, LOWER, ' ']
    decreases Span(m.size) - x
  {
    if x >= Span(m.size) then [] else Cell(m, blocks, line, x) + Cells(m, blocks, line, x + 1)
  }

  function Line(m: Modules, blocks: Blocks, line: nat): string
    requires Square(m)
  {
    INK + (Cells(m, blocks, line, 0) + RESET)
  }

  /** The drawing from one line on. */
  function DrawnFrom(m: Modules, blocks: Blocks, line: nat): string
    requires Square(m)
    decreases Rows(m.size, blocks) - line
  {
    if line >= Rows(m.size, blocks) then [] else Line(m, blocks, line) + ['\n'] + DrawnFrom(m, blocks, line + 1)
  }

  /** `draw_with`. */
  function DrawWith(m: Modules, blocks: Blocks): string
    requires Square(m)
  {
    DrawnFrom(m, blocks, 0)
  }

  datatype Drawing = Code(text: string) | TooNarrow(needed: nat, available: nat)

  function Draw(m: Modules, available: nat): Drawing
    requires Square(m)
  {
    match Fit(m.size, available)
    case None => TooNarrow(Columns(m.size, Half), available)
    case Some(blocks) => Code(DrawWith(m, blocks))
  }

  // --------------------------------------------------------- reading it back

  /** The lines of a text in which every line is ended. */
  function Lines(text: string): seq<string>
    decreases |text|
  {
    match SplitOnce(text, '\n')
    case None => []
    case Some(p) => [p.0] + Lines(p.1)
  }

  /** What a scanner sees at column `x` of module row `y`: the ink of the glyph
      there, between the colour codes. */
  predicate SeenAt(lines: seq<string>, blocks: Blocks, x: nat, y: nat) {
    match blocks
    case Full =>
      && y < |lines| && |INK| + 2 * x + 1 < |lines[y]|
      && lines[y][|INK| + 2 * x] == BOTH && lines[y][|INK| + 2 * x + 1] == BOTH
    case Half =>
      && y / 2 < |lines| && |INK| + x < |lines[y / 2]|
      && lines[y / 2][|INK| + x] in (if y % 2 == 0 then [BOTH, UPPER] else [BOTH, LOWER])
  }

  lemma LineHasNoBreak(m: Modules, blocks: Blocks, line: nat)
    requires Square(m)
    ensures '\n' !in Line(m, blocks, line)
  {
  }

  ghost predicate AreLines(lines: seq<string>, m: Modules, blocks: Blocks, from: nat)
    requires Square(m) && from <= Rows(m.size, blocks)
  {
    && |lines| == Rows(m.size, blocks) - from
    && forall k :: 0 <= k < |lines| ==> lines[k] == Line(m, blocks, from + k)
  }

  lemma LinesCons(line: string, rest: string)
    requires '\n' !in line
    ensures Lines(line + ['\n'] + rest) == [line] + Lines(rest)
  {
    SplitOnceAt(line, '\n', rest);
  }

  lemma {:induction false} DrawnLines(m: Modules, blocks: Blocks, from: nat)
    requires Square(m) && from <= Rows(m.size, blocks)
    ensures AreLines(Lines(DrawnFrom(m, blocks, from)), m, blocks, from)
    decreases Rows(m.size, blocks) - from
  {
    hide Line, Rows, Lines;
    var rest := DrawnFrom(m, blocks, from + 1);
    if from < Rows(m.size, blocks) {
      LineHasNoBreak(m, blocks, from);
      LinesCons(Line(m, blocks, from), rest);
      DrawnLines(m, blocks, from + 1);
      var lines := [Line(m, blocks, from)] + Lines(rest);
      assert forall k :: 1 <= k < |lines| ==> lines[k] == Lines(rest)[k - 1];
    } else {
      NoLines();
    }
  }

  lemma NoLines()
    ensures Lines("") == []
  {
  }

  lemma {:induction false} CellsAt(m: Modules, blocks: Blocks, line: nat, from: nat, x: nat)
    requires Square(m) && from <= x < Span(m.size)
    ensures var w := if blocks.Full? then 2 else 1;
            var cells := Cells(m, blocks, line, from);
            && (x - from) * w + w <= |cells|
            && cells[(x - from) * w..(x - from) * w + w] == Cell(m, blocks, line, x)
    decreases x - from
  {
    hide Cell, Span;
    var cells := Cells(m, blocks, line, from);
    var w := if blocks.Full? then 2 else 1;
    CellWidth(m, blocks, line, from);
    if from == x {
      assert cells[..w] == Cell(m, blocks, line, from);
    } else {
      CellsAt(m, blocks, line, from + 1, x);
      var rest := Cells(m, blocks, line, from + 1);
      var k := (x - from - 1) * w;
      assert (x - from) * w == w + k;
      assert cells[w + k..w + k + w] == rest[k..k + w];
    }
  }

  lemma CellWidth(m: Modules, blocks: Blocks, line: nat, x: nat)
    requires Square(m)
    ensures |Cell(m, blocks, line, x)| == if blocks.Full? then 2 else 1
  {
  }

  /** Every line is the colour, the cells and the reset, and the cells fill the
      columns counted for them. */
  lemma DrawingShape(m: Modules, blocks: Blocks)
    requires Square(m)
    ensures var lines := Lines(DrawWith(m, blocks));
            && |lines| == Rows(m.size, blocks)
            && forall k :: 0 <= k < |lines| ==>
                 && lines[k] == INK + (Cells(m, blocks, k, 0) + RESET)
                 && |Cells(m, blocks, k, 0)| == Columns(m.size, blocks)
  {
    DrawnLines(m, blocks, 0);
  }

  /** The glyphs say exactly what the grid says, quiet zone included. */
  lemma GlyphsTell(m: Modules, blocks: Blocks, x: nat, y: nat)
    requires Square(m) && x < Span(m.size) && y < Span(m.size)
    ensures SeenAt(Lines(DrawWith(m, blocks)), blocks, x, y) <==> InkAt(m, x, y)
  {
    DrawingShape(m, blocks);
    var lines := Lines(DrawWith(m, blocks));
    var line := if blocks.Full? then y else y / 2;
    assert line < |lines|;
    CellsAt(m, blocks, line, 0, x);
    GlyphTells(m, blocks, line, x, y, lines[line]);
  }

  lemma GlyphTells(m: Modules, blocks: Blocks, line: nat, x: nat, y: nat, text: string)
    requires Square(m) && x < Span(m.size) && line == if blocks.Full? then y else y / 2
    requires text == INK + (Cells(m, blocks, line, 0) + RESET)
    ensures blocks.Full? ==>
              && |INK| + 2 * x + 1 < |text|
              && (text[|INK| + 2 * x] == BOTH && text[|INK| + 2 * x + 1] == BOTH <==> InkAt(m, x, y))
    ensures blocks.Half? ==>
              && |INK| + x < |text|
              && (text[|INK| + x] in (if y % 2 == 0 then [BOTH, UPPER] else [BOTH, LOWER]) <==> InkAt(m, x, y))
  {
    hide InkAt, Cells, INK;
    CellsAt(m, blocks, line, 0, x);
    var cells := Cells(m, blocks, line, 0);
    if blocks.Full? {
      var cell := cells[2 * x..2 * x + 2];
      assert cell == Cell(m, Full, line, x);
      assert text[|INK| + 2 * x] == cell[0] && text[|INK| + 2 * x + 1] == cell[1];
    } else {
      var cell := cells[x..x + 1];
      assert cell == Cell(m, Half, line, x);
      assert text[|INK| + x] == cell[0];
      assert y == line * 2 || y == line * 2 + 1;
    }
  }

  /** The code read out of a drawing by looking only at its glyphs. */
  function Scanned(text: string, blocks: Blocks, size: nat): Modules {
    var lines := Lines(text);
    Modules(size, seq(size * size, i requires 0 <= i < size * size =>
      size > 0 && SeenAt(lines, blocks, QUIET + ColumnOf(i, size), QUIET + RowOf(i, size))))
  }

  function ColumnOf(i: nat, size: nat): nat
    requires size > 0
  {
    i % size
  }

  function RowOf(i: nat, size: nat): nat
    requires size > 0
  {
    i / size
  }

  lemma PlaceOf(i: nat, size: nat)
    requires i < size * size
    ensures size > 0 && RowOf(i, size) < size && ColumnOf(i, size) < size
    ensures size > 0 && RowOf(i, size) * size + ColumnOf(i, size) == i
  {
    if size <= i / size {
      MulMonotone(size, i / size, size);
    }
  }

  lemma ScanTells(m: Modules, blocks: Blocks, i: nat, x: nat, y: nat)
    requires Square(m) && i < |m.dark| && x < m.size && y < m.size && y * m.size + x == i
    ensures SeenAt(Lines(DrawWith(m, blocks)), blocks, QUIET + x, QUIET + y) == m.dark[i]
  {
    hide SeenAt, Lines, DrawWith;
    GlyphsTell(m, blocks, QUIET + x, QUIET + y);
    assert IsDark(m, x, y) == m.dark[i];
  }

  /** Scanning a drawing gives the grid back, in either style. */
  lemma ScanRecovers(m: Modules, blocks: Blocks)
    requires Square(m)
    ensures Scanned(DrawWith(m, blocks), blocks, m.size) == m
  {
    hide SeenAt, Lines, DrawWith, RowOf, ColumnOf;
    var seen := Scanned(DrawWith(m, blocks), blocks, m.size);
    forall i | 0 <= i < |m.dark|
      ensures seen.dark[i] == m.dark[i]
    {
      PlaceOf(i, m.size);
      ScanTells(m, blocks, i, ColumnOf(i, m.size), RowOf(i, m.size));
    }
  }

  /** Four light modules lie on every side of what is drawn. */
  lemma QuietZoneIsLight(m: Modules, blocks: Blocks, x: nat, y: nat)
    requires Square(m) && x < Span(m.size) && y < Span(m.size)
    requires x < QUIET || y < QUIET || x >= m.size + QUIET || y >= m.size + QUIET
    ensures !SeenAt(Lines(DrawWith(m, blocks)), blocks, x, y)
  {
    GlyphsTell(m, blocks, x, y);
  }

  /** Drawing is refused exactly when not even half blocks fit, and otherwise
      what is drawn fits, and tells the grid. */
  lemma DrawRefusesExactly(m: Modules, available: nat)
    requires Square(m)
    ensures Draw(m, available).TooNarrow? <==> available < m.size + 8
    ensures Draw(m, available).TooNarrow? ==> Draw(m, available).needed == m.size + 8
    ensures Draw(m, available).Code? ==>
              exists blocks ::
                && Columns(m.size, blocks) <= available
                && (blocks.Half? ==> available < 2 * (m.size + 8))
                && Scanned(Draw(m, available).text, blocks, m.size) == m
  {
    if Fit(m.size, available).Some? {
      ScanRecovers(m, Fit(m.size, available).value);
    }
  }
}
