/** The drawing loops as they run, pushing onto one string, held to what module
    `Qr` computes. */
module QrMachine {
  import opened Sequences
  import opened Qr

  method DrawLoop(m: Modules, blocks: Blocks) returns (out: string)
    requires Square(m)
    ensures out == DrawWith(m, blocks)
  {
    hide Rows, Line;
    out := [];
    ghost var whole := DrawWith(m, blocks);
    ghost var tail := whole;
    assert out + tail == whole;
    for line := 0 to Rows(m.size, blocks)
      invariant tail == DrawnFrom(m, blocks, line)
      invariant out + tail == whole
    {
      tail := DrawnFrom(m, blocks, line + 1);
      RegroupFour(out, Line(m, blocks, line), ['\n'], tail);
      out := LineLoop(m, blocks, line, out);
    }
    assert tail == [] && out + tail == out;
  }

  lemma RegroupFour(a: string, b: string, c: string, d: string)
    ensures a + (b + c + d) == (a + b + c) + d
    ensures a + (b + (c + d)) == ((a + b) + c) + d
  {
  }

  /** One line: the colour, a glyph for each column, the reset, the break. */
  method LineLoop(m: Modules, blocks: Blocks, line: nat, before: string) returns (out: string)
    requires Square(m)
    ensures out == before + Line(m, blocks, line) + ['\n']
  {
    hide Span, InkAt, Cell;
    out := before + INK;
    ghost var all := Cells(m, blocks, line, 0);
    ghost var left := all;
    ghost var goal := (before + INK) + all;
    var span := Span(m.size);
    for x := 0 to span
      invariant left == Cells(m, blocks, line, x)
      invariant out + left == goal
    {
      var glyphs := Glyphs(m, blocks, line, x);
      left := Cells(m, blocks, line, x + 1);
      Regroup(out, glyphs, left);
      out := out + glyphs;
    }
    assert left == [] && out + left == out;
    RegroupFour(before, INK, all, RESET);
    out := out + RESET;
    out := out + ['\n'];
  }

  method Glyphs(m: Modules, blocks: Blocks, line: nat, x: nat) returns (r: string)
    requires Square(m)
    ensures r == Cell(m, blocks, line, x)
  {
    if blocks.Full? {
      return if InkAt(m, x, line) then [BOTH, BOTH] else [' ', ' '];
    }
    var top, bottom := InkAt(m, x, line * 2), InkAt(m, x, line * 2 + 1);
    return if top && bottom then [BOTH] else if top then [UPPER] else if bottom then [LOWER] else [' '];
  }
}
