/**
 * The decoder on the blocks of BankOCR.Tests/OCRConversionTests.cs, and the
 * test helper ToValue, which reads the decoder's output as a number.
 */
module OcrExamples {
  import opened OcrConverter

  /** `n` copies of a three-character glyph row side by side. */
  function Repeat(g: string, n: nat): (r: string)
    requires |g| == 3
    ensures |r| == 3 * n
  {
    if n == 0 then [] else Repeat(g, n - 1) + g
  }

  lemma {:induction false} RepeatAt(g: string, n: nat, c: nat, j: nat)
    requires |g| == 3 && c < n && j < 3
    ensures Repeat(g, n)[3 * c + j] == g[j]
  {
    if c < n - 1 {
      RepeatAt(g, n - 1, c, j);
    }
  }

  /** A block of four 27-column rows, each followed by the newline. */
  function Block(r0: string, r1: string, r2: string, r3: string, newline: string): string {
    r0 + newline + r1 + newline + r2 + newline + r3 + newline
  }

  lemma BlockAt(r0: string, r1: string, r2: string, r3: string, newline: string, row: nat, col: nat)
    requires |r0| == |r1| == |r2| == |r3| == 27 && row < 3 && col < 27
    ensures |Block(r0, r1, r2, r3, newline)| == LineLength(|newline|)
    ensures Block(r0, r1, r2, r3, newline)[StringPos(|newline|, row, col)] == [r0, r1, r2][row][col]
  {
    var nl := |newline|;
    var s := Block(r0, r1, r2, r3, newline);
    assert StringPos(nl, row, col) == col + row * (27 + nl);
    if row == 0 {
      assert s == r0 + (newline + r1 + newline + r2 + newline + r3 + newline);
    } else if row == 1 {
      assert s == (r0 + newline) + r1 + (newline + r2 + newline + r3 + newline);
    } else {
      assert s == (r0 + newline + r1 + newline) + r2 + (newline + r3 + newline);
    }
  }

  /** The sub-cell pattern of a glyph drawn with the three rows g0, g1, g2. */
  function GlyphPattern(g0: string, g1: string, g2: string): (p: seq<bool>)
    requires |g0| == |g1| == |g2| == 3
    ensures |p| == 9
  {
    seq(9, k requires 0 <= k < 9 => [g0, g1, g2][k / 3][k % 3] != ' ')
  }

  /** In a block that repeats one glyph nine times, every cell has that glyph's pattern. */
  lemma UniformBlock(g0: string, g1: string, g2: string, r3: string, newline: string)
    requires |g0| == |g1| == |g2| == 3 && |r3| == 27
    ensures var s := Block(Repeat(g0, 9), Repeat(g1, 9), Repeat(g2, 9), r3, newline);
            && |s| == LineLength(|newline|)
            && forall c :: 0 <= c < 9 ==> CellPattern(s, |newline|, c) == GlyphPattern(g0, g1, g2)
  {
    var r0, r1, r2 := Repeat(g0, 9), Repeat(g1, 9), Repeat(g2, 9);
    var s := Block(r0, r1, r2, r3, newline);
    BlockAt(r0, r1, r2, r3, newline, 0, 0);
    forall c | 0 <= c < 9
      ensures CellPattern(s, |newline|, c) == GlyphPattern(g0, g1, g2)
    {
      forall k | 0 <= k < 9
        ensures CellPattern(s, |newline|, c)[k] == GlyphPattern(g0, g1, g2)[k]
      {
        var row, j := k / 3, k % 3;
        BlockAt(r0, r1, r2, r3, newline, row, 3 * c + j);
        RepeatAt([g0, g1, g2][row], 9, c, j);
        assert [r0, r1, r2][row] == Repeat([g0, g1, g2][row], 9);
      }
    }
  }

  // The rows of the test blocks, each the repetition of one glyph row.
  lemma ZeroTopRow() ensures Repeat(" _ ", 9) == " _  _  _  _  _  _  _  _  _ " {}
  lemma ZeroMiddleRow() ensures Repeat("| |", 9) == "| || || || || || || || || |" {}
  lemma ZeroBottomRow() ensures Repeat("|_|", 9) == "|_||_||_||_||_||_||_||_||_|" {}
  lemma OneRow() ensures Repeat("  |", 9) == "  |  |  |  |  |  |  |  |  |" {}
  lemma BlankRowRepeats() ensures Repeat("   ", 9) == BlankRow {}

  const BlankRow := "                           "

  /** The block of the test AllZeroesTest, for a given newline. */
  function AllZeroesBlock(newline: string): string {
    Block(" _  _  _  _  _  _  _  _  _ ",
          "| || || || || || || || || |",
          "|_||_||_||_||_||_||_||_||_|",
          BlankRow, newline)
  }

  /** The block of the test AllOnesTest, for a given newline. */
  function AllOnesBlock(newline: string): string {
    Block(BlankRow,
          "  |  |  |  |  |  |  |  |  |",
          "  |  |  |  |  |  |  |  |  |",
          BlankRow, newline)
  }

  /** Whatever the newline, every glyph of the all-zeroes block decodes to 0. */
  lemma AllZeroesDecodes(newline: string)
    ensures |AllZeroesBlock(newline)| == LineLength(|newline|)
    ensures forall c :: 0 <= c < 9 ==> GlyphDigit(AllZeroesBlock(newline), |newline|, c) == 0
  {
    ZeroTopRow();
    ZeroMiddleRow();
    ZeroBottomRow();
    UniformBlock(" _ ", "| |", "|_|", BlankRow, newline);
    var p := GlyphPattern(" _ ", "| |", "|_|");
    assert p == Segments(0);
    DigitDeterminedByStrokes(p, 0);
  }

  /** Whatever the newline, every glyph of the all-ones block decodes to 1. */
  lemma AllOnesDecodes(newline: string)
    ensures |AllOnesBlock(newline)| == LineLength(|newline|)
    ensures forall c :: 0 <= c < 9 ==> GlyphDigit(AllOnesBlock(newline), |newline|, c) == 1
  {
    BlankRowRepeats();
    OneRow();
    UniformBlock("   ", "  |", "  |", BlankRow, newline);
    var p := GlyphPattern("   ", "  |", "  |");
    assert p == Segments(1);
    DigitDeterminedByStrokes(p, 1);
  }

  /** The test helper ToValue: entry i of the array is the digit of 10^i. */
  function ToValue(a: seq<int>): int {
    if |a| == 0 then 0 else a[0] + 10 * ToValue(a[1..])
  }

  /** The number the digits spell when read left to right, most significant first. */
  function ReadLeftToRight(digits: seq<int>): int {
    if |digits| == 0 then 0 else 10 * ReadLeftToRight(digits[..|digits| - 1]) + digits[|digits| - 1]
  }

  /**
   * Because the decoder lists the rightmost glyph first, ToValue of its output
   * is the account number read left to right.
   */
  lemma {:induction false} ToValueOfReversed(glyphs: seq<int>)
    ensures ToValue(seq(|glyphs|, k requires 0 <= k < |glyphs| => glyphs[|glyphs| - 1 - k]))
            == ReadLeftToRight(glyphs)
  {
    var n := |glyphs|;
    var out := seq(n, k requires 0 <= k < n => glyphs[n - 1 - k]);
    if n > 0 {
      var front := glyphs[..n - 1];
      assert out[1..] == seq(n - 1, k requires 0 <= k < n - 1 => front[n - 2 - k]);
      ToValueOfReversed(front);
    }
  }
}
