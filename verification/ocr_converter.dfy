/**
 * The glyph decoder of BankOCR/OCRConverter.cs.
 *
 * A block is 4 text rows of 27 columns, each row followed by a newline of
 * `nl` characters.  Each of the nine glyph cells (3 columns by the first 3
 * rows) is reduced to the product of the weights of its non-blank sub-cells;
 * the product is looked up among ten constants to give a digit 0..9, or the
 * sentinel BadValue when none matches.  The result lists the rightmost glyph
 * first.
 */
module OcrConverter {
  import opened Results

  const BlockHeight := 4
  const BlockLength := 27
  const CharacterWidth := 3

  /** Weight of each sub-cell of a glyph cell, row by row. */
  const Weights: seq<int> := [1, 2, 1,
                              3, 5, 7,
                              11, 13, 17]

  const PrimeOne := 7 * 17
  const PrimeTwo := 2 * 5 * 7 * 11 * 13
  const PrimeThree := 2 * 5 * 7 * 13 * 17
  const PrimeFour := 3 * 5 * 7 * 17
  const PrimeFive := 2 * 3 * 5 * 13 * 17
  const PrimeSix := 2 * 3 * 5 * 11 * 13 * 17
  const PrimeSeven := 2 * 7 * 17
  const PrimeEight := 2 * 3 * 5 * 7 * 11 * 13 * 17
  const PrimeNine := 2 * 3 * 5 * 7 * 13 * 17
  const PrimeZero := 2 * 3 * 7 * 11 * 13 * 17

  /** The digit value given to a glyph that matches no known pattern. */
  const BadValue := 19

  datatype ConvertError =
    | ArgumentNull          // ArgumentNullException
    | ImproperlyFormatted   // ArgumentException: wrong total length

  /** The only accepted length of a block, for a newline of `nl` characters. */
  function LineLength(nl: nat): nat {
    BlockLength * BlockHeight + BlockHeight * nl
  }

  /** Index in the block text of column `col` of row `row`. */
  function StringPos(nl: nat, row: nat, col: nat): nat {
    col + row * BlockLength + nl * row
  }

  /** The multiplier a sub-cell contributes: its weight when filled, 1 when blank. */
  function SubCellWeight(filled: bool, k: nat): int
    requires k < 9
  {
    if filled then Weights[k] else 1
  }

  /**
   * Product of the weights of the filled sub-cells of a (prefix of a) glyph
   * pattern; `p[k]` tells whether sub-cell k (row k / 3, column k % 3) is filled.
   */
  function PatternProduct(p: seq<bool>): (r: int)
    requires |p| <= 9
    ensures r >= 1
  {
    if |p| == 0 then 1 else PatternProduct(p[..|p| - 1]) * SubCellWeight(p[|p| - 1], |p| - 1)
  }

  /** Which sub-cells of glyph cell `c` hold something other than a space. */
  function CellPattern(s: string, nl: nat, c: nat): (p: seq<bool>)
    requires |s| == LineLength(nl) && c < 9
    ensures |p| == 9
  {
    seq(9, k requires 0 <= k < 9 => s[StringPos(nl, k / 3, 3 * c + k % 3)] != ' ')
  }

  /** The prime product the decoder computes for glyph cell `c`. */
  function GlyphProduct(s: string, nl: nat, c: nat): int
    requires |s| == LineLength(nl) && c < 9
  {
    PatternProduct(CellPattern(s, nl, c))
  }

  /** The digit (or BadValue) the decoder assigns to glyph cell `c`. */
  function GlyphDigit(s: string, nl: nat, c: nat): int
    requires |s| == LineLength(nl) && c < 9
  {
    ConvertPrimeValueToDigit(GlyphProduct(s, nl, c))
  }

  /** The prime constant that stands for digit `d`. */
  function DigitPrime(d: int): int
    requires 0 <= d <= 9
  {
    match d
    case 0 => PrimeZero
    case 1 => PrimeOne
    case 2 => PrimeTwo
    case 3 => PrimeThree
    case 4 => PrimeFour
    case 5 => PrimeFive
    case 6 => PrimeSix
    case 7 => PrimeSeven
    case 8 => PrimeEight
    case _ => PrimeNine
  }

  /** Maps one of the ten prime constants to its digit, anything else to BadValue. */
  function ConvertPrimeValueToDigit(value: int): (d: int)
    ensures 0 <= d <= 9 || d == BadValue
    ensures d != BadValue ==> DigitPrime(d) == value
    ensures d == BadValue <==> forall e :: 0 <= e <= 9 ==> DigitPrime(e) != value
  {
    if value == PrimeOne then 1
    else if value == PrimeTwo then 2
    else if value == PrimeThree then 3
    else if value == PrimeFour then 4
    else if value == PrimeFive then 5
    else if value == PrimeSix then 6
    else if value == PrimeSeven then 7
    else if value == PrimeEight then 8
    else if value == PrimeNine then 9
    else if value == PrimeZero then 0
    else BadValue
  }

  /** Each prime constant decodes to its own digit, so the ten constants are pairwise distinct. */
  lemma DigitPrimeRoundTrip(d: int)
    requires 0 <= d <= 9
    ensures ConvertPrimeValueToDigit(DigitPrime(d)) == d
    ensures forall e :: 0 <= e <= 9 && e != d ==> DigitPrime(e) != DigitPrime(d)
  {
  }

  /** Number of sub-cells of glyph cell `c`, in row-major order, the scan has passed at (rowPos, colPos). */
  function Visited(rowPos: nat, colPos: nat, c: nat): nat {
    3 * rowPos + (if colPos <= 3 * c then 0 else if colPos >= 3 * c + 3 then 3 else colPos - 3 * c)
  }

  /** Extending a pattern prefix by one sub-cell multiplies its product by that sub-cell's weight. */
  lemma ProductStep(p: seq<bool>, k: nat)
    requires |p| == 9 && k < 9
    ensures PatternProduct(p[..k + 1]) == PatternProduct(p[..k]) * SubCellWeight(p[k], k)
  {
    assert p[..k + 1][..k] == p[..k];
  }

  /**
   * The products held after the scan has passed every position before
   * (rowPos, colPos): each cell's product over the sub-cells it has visited.
   */
  function ScanProducts(s: string, nl: nat, rowPos: nat, colPos: nat): (r: seq<int>)
    requires |s| == LineLength(nl)
    requires rowPos < 3 || (rowPos == 3 && colPos == 0)
    ensures |r| == 9
  {
    seq(9, c requires 0 <= c < 9 => PatternProduct(CellPattern(s, nl, c)[..Visited(rowPos, colPos, c)]))
  }

  /**
   * One step of the scan at (rowPos, colPos) multiplies the weight of the
   * character it reads into glyph cell colPos / 3 and into no other cell.
   */
  lemma ScanStep(s: string, nl: nat, rowPos: nat, colPos: nat)
    requires |s| == LineLength(nl) && rowPos < 3 && colPos < 27
    ensures StringPos(nl, rowPos, colPos) < |s|
    ensures var k := colPos % 3 + rowPos * 3;
            var before := ScanProducts(s, nl, rowPos, colPos);
            var weight := if s[StringPos(nl, rowPos, colPos)] != ' ' then Weights[k] else 1;
            ScanProducts(s, nl, if colPos + 1 == 27 then rowPos + 1 else rowPos,
                                if colPos + 1 == 27 then 0 else colPos + 1)
            == before[colPos / 3 := before[colPos / 3] * weight]
  {
    var c0, k := colPos / 3, colPos % 3 + rowPos * 3;
    var row', col' := if colPos + 1 == 27 then rowPos + 1 else rowPos,
                      if colPos + 1 == 27 then 0 else colPos + 1;
    VisitedStep(rowPos, colPos);
    CellReads(s, nl, rowPos, colPos);
    ProductStep(CellPattern(s, nl, c0), k);
    var before, after := ScanProducts(s, nl, rowPos, colPos), ScanProducts(s, nl, row', col');
    var weight := if s[StringPos(nl, rowPos, colPos)] != ' ' then Weights[k] else 1;
    assert after[c0] == before[c0] * weight;
    assert after == before[c0 := before[c0] * weight];
  }

  /** The scan position after (rowPos, colPos) advances glyph cell colPos / 3 by one sub-cell and no other. */
  lemma VisitedStep(rowPos: nat, colPos: nat)
    requires rowPos < 3 && colPos < 27
    ensures var row', col' := if colPos + 1 == 27 then rowPos + 1 else rowPos,
                              if colPos + 1 == 27 then 0 else colPos + 1;
            && Visited(rowPos, colPos, colPos / 3) == colPos % 3 + rowPos * 3
            && Visited(row', col', colPos / 3) == colPos % 3 + rowPos * 3 + 1
            && forall c :: 0 <= c < 9 && c != colPos / 3 ==> Visited(row', col', c) == Visited(rowPos, colPos, c)
  {
  }

  /** The character the scan reads at (rowPos, colPos) is sub-cell colPos % 3 + 3 * rowPos of glyph cell colPos / 3. */
  lemma CellReads(s: string, nl: nat, rowPos: nat, colPos: nat)
    requires |s| == LineLength(nl) && rowPos < 3 && colPos < 27
    ensures StringPos(nl, rowPos, colPos) < |s|
    ensures CellPattern(s, nl, colPos / 3)[colPos % 3 + rowPos * 3] == (s[StringPos(nl, rowPos, colPos)] != ' ')
  {
    assert nl * rowPos <= nl * 2 by {
      if rowPos == 0 {} else if rowPos == 1 {} else {}
    }
    var k := colPos % 3 + rowPos * 3;
    assert k / 3 == rowPos && 3 * (colPos / 3) + k % 3 == colPos;
  }

  /** Before the scan every product is 1; after it, each is the cell's glyph product. */
  lemma ScanBounds(s: string, nl: nat)
    requires |s| == LineLength(nl)
    ensures ScanProducts(s, nl, 0, 0) == [1, 1, 1, 1, 1, 1, 1, 1, 1]
    ensures forall c :: 0 <= c < 9 ==> ScanProducts(s, nl, 3, 0)[c] == GlyphProduct(s, nl, c)
  {
    forall c | 0 <= c < 9
      ensures ScanProducts(s, nl, 3, 0)[c] == GlyphProduct(s, nl, c)
    {
      assert CellPattern(s, nl, c)[..9] == CellPattern(s, nl, c);
    }
  }

  /**
   * Scans the first three rows and multiplies each glyph cell's weights into
   * `charValues`, then returns the nine products rightmost glyph first.
   */
  method ConvertWithPrimes(testValue: Option<string>, nl: nat) returns (r: Result<seq<int>, ConvertError>)
    ensures testValue.None? ==> r == Err(ArgumentNull)
    ensures testValue.Some? && |testValue.value| != LineLength(nl) ==> r == Err(ImproperlyFormatted)
    ensures testValue.Some? && |testValue.value| == LineLength(nl) ==>
              r.Ok? && |r.value| == 9 &&
              forall k :: 0 <= k < 9 ==> r.value[k] == GlyphProduct(testValue.value, nl, 8 - k)
  {
    var charValues := new int[9](_ => 1);
    var lineLength := BlockLength * BlockHeight + BlockHeight * nl;
    if testValue.None? {
      return Err(ArgumentNull);
    }
    var s := testValue.value;
    if |s| != lineLength {
      return Err(ImproperlyFormatted);
    }

    var rowPos, colPos := 0, 0;
    ScanBounds(s, nl);
    while true
      invariant 0 <= rowPos < BlockHeight - 1 && 0 <= colPos < BlockLength
      invariant charValues[..] == ScanProducts(s, nl, rowPos, colPos)
      decreases (BlockHeight - 1) * BlockLength - (rowPos * BlockLength + colPos)
    {
      var currentChar := colPos / CharacterWidth;
      var subCharPos := colPos % CharacterWidth + rowPos * CharacterWidth;
      var stringPos := colPos + rowPos * BlockLength + nl * rowPos;
      ScanStep(s, nl, rowPos, colPos);
      ghost var before := charValues[..];
      assert currentChar == colPos / 3 && subCharPos == colPos % 3 + rowPos * 3;
      assert stringPos == StringPos(nl, rowPos, colPos) < |s|;

      var characterWeight := if s[stringPos] != ' ' then Weights[subCharPos] else 1;
      charValues[currentChar] := charValues[currentChar] * characterWeight;
      assert charValues[..] == before[currentChar := before[currentChar] * characterWeight];

      colPos := colPos + 1;
      if colPos == BlockLength {
        rowPos := rowPos + 1;
        colPos := 0;
      }
      if rowPos == BlockHeight - 1 {
        break;
      }
    }
    var values := charValues[..];
    return Ok(seq(9, k requires 0 <= k < 9 => values[8 - k]));
  }

  /** Replaces every prime product by its digit. */
  method ConvertPrimeValueToAccountNumber(values: seq<int>) returns (digits: seq<int>)
    ensures |digits| == |values|
    ensures forall i :: 0 <= i < |values| ==> digits[i] == ConvertPrimeValueToDigit(values[i])
    ensures forall i :: 0 <= i < |values| ==> 0 <= digits[i] <= 9 || digits[i] == BadValue
  {
    var result := new int[|values|];
    for i := 0 to |values|
      invariant forall j :: 0 <= j < i ==> result[j] == ConvertPrimeValueToDigit(values[j])
    {
      result[i] := ConvertPrimeValueToDigit(values[i]);
    }
    digits := result[..];
  }

  /** Decodes a block into nine digits, rightmost glyph first. */
  method Convert(testValue: Option<string>, nl: nat) returns (r: Result<seq<int>, ConvertError>)
    ensures testValue.None? ==> r == Err(ArgumentNull)
    ensures testValue.Some? && |testValue.value| != LineLength(nl) ==> r == Err(ImproperlyFormatted)
    ensures testValue.Some? && |testValue.value| == LineLength(nl) ==>
              r.Ok? && |r.value| == 9 &&
              forall k :: 0 <= k < 9 ==> r.value[k] == GlyphDigit(testValue.value, nl, 8 - k)
  {
    var primeResult := ConvertWithPrimes(testValue, nl);
    if primeResult.Err? {
      return Err(primeResult.error);
    }
    var finalResult := ConvertPrimeValueToAccountNumber(primeResult.value);
    return Ok(finalResult);
  }

  // ---------------------------------------------------------------------------
  // Why the prime product identifies a glyph.  The weights of the seven stroke
  // positions are distinct primes and the two top corners weigh 1, so the
  // product fixes which strokes are drawn and ignores the corners.
  // ---------------------------------------------------------------------------

  /** The pattern with both top-row corners blanked: the part of a glyph the product sees. */
  function Strokes(p: seq<bool>): (q: seq<bool>)
    requires |p| == 9
    ensures |q| == 9 && !q[0] && !q[2]
    ensures forall k :: 0 <= k < 9 && k != 0 && k != 2 ==> q[k] == p[k]
  {
    p[0 := false][2 := false]
  }

  /** The strokes of the canonical glyph of digit `d`, as encoded by its prime constant. */
  function Segments(d: int): (q: seq<bool>)
    requires 0 <= d <= 9
    ensures |q| == 9 && !q[0] && !q[2]
  {
    var F, T := false, true;
    match d
    case 0 => [F, T, F,  T, F, T,  T, T, T]
    case 1 => [F, F, F,  F, F, T,  F, F, T]
    case 2 => [F, T, F,  F, T, T,  T, T, F]
    case 3 => [F, T, F,  F, T, T,  F, T, T]
    case 4 => [F, F, F,  T, T, T,  F, F, T]
    case 5 => [F, T, F,  T, T, F,  F, T, T]
    case 6 => [F, T, F,  T, T, F,  T, T, T]
    case 7 => [F, T, F,  F, F, T,  F, F, T]
    case 8 => [F, T, F,  T, T, T,  T, T, T]
    case _ => [F, T, F,  T, T, T,  F, T, T]
  }

  /** Each prime constant is the product of the weights of its digit's strokes. */
  lemma SegmentsProduct(d: int)
    requires 0 <= d <= 9
    ensures PatternProduct(Segments(d)) == DigitPrime(d)
  {
    ProductExpanded(Segments(d));
  }

  lemma MulAssoc(a: int, b: int, c: int)
    ensures (a * b) * c == a * (b * c)
  {
  }

  lemma MulMonotone(a: int, b: int, x: int, y: int)
    requires 1 <= a <= b && 1 <= x <= y
    ensures a * x <= b * y
  {
    assert a * x <= b * x;
  }

  lemma MulGrows(b: int, w: int)
    requires b >= 1 && w >= 2
    ensures b < w * b
  {
  }

  /** A pattern's product is the weight of sub-cell k (if filled) times the product without it. */
  lemma {:induction false} FactorOut(p: seq<bool>, k: nat)
    requires |p| <= 9 && k < |p|
    ensures PatternProduct(p) == SubCellWeight(p[k], k) * PatternProduct(p[k := false])
  {
    var n := |p|;
    var p' := p[k := false];
    var w := SubCellWeight(p[k], k);
    var last := SubCellWeight(p[n - 1], n - 1);
    if k == n - 1 {
      assert p'[..n - 1] == p[..n - 1];
      var x := PatternProduct(p[..n - 1]);
      assert PatternProduct(p) == x * w;
      assert PatternProduct(p') == x * 1;
    } else {
      FactorOut(p[..n - 1], k);
      assert p'[..n - 1] == p[..n - 1][k := false];
      assert p'[n - 1] == p[n - 1];
      var x := PatternProduct(p'[..n - 1]);
      assert PatternProduct(p[..n - 1]) == w * x;
      assert PatternProduct(p) == (w * x) * last;
      assert PatternProduct(p') == x * last;
      MulAssoc(w, x, last);
    }
  }

  /** For a whole glyph the product is the nine sub-cell multipliers multiplied out. */
  lemma ProductExpanded(p: seq<bool>)
    requires |p| == 9
    ensures PatternProduct(p) ==
            SubCellWeight(p[0], 0) * SubCellWeight(p[1], 1) * SubCellWeight(p[2], 2) *
            SubCellWeight(p[3], 3) * SubCellWeight(p[4], 4) * SubCellWeight(p[5], 5) *
            SubCellWeight(p[6], 6) * SubCellWeight(p[7], 7) * SubCellWeight(p[8], 8)
  {
    assert p[..9] == p;
    ProductStep(p, 0);
    ProductStep(p, 1);
    ProductStep(p, 2);
    ProductStep(p, 3);
    ProductStep(p, 4);
    ProductStep(p, 5);
    ProductStep(p, 6);
    ProductStep(p, 7);
    ProductStep(p, 8);
  }

  /** Filling more sub-cells never decreases the product. */
  lemma {:induction false} ProductMonotone(p: seq<bool>, q: seq<bool>)
    requires |p| == |q| <= 9
    requires forall k :: 0 <= k < |p| && p[k] ==> q[k]
    ensures PatternProduct(p) <= PatternProduct(q)
  {
    var n := |p|;
    if n > 0 {
      ProductMonotone(p[..n - 1], q[..n - 1]);
      var a, b := PatternProduct(p[..n - 1]), PatternProduct(q[..n - 1]);
      var x, y := SubCellWeight(p[n - 1], n - 1), SubCellWeight(q[n - 1], n - 1);
      MulMonotone(a, b, x, y);
    }
  }

  /** Filling an extra stroke (weight above 1) strictly increases the product. */
  lemma ProductStrict(p: seq<bool>, q: seq<bool>, j: nat)
    requires |p| == |q| == 9 && j < 9
    requires forall k :: 0 <= k < 9 && p[k] ==> q[k]
    requires q[j] && !p[j] && j != 0 && j != 2
    ensures PatternProduct(p) < PatternProduct(q)
  {
    FactorOut(p, j);
    FactorOut(q, j);
    assert p[j := false] == p;
    ProductMonotone(p, q[j := false]);
    MulGrows(PatternProduct(q[j := false]), Weights[j]);
  }

  /** The two top-row corners weigh 1: the product depends on the strokes alone. */
  lemma CornersIgnored(p: seq<bool>)
    requires |p| == 9
    ensures PatternProduct(p) == PatternProduct(Strokes(p))
  {
    FactorOut(p, 0);
    FactorOut(p[0 := false], 2);
    assert SubCellWeight(p[0], 0) == 1 && SubCellWeight(p[0 := false][2], 2) == 1;
  }

  /** The weight of a stroke that digit d does not draw is not a factor of d's constant. */
  lemma MissingStrokeNotFactor(d: int, k: nat, x: int)
    requires 0 <= d <= 9 && k < 9 && k != 0 && k != 2 && !Segments(d)[k]
    ensures DigitPrime(d) != Weights[k] * x
  {
  }

  /**
   * A glyph pattern decodes to digit d exactly when its strokes are those of
   * d's canonical glyph; which corners are filled does not matter.
   */
  lemma DigitDeterminedByStrokes(p: seq<bool>, d: int)
    requires |p| == 9 && 0 <= d <= 9
    ensures ConvertPrimeValueToDigit(PatternProduct(p)) == d <==> Strokes(p) == Segments(d)
  {
    var S := Strokes(p);
    CornersIgnored(p);
    SegmentsProduct(d);
    if Strokes(p) == Segments(d) {
      DigitPrimeRoundTrip(d);
    }
    if ConvertPrimeValueToDigit(PatternProduct(p)) == d {
      assert PatternProduct(S) == DigitPrime(d);
      forall k | 0 <= k < 9 && S[k]
        ensures Segments(d)[k]
      {
        if !Segments(d)[k] {
          FactorOut(S, k);
          MissingStrokeNotFactor(d, k, PatternProduct(S[k := false]));
          assert false;
        }
      }
      forall j | 0 <= j < 9
        ensures S[j] == Segments(d)[j]
      {
        if Segments(d)[j] && !S[j] {
          ProductStrict(S, Segments(d), j);
          assert false;
        }
      }
    }
  }

  /** A glyph decodes to BadValue exactly when its strokes match no canonical glyph. */
  lemma BadValueIffNoMatch(p: seq<bool>)
    requires |p| == 9
    ensures ConvertPrimeValueToDigit(PatternProduct(p)) == BadValue <==>
            forall d :: 0 <= d <= 9 ==> Strokes(p) != Segments(d)
  {
    forall d | 0 <= d <= 9 {
      DigitDeterminedByStrokes(p, d);
    }
    var v := ConvertPrimeValueToDigit(PatternProduct(p));
    if v != BadValue {
      DigitDeterminedByStrokes(p, v);
    }
  }

  /**
   * Only the first 27 columns of the first three rows are read: the fourth
   * row and the newlines never influence the decoded digits.
   */
  lemma OnlyGlyphRowsRead(s: string, t: string, nl: nat)
    requires |s| == |t| == LineLength(nl)
    requires forall row, col :: 0 <= row < 3 && 0 <= col < 27 ==>
               s[StringPos(nl, row, col)] == t[StringPos(nl, row, col)]
    ensures forall c :: 0 <= c < 9 ==> GlyphDigit(s, nl, c) == GlyphDigit(t, nl, c)
  {
    forall c | 0 <= c < 9
      ensures CellPattern(s, nl, c) == CellPattern(t, nl, c)
    {
      forall k | 0 <= k < 9
        ensures CellPattern(s, nl, c)[k] == CellPattern(t, nl, c)[k]
      {
        var row, col := k / 3, 3 * c + k % 3;
        assert s[StringPos(nl, row, col)] == t[StringPos(nl, row, col)];
      }
    }
  }
}
