/**
 * The validator on concrete account numbers: the checksum cases and the
 * repair counts that the repository's own test suite states.
 */
module ValidatorExamples {
  import opened AccountValidator
  import opened CandidateSpace
  import opened RepairCount
  import OcrConverter

  const Ones: seq<int> := [1, 1, 1, 1, 1, 1, 1, 1, 1]
  const Sevens: seq<int> := [7, 7, 7, 7, 7, 7, 7, 7, 7]
  const Threes: seq<int> := [3, 3, 3, 3, 3, 3, 3, 3, 3]
  const TwoThenZeros: seq<int> := [2, 0, 0, 0, 0, 0, 0, 0, 0]

  /** The checksums the test suite expects, and the verdicts that follow from them. */
  lemma ChecksumCases()
    ensures Checksum(Ones) == 1 && !IsValid(Ones)
    ensures Checksum([1, 1, 1, 1, 1, 1, 1, 1, 0]) == 0 && IsValid([1, 1, 1, 1, 1, 1, 1, 1, 0])
    ensures Checksum([9, 8, 7, 6, 5, 4, 0, 2, 0]) == 0 && IsValid([9, 8, 7, 6, 5, 4, 0, 2, 0])
  {
  }

  /** The count of V at residue s + c. */
  function Shifted(V: seq<nat>, c: int, s: int): nat
    requires |V| == Modulus
  {
    V[(s + c) % Modulus]
  }

  /**
   * W is the histogram one position up from V through the row [a, b] whose
   * terms are c0 and c1.  Written out residue by residue, so that the
   * verifier checks concrete vectors by evaluation.
   */
  predicate PairLevelIs(V: seq<nat>, c0: int, c1: int, W: seq<nat>)
    requires |V| == Modulus && |W| == Modulus
  {
    W[0] == Shifted(V, c0, 0) + Shifted(V, c1, 0) &&
    W[1] == Shifted(V, c0, 1) + Shifted(V, c1, 1) &&
    W[2] == Shifted(V, c0, 2) + Shifted(V, c1, 2) &&
    W[3] == Shifted(V, c0, 3) + Shifted(V, c1, 3) &&
    W[4] == Shifted(V, c0, 4) + Shifted(V, c1, 4) &&
    W[5] == Shifted(V, c0, 5) + Shifted(V, c1, 5) &&
    W[6] == Shifted(V, c0, 6) + Shifted(V, c1, 6) &&
    W[7] == Shifted(V, c0, 7) + Shifted(V, c1, 7) &&
    W[8] == Shifted(V, c0, 8) + Shifted(V, c1, 8) &&
    W[9] == Shifted(V, c0, 9) + Shifted(V, c1, 9) &&
    W[10] == Shifted(V, c0, 10) + Shifted(V, c1, 10)
  }

  /** The same through a row with a single alternative. */
  predicate SingleLevelIs(V: seq<nat>, c: int, W: seq<nat>)
    requires |V| == Modulus && |W| == Modulus
  {
    W[0] == Shifted(V, c, 0) && W[1] == Shifted(V, c, 1) && W[2] == Shifted(V, c, 2) &&
    W[3] == Shifted(V, c, 3) && W[4] == Shifted(V, c, 4) && W[5] == Shifted(V, c, 5) &&
    W[6] == Shifted(V, c, 6) && W[7] == Shifted(V, c, 7) && W[8] == Shifted(V, c, 8) &&
    W[9] == Shifted(V, c, 9) && W[10] == Shifted(V, c, 10)
  }

  lemma AnyResidue(s: int)
    requires 0 <= s < Modulus
    ensures s == 0 || s == 1 || s == 2 || s == 3 || s == 4 || s == 5 || s == 6 || s == 7 || s == 8 || s == 9 || s == 10
  {
  }

  lemma SpreadPair(a: int, b: int, w: nat, V: seq<nat>, s: int)
    requires a != OcrConverter.BadValue && b != OcrConverter.BadValue && |V| == Modulus
    ensures Spread([a, b], w, V, s) == Shifted(V, a * w, s) + Shifted(V, b * w, s)
  {
    assert [a, b][1..] == [b];
    SpreadSingle(b, w, V, s);
  }

  lemma SpreadSingle(a: int, w: nat, V: seq<nat>, s: int)
    requires a != OcrConverter.BadValue && |V| == Modulus
    ensures Spread([a], w, V, s) == Shifted(V, a * w, s)
  {
    assert [a][1..] == [];
    assert Term(a, w) == a * w;
  }

  /** W lists, residue by residue, the values of some function at 0..10. */
  lemma EntriesDetermine(W: seq<nat>, L: seq<nat>)
    requires |W| == Modulus && |L| == Modulus
    requires W[0] == L[0] && W[1] == L[1] && W[2] == L[2] && W[3] == L[3] && W[4] == L[4] && W[5] == L[5]
    requires W[6] == L[6] && W[7] == L[7] && W[8] == L[8] && W[9] == L[9] && W[10] == L[10]
    ensures W == L
  {
    forall s | 0 <= s < Modulus
      ensures W[s] == L[s]
    {
      AnyResidue(s);
    }
  }

  /** Level through [a, b], entry by entry. */
  lemma PairLevel(a: int, b: int, w: nat, V: seq<nat>, W: seq<nat>)
    requires a != OcrConverter.BadValue && b != OcrConverter.BadValue
    requires |V| == Modulus && |W| == Modulus
    requires PairLevelIs(V, a * w, b * w, W)
    ensures Level([a, b], w, V) == W
  {
    var L := Level([a, b], w, V);
    forall s | 0 <= s < Modulus
      ensures L[s] == Shifted(V, a * w, s) + Shifted(V, b * w, s)
    {
      SpreadPair(a, b, w, V, s);
    }
    EntriesDetermine(W, L);
  }

  /** Level through [a], entry by entry. */
  lemma SingleLevel(a: int, w: nat, V: seq<nat>, W: seq<nat>)
    requires a != OcrConverter.BadValue
    requires |V| == Modulus && |W| == Modulus
    requires SingleLevelIs(V, a * w, W)
    ensures Level([a], w, V) == W
  {
    var L := Level([a], w, V);
    forall s | 0 <= s < Modulus
      ensures L[s] == Shifted(V, a * w, s)
    {
      SpreadSingle(a, w, V, s);
    }
    EntriesDetermine(W, L);
  }

  /** One step up the histogram ladder of F: from the positions after k to the positions from k. */
  lemma Climb(F: seq<seq<int>>, k: nat, V: seq<nat>, W: seq<nat>)
    requires k < |F| && |V| == Modulus
    requires Histogram(F[k + 1..]) == V
    requires Level(F[k], |F| - k, V) == W
    ensures Histogram(F[k..]) == W
  {
    HistogramStep(F[k..]);
    assert F[k..][1..] == F[k + 1..];
  }

  /** One step up through a row of two readable digits. */
  lemma ClimbPair(F: seq<seq<int>>, k: nat, a: int, b: int, c0: int, c1: int, V: seq<nat>, W: seq<nat>)
    requires k < |F| && c0 == a * (|F| - k) && c1 == b * (|F| - k)
    requires F[k] == [a, b] && a != OcrConverter.BadValue && b != OcrConverter.BadValue
    requires |V| == Modulus && |W| == Modulus
    requires Histogram(F[k + 1..]) == V
    requires PairLevelIs(V, c0, c1, W)
    ensures Histogram(F[k..]) == W
  {
    PairLevel(a, b, |F| - k, V, W);
    Climb(F, k, V, W);
  }

  /** One step up through a row of one readable digit. */
  lemma ClimbSingle(F: seq<seq<int>>, k: nat, a: int, c: int, V: seq<nat>, W: seq<nat>)
    requires k < |F| && c == a * (|F| - k)
    requires F[k] == [a] && a != OcrConverter.BadValue
    requires |V| == Modulus && |W| == Modulus
    requires Histogram(F[k + 1..]) == V
    requires SingleLevelIs(V, c, W)
    ensures Histogram(F[k..]) == W
  {
    SingleLevel(a, |F| - k, V, W);
    Climb(F, k, V, W);
  }

  /** The histogram of the fixes of nine ones, one position at a time from the last. */
  lemma OnesHistogram8()
    ensures Histogram(FixesFor(Ones)[8..]) == [0, 0, 0, 0, 1, 0, 0, 0, 0, 0, 1]
  {
    HistogramEmpty();
    assert FixesFor(Ones)[9..] == [];
    ClimbPair(FixesFor(Ones), 8, 1, 7, 1, 7, [1, 0, 0, 0, 0, 0, 0, 0, 0, 0, 0], [0, 0, 0, 0, 1, 0, 0, 0, 0, 0, 1]);
  }

  lemma OnesHistogram7()
    ensures Histogram(FixesFor(Ones)[7..]) == [0, 1, 1, 0, 0, 0, 0, 1, 1, 0, 0]
  {
    OnesHistogram8();
    ClimbPair(FixesFor(Ones), 7, 1, 7, 2, 14, [0, 0, 0, 0, 1, 0, 0, 0, 0, 0, 1], [0, 1, 1, 0, 0, 0, 0, 1, 1, 0, 0]);
  }

  lemma OnesHistogram6()
    ensures Histogram(FixesFor(Ones)[6..]) == [0, 0, 1, 1, 1, 1, 0, 0, 1, 2, 1]
  {
    OnesHistogram7();
    ClimbPair(FixesFor(Ones), 6, 1, 7, 3, 21, [0, 1, 1, 0, 0, 0, 0, 1, 1, 0, 0], [0, 0, 1, 1, 1, 1, 0, 0, 1, 2, 1]);
  }

  lemma OnesHistogram5()
    ensures Histogram(FixesFor(Ones)[5..]) == [1, 1, 1, 2, 2, 2, 1, 1, 1, 2, 2]
  {
    OnesHistogram6();
    ClimbPair(FixesFor(Ones), 5, 1, 7, 4, 28, [0, 0, 1, 1, 1, 1, 0, 0, 1, 2, 1], [1, 1, 1, 2, 2, 2, 1, 1, 1, 2, 2]);
  }

  lemma OnesHistogram4()
    ensures Histogram(FixesFor(Ones)[4..]) == [3, 3, 3, 3, 3, 3, 2, 3, 3, 3, 3]
  {
    OnesHistogram5();
    ClimbPair(FixesFor(Ones), 4, 1, 7, 5, 35, [1, 1, 1, 2, 2, 2, 1, 1, 1, 2, 2], [3, 3, 3, 3, 3, 3, 2, 3, 3, 3, 3]);
  }

  lemma OnesHistogram3()
    ensures Histogram(FixesFor(Ones)[3..]) == [5, 6, 6, 6, 6, 6, 6, 6, 5, 6, 6]
  {
    OnesHistogram4();
    ClimbPair(FixesFor(Ones), 3, 1, 7, 6, 42, [3, 3, 3, 3, 3, 3, 2, 3, 3, 3, 3], [5, 6, 6, 6, 6, 6, 6, 6, 5, 6, 6]);
  }

  lemma OnesHistogram2()
    ensures Histogram(FixesFor(Ones)[2..]) == [12, 11, 12, 11, 11, 12, 11, 12, 12, 12, 12]
  {
    OnesHistogram3();
    ClimbPair(FixesFor(Ones), 2, 1, 7, 7, 49, [5, 6, 6, 6, 6, 6, 6, 6, 5, 6, 6], [12, 11, 12, 11, 11, 12, 11, 12, 12, 12, 12]);
  }

  lemma OnesHistogram1()
    ensures Histogram(FixesFor(Ones)[1..]) == [23, 24, 23, 23, 23, 23, 23, 23, 24, 23, 24]
  {
    OnesHistogram2();
    ClimbPair(FixesFor(Ones), 1, 1, 7, 8, 56, [12, 11, 12, 11, 11, 12, 11, 12, 12, 12, 12], [23, 24, 23, 23, 23, 23, 23, 23, 24, 23, 24]);
  }

  lemma OnesHistogram0()
    ensures Histogram(FixesFor(Ones)[0..]) == [47, 47, 47, 47, 47, 46, 46, 46, 46, 46, 47]
  {
    OnesHistogram1();
    ClimbPair(FixesFor(Ones), 0, 1, 7, 9, 63, [23, 24, 23, 23, 23, 23, 23, 23, 24, 23, 24], [47, 47, 47, 47, 47, 46, 46, 46, 46, 46, 47]);
  }

  /** Nine ones: 47 of the 512 combinations pass the checksum. */
  lemma OnesRepairCount()
    ensures |Repairs(Ones)| == 47
  {
    OnesHistogram0();
    assert FixesFor(Ones)[0..] == FixesFor(Ones);
    RepairCountIsHistogram(Ones);
  }

  /** The histogram of the fixes of nine threes, one position at a time from the last. */
  lemma ThreesHistogram8()
    ensures Histogram(FixesFor(Threes)[8..]) == [0, 0, 1, 0, 0, 0, 0, 0, 1, 0, 0]
  {
    HistogramEmpty();
    assert FixesFor(Threes)[9..] == [];
    ClimbPair(FixesFor(Threes), 8, 3, 9, 3, 9, [1, 0, 0, 0, 0, 0, 0, 0, 0, 0, 0], [0, 0, 1, 0, 0, 0, 0, 0, 1, 0, 0]);
  }

  lemma ThreesHistogram7()
    ensures Histogram(FixesFor(Threes)[7..]) == [0, 1, 1, 0, 0, 0, 1, 1, 0, 0, 0]
  {
    ThreesHistogram8();
    ClimbPair(FixesFor(Threes), 7, 3, 9, 6, 18, [0, 0, 1, 0, 0, 0, 0, 0, 1, 0, 0], [0, 1, 1, 0, 0, 0, 1, 1, 0, 0, 0]);
  }

  lemma ThreesHistogram6()
    ensures Histogram(FixesFor(Threes)[6..]) == [0, 1, 1, 1, 1, 0, 0, 1, 2, 1, 0]
  {
    ThreesHistogram7();
    ClimbPair(FixesFor(Threes), 6, 3, 9, 9, 27, [0, 1, 1, 0, 0, 0, 1, 1, 0, 0, 0], [0, 1, 1, 1, 1, 0, 0, 1, 2, 1, 0]);
  }

  lemma ThreesHistogram5()
    ensures Histogram(FixesFor(Threes)[5..]) == [2, 2, 1, 1, 1, 2, 2, 2, 1, 1, 1]
  {
    ThreesHistogram6();
    ClimbPair(FixesFor(Threes), 5, 3, 9, 12, 36, [0, 1, 1, 1, 1, 0, 0, 1, 2, 1, 0], [2, 2, 1, 1, 1, 2, 2, 2, 1, 1, 1]);
  }

  lemma ThreesHistogram4()
    ensures Histogram(FixesFor(Threes)[4..]) == [3, 3, 3, 3, 3, 3, 3, 3, 3, 2, 3]
  {
    ThreesHistogram5();
    ClimbPair(FixesFor(Threes), 4, 3, 9, 15, 45, [2, 2, 1, 1, 1, 2, 2, 2, 1, 1, 1], [3, 3, 3, 3, 3, 3, 3, 3, 3, 2, 3]);
  }

  lemma ThreesHistogram3()
    ensures Histogram(FixesFor(Threes)[3..]) == [6, 6, 5, 6, 6, 6, 6, 6, 6, 6, 5]
  {
    ThreesHistogram4();
    ClimbPair(FixesFor(Threes), 3, 3, 9, 18, 54, [3, 3, 3, 3, 3, 3, 3, 3, 3, 2, 3], [6, 6, 5, 6, 6, 6, 6, 6, 6, 6, 5]);
  }

  lemma ThreesHistogram2()
    ensures Histogram(FixesFor(Threes)[2..]) == [11, 12, 11, 11, 12, 11, 12, 12, 12, 12, 12]
  {
    ThreesHistogram3();
    ClimbPair(FixesFor(Threes), 2, 3, 9, 21, 63, [6, 6, 5, 6, 6, 6, 6, 6, 6, 6, 5], [11, 12, 11, 11, 12, 11, 12, 12, 12, 12, 12]);
  }

  lemma ThreesHistogram1()
    ensures Histogram(FixesFor(Threes)[1..]) == [23, 23, 24, 23, 24, 23, 24, 23, 23, 23, 23]
  {
    ThreesHistogram2();
    ClimbPair(FixesFor(Threes), 1, 3, 9, 24, 72, [11, 12, 11, 11, 12, 11, 12, 12, 12, 12, 12], [23, 23, 24, 23, 24, 23, 24, 23, 23, 23, 23]);
  }

  lemma ThreesHistogram0()
    ensures Histogram(FixesFor(Threes)[0..]) == [47, 47, 47, 46, 46, 46, 46, 46, 47, 47, 47]
  {
    ThreesHistogram1();
    ClimbPair(FixesFor(Threes), 0, 3, 9, 27, 81, [23, 23, 24, 23, 24, 23, 24, 23, 23, 23, 23], [47, 47, 47, 46, 46, 46, 46, 46, 47, 47, 47]);
  }

  /** Nine threes: 47 of the 512 combinations pass the checksum. */
  lemma ThreesRepairCount()
    ensures |Repairs(Threes)| == 47
  {
    ThreesHistogram0();
    assert FixesFor(Threes)[0..] == FixesFor(Threes);
    RepairCountIsHistogram(Threes);
  }

  /** The histogram of the fixes of 200000000, one position at a time from the last. */
  lemma TwoThenZerosHistogram8()
    ensures Histogram(FixesFor(TwoThenZeros)[8..]) == [1, 0, 0, 1, 0, 0, 0, 0, 0, 0, 0]
  {
    HistogramEmpty();
    assert FixesFor(TwoThenZeros)[9..] == [];
    ClimbPair(FixesFor(TwoThenZeros), 8, 0, 8, 0, 8, [1, 0, 0, 0, 0, 0, 0, 0, 0, 0, 0], [1, 0, 0, 1, 0, 0, 0, 0, 0, 0, 0]);
  }

  lemma TwoThenZerosHistogram7()
    ensures Histogram(FixesFor(TwoThenZeros)[7..]) == [1, 0, 0, 1, 0, 0, 1, 0, 0, 1, 0]
  {
    TwoThenZerosHistogram8();
    ClimbPair(FixesFor(TwoThenZeros), 7, 0, 8, 0, 16, [1, 0, 0, 1, 0, 0, 0, 0, 0, 0, 0], [1, 0, 0, 1, 0, 0, 1, 0, 0, 1, 0]);
  }

  lemma TwoThenZerosHistogram6()
    ensures Histogram(FixesFor(TwoThenZeros)[6..]) == [1, 1, 0, 1, 1, 0, 1, 1, 0, 2, 0]
  {
    TwoThenZerosHistogram7();
    ClimbPair(FixesFor(TwoThenZeros), 6, 0, 8, 0, 24, [1, 0, 0, 1, 0, 0, 1, 0, 0, 1, 0], [1, 1, 0, 1, 1, 0, 1, 1, 0, 2, 0]);
  }

  lemma TwoThenZerosHistogram5()
    ensures Histogram(FixesFor(TwoThenZeros)[5..]) == [1, 2, 1, 1, 2, 1, 1, 2, 1, 2, 2]
  {
    TwoThenZerosHistogram6();
    ClimbPair(FixesFor(TwoThenZeros), 5, 0, 8, 0, 32, [1, 1, 0, 1, 1, 0, 1, 1, 0, 2, 0], [1, 2, 1, 1, 2, 1, 1, 2, 1, 2, 2]);
  }

  lemma TwoThenZerosHistogram4()
    ensures Histogram(FixesFor(TwoThenZeros)[4..]) == [3, 3, 3, 3, 3, 3, 2, 3, 3, 3, 3]
  {
    TwoThenZerosHistogram5();
    ClimbPair(FixesFor(TwoThenZeros), 4, 0, 8, 0, 40, [1, 2, 1, 1, 2, 1, 1, 2, 1, 2, 2], [3, 3, 3, 3, 3, 3, 2, 3, 3, 3, 3]);
  }

  lemma TwoThenZerosHistogram3()
    ensures Histogram(FixesFor(TwoThenZeros)[3..]) == [6, 6, 5, 6, 6, 6, 5, 6, 6, 6, 6]
  {
    TwoThenZerosHistogram4();
    ClimbPair(FixesFor(TwoThenZeros), 3, 0, 8, 0, 48, [3, 3, 3, 3, 3, 3, 2, 3, 3, 3, 3], [6, 6, 5, 6, 6, 6, 5, 6, 6, 6, 6]);
  }

  lemma TwoThenZerosHistogram2()
    ensures Histogram(FixesFor(TwoThenZeros)[2..]) == [12, 11, 11, 12, 12, 11, 11, 12, 12, 12, 12]
  {
    TwoThenZerosHistogram3();
    ClimbPair(FixesFor(TwoThenZeros), 2, 0, 8, 0, 56, [6, 6, 5, 6, 6, 6, 5, 6, 6, 6, 6], [12, 11, 11, 12, 12, 11, 11, 12, 12, 12, 12]);
  }

  lemma TwoThenZerosHistogram1()
    ensures Histogram(FixesFor(TwoThenZeros)[1..]) == [24, 23, 23, 23, 23, 23, 23, 23, 23, 24, 24]
  {
    TwoThenZerosHistogram2();
    ClimbPair(FixesFor(TwoThenZeros), 1, 0, 8, 0, 64, [12, 11, 11, 12, 12, 11, 11, 12, 12, 12, 12], [24, 23, 23, 23, 23, 23, 23, 23, 23, 24, 24]);
  }

  lemma TwoThenZerosHistogram0()
    ensures Histogram(FixesFor(TwoThenZeros)[0..]) == [23, 23, 24, 24, 24, 23, 23, 23, 23, 23, 23]
  {
    TwoThenZerosHistogram1();
    ClimbSingle(FixesFor(TwoThenZeros), 0, 2, 18, [24, 23, 23, 23, 23, 23, 23, 23, 23, 24, 24], [23, 23, 24, 24, 24, 23, 23, 23, 23, 23, 23]);
  }

  /** 200000000: 23 of the 256 combinations pass the checksum. */
  lemma TwoThenZerosRepairCount()
    ensures |Repairs(TwoThenZeros)| == 23
  {
    TwoThenZerosHistogram0();
    assert FixesFor(TwoThenZeros)[0..] == FixesFor(TwoThenZeros);
    RepairCountIsHistogram(TwoThenZeros);
  }

  /** A 1 and a 7 have the same replacements, so nine sevens get exactly the repairs of nine ones. */
  lemma SevensRepairLikeOnes()
    ensures Repairs(Sevens) == Repairs(Ones)
    ensures |Repairs(Sevens)| == 47
  {
    var F := FixesFor(Ones);
    forall k | 0 <= k < AccountLength
      ensures FixesFor(Sevens)[k] == F[k]
    {
      assert MatchTable[7] == MatchTable[1];
    }
    assert FixesFor(Sevens) == F;
    assert Sevens[|F|..] == [] == Ones[|F|..];
    assert Possibilities(F, Sevens) == Possibilities(F, Ones);
    OnesRepairCount();
  }
}
