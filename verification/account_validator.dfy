/**
 * Checksum validation and repair of scanned account numbers.
 *
 * An account number is a sequence of digits, an unreadable position holding
 * OcrConverter.BadValue.  The checksum weighs the rightmost digit by 1, the
 * next by 2 and so on, skips unreadable positions, and takes the remainder
 * modulo 11 with C#'s truncating `%`.  A number whose checksum fails can be
 * repaired: every position may be replaced by one of the digits its glyph
 * can turn into by adding or removing one stroke (MatchTable); every
 * combination of replacements is formed, and the ones with a valid checksum
 * are returned.
 */
module AccountValidator {
  import opened Results
  import OcrConverter
  import opened CandidateSpace

  /** The exceptions the validator raises. */
  datatype ValidationError =
    | InvalidLength     // ArgumentException: the number does not have 9 positions
    | IndexOutOfRange   // IndexOutOfRangeException: a position outside 0..9 indexes the match table

  const AccountLength := 9
  const Modulus := 11

  // ---------------------------------------------------------------------------
  // The checksum.
  // ---------------------------------------------------------------------------

  /** C#'s `%` on int: the remainder truncates toward zero and takes the sign of the dividend. */
  function CsRemainder(a: int, m: int): (r: int)
    requires m > 0
    ensures -m < r < m
    ensures a >= 0 ==> r == a % m
    ensures a <= 0 ==> r <= 0
  {
    if a >= 0 then a % m else -((-a) % m)
  }

  /** The truncating remainder is zero exactly when m divides a. */
  lemma CsRemainderZero(a: int, m: int)
    requires m > 0
    ensures CsRemainder(a, m) == 0 <==> a % m == 0
  {
    if a < 0 {
      var q, t := (-a) / m, (-a) % m;
      assert -a == q * m + t;
      if t == 0 {
        ModOf(-q, m, 0);
        assert a == (-q) * m + 0;
      } else {
        ModOf(-q - 1, m, m - t);
        assert a == (-q - 1) * m + (m - t);
      }
    }
  }

  lemma ModOf(q: int, m: int, r: int)
    requires m >= 1 && 0 <= r < m
    ensures (q * m + r) % m == r
  {
    var x := q * m + r;
    var q', r' := x / m, x % m;
    assert (q' - q) * m == r - r';
    MulCancelLess(q' - q, 1, m);
    MulCancelLess(-1, q' - q, m);
  }

  lemma MulCancelLess(x: int, y: int, u: int)
    requires u >= 1 && x * u < y * u
    ensures x < y
  {
  }

  /** The contribution of one position: nothing for an unreadable one, digit times weight otherwise. */
  function Term(digit: int, weight: int): int {
    if digit == OcrConverter.BadValue then 0 else digit * weight
  }

  /** The weighted sum the checksum loop accumulates: s[i] weighs |s| - i. */
  function WeightedSum(s: seq<int>): int {
    if |s| == 0 then 0 else Term(s[0], |s|) + WeightedSum(s[1..])
  }

  /** The value CalculateChecksum returns for a number of the right length. */
  function Checksum(number: seq<int>): int {
    CsRemainder(WeightedSum(number), Modulus)
  }

  /** A number the validator accepts. */
  predicate IsValid(number: seq<int>) {
    |number| == AccountLength && Checksum(number) == 0
  }

  /**
   * The checksum as the kata states it: d1 + 2*d2 + ... + n*dn, where d1 is
   * the rightmost position; p ranges over 1..n.
   */
  function KataSum(s: seq<int>, n: nat): int
    requires n <= |s|
  {
    if n == 0 then 0 else KataSum(s, n - 1) + Term(s[|s| - n], n)
  }

  /** The loop's sum is the kata's sum. */
  lemma {:induction false} WeightedSumIsKataSum(s: seq<int>)
    ensures WeightedSum(s) == KataSum(s, |s|)
  {
    if |s| > 0 {
      WeightedSumIsKataSum(s[1..]);
      KataSumOfTail(s, |s| - 1);
    }
  }

  /** Dropping the leftmost position leaves the lower kata terms unchanged. */
  lemma {:induction false} KataSumOfTail(s: seq<int>, n: nat)
    requires n < |s|
    ensures KataSum(s[1..], n) == KataSum(s, n)
  {
    if n > 0 {
      KataSumOfTail(s, n - 1);
      assert s[1..][|s[1..]| - n] == s[|s| - n];
    }
  }

  /** With no negative entries the checksum is the ordinary residue modulo 11. */
  lemma {:induction false} ChecksumOfNaturals(number: seq<int>)
    requires forall k :: 0 <= k < |number| ==> number[k] >= 0
    ensures WeightedSum(number) >= 0
    ensures Checksum(number) == WeightedSum(number) % Modulus
    ensures 0 <= Checksum(number) < Modulus
  {
    if |number| > 0 {
      ChecksumOfNaturals(number[1..]);
    }
  }

  /** A number passes exactly when the kata's weighted sum is divisible by 11. */
  lemma ValidIffKataSumDivisible(number: seq<int>)
    requires |number| == AccountLength
    ensures IsValid(number) <==> KataSum(number, AccountLength) % Modulus == 0
  {
    WeightedSumIsKataSum(number);
    CsRemainderZero(WeightedSum(number), Modulus);
  }

  method CalculateChecksum(number: seq<int>) returns (r: Result<int, ValidationError>)
    ensures |number| != AccountLength ==> r == Err(InvalidLength)
    ensures |number| == AccountLength ==> r == Ok(Checksum(number))
  {
    if |number| != AccountLength {
      return Err(InvalidLength);
    }
    var checksum := 0;
    for i := |number| downto 0
      invariant checksum == WeightedSum(number[i..])
    {
      assert number[i..] == [number[i]] + number[i + 1..];
      if number[i] == OcrConverter.BadValue {
        continue;
      }
      var multiplier := |number| - i;
      checksum := checksum + number[i] * multiplier;
    }
    return Ok(CsRemainder(checksum, Modulus));
  }

  method ValidateNumber(number: seq<int>) returns (r: Result<bool, ValidationError>)
    ensures |number| != AccountLength ==> r == Err(InvalidLength)
    ensures |number| == AccountLength ==> r == Ok(IsValid(number))
  {
    var result := CalculateChecksum(number);
    if result.Err? {
      return Err(result.error);
    }
    return Ok(result.value == 0);
  }

  // ---------------------------------------------------------------------------
  // Repair.
  // ---------------------------------------------------------------------------

  /** For each digit, the digits its glyph can be read as with one stroke added or removed, itself included. */
  const MatchTable: seq<seq<int>> := [
    [0, 8],
    [1, 7],
    [2],
    [3, 9],
    [4],
    [5, 6, 9],
    [5, 6, 8],
    [1, 7],
    [0, 6, 8, 9],
    [3, 5, 8]
  ]

  /** Every position holds a digit the match table has a row for. */
  predicate AllDigits(number: seq<int>) {
    forall k :: 0 <= k < |number| ==> 0 <= number[k] < |MatchTable|
  }

  /** The replacement lists of a number, keyed by position. */
  function FixesFor(number: seq<int>): (F: seq<seq<int>>)
    requires AllDigits(number)
    ensures |F| == |number| && AllNonEmpty(F)
    ensures forall k :: 0 <= k < |F| ==> F[k] == MatchTable[number[k]]
  {
    seq(|number|, k requires 0 <= k < |number| => MatchTable[number[k]])
  }

  method FindPossibleFixes(number: seq<int>) returns (r: Result<seq<seq<int>>, ValidationError>)
    ensures !AllDigits(number) ==> r == Err(IndexOutOfRange)
    ensures AllDigits(number) ==> r == Ok(FixesFor(number))
  {
    var fixes: seq<seq<int>> := [];
    for i := 0 to |number|
      invariant AllDigits(number[..i])
      invariant fixes == FixesFor(number[..i])
    {
      var digit := number[i];
      if !(0 <= digit < |MatchTable|) {
        return Err(IndexOutOfRange);
      }
      fixes := fixes + [MatchTable[digit]];
    }
    assert number[..|number|] == number;
    return Ok(fixes);
  }

  /**
   * Every combination of replacements, in the order of the odometer: the
   * index of the last listed position advances fastest, and an index that
   * runs past its list resets to 0 and carries into the position before.
   * Position k of fixes is the dictionary entry with key k; `indices[k]` is
   * the Index of the IndexPair whose Key is k.
   */
  method CreatePossibilities(fixes: seq<seq<int>>, number: seq<int>) returns (possibilities: seq<seq<int>>)
    requires 1 <= |fixes| <= |number| == AccountLength
    requires AllNonEmpty(fixes)
    ensures possibilities == Possibilities(fixes, number)
  {
    possibilities := [];
    var indices: seq<int> := seq(|fixes|, _ => 0);
    RankOfZeros(fixes);
    assert indices == Zeros(|fixes|);
    while true
      invariant ValidIndices(fixes, indices)
      invariant Rank(fixes, indices) < Size(fixes)
      invariant possibilities == Possibilities(fixes, number)[..Rank(fixes, indices)]
      decreases Size(fixes) - Rank(fixes, indices)
    {
      var possibility := new int[AccountLength];
      forall i | 0 <= i < AccountLength {
        possibility[i] := number[i];
      }
      for badPos := 0 to |fixes|
        invariant possibility[..] == Pick(fixes, indices)[..badPos] + number[badPos..]
      {
        possibility[badPos] := fixes[badPos][indices[badPos]];
      }
      ghost var rank := Rank(fixes, indices);
      CartesianAt(fixes, indices);
      assert Pick(fixes, indices)[..|fixes|] == Pick(fixes, indices);
      assert possibility[..] == Possibilities(fixes, number)[rank];
      possibilities := possibilities + [possibility[..]];
      assert possibilities == Possibilities(fixes, number)[..rank + 1];

      ghost var before := indices;
      var indexToUpdate := |fixes| - 1;
      indices := indices[indexToUpdate := indices[indexToUpdate] + 1];
      if indices[indexToUpdate] == |fixes[indexToUpdate]| {
        indices := indices[indexToUpdate := 0];
        indexToUpdate := indexToUpdate - 1;
        while indexToUpdate >= 0
          invariant -1 <= indexToUpdate < |fixes| - 1 && |indices| == |fixes|
          invariant forall k :: 0 <= k <= indexToUpdate ==> indices[k] == before[k]
          invariant forall k :: indexToUpdate < k < |fixes| ==> indices[k] == 0
          invariant forall k :: indexToUpdate < k < |fixes| ==> before[k] == |fixes[k]| - 1
          decreases indexToUpdate
        {
          indices := indices[indexToUpdate := indices[indexToUpdate] + 1];
          if indices[indexToUpdate] != |fixes[indexToUpdate]| {
            break;
          }
          indices := indices[indexToUpdate := 0];
          indexToUpdate := indexToUpdate - 1;
        }
        if indexToUpdate < 0 {
          RankOfLast(fixes, before);
          return;
        }
      }
      Advance(fixes, before, indexToUpdate, indices);
    }
  }

  /** The indices after one odometer turn are those of the next combination. */
  lemma Advance(fixes: seq<seq<int>>, before: seq<int>, p: nat, after: seq<int>)
    requires ValidIndices(fixes, before) && p < |fixes|
    requires before[p] + 1 < |fixes[p]|
    requires forall k :: p < k < |fixes| ==> before[k] == |fixes[k]| - 1
    requires |after| == |fixes|
    requires forall k :: 0 <= k < p ==> after[k] == before[k]
    requires after[p] == before[p] + 1
    requires forall k :: p < k < |fixes| ==> after[k] == 0
    ensures ValidIndices(fixes, after)
    ensures Rank(fixes, after) == Rank(fixes, before) + 1 < Size(fixes)
  {
    assert after == before[..p] + [before[p] + 1] + Zeros(|fixes| - p - 1);
    RankSuccessor(fixes, before, p);
    RankBound(fixes, after);
  }

  /** The candidates that pass the checksum, in their original order. */
  function KeepValid(candidates: seq<seq<int>>): (r: seq<seq<int>>)
    ensures forall c :: c in r <==> c in candidates && IsValid(c)
    ensures |r| <= |candidates|
  {
    if |candidates| == 0 then []
    else if IsValid(candidates[0]) then [candidates[0]] + KeepValid(candidates[1..])
    else KeepValid(candidates[1..])
  }

  /** The repairs TryFixInvalidNumber returns for a 9-digit number. */
  function Repairs(number: seq<int>): seq<seq<int>>
    requires |number| == AccountLength && AllDigits(number)
  {
    KeepValid(Possibilities(FixesFor(number), number))
  }

  method TryFixInvalidNumber(number: seq<int>) returns (r: Result<seq<seq<int>>, ValidationError>)
    ensures |number| != AccountLength ==> r == Err(InvalidLength)
    ensures |number| == AccountLength && !AllDigits(number) ==> r == Err(IndexOutOfRange)
    ensures |number| == AccountLength && AllDigits(number) ==> r == Ok(Repairs(number))
  {
    if |number| != AccountLength {
      return Err(InvalidLength);
    }
    var fixes := FindPossibleFixes(number);
    if fixes.Err? {
      return Err(fixes.error);
    }
    var possibilities := CreatePossibilities(fixes.value, number);
    var valid: seq<seq<int>> := [];
    for i := 0 to |possibilities|
      invariant valid == KeepValid(possibilities[..i])
    {
      var ok := ValidateNumber(possibilities[i]);
      assert possibilities[..i + 1] == possibilities[..i] + [possibilities[i]];
      KeepValidAppend(possibilities[..i], possibilities[i]);
      if ok == Ok(true) {
        valid := valid + [possibilities[i]];
      }
    }
    assert possibilities[..|possibilities|] == possibilities;
    return Ok(valid);
  }

  lemma {:induction false} KeepValidAppend(candidates: seq<seq<int>>, c: seq<int>)
    ensures KeepValid(candidates + [c]) == KeepValid(candidates) + (if IsValid(c) then [c] else [])
  {
    if |candidates| == 0 {
      assert candidates + [c] == [c];
    } else {
      assert (candidates + [c])[1..] == candidates[1..] + [c];
      KeepValidAppend(candidates[1..], c);
    }
  }

  /** The one-stroke relation: the table lists d in row d for every digit except 9. */
  lemma TableReflexiveExceptNine(d: int)
    requires 0 <= d < |MatchTable|
    ensures d in MatchTable[d] <==> d != 9
  {
  }

  /** Every repair has 9 positions, passes the checksum, and takes at each position a listed replacement. */
  lemma RepairSound(number: seq<int>, c: seq<int>)
    requires |number| == AccountLength && AllDigits(number)
    requires c in Repairs(number)
    ensures |c| == AccountLength && IsValid(c)
    ensures forall k :: 0 <= k < AccountLength ==> c[k] in MatchTable[number[k]]
  {
    var F := FixesFor(number);
    var P := Possibilities(F, number);
    var j :| 0 <= j < |P| && P[j] == c;
    forall k | 0 <= k < AccountLength
      ensures c[k] in MatchTable[number[k]]
    {
      CartesianMember(F, j, k);
    }
  }

  /** Every valid number that takes a listed replacement at each position is a repair. */
  lemma RepairComplete(number: seq<int>, c: seq<int>)
    requires |number| == AccountLength && AllDigits(number)
    requires |c| == AccountLength && IsValid(c)
    requires forall k :: 0 <= k < AccountLength ==> c[k] in MatchTable[number[k]]
    ensures c in Repairs(number)
  {
    var F := FixesFor(number);
    var idx := seq(AccountLength, k requires 0 <= k < AccountLength => IndexOf(F[k], c[k]));
    assert ValidIndices(F, idx);
    CartesianAt(F, idx);
    var j := Rank(F, idx);
    assert Pick(F, idx) == c;
    assert Possibilities(F, number)[j] == c + number[AccountLength..];
    assert c + number[AccountLength..] == c;
  }

  /** The first position of x in xs. */
  function IndexOf(xs: seq<int>, x: int): (i: nat)
    requires x in xs
    ensures i < |xs| && xs[i] == x
  {
    if xs[0] == x then 0 else 1 + IndexOf(xs[1..], x)
  }
}
