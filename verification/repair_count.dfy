/**
 * Counting repairs without listing them.
 *
 * Completions(L, s) counts the combinations in L whose weighted sum, added
 * to s, is a multiple of 11.  Over a Cartesian product the count depends only
 * on s modulo 11, so the eleven counts of a product (its Histogram) follow
 * from the eleven counts of the product of the remaining positions.  This
 * turns "how many repairs does TryFixInvalidNumber return" into nine steps
 * over vectors of eleven numbers.
 */
module RepairCount {
  import opened AccountValidator
  import opened CandidateSpace

  /** The number of combinations in L that complete the partial sum s to a multiple of 11. */
  function Completions(L: seq<seq<int>>, s: int): (n: nat)
    ensures n <= |L|
  {
    if |L| == 0 then 0
    else (if (s + WeightedSum(L[0])) % Modulus == 0 then 1 else 0) + Completions(L[1..], s)
  }

  /** Completions of the product of F for every residue 0..10. */
  function Histogram(F: seq<seq<int>>): (h: seq<nat>)
    ensures |h| == Modulus
  {
    seq(Modulus, s requires 0 <= s < Modulus => Completions(Cartesian(F), s))
  }

  /** The counts of V reached by putting one alternative of row, with the given weight, in front. */
  function Spread(row: seq<int>, weight: nat, V: seq<nat>, s: int): nat
    requires |V| == Modulus
  {
    if |row| == 0 then 0
    else V[(s + Term(row[0], weight)) % Modulus] + Spread(row[1..], weight, V, s)
  }

  /** The histogram after one more position, given the histogram V of the positions after it. */
  function Level(row: seq<int>, weight: nat, V: seq<nat>): (W: seq<nat>)
    requires |V| == Modulus
    ensures |W| == Modulus
  {
    seq(Modulus, s requires 0 <= s < Modulus => Spread(row, weight, V, s))
  }

  lemma {:induction false} CompletionsAppend(A: seq<seq<int>>, B: seq<seq<int>>, s: int)
    ensures Completions(A + B, s) == Completions(A, s) + Completions(B, s)
  {
    if |A| > 0 {
      assert (A + B)[0] == A[0];
      assert (A + B)[1..] == A[1..] + B;
      CompletionsAppend(A[1..], B, s);
    } else {
      assert A + B == B;
    }
  }

  lemma ModAdd(s: int, w: int)
    ensures (s + w) % Modulus == (s % Modulus + w) % Modulus
  {
    var q := s / Modulus;
    assert s == q * Modulus + s % Modulus;
    assert s + w == q * Modulus + (s % Modulus + w);
    ModOfMultiplePlus(q, s % Modulus + w);
  }

  lemma ModOfMultiplePlus(q: int, x: int)
    ensures (q * Modulus + x) % Modulus == x % Modulus
  {
    var r := x % Modulus;
    assert x == (x / Modulus) * Modulus + r;
    assert q * Modulus + x == (q + x / Modulus) * Modulus + r;
    ModOf(q + x / Modulus, Modulus, r);
  }

  /** Only the residue of the partial sum matters. */
  lemma {:induction false} CompletionsShift(L: seq<seq<int>>, s: int)
    ensures Completions(L, s) == Completions(L, s % Modulus)
  {
    if |L| > 0 {
      ModAdd(s, WeightedSum(L[0]));
      CompletionsShift(L[1..], s);
    }
  }

  /** Putting x in front of combinations of length n adds Term(x, n + 1) to each weighted sum. */
  lemma {:induction false} CompletionsPrependAll(x: int, L: seq<seq<int>>, n: nat, s: int)
    requires forall i :: 0 <= i < |L| ==> |L[i]| == n
    ensures Completions(PrependAll(x, L), s) == Completions(L, s + Term(x, n + 1))
  {
    if |L| > 0 {
      var P := PrependAll(x, L);
      assert P[0] == [x] + L[0];
      assert ([x] + L[0])[1..] == L[0];
      assert WeightedSum(P[0]) == Term(x, n + 1) + WeightedSum(L[0]);
      assert P[1..] == PrependAll(x, L[1..]);
      CompletionsPrependAll(x, L[1..], n, s);
    }
  }

  lemma {:induction false} CompletionsPrepend(xs: seq<int>, L: seq<seq<int>>, n: nat, V: seq<nat>, s: int)
    requires forall i :: 0 <= i < |L| ==> |L[i]| == n
    requires |V| == Modulus && forall t :: 0 <= t < Modulus ==> Completions(L, t) == V[t]
    ensures Completions(Prepend(xs, L, n), s) == Spread(xs, n + 1, V, s)
  {
    if |xs| > 0 {
      var w := s + Term(xs[0], n + 1);
      CompletionsAppend(PrependAll(xs[0], L), Prepend(xs[1..], L, n), s);
      CompletionsPrependAll(xs[0], L, n, s);
      CompletionsShift(L, w);
      CompletionsPrepend(xs[1..], L, n, V, s);
    }
  }

  /** The histogram of F follows from its first row and the histogram of the rest. */
  lemma HistogramStep(F: seq<seq<int>>)
    requires |F| > 0
    ensures Histogram(F) == Level(F[0], |F|, Histogram(F[1..]))
  {
    var V := Histogram(F[1..]);
    forall s | 0 <= s < Modulus
      ensures Completions(Cartesian(F), s) == Spread(F[0], |F|, V, s)
    {
      CompletionsPrepend(F[0], Cartesian(F[1..]), |F| - 1, V, s);
    }
  }

  /** The empty product holds one combination, of weighted sum 0. */
  lemma HistogramEmpty()
    ensures Histogram([]) == [1, 0, 0, 0, 0, 0, 0, 0, 0, 0, 0]
  {
    assert Cartesian([]) == [[]];
  }

  /** Among combinations of 9 positions, the valid ones are those completing 0. */
  lemma {:induction false} KeepValidCount(L: seq<seq<int>>)
    requires forall i :: 0 <= i < |L| ==> |L[i]| == AccountLength
    ensures |KeepValid(L)| == Completions(L, 0)
  {
    if |L| > 0 {
      CsRemainderZero(WeightedSum(L[0]), Modulus);
      KeepValidCount(L[1..]);
    }
  }

  /** The number of repairs of a 9-digit number is the residue-0 entry of the histogram of its fixes. */
  lemma RepairCountIsHistogram(number: seq<int>)
    requires |number| == AccountLength && AllDigits(number)
    ensures |Repairs(number)| == Histogram(FixesFor(number))[0]
  {
    var F := FixesFor(number);
    var C := Cartesian(F);
    assert number[|F|..] == [];
    forall j | 0 <= j < |C|
      ensures Possibilities(F, number)[j] == C[j]
    {
      assert C[j] + [] == C[j];
    }
    assert Possibilities(F, number) == C;
    KeepValidCount(Cartesian(F));
  }
}
