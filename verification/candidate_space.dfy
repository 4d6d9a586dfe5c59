/**
 * The space of repair candidates, specified without the odometer.
 *
 * `F[k]` lists, in order, the alternatives tried at position k.  Cartesian(F)
 * is the product of the lists in lexicographic order, the last position
 * changing fastest.  Digits(j, F) is the mixed-radix representation of j:
 * the index tuple of the j-th combination, which is what the odometer of
 * AccountValidator.CreatePossibilities holds on its j-th turn.
 */
module CandidateSpace {

  /** Every position offers at least one alternative. */
  predicate AllNonEmpty(F: seq<seq<int>>) {
    forall k :: 0 <= k < |F| ==> |F[k]| >= 1
  }

  /** The number of combinations: the product of the list lengths. */
  function Size(F: seq<seq<int>>): (n: nat)
    ensures AllNonEmpty(F) ==> n >= 1
  {
    if |F| == 0 then 1
    else
      assert AllNonEmpty(F) ==> AllNonEmpty(F[1..]);
      var rest := Size(F[1..]);
      MulAtLeastOne(|F[0]|, rest);
      |F[0]| * rest
  }

  lemma MulAtLeastOne(a: nat, b: nat)
    ensures a >= 1 && b >= 1 ==> a * b >= 1
  {
  }

  /** Every combination of L, each with x put in front. */
  function PrependAll(x: int, L: seq<seq<int>>): seq<seq<int>> {
    seq(|L|, i requires 0 <= i < |L| => [x] + L[i])
  }

  /** For each alternative in xs, in order, every combination of L with that alternative in front. */
  function Prepend(xs: seq<int>, L: seq<seq<int>>, n: nat): (r: seq<seq<int>>)
    requires forall i :: 0 <= i < |L| ==> |L[i]| == n
    ensures |r| == |xs| * |L|
    ensures forall i :: 0 <= i < |r| ==> |r[i]| == n + 1
  {
    if |xs| == 0 then [] else PrependAll(xs[0], L) + Prepend(xs[1..], L, n)
  }

  /** The Cartesian product of the alternative lists, first position slowest. */
  function Cartesian(F: seq<seq<int>>): (r: seq<seq<int>>)
    ensures |r| == Size(F)
    ensures forall i :: 0 <= i < |r| ==> |r[i]| == |F|
  {
    if |F| == 0 then [[]] else Prepend(F[0], Cartesian(F[1..]), |F| - 1)
  }

  /** Index tuples that select an existing alternative at every position. */
  predicate ValidIndices(F: seq<seq<int>>, idx: seq<int>) {
    |idx| == |F| && forall k :: 0 <= k < |F| ==> 0 <= idx[k] < |F[k]|
  }

  /** The alternatives an index tuple selects. */
  function Pick(F: seq<seq<int>>, idx: seq<int>): (t: seq<int>)
    requires ValidIndices(F, idx)
    ensures |t| == |F|
  {
    seq(|F|, k requires 0 <= k < |F| => F[k][idx[k]])
  }

  /**
   * The position of an index tuple in the enumeration: the tuple read as a
   * number in the mixed radix of the list lengths, last position least
   * significant.
   */
  function Rank(F: seq<seq<int>>, idx: seq<int>): nat
    requires ValidIndices(F, idx)
  {
    if |F| == 0 then 0 else idx[0] * Size(F[1..]) + Rank(F[1..], idx[1..])
  }

  /** The zero tuple of length n. */
  function Zeros(n: nat): (z: seq<int>)
    ensures |z| == n && forall k :: 0 <= k < n ==> z[k] == 0
  {
    seq(n, _ => 0)
  }

  /** Strict lexicographic order on tuples of equal length. */
  predicate LexLess(s: seq<int>, t: seq<int>) {
    |s| == |t| && |s| > 0 && (s[0] < t[0] || (s[0] == t[0] && LexLess(s[1..], t[1..])))
  }

  lemma MulLessEq(x: int, y: int, u: int)
    requires u >= 0 && x <= y
    ensures x * u <= y * u
  {
  }

  lemma ComposeBound(n: nat, unit: nat, a: nat, m: nat)
    requires a < n && m < unit
    ensures a * unit + m < n * unit
  {
    MulLessEq(a + 1, n, unit);
  }

  lemma ValidTail(F: seq<seq<int>>, idx: seq<int>)
    requires ValidIndices(F, idx) && |F| > 0
    ensures ValidIndices(F[1..], idx[1..])
    ensures Pick(F, idx) == [F[0][idx[0]]] + Pick(F[1..], idx[1..])
  {
  }

  // ---------------------------------------------------------------------------
  // The product as a list, index by index.
  // ---------------------------------------------------------------------------

  lemma {:induction false} PrependAt(xs: seq<int>, L: seq<seq<int>>, n: nat, a: nat, m: nat)
    requires forall i :: 0 <= i < |L| ==> |L[i]| == n
    requires a < |xs| && m < |L|
    ensures a * |L| + m < |Prepend(xs, L, n)|
    ensures Prepend(xs, L, n)[a * |L| + m] == [xs[a]] + L[m]
  {
    var head := PrependAll(xs[0], L);
    if a == 0 {
      assert Prepend(xs, L, n)[m] == head[m];
    } else {
      PrependAt(xs[1..], L, n, a - 1, m);
      assert a * |L| + m == |L| + ((a - 1) * |L| + m);
    }
  }

  /** Every index tuple has a position inside the product. */
  lemma {:induction false} RankBound(F: seq<seq<int>>, idx: seq<int>)
    requires ValidIndices(F, idx)
    ensures Rank(F, idx) < Size(F)
  {
    if |F| > 0 {
      ValidTail(F, idx);
      RankBound(F[1..], idx[1..]);
      ComposeBound(|F[0]|, Size(F[1..]), idx[0], Rank(F[1..], idx[1..]));
    }
  }

  /** The product lists, at the rank of an index tuple, the alternatives that tuple selects. */
  lemma {:induction false} CartesianAt(F: seq<seq<int>>, idx: seq<int>)
    requires ValidIndices(F, idx)
    ensures Rank(F, idx) < Size(F)
    ensures Cartesian(F)[Rank(F, idx)] == Pick(F, idx)
  {
    RankBound(F, idx);
    if |F| > 0 {
      ValidTail(F, idx);
      var rest := Rank(F[1..], idx[1..]);
      CartesianAt(F[1..], idx[1..]);
      PrependAt(F[0], Cartesian(F[1..]), |F| - 1, idx[0], rest);
    }
  }

  /** Every choice of one listed alternative per position is a combination of the product. */
  lemma CartesianComplete(F: seq<seq<int>>, idx: seq<int>)
    requires ValidIndices(F, idx)
    ensures Pick(F, idx) in Cartesian(F)
  {
    CartesianAt(F, idx);
  }

  lemma {:induction false} PrependMember(xs: seq<int>, L: seq<seq<int>>, n: nat, i: nat)
    requires forall i :: 0 <= i < |L| ==> |L[i]| == n
    requires i < |Prepend(xs, L, n)|
    ensures Prepend(xs, L, n)[i][0] in xs && Prepend(xs, L, n)[i][1..] in L
  {
    if i < |L| {
      assert Prepend(xs, L, n)[i] == [xs[0]] + L[i];
    } else {
      PrependMember(xs[1..], L, n, i - |L|);
    }
  }

  /** Conversely, every combination takes at position k one of the alternatives listed for k. */
  lemma {:induction false} CartesianMember(F: seq<seq<int>>, j: nat, k: nat)
    requires j < Size(F) && k < |F|
    ensures Cartesian(F)[j][k] in F[k]
  {
    var rest := Cartesian(F[1..]);
    PrependMember(F[0], rest, |F| - 1, j);
    if k > 0 {
      var m :| 0 <= m < |rest| && rest[m] == Cartesian(F)[j][1..];
      CartesianMember(F[1..], m, k - 1);
    }
  }

  /** The order of the product: a lexicographically smaller index tuple comes earlier. */
  lemma {:induction false} RankIncreasing(F: seq<seq<int>>, s: seq<int>, t: seq<int>)
    requires ValidIndices(F, s) && ValidIndices(F, t) && LexLess(s, t)
    ensures Rank(F, s) < Rank(F, t)
  {
    ValidTail(F, s);
    ValidTail(F, t);
    var unit := Size(F[1..]);
    var rs, rt := Rank(F[1..], s[1..]), Rank(F[1..], t[1..]);
    if s[0] < t[0] {
      RankBound(F[1..], s[1..]);
      ComposeBound(t[0], unit, s[0], rs);
      MulLessEq(0, rt, 1);
    } else {
      RankIncreasing(F[1..], s[1..], t[1..]);
    }
  }

  /** Distinct index tuples select distinct positions of the product. */
  lemma {:induction false} RankInjective(F: seq<seq<int>>, s: seq<int>, t: seq<int>)
    requires ValidIndices(F, s) && ValidIndices(F, t) && s != t
    ensures Rank(F, s) != Rank(F, t)
  {
    var p := FirstDifference(s, t);
    if s[p] < t[p] {
      LexLessAt(s, t, p);
      RankIncreasing(F, s, t);
    } else {
      LexLessAt(t, s, p);
      RankIncreasing(F, t, s);
    }
  }

  lemma FirstDifference(s: seq<int>, t: seq<int>) returns (p: nat)
    requires |s| == |t| && s != t
    ensures p < |s| && s[..p] == t[..p] && s[p] != t[p]
  {
    p := 0;
    while s[p] == t[p]
      invariant p < |s| && s[..p] == t[..p]
      decreases |s| - p
    {
      assert s[..p + 1] == t[..p + 1];
      p := p + 1;
    }
  }

  lemma {:induction false} LexLessAt(s: seq<int>, t: seq<int>, p: nat)
    requires |s| == |t| && p < |s| && s[..p] == t[..p] && s[p] < t[p]
    ensures LexLess(s, t)
  {
    if p > 0 {
      assert s[1..][..p - 1] == s[..p][1..];
      assert t[1..][..p - 1] == t[..p][1..];
      assert s[0] == s[..p][0];
      LexLessAt(s[1..], t[1..], p - 1);
    }
  }

  // ---------------------------------------------------------------------------
  // The odometer: how one index tuple follows the other.
  // ---------------------------------------------------------------------------

  /** The odometer starts at the first combination. */
  lemma {:induction false} RankOfZeros(F: seq<seq<int>>)
    requires AllNonEmpty(F)
    ensures ValidIndices(F, Zeros(|F|)) && Rank(F, Zeros(|F|)) == 0
  {
    if |F| > 0 {
      RankOfZeros(F[1..]);
      assert Zeros(|F|)[1..] == Zeros(|F| - 1);
    }
  }

  /** The tuple of last alternatives is the last combination. */
  lemma {:induction false} RankOfLast(F: seq<seq<int>>, idx: seq<int>)
    requires ValidIndices(F, idx)
    requires forall k :: 0 <= k < |F| ==> idx[k] == |F[k]| - 1
    ensures Rank(F, idx) + 1 == Size(F)
  {
    if |F| > 0 {
      ValidTail(F, idx);
      RankOfLast(F[1..], idx[1..]);
      var unit := Size(F[1..]);
      assert Rank(F, idx) + 1 == (|F[0]| - 1) * unit + unit;
    }
  }

  /**
   * The odometer step: when position p can still advance and every later
   * position is at its last alternative, advancing p and resetting every later
   * position to 0 gives the next combination.
   */
  lemma {:induction false} RankSuccessor(F: seq<seq<int>>, idx: seq<int>, p: nat)
    requires ValidIndices(F, idx) && p < |F|
    requires idx[p] + 1 < |F[p]|
    requires forall k :: p < k < |F| ==> idx[k] == |F[k]| - 1
    ensures ValidIndices(F, idx[..p] + [idx[p] + 1] + Zeros(|F| - p - 1))
    ensures Rank(F, idx[..p] + [idx[p] + 1] + Zeros(|F| - p - 1)) == Rank(F, idx) + 1
  {
    var next := idx[..p] + [idx[p] + 1] + Zeros(|F| - p - 1);
    assert ValidIndices(F, next) by {
      forall k | 0 <= k < |F|
        ensures 0 <= next[k] < |F[k]|
      {
        if k < p {
          assert next[k] == idx[k];
        } else if k == p {
          assert next[k] == idx[p] + 1;
        } else {
          assert next[k] == 0;
        }
      }
    }
    var unit := Size(F[1..]);
    ValidTail(F, idx);
    ValidTail(F, next);
    if p == 0 {
      assert next == [idx[0] + 1] + Zeros(|F| - 1);
      assert next[1..] == Zeros(|F| - 1);
      RankOfZeros(F[1..]);
      RankOfLast(F[1..], idx[1..]);
      assert Rank(F, next) == (idx[0] + 1) * unit;
    } else {
      assert next[1..] == idx[1..][..p - 1] + [idx[1..][p - 1] + 1] + Zeros(|F| - p - 1);
      RankSuccessor(F[1..], idx[1..], p - 1);
    }
  }

  // ---------------------------------------------------------------------------
  // Candidates: the combinations laid over an account number.
  // ---------------------------------------------------------------------------

  /**
   * The candidates for `number`: each combination of the product replaces the
   * first |F| digits; the remaining digits are kept.
   */
  function Possibilities(F: seq<seq<int>>, number: seq<int>): (r: seq<seq<int>>)
    requires |F| <= |number|
    ensures |r| == Size(F)
    ensures forall j :: 0 <= j < |r| ==> |r[j]| == |number|
  {
    var C := Cartesian(F);
    seq(|C|, j requires 0 <= j < |C| => C[j] + number[|F|..])
  }
}
