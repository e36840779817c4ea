/**
 * The rank-based retrieval metrics of the offline evaluation: hit rate, mean
 * reciprocal rank and precision, each over the first `k` ids of a ranked list
 * of retrieved document ids, against a set of relevant ids.  Scores are
 * Python floats; they are modelled as reals, which is exact for these
 * values except for the rounding of the divisions.
 */
module EvalMetrics {

  /**
   * `retrieved_ids[:k]`: the first `k` ids, or all of them when there are
   * fewer; a negative `k` counts from the end, so it drops the last `-k` ids.
   */
  function Prefix(ids: seq<string>, k: int): (p: seq<string>)
    ensures |p| <= |ids| && p == ids[..|p|]
    ensures 0 <= k ==> |p| == if k <= |ids| then k else |ids|
    ensures k < 0 ==> |p| == if |ids| + k >= 0 then |ids| + k else 0
  {
    if k >= 0 then (if k <= |ids| then ids[..k] else ids)
    else if |ids| + k >= 0 then ids[..|ids| + k]
    else []
  }

  /** Some id of `p` is relevant. */
  predicate HasRelevant(p: seq<string>, relevant: set<string>)
    ensures HasRelevant(p, relevant) <==> exists x :: x in p && x in relevant
  {
    exists i :: 0 <= i < |p| && p[i] in relevant
  }

  /** `hit_rate_at_k`: 1 when some id of the top `k` is relevant, 0 otherwise. */
  function HitRateAtK(ids: seq<string>, relevant: set<string>, k: int): (h: real)
    ensures h == 1.0 || h == 0.0
  {
    if HasRelevant(Prefix(ids, k), relevant) then 1.0 else 0.0
  }

  // ---------------------------------------------------------------------
  // Mean reciprocal rank
  // ---------------------------------------------------------------------

  /**
   * The loop of `mrr_at_k` from position `i` (rank `i + 1`) on: the reciprocal
   * rank of the first relevant id at or after `i`, or 0 when there is none.
   */
  function ReciprocalRankFrom(p: seq<string>, relevant: set<string>, i: nat): (r: real)
    requires i <= |p|
    ensures 0.0 <= r <= 1.0 / (i + 1) as real
    decreases |p| - i
  {
    if i == |p| then 0.0
    else if p[i] in relevant then 1.0 / (i + 1) as real
    else
      var rest := ReciprocalRankFrom(p, relevant, i + 1);
      ReciprocalAntitone(i + 1, i + 2);
      rest
  }

  /** Reciprocals of positive integers shrink as the integers grow. */
  lemma ReciprocalAntitone(a: nat, b: nat)
    requires 1 <= a <= b
    ensures 0.0 < 1.0 / b as real <= 1.0 / a as real
  {
    var ra, rb := a as real, b as real;
    var x, y := 1.0 / ra, 1.0 / rb;
    assert x * ra == 1.0 && y * rb == 1.0;
    assert 0.0 < x && 0.0 < y;
    assert x * ra <= x * rb;
    assert (x - y) * rb >= 0.0;
  }

  /** `mrr_at_k`: the reciprocal of the 1-based rank of the first relevant id of the top `k`, or 0. */
  function MrrAtK(ids: seq<string>, relevant: set<string>, k: int): (m: real)
    ensures 0.0 <= m <= 1.0
  {
    ReciprocalRankFrom(Prefix(ids, k), relevant, 0)
  }

  /** Position `j` holds the first relevant id of `p`. */
  predicate FirstRelevantAt(p: seq<string>, relevant: set<string>, j: int) {
    0 <= j < |p| && p[j] in relevant && forall l :: 0 <= l < j ==> p[l] !in relevant
  }

  /**
   * The search from `i` finds the first relevant id at or after `i`: it gives
   * `1 / (j + 1)` when that id is at `j`, and 0 when no id from `i` on is relevant.
   */
  lemma {:induction false} ReciprocalRankFromSpec(p: seq<string>, relevant: set<string>, i: nat, j: int)
    requires i <= |p|
    ensures (forall l :: i <= l < |p| ==> p[l] !in relevant) ==> ReciprocalRankFrom(p, relevant, i) == 0.0
    ensures i <= j < |p| && p[j] in relevant && (forall l :: i <= l < j ==> p[l] !in relevant) ==>
              ReciprocalRankFrom(p, relevant, i) == 1.0 / (j + 1) as real
    decreases |p| - i
  {
    if i < |p| && p[i] !in relevant {
      ReciprocalRankFromSpec(p, relevant, i + 1, j);
    }
  }

  /**
   * MRR against its definition: `1 / (j + 1)` when the first relevant id of the
   * top `k` is at position `j`, and 0 when none of them is relevant.
   */
  lemma MrrIsReciprocalOfFirstRank(ids: seq<string>, relevant: set<string>, k: int, j: int)
    ensures !HasRelevant(Prefix(ids, k), relevant) ==> MrrAtK(ids, relevant, k) == 0.0
    ensures FirstRelevantAt(Prefix(ids, k), relevant, j) ==> MrrAtK(ids, relevant, k) == 1.0 / (j + 1) as real
  {
    ReciprocalRankFromSpec(Prefix(ids, k), relevant, 0, j);
  }

  /** A relevant id at `j` or earlier gives a reciprocal rank of at least `1 / (j + 1)`. */
  lemma {:induction false} ReciprocalRankAtLeast(p: seq<string>, relevant: set<string>, i: nat, j: nat)
    requires i <= j < |p| && p[j] in relevant
    ensures ReciprocalRankFrom(p, relevant, i) >= 1.0 / (j + 1) as real
    decreases j - i
  {
    if p[i] in relevant {
      ReciprocalAntitone(i + 1, j + 1);
    } else {
      ReciprocalRankAtLeast(p, relevant, i + 1, j);
    }
  }

  /** A hit in the top `k` is exactly a positive MRR. */
  lemma HitIffMrrPositive(ids: seq<string>, relevant: set<string>, k: int)
    ensures HitRateAtK(ids, relevant, k) == 1.0 <==> MrrAtK(ids, relevant, k) > 0.0
  {
    var p := Prefix(ids, k);
    if HasRelevant(p, relevant) {
      var j :| 0 <= j < |p| && p[j] in relevant;
      ReciprocalRankAtLeast(p, relevant, 0, j);
    } else {
      ReciprocalRankFromSpec(p, relevant, 0, 0);
    }
  }

  // ---------------------------------------------------------------------
  // Precision
  // ---------------------------------------------------------------------

  /** `sum(1 for d in top_k if d in relevant_ids)`: how many ids of `p` are relevant. */
  function CountRelevant(p: seq<string>, relevant: set<string>): (n: nat)
    ensures n <= |p|
  {
    if p == [] then 0
    else CountRelevant(p[..|p| - 1], relevant) + (if p[|p| - 1] in relevant then 1 else 0)
  }

  /** Counting relevant ids adds up over a concatenation. */
  lemma {:induction false} CountRelevantAppend(a: seq<string>, b: seq<string>, relevant: set<string>)
    ensures CountRelevant(a + b, relevant) == CountRelevant(a, relevant) + CountRelevant(b, relevant)
    decreases |b|
  {
    if b == [] {
      assert a + b == a;
    } else {
      var b' := b[..|b| - 1];
      assert (a + b)[..|a + b| - 1] == a + b';
      CountRelevantAppend(a, b', relevant);
    }
  }

  /** No relevant id is exactly a count of 0; every id relevant is exactly a count of `|p|`. */
  lemma {:induction false} CountRelevantExtremes(p: seq<string>, relevant: set<string>)
    ensures CountRelevant(p, relevant) == 0 <==> !HasRelevant(p, relevant)
    ensures CountRelevant(p, relevant) == |p| <==> forall i :: 0 <= i < |p| ==> p[i] in relevant
  {
    if p != [] {
      var q := p[..|p| - 1];
      CountRelevantExtremes(q, relevant);
      assert forall i :: 0 <= i < |q| ==> q[i] == p[i];
      if HasRelevant(q, relevant) {
        var i :| 0 <= i < |q| && q[i] in relevant;
        assert p[i] in relevant;
      }
      if HasRelevant(p, relevant) && p[|p| - 1] !in relevant {
        var i :| 0 <= i < |p| && p[i] in relevant;
        assert q[i] in relevant;
      }
    }
  }

  /** `precision_at_k`: the share of relevant ids among the top `k`, and 0 when the prefix is empty. */
  function PrecisionAtK(ids: seq<string>, relevant: set<string>, k: int): (r: real)
    ensures 0.0 <= r <= 1.0
    ensures Prefix(ids, k) == [] ==> r == 0.0
  {
    var p := Prefix(ids, k);
    if p == [] then 0.0 else CountRelevant(p, relevant) as real / |p| as real
  }

  /**
   * Precision divides by the length of the prefix, `min(k, len(retrieved_ids))`,
   * not by `k`: a list shorter than `k` is not penalised for its missing ranks.
   */
  lemma PrecisionDividesByPrefixLength(ids: seq<string>, relevant: set<string>, k: int)
    requires 0 < k && ids != []
    ensures var n := if k <= |ids| then k else |ids|;
      PrecisionAtK(ids, relevant, k) * n as real == CountRelevant(ids[..n], relevant) as real
  {
  }

  /** Precision is 1 exactly when every id of a non-empty prefix is relevant. */
  lemma PrecisionOne(ids: seq<string>, relevant: set<string>, k: int)
    ensures var p := Prefix(ids, k);
      PrecisionAtK(ids, relevant, k) == 1.0 <==> p != [] && forall i :: 0 <= i < |p| ==> p[i] in relevant
  {
    CountRelevantExtremes(Prefix(ids, k), relevant);
  }

  /** Precision never exceeds the hit rate: without a hit it is 0. */
  lemma PrecisionAtMostHit(ids: seq<string>, relevant: set<string>, k: int)
    ensures PrecisionAtK(ids, relevant, k) <= HitRateAtK(ids, relevant, k)
    ensures HitRateAtK(ids, relevant, k) == 0.0 ==> PrecisionAtK(ids, relevant, k) == 0.0
  {
    CountRelevantExtremes(Prefix(ids, k), relevant);
  }

  // ---------------------------------------------------------------------
  // Dependence on k and on the rest of the list
  // ---------------------------------------------------------------------

  /** Looking further down the list (a larger non-negative `k`) never lowers the hit rate or the MRR. */
  lemma MonotoneInK(ids: seq<string>, relevant: set<string>, k1: int, k2: int)
    requires 0 <= k1 <= k2
    ensures HitRateAtK(ids, relevant, k1) <= HitRateAtK(ids, relevant, k2)
    ensures MrrAtK(ids, relevant, k1) <= MrrAtK(ids, relevant, k2)
  {
    var p1, p2 := Prefix(ids, k1), Prefix(ids, k2);
    assert |p1| <= |p2|;
    forall i | 0 <= i < |p1|
      ensures p1[i] == p2[i]
    {
      assert p1[i] == ids[..|p1|][i] == ids[i];
      assert p2[i] == ids[..|p2|][i] == ids[i];
    }
    if HasRelevant(p1, relevant) {
      var i :| 0 <= i < |p1| && p1[i] in relevant;
      FirstRelevantExists(p1, relevant, i);
      var j :| FirstRelevantAt(p1, relevant, j);
      assert 0 <= j < |p1|;
      forall l | 0 <= l < j
        ensures p2[l] !in relevant
      {
        assert p1[l] !in relevant;
      }
      assert p2[j] in relevant;
      MrrIsReciprocalOfFirstRank(ids, relevant, k1, j);
      MrrIsReciprocalOfFirstRank(ids, relevant, k2, j);
    } else {
      MrrIsReciprocalOfFirstRank(ids, relevant, k1, 0);
    }
  }

  /** A relevant id at `i` means there is a first one, at `i` or before. */
  lemma {:induction false} FirstRelevantExists(p: seq<string>, relevant: set<string>, i: int)
    requires 0 <= i < |p| && p[i] in relevant
    ensures exists j :: FirstRelevantAt(p, relevant, j)
    decreases i
  {
    if exists l :: 0 <= l < i && p[l] in relevant {
      var l :| 0 <= l < i && p[l] in relevant;
      FirstRelevantExists(p, relevant, l);
    } else {
      assert FirstRelevantAt(p, relevant, i);
    }
  }

  /** Ids ranked below the first `k` have no effect on any of the three metrics. */
  lemma MetricsIgnoreTail(ids: seq<string>, tail: seq<string>, relevant: set<string>, k: int)
    requires 0 <= k <= |ids|
    ensures HitRateAtK(ids + tail, relevant, k) == HitRateAtK(ids, relevant, k)
    ensures MrrAtK(ids + tail, relevant, k) == MrrAtK(ids, relevant, k)
    ensures PrecisionAtK(ids + tail, relevant, k) == PrecisionAtK(ids, relevant, k)
  {
    assert Prefix(ids + tail, k) == Prefix(ids, k);
  }
}
