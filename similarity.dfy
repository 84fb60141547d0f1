/** Choosing the group a new question joins (src/db.js:65-79, 113-128): cosine similarity against
    every stored embedding, the first strict maximum, and the 0.97 reuse threshold. */
module Similarity {
  import opened Wrappers
  import opened Tables

  /** The last step of `cosineSimilarity`, the dot product divided by the product of the square roots of the norms, applied to
      the three sums. It runs in floating point with a square root, so the model leaves it abstract. */
  type Quotient = (real, real, real) -> real

  /** The sum of `a[i] * b[i]` over the first `n` positions, accumulated from the front. */
  function DotTo(a: seq<real>, b: seq<real>, n: nat): real
    requires n <= |a| && n <= |b|
  {
    if n == 0 then 0.0 else DotTo(a, b, n - 1) + a[n - 1] * b[n - 1]
  }

  function Dot(a: seq<real>, b: seq<real>): real
    requires |a| == |b|
  {
    DotTo(a, b, |a|)
  }

  predicate IsZeroVector(v: seq<real>) {
    forall i :: 0 <= i < |v| ==> v[i] == 0.0
  }

  /** What `cosineSimilarity(a, b)` returns: 0 for vectors of different lengths or with a zero norm,
      otherwise the quotient of the dot product by the norms. */
  function Cosine(quot: Quotient, a: seq<real>, b: seq<real>): (r: real)
    ensures r != 0.0 ==> |a| == |b| && !IsZeroVector(a) && !IsZeroVector(b)
  {
    if |a| != |b| then 0.0
    else if Dot(a, a) == 0.0 || Dot(b, b) == 0.0 then 0.0
    else
      ZeroVectorNormZero(a);
      ZeroVectorNormZero(b);
      quot(Dot(a, b), Dot(a, a), Dot(b, b))
  }

  lemma ZeroVectorNormZero(v: seq<real>)
    ensures IsZeroVector(v) ==> Dot(v, v) == 0.0
  {
    if IsZeroVector(v) {
      ZeroVectorHasZeroNorm(v, |v|);
    }
  }

  /** `cosineSimilarity`: the loop accumulating `dot`, `normA` and `normB`. */
  method CosineSimilarity(quot: Quotient, a: seq<real>, b: seq<real>) returns (r: real)
    ensures r == Cosine(quot, a, b)
  {
    if |a| != |b| {
      return 0.0;
    }
    var dot, normA, normB := 0.0, 0.0, 0.0;
    for i := 0 to |a|
      invariant dot == DotTo(a, b, i) && normA == DotTo(a, a, i) && normB == DotTo(b, b, i)
    {
      var va, vb := a[i], b[i];
      dot := dot + va * vb;
      normA := normA + va * va;
      normB := normB + vb * vb;
    }
    if normA == 0.0 || normB == 0.0 {
      return 0.0;
    }
    r := quot(dot, normA, normB);
  }

  /** The norm of an all-zero vector is zero. */
  lemma {:induction false} ZeroVectorHasZeroNorm(v: seq<real>, n: nat)
    requires n <= |v| && forall i :: 0 <= i < n ==> v[i] == 0.0
    ensures DotTo(v, v, n) == 0.0
  {
    if n > 0 {
      ZeroVectorHasZeroNorm(v, n - 1);
      ZeroSquare(v[n - 1]);
    }
  }

  lemma ZeroSquare(x: real)
    requires x == 0.0
    ensures x * x == 0.0
  {
  }

  /** The two facts the similarity guarantees: 0 on a length mismatch and 0 when either vector
      is all zeros (its norm is zero). */
  lemma CosineZeroCases(quot: Quotient, a: seq<real>, b: seq<real>)
    ensures |a| != |b| ==> Cosine(quot, a, b) == 0.0
    ensures IsZeroVector(a) || IsZeroVector(b) ==> Cosine(quot, a, b) == 0.0
  {
    if |a| == |b| {
      if IsZeroVector(a) {
        ZeroVectorHasZeroNorm(a, |a|);
      }
      if IsZeroVector(b) {
        ZeroVectorHasZeroNorm(b, |b|);
      }
    }
  }

  lemma {:induction false} DotToSymmetric(a: seq<real>, b: seq<real>, n: nat)
    requires n <= |a| && n <= |b|
    ensures DotTo(a, b, n) == DotTo(b, a, n)
  {
    if n > 0 {
      DotToSymmetric(a, b, n - 1);
    }
  }

  /** With a quotient that is symmetric in the two norms, as the square-root product is, the
      similarity is symmetric. */
  lemma CosineSymmetric(quot: Quotient, a: seq<real>, b: seq<real>)
    requires forall d, x, y :: quot(d, x, y) == quot(d, y, x)
    ensures Cosine(quot, a, b) == Cosine(quot, b, a)
  {
    if |a| == |b| {
      DotToSymmetric(a, b, |a|);
    }
  }

  /** The score of a stored row: `None` when `JSON.parse` throws (the row is skipped), 0 when the
      stored value is not an array, and the similarity otherwise. */
  function Score(quot: Quotient, query: seq<real>, e: StoredEmbedding): (r: Option<real>)
    ensures r.None? <==> e.Malformed?
    ensures e.Encoded? && IsZeroVector(e.vector) ==> r == Some(0.0)
  {
    match e
    case Malformed => None
    case NotArray => Some(0.0)
    case Encoded(v) => Some(Cosine(quot, query, v))
  }

  function ScoreAt(quot: Quotient, query: seq<real>, groups: seq<Group>, k: nat): Option<real>
    requires k < |groups|
  {
    Score(quot, query, groups[k].embedding)
  }

  /** The reuse threshold. */
  const Threshold: real := 0.97

  /** The running `best` record: `id` is `null` until a row scores above -1. */
  datatype Best = Best(id: Option<nat>, score: real)

  /** Row `k` is the first row among the first `n` with the largest score, and that score is above -1. */
  ghost predicate FirstBestAmong(quot: Quotient, query: seq<real>, groups: seq<Group>, n: nat, k: nat) {
    && k < n <= |groups|
    && ScoreAt(quot, query, groups, k).Some?
    && ScoreAt(quot, query, groups, k).value > -1.0
    && (forall j :: 0 <= j < k && ScoreAt(quot, query, groups, j).Some? ==>
          ScoreAt(quot, query, groups, j).value < ScoreAt(quot, query, groups, k).value)
    && (forall j :: k < j < n && ScoreAt(quot, query, groups, j).Some? ==>
          ScoreAt(quot, query, groups, j).value <= ScoreAt(quot, query, groups, k).value)
  }

  /** `best` is what the scan of the first `n` rows leaves: the first best row, or the initial
      record when no decodable row scores above -1. */
  ghost predicate IsBestAmong(quot: Quotient, query: seq<real>, groups: seq<Group>, n: nat, best: Best) {
    && n <= |groups|
    && if best.id.None? then
         && best.score == -1.0
         && forall j :: 0 <= j < n && ScoreAt(quot, query, groups, j).Some? ==> ScoreAt(quot, query, groups, j).value <= -1.0
       else
         exists k: nat :: FirstBestAmong(quot, query, groups, n, k)
                  && best == Best(Some(groups[k].id), ScoreAt(quot, query, groups, k).value)
  }

  ghost predicate IsBest(quot: Quotient, query: seq<real>, groups: seq<Group>, best: Best) {
    IsBestAmong(quot, query, groups, |groups|, best)
  }

  /** One iteration of the scan: a decodable row whose score beats the record replaces it. */
  function Advance(best: Best, id: nat, s: Option<real>): Best {
    if s.Some? && s.value > best.score then Best(Some(id), s.value) else best
  }

  /** The body of the `try` block for one row: decode, then score. */
  method ScoreRow(quot: Quotient, query: seq<real>, e: StoredEmbedding) returns (s: Option<real>)
    ensures s == Score(quot, query, e)
  {
    match e {
      case Malformed => s := None;
      case NotArray => s := Some(0.0);
      case Encoded(v) =>
        var c := CosineSimilarity(quot, query, v);
        s := Some(c);
    }
  }

  /** The loop over `getAllGroups` in `findOrCreateGroupForQuestion`. */
  method SelectBest(quot: Quotient, query: seq<real>, groups: seq<Group>) returns (best: Best)
    ensures IsBest(quot, query, groups, best)
  {
    best := Best(None, -1.0);
    for i := 0 to |groups|
      invariant IsBestAmong(quot, query, groups, i, best)
    {
      var s := ScoreRow(quot, query, groups[i].embedding);
      ScanStep(quot, query, groups, i, best);
      if s.Some? && s.value > best.score {
        best := Best(Some(groups[i].id), s.value);
      }
    }
  }

  /** Scanning one more row keeps the record the first best of the rows seen. */
  lemma ScanStep(quot: Quotient, query: seq<real>, groups: seq<Group>, i: nat, best: Best)
    requires i < |groups| && IsBestAmong(quot, query, groups, i, best)
    ensures IsBestAmong(quot, query, groups, i + 1, Advance(best, groups[i].id, ScoreAt(quot, query, groups, i)))
  {
    var s := ScoreAt(quot, query, groups, i);
    if s.Some? && s.value > best.score {
      assert FirstBestAmong(quot, query, groups, i + 1, i);
    } else if best.id.Some? {
      var k: nat :| FirstBestAmong(quot, query, groups, i, k)
               && best == Best(Some(groups[k].id), ScoreAt(quot, query, groups, k).value);
      assert FirstBestAmong(quot, query, groups, i + 1, k);
    }
  }

  /** At most one record satisfies the selection rule: the scan is deterministic. */
  lemma BestIsUnique(quot: Quotient, query: seq<real>, groups: seq<Group>, b1: Best, b2: Best)
    requires IsBest(quot, query, groups, b1) && IsBest(quot, query, groups, b2)
    ensures b1 == b2
  {
    var n := |groups|;
    if b1.id.Some? && b2.id.Some? {
      var k1: nat :| FirstBestAmong(quot, query, groups, n, k1)
                && b1 == Best(Some(groups[k1].id), ScoreAt(quot, query, groups, k1).value);
      var k2: nat :| FirstBestAmong(quot, query, groups, n, k2)
                && b2 == Best(Some(groups[k2].id), ScoreAt(quot, query, groups, k2).value);
    }
  }

  /** The best record has a truthy id and a score of at least the threshold; an id of 0 would be falsy, but stored ids are positive. */
  predicate Reuses(best: Best) {
    best.id.Some? && best.id.value != 0 && best.score >= Threshold
  }

  /** Some decodable row scores at least the threshold. */
  ghost predicate SomeRowAbove(quot: Quotient, query: seq<real>, groups: seq<Group>) {
    exists j :: 0 <= j < |groups| && ScoreAt(quot, query, groups, j).Some? && ScoreAt(quot, query, groups, j).value >= Threshold
  }

  /** The best group is reused exactly when some decodable row reaches the threshold. */
  lemma ReusesIffSomeRowAbove(quot: Quotient, query: seq<real>, groups: seq<Group>, best: Best)
    requires IdsAscending(groups) && IsBest(quot, query, groups, best)
    ensures Reuses(best) <==> SomeRowAbove(quot, query, groups)
  {
    var n := |groups|;
    assert Reuses(best) ==> SomeRowAbove(quot, query, groups) by {
      if Reuses(best) {
        var k: nat :| FirstBestAmong(quot, query, groups, n, k)
                 && best == Best(Some(groups[k].id), ScoreAt(quot, query, groups, k).value);
        assert ScoreAt(quot, query, groups, k).value >= Threshold;
      }
    }
    assert SomeRowAbove(quot, query, groups) ==> Reuses(best) by {
      if SomeRowAbove(quot, query, groups) {
        var j :| 0 <= j < n && ScoreAt(quot, query, groups, j).Some? && ScoreAt(quot, query, groups, j).value >= Threshold;
        var k: nat :| FirstBestAmong(quot, query, groups, n, k)
                 && best == Best(Some(groups[k].id), ScoreAt(quot, query, groups, k).value);
        assert ScoreAt(quot, query, groups, j).value <= ScoreAt(quot, query, groups, k).value;
        assert groups[k].id >= 1;
      }
    }
  }

  /** The selected id names a row of the table. */
  lemma BestIsAGroup(quot: Quotient, query: seq<real>, groups: seq<Group>, best: Best)
    requires IsBest(quot, query, groups, best) && best.id.Some?
    ensures exists k :: 0 <= k < |groups| && groups[k].id == best.id.value
  {
    var k: nat :| FirstBestAmong(quot, query, groups, |groups|, k)
             && best == Best(Some(groups[k].id), ScoreAt(quot, query, groups, k).value);
  }
}
