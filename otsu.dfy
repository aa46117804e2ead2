/** Otsu's global threshold selection (N. Otsu, 1979): the threshold t that
    maximises the between-class variance of the split "intensity <= t" versus
    "intensity > t", found in one pass over the 256 candidates. */
module OtsuMethod {
  import opened Pixels
  import opened Histograms

  /** The between-class score na * nb * (ma - mb)^2 of classes of na and nb
      pixels whose intensities sum to sa and sb, in exact real arithmetic.
      It is never negative and equals the integer cross-product form
      (sa * nb - sb * na)^2 / (na * nb). */
  function BetweenClassVariance(na: int, nb: int, sa: int, sb: int): (r: real)
    requires na > 0 && nb > 0
    ensures r >= 0.0
    ensures r == ((sa * nb - sb * na) * (sa * nb - sb * na)) as real / (na * nb) as real
  {
    var ma := sa as real / na as real;
    var mb := sb as real / nb as real;
    CrossProductForm(na as real, nb as real, sa as real, sb as real);
    (na * nb) as real * (ma - mb) * (ma - mb)
  }

  /** Clearing the denominators of the two means. */
  lemma CrossProductForm(na: real, nb: real, sa: real, sb: real)
    requires na > 0.0 && nb > 0.0
    ensures (na * nb) * (sa / na - sb / nb) * (sa / na - sb / nb)
         == ((sa * nb - sb * na) * (sa * nb - sb * na)) / (na * nb)
  {
    var d := sa / na - sb / nb;
    assert d * (na * nb) == sa * nb - sb * na;
    var c := sa * nb - sb * na;
    assert (na * nb) * d * d == (c * c) / (na * nb);
  }

  /** t splits the image into two non-empty classes: some pixel is <= t
      and some pixel is > t. */
  ghost predicate ValidSplit(pix: seq<UInt8>, t: int)
  {
    0 <= t < 256 && 0 < CountBelow(pix, t + 1) < |pix|
  }

  /** The between-class score of a valid split t. */
  ghost function Score(pix: seq<UInt8>, t: int): real
    requires ValidSplit(pix, t)
  {
    var na := CountBelow(pix, t + 1);
    var sa := SumBelow(pix, t + 1);
    BetweenClassVariance(na, |pix| - na, sa, SumBelow(pix, 256) - sa)
  }

  /** No candidate below bound is a valid split. */
  ghost predicate NoValidSplitBelow(pix: seq<UInt8>, bound: int)
  {
    forall t :: 0 <= t < bound ==> !ValidSplit(pix, t)
  }

  /** th is the result of scanning the candidates below bound: 0 when none
      of them is a valid split, otherwise the lowest valid split among them
      whose score no other reaches. */
  ghost predicate IsBestSplitBelow(pix: seq<UInt8>, bound: int, th: int)
  {
    && 0 <= th < 256
    && (NoValidSplitBelow(pix, bound) ==> th == 0)
    && (!NoValidSplitBelow(pix, bound) ==>
          && th < bound
          && ValidSplit(pix, th)
          && (forall t :: 0 <= t < bound && ValidSplit(pix, t) ==> Score(pix, t) <= Score(pix, th))
          && (forall t :: 0 <= t < th && ValidSplit(pix, t) ==> Score(pix, t) < Score(pix, th)))
  }

  /** No threshold splits the image into two non-empty classes. */
  ghost predicate NoValidSplit(pix: seq<UInt8>)
  {
    NoValidSplitBelow(pix, 256)
  }

  /** th is what Otsu's method selects over all 256 candidates: 0 when no
      valid split exists, otherwise the lowest valid split of maximal score. */
  ghost predicate IsOtsuThreshold(pix: seq<UInt8>, th: int)
  {
    IsBestSplitBelow(pix, 256, th)
  }

  /** Builds the histogram, sums the intensities, then scans t = 0..255
      with running class counts and sums, skipping while the low class is
      empty, stopping once the high class is empty, and keeping a candidate
      only when its score is strictly greater than the best so far. */
  method Otsu(pix: array<UInt8>) returns (th: UInt8)
    ensures IsOtsuThreshold(pix[..], th)
  {
    ghost var s := pix[..];
    var hist := Histogram(pix);
    assert hist[..] == Hist(s);
    var sum := 0;
    CountBelowPositive(s, 0);
    for i := 0 to 256
      invariant hist[..] == Hist(s)
      invariant sum == SumBelow(s, i)
    {
      SumBelowStep(s, i);
      sum := sum + i * hist[i];
    }
    var na, nb := 0, pix.Length;
    var sa, sb := 0, sum;
    var ms := 0.0;
    th := 0;
    for t := 0 to 256
      invariant hist[..] == Hist(s)
      invariant na == CountBelow(s, t) && nb == |s| - na
      invariant sa == SumBelow(s, t) && sb == sum - sa
      invariant IsBestSplitBelow(s, t, th)
      invariant ms == if NoValidSplitBelow(s, t) then 0.0 else Score(s, th)
    {
      CountBelowStep(s, t);
      SumBelowStep(s, t);
      na := na + hist[t];
      nb := nb - hist[t];
      if na == 0 {
        SkipInvalid(s, t, th);
        continue;
      }
      if nb == 0 {
        StopAtEmptyHighClass(s, t, th);
        break;
      }
      sa := sa + t * hist[t];
      sb := sum - sa;
      var score := BetweenClassVariance(na, nb, sa, sb);
      ScorePositive(s, t);
      if score > ms {
        TakeCandidate(s, t, th);
        ms := score;
        th := t;
      } else {
        KeepBest(s, t, th);
      }
    }
  }

  /** An invalid candidate leaves the scan's result unchanged. */
  lemma SkipInvalid(pix: seq<UInt8>, t: int, th: int)
    requires 0 <= t && IsBestSplitBelow(pix, t, th) && !ValidSplit(pix, t)
    ensures IsBestSplitBelow(pix, t + 1, th)
    ensures NoValidSplitBelow(pix, t + 1) == NoValidSplitBelow(pix, t)
  {
  }

  /** A valid candidate that does not beat the best so far is dropped. */
  lemma KeepBest(pix: seq<UInt8>, t: int, th: int)
    requires 0 <= t && IsBestSplitBelow(pix, t, th) && ValidSplit(pix, t)
    requires !NoValidSplitBelow(pix, t) && Score(pix, t) <= Score(pix, th)
    ensures IsBestSplitBelow(pix, t + 1, th) && !NoValidSplitBelow(pix, t + 1)
  {
  }

  /** A valid candidate that is the first valid one, or beats the best so
      far strictly, becomes the new best. */
  lemma TakeCandidate(pix: seq<UInt8>, t: int, th: int)
    requires 0 <= t && IsBestSplitBelow(pix, t, th) && ValidSplit(pix, t)
    requires NoValidSplitBelow(pix, t) || Score(pix, t) > Score(pix, th)
    ensures IsBestSplitBelow(pix, t + 1, t) && !NoValidSplitBelow(pix, t + 1)
  {
  }

  /** Once the high class is empty at t, no later candidate is valid, so the
      best split below t is the best of all 256: the early stop loses nothing. */
  lemma StopAtEmptyHighClass(pix: seq<UInt8>, t: int, th: int)
    requires 0 <= t < 256 && IsBestSplitBelow(pix, t, th)
    requires CountBelow(pix, t + 1) == |pix|
    ensures IsOtsuThreshold(pix, th)
  {
    EmptyHighClassStaysEmpty(pix, t);
  }

  /** Once the high class is empty at t it stays empty, so no candidate
      from t on is a valid split. */
  lemma EmptyHighClassStaysEmpty(pix: seq<UInt8>, t: int)
    requires CountBelow(pix, t + 1) == |pix|
    ensures forall u :: t <= u ==> !ValidSplit(pix, u)
  {
    forall u | t <= u
      ensures !ValidSplit(pix, u)
    {
      CountBelowMonotone(pix, t + 1, u + 1);
    }
  }

  /** Every valid split scores strictly more than 0, so the initial best
      score 0 is beaten by the first valid candidate. */
  lemma ScorePositive(pix: seq<UInt8>, t: int)
    requires ValidSplit(pix, t)
    ensures Score(pix, t) > 0.0
  {
    var na := CountBelow(pix, t + 1);
    var sa := SumBelow(pix, t + 1);
    ClassBounds(pix, t + 1);
    SeparatedClassesScorePositive(na, |pix| - na, sa, SumBelow(pix, 256) - sa, t);
  }

  /** Classes whose means are at most t and at least t + 1 have a positive
      between-class score. */
  lemma SeparatedClassesScorePositive(na: int, nb: int, sa: int, sb: int, t: int)
    requires na > 0 && nb > 0
    requires sa <= t * na && sb >= (t + 1) * nb
    ensures BetweenClassVariance(na, nb, sa, sb) > 0.0
  {
    assert na * nb >= 1 by {
      assert na * nb >= 1 * nb;
    }
    QuotientAtMost(sa, na, t);
    QuotientAtLeast(sb, nb, t + 1);
    SeparatedMeansScorePositive((na * nb) as real, sa as real / na as real, sb as real / nb as real);
  }

  lemma QuotientAtMost(x: int, y: int, c: int)
    requires y > 0 && x <= c * y
    ensures x as real / y as real <= c as real
  {
    assert x as real <= (c as real) * (y as real);
  }

  lemma QuotientAtLeast(x: int, y: int, c: int)
    requires y > 0 && x >= c * y
    ensures x as real / y as real >= c as real
  {
    assert x as real >= (c as real) * (y as real);
  }

  lemma SeparatedMeansScorePositive(w: real, ma: real, mb: real)
    requires w >= 1.0 && ma + 1.0 <= mb
    ensures w * (ma - mb) * (ma - mb) > 0.0
  {
    var d := mb - ma;
    assert (ma - mb) * (ma - mb) == d * d;
    assert d * d >= d;
    assert w * (d * d) >= d * d;
  }

  /** A valid split is exactly a threshold with some pixel at or below it
      and some pixel above it. */
  lemma ValidSplitMeaning(pix: seq<UInt8>, t: int)
    requires 0 <= t < 256
    ensures ValidSplit(pix, t) <==>
      (exists i :: 0 <= i < |pix| && pix[i] <= t) && (exists j :: 0 <= j < |pix| && pix[j] > t)
  {
    CountBelowPositive(pix, t + 1);
    CountBelowShort(pix, t + 1);
  }

  /** No valid split exists exactly when all pixels share one intensity
      (which includes the empty and the one-pixel image). */
  lemma NoValidSplitIffUniform(pix: seq<UInt8>)
    ensures NoValidSplit(pix) <==>
      forall i, j :: 0 <= i < |pix| && 0 <= j < |pix| ==> pix[i] == pix[j]
  {
    if forall i, j :: 0 <= i < |pix| && 0 <= j < |pix| ==> pix[i] == pix[j] {
      forall t | 0 <= t < 256
        ensures !ValidSplit(pix, t)
      {
        ValidSplitMeaning(pix, t);
      }
    } else {
      var i, j :| 0 <= i < |pix| && 0 <= j < |pix| && pix[i] != pix[j];
      var lo := if pix[i] < pix[j] then pix[i] else pix[j];
      ValidSplitMeaning(pix, lo);
      assert ValidSplit(pix, lo);
    }
  }

  /** A uniform image (every pixel the same intensity, or no pixel at all)
      is thresholded at 0 and at nothing else. */
  lemma UniformImageThresholdIsZero(pix: seq<UInt8>, th: int)
    requires forall i, j :: 0 <= i < |pix| && 0 <= j < |pix| ==> pix[i] == pix[j]
    ensures IsOtsuThreshold(pix, th) <==> th == 0
  {
    NoValidSplitIffUniform(pix);
  }

  /** On an image with at least two intensities, Otsu's threshold splits
      it: some pixel is at or below it, some pixel above it, and its score is
      positive and no lower than that of any other threshold. */
  lemma OtsuThresholdSplits(pix: seq<UInt8>, th: int)
    requires exists i, j :: 0 <= i < |pix| && 0 <= j < |pix| && pix[i] != pix[j]
    ensures IsOtsuThreshold(pix, th) ==>
      && ValidSplit(pix, th)
      && (exists i :: 0 <= i < |pix| && pix[i] <= th)
      && (exists j :: 0 <= j < |pix| && pix[j] > th)
      && Score(pix, th) > 0.0
      && forall t :: 0 <= t < 256 && ValidSplit(pix, t) ==> Score(pix, t) <= Score(pix, th)
  {
    if IsOtsuThreshold(pix, th) {
      NoValidSplitIffUniform(pix);
      ValidSplitMeaning(pix, th);
      ScorePositive(pix, th);
    }
  }

  /** Determinism: the specification admits exactly one threshold. */
  lemma OtsuThresholdUnique(pix: seq<UInt8>, a: int, b: int)
    requires IsOtsuThreshold(pix, a) && IsOtsuThreshold(pix, b)
    ensures a == b
  {
  }

  /** Every pixel of the image is a or b. */
  ghost predicate TwoLevel(pix: seq<UInt8>, a: int, b: int)
  {
    forall i :: 0 <= i < |pix| ==> pix[i] == a || pix[i] == b
  }

  /** On a two-level image every threshold from a up to b - 1 puts the same
      pixels in the low class. */
  lemma {:induction false} TwoLevelClasses(pix: seq<UInt8>, a: int, b: int, u: int)
    requires TwoLevel(pix, a, b) && a <= u < b
    ensures CountBelow(pix, u + 1) == CountBelow(pix, a + 1)
    ensures SumBelow(pix, u + 1) == SumBelow(pix, a + 1)
  {
    if pix != [] {
      TwoLevelClasses(pix[..|pix| - 1], a, b, u);
    }
  }

  /** On an image of intensities a < b, both present, the valid splits
      are exactly a, a + 1, ..., b - 1. */
  lemma TwoLevelValidSplits(pix: seq<UInt8>, a: int, b: int, t: int)
    requires a < b && TwoLevel(pix, a, b)
    requires (exists i :: 0 <= i < |pix| && pix[i] == a) && (exists j :: 0 <= j < |pix| && pix[j] == b)
    requires 0 <= t < 256
    ensures ValidSplit(pix, t) <==> a <= t < b
  {
    ValidSplitMeaning(pix, t);
    if ValidSplit(pix, t) {
      var lo :| 0 <= lo < |pix| && pix[lo] <= t;
      var hi :| 0 <= hi < |pix| && pix[hi] > t;
    }
  }

  /** An image made of two intensities a < b, both present, is thresholded
      at a and at nothing else: every split from a to b - 1 scores the same,
      and ties go to the lowest candidate. */
  lemma TwoLevelThreshold(pix: seq<UInt8>, a: int, b: int, th: int)
    requires a < b && TwoLevel(pix, a, b)
    requires (exists i :: 0 <= i < |pix| && pix[i] == a) && (exists j :: 0 <= j < |pix| && pix[j] == b)
    ensures IsOtsuThreshold(pix, th) <==> th == a
  {
    var i :| 0 <= i < |pix| && pix[i] == a;
    TwoLevelValidSplits(pix, a, b, a);
    forall t | 0 <= t < 256 && ValidSplit(pix, t)
      ensures Score(pix, t) == Score(pix, a)
    {
      TwoLevelValidSplits(pix, a, b, t);
      TwoLevelClasses(pix, a, b, t);
    }
    forall t | 0 <= t < a
      ensures !ValidSplit(pix, t)
    {
      TwoLevelValidSplits(pix, a, b, t);
    }
    assert IsOtsuThreshold(pix, a);
    if IsOtsuThreshold(pix, th) {
      OtsuThresholdUnique(pix, th, a);
    }
  }
}
