/** The histogram builder: 256 buckets, bucket v counting the pixels of
    intensity v. */
module Histograms {
  import opened Pixels

  /** The histogram a pixel buffer should produce. */
  ghost function Hist(pix: seq<UInt8>): seq<int>
  {
    seq(256, v requires 0 <= v < 256 => Count(pix, v))
  }

  /** Sum of the first k buckets of a histogram. */
  ghost function Sum(h: seq<int>, k: nat): int
    requires k <= |h|
  {
    if k == 0 then 0 else Sum(h, k - 1) + h[k - 1]
  }

  /** Counts the intensities of pix into a freshly allocated 256-bucket
      array, one increment per pixel. */
  method Histogram(pix: array<UInt8>) returns (hist: array<int>)
    ensures fresh(hist)
    ensures hist.Length == 256
    ensures forall v :: 0 <= v < 256 ==> hist[v] == Count(pix[..], v)
  {
    hist := new int[256](_ => 0);
    for i := 0 to pix.Length
      invariant forall v :: 0 <= v < 256 ==> hist[v] == Count(pix[..i], v)
    {
      assert pix[..i + 1][..i] == pix[..i];
      hist[pix[i]] := hist[pix[i]] + 1;
    }
    assert pix[..pix.Length] == pix[..];
  }

  /** The first k buckets of the histogram count the pixels below k. */
  lemma {:induction false} HistPrefixCountsBelow(pix: seq<UInt8>, k: nat)
    requires k <= 256
    ensures Sum(Hist(pix), k) == CountBelow(pix, k)
  {
    if k == 0 {
      assert CountBelow(pix, 0) == 0 by { CountBelowPositive(pix, 0); }
    } else {
      HistPrefixCountsBelow(pix, k - 1);
      CountBelowStep(pix, k - 1);
    }
  }

  /** Conservation: the buckets sum to the number of pixels, so an empty
      buffer has an all-zero histogram. */
  lemma HistogramConservation(pix: seq<UInt8>)
    ensures |Hist(pix)| == 256
    ensures Sum(Hist(pix), 256) == |pix|
    ensures pix == [] ==> forall v :: 0 <= v < 256 ==> Hist(pix)[v] == 0
  {
    HistPrefixCountsBelow(pix, 256);
    CountBelowAll(pix);
  }
}
