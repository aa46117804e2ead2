/** The core of the command: the grayscale buffer is thresholded at the
    level Otsu's method selects, brighter pixels becoming 255 and the
    others 0. */
module Pipeline {
  import opened Pixels
  import opened Histograms
  import opened OtsuMethod
  import opened Binarization

  /** Selects Otsu's threshold for the buffer and binarises it with the
      command line's intensities. */
  method Run(pix: array<UInt8>) returns (res: array<UInt8>)
    ensures fresh(res)
    ensures exists th :: IsOtsuThreshold(pix[..], th) && res[..] == Binarized(pix[..], th, White, Black)
  {
    var th := Otsu(pix);
    res := Threshold(pix, th, White, Black);
  }

  /** A buffer made of two intensities a < b, both present, comes out with
      every a-pixel at 0 and every b-pixel at 255. */
  lemma TwoLevelImageSeparates(pix: seq<UInt8>, a: int, b: int, th: int)
    requires a < b && TwoLevel(pix, a, b)
    requires (exists i :: 0 <= i < |pix| && pix[i] == a) && (exists j :: 0 <= j < |pix| && pix[j] == b)
    ensures IsOtsuThreshold(pix, th) ==> forall i :: 0 <= i < |pix| ==>
      Binarized(pix, th, White, Black)[i] == if pix[i] == a then White else Black
  {
    TwoLevelThreshold(pix, a, b, th);
  }

  /** The 4 x 4 test image, row by row: left half intensity 20, right half 220. */
  function Halves(): seq<UInt8>
  {
    var row: seq<UInt8> := [20, 20, 220, 220];
    row + row + row + row
  }

  /** The histogram of the 4 x 4 halves image holds 8 pixels in each of
      buckets 20 and 220 and none anywhere else. */
  lemma HalvesHistogram()
    ensures Hist(Halves())[20] == 8 && Hist(Halves())[220] == 8
    ensures forall v :: 0 <= v < 256 && v != 20 && v != 220 ==> Hist(Halves())[v] == 0
  {
    var row: seq<UInt8> := [20, 20, 220, 220];
    assert Halves() == row + row + row + row;
    assert multiset(row)[20] == 2 && multiset(row)[220] == 2;
    CountIsMultiplicity(Halves(), 20);
    CountIsMultiplicity(Halves(), 220);
    forall v | 0 <= v < 256 && v != 20 && v != 220
      ensures Hist(Halves())[v] == 0
    {
      CountIsMultiplicity(Halves(), v);
      assert multiset(row)[v] == 0;
    }
  }

  /** On the halves image the threshold is 20 and nothing else, and the
      output is a left half of 0 and a right half of 255. */
  lemma HalvesThresholdAndOutput(th: int)
    ensures IsOtsuThreshold(Halves(), th) <==> th == 20
    ensures Binarized(Halves(), 20, White, Black) ==
      [0, 0, 255, 255, 0, 0, 255, 255, 0, 0, 255, 255, 0, 0, 255, 255]
  {
    var pix := Halves();
    assert pix[0] == 20 && pix[2] == 220;
    TwoLevelThreshold(pix, 20, 220, th);
  }
}
