/** The 8-bit grayscale pixel buffer (the Pix field of Go's image.Gray),
    seen as a flat sequence of intensities, and the counting functions on it
    that the histogram and the threshold search are specified against. */
module Pixels {

  /** One 8-bit intensity (Go's uint8). */
  type UInt8 = x: int | 0 <= x < 256

  /** The two output intensities the command line passes to the binariser.
      The source calls 0 "white" and 255 "black"; the names are kept. */
  const White: UInt8 := 0
  const Black: UInt8 := 255

  /** Number of pixels of intensity v. */
  function Count(pix: seq<UInt8>, v: int): (n: nat)
    ensures n <= |pix|
  {
    if pix == [] then 0
    else Count(pix[..|pix| - 1], v) + (if pix[|pix| - 1] == v then 1 else 0)
  }

  /** Number of pixels of intensity strictly below k. */
  function CountBelow(pix: seq<UInt8>, k: int): (n: nat)
    ensures n <= |pix|
  {
    if pix == [] then 0
    else CountBelow(pix[..|pix| - 1], k) + (if pix[|pix| - 1] < k then 1 else 0)
  }

  /** Sum of the intensities of the pixels strictly below k. */
  function SumBelow(pix: seq<UInt8>, k: int): (s: nat)
    ensures s <= 255 * CountBelow(pix, k)
  {
    if pix == [] then 0
    else SumBelow(pix[..|pix| - 1], k) + (if pix[|pix| - 1] < k then pix[|pix| - 1] else 0)
  }

  /** Count agrees with the multiplicity of v in the buffer's multiset. */
  lemma {:induction false} CountIsMultiplicity(pix: seq<UInt8>, v: UInt8)
    ensures Count(pix, v) == multiset(pix)[v]
  {
    if pix != [] {
      var init := pix[..|pix| - 1];
      CountIsMultiplicity(init, v);
      assert pix == init + [pix[|pix| - 1]];
    }
  }

  /** Raising the bound from k to k + 1 adds exactly the pixels of intensity k. */
  lemma {:induction false} CountBelowStep(pix: seq<UInt8>, k: int)
    ensures CountBelow(pix, k + 1) == CountBelow(pix, k) + Count(pix, k)
  {
    if pix != [] {
      CountBelowStep(pix[..|pix| - 1], k);
    }
  }

  /** Raising the bound from k to k + 1 adds k once per pixel of intensity k. */
  lemma {:induction false} SumBelowStep(pix: seq<UInt8>, k: int)
    ensures SumBelow(pix, k + 1) == SumBelow(pix, k) + k * Count(pix, k)
  {
    if pix != [] {
      var init := pix[..|pix| - 1];
      SumBelowStep(init, k);
      if pix[|pix| - 1] == k {
        assert k * (Count(init, k) + 1) == k * Count(init, k) + k;
      }
    }
  }

  /** CountBelow grows with its bound. */
  lemma {:induction false} CountBelowMonotone(pix: seq<UInt8>, k: int, k': int)
    requires k <= k'
    ensures CountBelow(pix, k) <= CountBelow(pix, k')
  {
    if pix != [] {
      CountBelowMonotone(pix[..|pix| - 1], k, k');
    }
  }

  /** Every pixel lies below 256, so CountBelow(pix, 256) counts them all. */
  lemma {:induction false} CountBelowAll(pix: seq<UInt8>)
    ensures CountBelow(pix, 256) == |pix|
  {
    if pix != [] {
      CountBelowAll(pix[..|pix| - 1]);
    }
  }

  /** Some pixel lies below k exactly when CountBelow(pix, k) is positive. */
  lemma {:induction false} CountBelowPositive(pix: seq<UInt8>, k: int)
    ensures CountBelow(pix, k) > 0 <==> exists i :: 0 <= i < |pix| && pix[i] < k
  {
    if pix != [] {
      var init := pix[..|pix| - 1];
      CountBelowPositive(init, k);
      if exists i :: 0 <= i < |init| && init[i] < k {
        var i :| 0 <= i < |init| && init[i] < k;
        assert pix[i] < k;
      }
    }
  }

  /** Some pixel lies at or above k exactly when CountBelow(pix, k) misses one. */
  lemma {:induction false} CountBelowShort(pix: seq<UInt8>, k: int)
    ensures CountBelow(pix, k) < |pix| <==> exists j :: 0 <= j < |pix| && pix[j] >= k
  {
    if pix != [] {
      var init := pix[..|pix| - 1];
      CountBelowShort(init, k);
      if exists j :: 0 <= j < |init| && init[j] >= k {
        var j :| 0 <= j < |init| && init[j] >= k;
        assert pix[j] >= k;
      }
    }
  }

  /** The pixels below k have mean at most k - 1, and the others mean at
      least k: the two classes of a split are separated. */
  lemma {:induction false} ClassBounds(pix: seq<UInt8>, k: int)
    requires 0 <= k <= 256
    ensures SumBelow(pix, k) <= (k - 1) * CountBelow(pix, k)
    ensures SumBelow(pix, 256) - SumBelow(pix, k) >= k * (|pix| - CountBelow(pix, k))
  {
    if pix != [] {
      var init := pix[..|pix| - 1];
      ClassBounds(init, k);
      var p := pix[|pix| - 1];
      if p < k {
        assert (k - 1) * (CountBelow(init, k) + 1) == (k - 1) * CountBelow(init, k) + (k - 1);
      } else {
        assert k * (|init| + 1 - CountBelow(init, k)) == k * (|init| - CountBelow(init, k)) + k;
      }
    }
  }
}
