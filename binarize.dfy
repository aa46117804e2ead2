/** The binariser: every pixel becomes fg if it is brighter than the
    threshold and bg otherwise, written into a new buffer. */
module Binarization {
  import opened Pixels

  /** The binarised image: same length, and each pixel is fg when the input
      pixel is brighter than th and bg otherwise. */
  function Binarized(pix: seq<UInt8>, th: int, bg: UInt8, fg: UInt8): (r: seq<UInt8>)
    ensures |r| == |pix|
    ensures forall i :: 0 <= i < |pix| && pix[i] > th ==> r[i] == fg
    ensures forall i :: 0 <= i < |pix| && pix[i] <= th ==> r[i] == bg
  {
    seq(|pix|, i requires 0 <= i < |pix| => if pix[i] > th then fg else bg)
  }

  /** Allocates a buffer of the input's length and fills it pixel by pixel;
      the input buffer is only read. */
  method Threshold(pix: array<UInt8>, th: UInt8, bg: UInt8, fg: UInt8) returns (res: array<UInt8>)
    ensures fresh(res)
    ensures res[..] == Binarized(pix[..], th, bg, fg)
  {
    res := new UInt8[pix.Length];
    for i := 0 to res.Length
      invariant forall k :: 0 <= k < i ==> res[k] == if pix[k] > th then fg else bg
    {
      if pix[i] > th {
        res[i] := fg;
      } else {
        res[i] := bg;
      }
    }
  }

  /** Every output pixel is one of the two output intensities, and the
      length is kept. */
  lemma BinarizedTwoValued(pix: seq<UInt8>, th: int, bg: UInt8, fg: UInt8)
    ensures |Binarized(pix, th, bg, fg)| == |pix|
    ensures forall i :: 0 <= i < |pix| ==> Binarized(pix, th, bg, fg)[i] in {bg, fg}
  {
  }

  /** With the command line's intensities (0 below, 255 above), binarising
      a binarised image again with the same threshold changes nothing, for
      every threshold including 255. */
  lemma BinarizeIdempotent(pix: seq<UInt8>, th: UInt8)
    ensures Binarized(Binarized(pix, th, White, Black), th, White, Black) == Binarized(pix, th, White, Black)
  {
  }
}
