# threshold: Otsu binarisation of a grayscale buffer, in Dafny

`threshold` turns an image into a two-level image. It reduces the image to
8-bit grayscale, counts the 256 intensities into a histogram, picks a global
threshold by Otsu's method (N. Otsu, 1979) and writes a new buffer. In that
buffer every pixel brighter than the threshold is 255 and every other pixel is 0.

This project models the arithmetic core of `main.go`:

- `histogram` is `Histograms.Histogram`, a method over an array of
  intensities. Its specification functions are in `Pixels`.
- `otsu` is `OtsuMethod.Otsu`, a method with the source's two loops: the
  intensity sum, then the scan over t = 0..255. It keeps the running class
  counts `na`, `nb`, the sums `sa`, `sb`, the best score `ms` and the
  threshold `th`, and it has the source's `continue` and `break`.
- `threshold` is `Binarization.Threshold`, a method that fills a freshly
  allocated array. Its result is the function `Binarization.Binarized`,
  which states the pixel-by-pixel rule.
- the two pipeline steps of `run` after `toGray` are `Pipeline.Run`.

The pixel buffer (`image.Gray.Pix`) is a flat `array<UInt8>`, where `UInt8`
is the integers 0..255.

Otsu's method is specified on the pixels themselves, not on the histogram:

- `ValidSplit(pix, t)` holds when some pixel is at most t and some pixel is
  above t.
- `Score(pix, t)` is the source's score `na * nb * (ma - mb)^2`, computed in
  exact real arithmetic.
- `IsOtsuThreshold(pix, th)` holds when th is 0 if no valid split exists.
  Otherwise th is a valid split whose score no other split beats, and every
  valid split below th scores strictly less.

The method is proved to return such a threshold, and the specification admits
exactly one. So the early `break` gives the same result as scanning all 256
candidates.

## Model

| member | source | states |
|---|---|---|
| Pixels.Count | main.go:129-132 | the number of pixels of a given intensity (the value of one histogram bucket) never exceeds the buffer length |
| Pixels.CountBelow | main.go:103-108 | the size of the low class of a split (the running `na`) never exceeds the buffer length |
| Pixels.SumBelow | main.go:99-102 | the intensity sum of the pixels below a bound (the running `sa`, and `sum` at bound 256) is at most 255 times their number |
| Pixels.CountIsMultiplicity | main.go:128-133 | bucket v counts exactly the occurrences of v in the buffer (its multiplicity in the buffer's multiset) |
| Pixels.CountBelowStep | main.go:107-108 | adding bucket t to the low-class count gives the number of pixels at most t |
| Pixels.SumBelowStep | main.go:115-116 | adding t times bucket t to the low-class sum gives the intensity sum of the pixels at most t |
| Pixels.CountBelowMonotone | main.go:106-108 | the low class only grows as the candidate threshold rises |
| Pixels.CountBelowAll | main.go:103 | all pixels lie below 256, so seeding `nb` with the buffer length makes `na + nb` the pixel count |
| Pixels.CountBelowPositive | main.go:109-111 | the low class is non-empty exactly when some pixel is below the bound (the `continue` guard) |
| Pixels.CountBelowShort | main.go:112-114 | the high class is non-empty exactly when some pixel is at or above the bound (the `break` guard) |
| Pixels.ClassBounds | main.go:115-118 | the low class's sum is at most (bound - 1) times its size, and the high class's sum at least bound times its size, so the two means are separated |
| Histograms.Histogram | main.go:128-134 | returns a fresh 256-bucket array whose bucket v is the number of pixels of intensity v |
| Histograms.HistPrefixCountsBelow | main.go:103-108 | the first k buckets sum to the number of pixels below k |
| Histograms.HistogramConservation | main.go:128-133 | the 256 buckets sum to the buffer length, and an empty buffer gives all-zero buckets |
| OtsuMethod.BetweenClassVariance | main.go:117-119 | the score `na*nb*(ma-mb)^2` computed from the class counts and sums is never negative and equals `(sa*nb - sb*na)^2 / (na*nb)` |
| OtsuMethod.Otsu | main.go:97-126 | returns 0 when no threshold splits the image into two non-empty classes. Otherwise it returns a valid split of maximal between-class score, and every valid split below it scores strictly less (ties go to the lowest) |
| OtsuMethod.SkipInvalid | main.go:109-111 | a candidate that is not a valid split leaves the best threshold so far unchanged |
| OtsuMethod.KeepBest | main.go:120-123 | a valid candidate whose score does not exceed the best so far is not kept |
| OtsuMethod.TakeCandidate | main.go:120-123 | the first valid candidate, or one that scores strictly more than the best so far, becomes the best |
| OtsuMethod.StopAtEmptyHighClass | main.go:112-114 | stopping at the first empty high class yields the same threshold as scanning all 256 candidates |
| OtsuMethod.EmptyHighClassStaysEmpty | main.go:112-114 | once the high class is empty, no later candidate is a valid split |
| OtsuMethod.ScorePositive | main.go:117-122 | every valid split scores strictly more than 0, so the initial best score 0 and threshold 0 are always replaced |
| OtsuMethod.SeparatedClassesScorePositive | main.go:117-119 | classes whose means are at most t and at least t + 1 give a positive `na*nb*(ma-mb)^2` |
| OtsuMethod.ValidSplitMeaning | main.go:109-114 | t passes both guards exactly when some pixel is at most t and some pixel is above t |
| OtsuMethod.NoValidSplitIffUniform | main.go:105-114 | no candidate passes both guards exactly when all pixels share one intensity, including the empty image |
| OtsuMethod.UniformImageThresholdIsZero | main.go:105-125 | a uniform or empty image gets threshold 0 and no other threshold |
| OtsuMethod.OtsuThresholdSplits | main.go:117-123 | on an image with two distinct intensities, Otsu's threshold has a pixel at or below it and one above it. Its score is positive and no other split exceeds it |
| OtsuMethod.OtsuThresholdUnique | main.go:97-126 | exactly one threshold meets the specification, so the selection is deterministic |
| OtsuMethod.TwoLevelClasses | main.go:106-116 | on an image of intensities a < b, every candidate from a to b - 1 has the same class counts and sums |
| OtsuMethod.TwoLevelValidSplits | main.go:109-114 | on an image of intensities a < b, both present, the candidates that pass both guards are exactly a to b - 1 |
| OtsuMethod.TwoLevelThreshold | main.go:120-123 | an image made of two intensities a < b, both present, is thresholded at a and at nothing else, the lowest of the equally scoring candidates |
| Binarization.Binarized | main.go:88-92 | the binarised image has the input's length; pixel i is fg when input pixel i is greater than th and bg otherwise |
| Binarization.Threshold | main.go:85-95 | returns a fresh buffer whose contents are `Binarized` of the input, so it has the input's length and pixel i is fg when input pixel i is greater than th and bg otherwise; the input is not modified |
| Binarization.BinarizedTwoValued | main.go:88-92 | the output has the input's length and holds only bg and fg |
| Binarization.BinarizeIdempotent | main.go:87-93 | with bg = 0 and fg = 255, binarising the output again with the same threshold returns it unchanged, for every threshold |
| Pipeline.Run | main.go:41-42 | the output is the input binarised to 0/255 at the threshold that satisfies `IsOtsuThreshold` |
| Pipeline.TwoLevelImageSeparates | main.go:41-42 | a buffer of two intensities a < b comes out with every a-pixel 0 and every b-pixel 255 |
| Pipeline.HalvesHistogram | main.go:128-133 | the 4 x 4 image with a left half of 20 and a right half of 220 has 8 pixels in bucket 20, 8 in bucket 220 and none in any other bucket |
| Pipeline.HalvesThresholdAndOutput | main.go:41-42 | that image gets threshold 20 and no other, and binarising it at 20 gives a left half of 0 and a right half of 255 |

## Left out

- `main`, `run`'s error handling, `loadImage`, `saveImage` and the `cli` struct (main.go:23-70) are left out. They are argument parsing, file decoding and PNG encoding, which is I/O.
- `toGray` (main.go:72-83) is left out. It calls Go's `color.GrayModel.Convert`, whose luminance weights are not part of this model. `Pipeline.Run` starts from the grayscale buffer.
- `OtsuMethod.Otsu` compares scores in exact real arithmetic, not IEEE-754 double precision (main.go:117-120), so the model does not capture any comparison that floating-point rounding decides. Rounding can turn two exactly equal scores into a strict `s > ms`, so the Go program keeps a later candidate. It can also reverse the order of two scores that differ only slightly in exact arithmetic, in either direction.
- The model uses unbounded integers, so it does not capture Go's fixed-width `int` overflow of `sum`, `na*nb` or `t*hist[t]` on huge images.
- Image bounds, `Stride` and (x, y) addressing are left out. Both `histogram` and `threshold` index `Pix` linearly. `Binarization.Threshold` takes the output length to be the input's, which Go's `image.NewGray(img.Bounds())` guarantees for a well-formed image.
