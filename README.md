# lab2 image tool: the algorithm layer in Dafny

This project models the image-processing core of the lab-2 image tool of
the graphics-labs repository. It also proves properties of that model.

The core consists of:

- the pixel buffer `Image`: a `width x height x channels` byte vector, row-major with interleaved channels;
- histogram equalisation, in three near-copies;
- automatic, manual and percentile contrast stretching;
- the point operations: invert, clip, quantize, table lookup and bitwise AND/OR/XOR/NOT;
- the global thresholds: fixed, mean, double, Otsu and triangle;
- the neighbourhood operators with replicate border: median, minimum and maximum filters, integer-kernel convolution, Sobel/Prewitt edges, and structuring elements with erode, dilate, open and close.

The model follows the program's structure. There is one module per source file:

| module | source file |
|---|---|
| `Images` | `Image.cpp` |
| `ImageProcessor` | `ImageProcessor.cpp` |
| `ImageProcessorPart2` | `ImageProcessorPart2.cpp` |
| `PointOperations` | `PointOperations.cpp` |
| `Histogram` | `Histogram.cpp` |
| `ThresholdProcessing` | `ThresholdProcessing.cpp` |

Four further modules hold what several files share:

- `Pixels`: samples, the layout of a buffer and its value `Raster`;
- `Distribution`: histogram, CDF, `cdfMin` and the equalisation table;
- `Windows`: running extremes, sorting and clamped windows;
- `Otsu`: the candidate loop that both Otsu implementations run.

`Image` is a class whose fields the methods update in place. `SetPixel`
writes one sample, `CopyFrom` overwrites every field, and `Clone`
allocates a fresh buffer. Every operation of the program is a method with
the source's loops. It builds its result by `Clone` followed by
`SetPixel`, or by the constructor followed by `SetPixel`. Each operation
is proved against a specification function of the input, such as
`Mapped`, `EqualizedGray`, `RankFiltered` or `Morphed`. Lemmas then state
what the source promises about those functions: ranges, "other channels
unchanged", monotonicity, order between the filters, and the
compositions of the morphology operations.

Floating-point arithmetic is taken as exact:

- `std::round(p / q)` is the rational rounding `RoundDiv`.
- Float sums and means are `real`s.
- `static_cast<int>` truncates toward zero.
- The float `sqrt` of the edge magnitude is the integer square root.

The 0.299/0.587/0.114 luminance is an abstract function `Luma` that
returns a byte.

`Image::isValid` (lab2/src/Image.h:39) and `Image::isValidCoord`
(lab2/src/Image.cpp:129-131) are the predicates `Image.IsValid` and
`Image.IsValidCoord`. `IsValidCoord` guards the contracts of `GetPixel`
and `SetPixel`. `IsValid` is characterised by the constructors and by
the lemma `IsValidIffPositive`: it holds exactly when width, height and
channel count are all positive.

## Model

| member | source | states |
|---|---|---|
| Images.Image.Empty | lab2/src/Image.cpp:13 | the default image is 0 x 0 with no channels and an empty buffer, so it is not valid |
| Images.Image.constructor | lab2/src/Image.cpp:15-17 | `Image(w, h, c)` holds exactly `w * h * c` samples, all zero, with the given dimensions; it is valid exactly when `w`, `h` and `c` are all positive |
| Images.IsValidIffPositive | lab2/src/Image.h:39 | for a buffer of `w * h * c` samples, `isValid` (a non-empty buffer, positive width and height) holds exactly when `w`, `h` and `c` are all positive, that is, when (0, 0) is a valid coordinate and there is a channel |
| Images.ValidCoordAddressesSamples | lab2/src/Image.cpp:129-131 | a coordinate that passes `isValidCoord` in an image with channels makes the image valid, and each of its channels reads the sample stored at index `(y * w + x) * c + ch` |
| Images.Image.GetPixel | lab2/src/Image.cpp:78-83 | returns 0 when `x`, `y` or the channel is outside the image, and otherwise the sample at index `(y * w + x) * c + ch` |
| Images.Image.SetPixel | lab2/src/Image.cpp:85-90 | dimensions are kept; an out-of-range write leaves the buffer unchanged; an in-range write changes exactly index `(y * w + x) * c + ch` |
| Pixels.PutAt | lab2/src/Image.cpp:85-90 | after a write, reading the written sample gives the new value and every other sample reads as before |
| Pixels.Raster.Put | lab2/src/Image.cpp:85-90 | a write keeps the buffer's shape and its layout invariant |
| Images.Image.Clone | lab2/src/Image.cpp:92-96 | a fresh image with the same width, height, channels and samples, so writes to it cannot reach the source |
| Images.Image.CopyFrom | lab2/src/Image.cpp:98-103 | all four fields become those of the other image |
| Images.Image.ToGrayscale | lab2/src/Image.cpp:105-127 | returns a fresh image equal to `Grayscale` of the input |
| Images.Grayscale | lab2/src/Image.cpp:105-127 | a one-channel image of the same width and height; equal to the input when it already has one channel |
| Images.GrayscaleAt | lab2/src/Image.cpp:112-122 | with several channels, the gray pixel is the luminance of channels 0, 1 and 2, where a missing channel stands in as channel 0 |
| Images.Render | lab2/src/Image.cpp:110-124 | the allocate-then-`setPixel` x/y/channel loop yields exactly the generated buffer |
| Images.BlankAt | lab2/src/Image.cpp:15-17 | a new buffer has `w * h * c` samples and reads 0 everywhere |
| Pixels.Blank | lab2/src/Image.cpp:15-17 | the zero-filled buffer has the requested dimensions and the layout invariant |
| Pixels.IdxBound | lab2/src/Image.cpp:82 | the index of an in-range sample lies inside the buffer |
| Pixels.IdxRecover | lab2/src/Image.cpp:82 | the coordinates and the channel are recovered from the index, so distinct samples have distinct indices |
| Pixels.IdxCover | lab2/src/Image.cpp:82 | every buffer position is the index of some in-range sample |
| Images.WriteChannel | lab2/src/ImageProcessor.cpp:55-60 | the y/x loop that rewrites one channel in place changes that channel to the given plane and no other sample |
| Images.WithChannelAt | lab2/src/ImageProcessor.cpp:55-60 | the rewritten channel reads the plane; every other channel reads the original |
| Images.WithChannelSame | lab2/src/ImageProcessor.cpp:55-60 | rewriting a channel with the values it already holds changes nothing |
| Images.ChannelsUpToAt | lab2/src/ImageProcessor.cpp:72-106 | after the channel loop, channels below `n` hold their planes and the others are unchanged |
| Images.ChannelsUpToStep | lab2/src/ImageProcessor.cpp:72-106 | one more round of the channel loop writes exactly the next channel |
| Pixels.Clamp | lab2/src/PointOperations.cpp:59 | `glm::clamp` gives a value within `[lo, hi]` when `lo <= hi`, and leaves in-range values unchanged |
| Pixels.ClampCoord | lab2/src/ImageProcessor.cpp:366-367 | a replicate-border coordinate lies inside a non-empty image, and an in-range coordinate is kept |
| Pixels.ClampCoordIsMaxMin | lab2/src/ImageProcessor.cpp:366-367 | the clamped coordinate is exactly `std::max(0, std::min(n - 1, v))` |
| Pixels.RoundDiv | lab2/src/ImageProcessor.cpp:49 | `std::round(p / q)` is the integer nearest to `p / q`, with halves rounded away from zero |
| Distribution.Tally | lab2/src/ImageProcessor.cpp:9-20 | the `histogram[value]++` loop over y and x yields the 256-bin histogram of the scanned values |
| Distribution.HistSnoc | lab2/src/ImageProcessor.cpp:15 | one more sample increments exactly its own bin |
| Distribution.CountMultiplicity | lab2/src/ImageProcessor.cpp:15 | a bin counts the occurrences of its value |
| Distribution.HistSum | lab2/src/ImageProcessor.cpp:9-20 | the bins add up to the number of samples |
| Distribution.ScanHistTotal | lab2/src/ImageProcessor.cpp:9-20 | every histogram of a `w x h` scan sums to `w * h` |
| Distribution.ColumnHas | lab2/src/ImageProcessor.cpp:12-14 | every pixel's sample of the channel is among the scanned values |
| ImageProcessor.CalculateHistogram | lab2/src/ImageProcessor.cpp:9-20 | `calculateHistogram` returns the histogram of the channel read by `getPixel` |
| ImageProcessor.CalculateHistogramTotal | lab2/src/ImageProcessor.cpp:9-20 | the histogram has one count per pixel: its bins sum to `width * height` |
| Distribution.CumulativeSum | lab2/src/ImageProcessor.cpp:29-33 | the loop `cdf[0] = hist[0]; cdf[i] = cdf[i-1] + hist[i]` computes the prefix sums |
| Distribution.CdfLast | lab2/src/ImageProcessor.cpp:29-33 | `cdf[255]` is the number of samples |
| Distribution.CdfMonotone | lab2/src/ImageProcessor.cpp:29-33 | for non-negative counts the CDF never decreases |
| Distribution.CdfCounts | lab2/src/ImageProcessor.cpp:29-33 | `cdf[i]` is the number of samples at or below `i` |
| Distribution.CdfAtHighest | lab2/src/ImageProcessor.cpp:29-33 | at and above the largest present intensity, the CDF equals the number of samples |
| Distribution.FindCdfMin | lab2/src/ImageProcessor.cpp:36-42 | the early-`break` scan returns the first positive CDF entry, or `cdf[0]` when there is none |
| Distribution.CdfMinAtLowest | lab2/src/ImageProcessor.cpp:36-42 | in a non-empty image, the CDF is zero below the smallest present intensity and `cdfMin` is the CDF at that intensity |
| Distribution.BuildTable | lab2/src/ImageProcessor.cpp:45-51 | the table loop fills all 256 entries, with entry `i` computed from `cdf[i]`, `cdfMin` and the total |
| Distribution.EqualizationTable | lab2/src/ImageProcessor.cpp:26-51 | histogram, CDF, `cdfMin` and table together give `EqualizeTable` of the histogram |
| Distribution.EntryAgrees | lab2/src/ImageProcessor.cpp:48-50 | wherever the float expression is defined, the model's entry equals the rounded `(cdf[i] - cdfMin) / (total - cdfMin) * 255` |
| Distribution.EqualizeDivisorPositive | lab2/src/ImageProcessor.cpp:46-49 | with two or more distinct intensities present, `total - cdfMin` is positive |
| Distribution.EntryMonotone | lab2/src/ImageProcessor.cpp:48-50 | a larger cumulative count never gives a smaller entry |
| Distribution.EqualizeMonotone | lab2/src/ImageProcessor.cpp:45-51 | over the intensities present, the equalisation table is non-decreasing |
| Distribution.EntryEnds | lab2/src/ImageProcessor.cpp:48-50 | a cumulative count equal to `cdfMin` maps to 0, and one equal to the total maps to 255 |
| Distribution.EqualizeLowest | lab2/src/ImageProcessor.cpp:45-51 | with two or more intensities, the smallest present intensity maps to 0 |
| Distribution.EqualizeHighest | lab2/src/ImageProcessor.cpp:45-51 | with two or more intensities, the largest present intensity maps to 255 |
| Distribution.SingleIntensityDividesByZero | lab2/src/ImageProcessor.cpp:49 | on an all-128 image, the entry as written divides by zero |
| Distribution.EqualizeSingleIntensity | lab2/src/ImageProcessor.cpp:45-51 | the corrected table maps a one-intensity image to itself |
| Distribution.RoundDivBelow | lab2/src/ImageProcessor.cpp:49 | the rounded quotient of `p <= k q` by `q` lies in `[0, k]` |
| Distribution.RoundDivMonotone | lab2/src/ImageProcessor.cpp:49 | the rounding is monotone in the numerator |
| Distribution.RoundDivExact | lab2/src/ImageProcessor.cpp:49 | an exact multiple rounds to its quotient |
| ImageProcessor.EqualizeHistogram | lab2/src/ImageProcessor.cpp:22-63 | returns the gray image (a clone when it is already gray) with channel 0 through the table of its own histogram |
| ImageProcessor.EqualizedGrayAt | lab2/src/ImageProcessor.cpp:22-63 | each pixel is the table entry of its gray value; the order of intensities is kept; the darkest present intensity goes to 0 and the brightest to 255 when there are two or more; a one-intensity image is kept |
| ImageProcessor.EqualizeHistogramRGB | lab2/src/ImageProcessor.cpp:65-109 | below three channels, the gray equalisation; otherwise channels 0 to 2 of a clone go through the tables of the input's own histograms |
| ImageProcessor.EqualizedRGBAt | lab2/src/ImageProcessor.cpp:72-106 | with three or more channels, channels 0 to 2 are remapped by their own tables and any further channel is unchanged |
| ImageProcessor.ReadUnwritten | lab2/src/ImageProcessor.cpp:100-104 | a channel not yet written reads as the input, so each table applies to the input's samples |
| ImageProcessor.WithChannelCongruent | lab2/src/ImageProcessor.cpp:100-104 | rewriting a channel depends only on the values of the plane written |
| ImageProcessor.ScanExtremes | lab2/src/ImageProcessor.cpp:208-216 | the running `std::min` from 255 and `std::max` from 0 over the y/x scan are the minimum and maximum of the channel |
| ImageProcessor.RowExtremes | lab2/src/ImageProcessor.cpp:211-215 | the x loop extends the running extremes by the samples of one row |
| ImageProcessor.StretchEnds | lab2/src/ImageProcessor.cpp:221-223 | the truncated stretch sends the minimum to 0 and the maximum to 255 |
| ImageProcessor.AutoLinearContrast | lab2/src/ImageProcessor.cpp:203-230 | the result is the clone with every channel whose maximum exceeds its minimum stretched from that channel's own extremes |
| ImageProcessor.AutoContrastedAt | lab2/src/ImageProcessor.cpp:207-227 | in a channel with distinct extremes, the minimum goes to 0 and the maximum to 255; a flat channel is unchanged |
| Windows.MinOfBounds | lab2/src/ImageProcessor.cpp:362-370 | the running minimum from 255 is at most every sample, and it is one of the samples when there are any |
| Windows.MaxOfBounds | lab2/src/ImageProcessor.cpp:389-397 | the running maximum from 0 is at least every sample, and it is one of the samples when there are any |
| Windows.MinOfStep | lab2/src/ImageProcessor.cpp:368 | one more sample updates the running minimum as `std::min` does |
| Windows.MaxOfStep | lab2/src/ImageProcessor.cpp:395 | one more sample updates the running maximum as `std::max` does |
| Windows.ExtremesPrefix | lab2/src/ImageProcessor.cpp:368 | extending a prefix by one sample updates both running extremes |
| Windows.ExtremesConcat | lab2/src/ImageProcessor.cpp:364-370 | the running extremes of two pieces combine by `min` and `max` |
| Windows.InsertSorted | lab2/src/ImageProcessor.cpp:322 | insertion into a sorted sequence keeps it sorted |
| Windows.Insert | lab2/src/ImageProcessor.cpp:322 | insertion adds exactly the new sample to the multiset and one to the length |
| Windows.SortSeq | lab2/src/ImageProcessor.cpp:322 | the sorted order of a sequence: a permutation of it |
| Windows.SortSeqSorted | lab2/src/ImageProcessor.cpp:322 | the sorted order is sorted |
| Windows.SortedUnique | lab2/src/ImageProcessor.cpp:322 | two sorted permutations of the same samples are equal, so any correct sort leaves the same vector |
| Windows.SelectStep | lab2/src/ImageProcessor.cpp:322 | swapping a smallest remaining sample into place extends the sorted prefix and keeps the multiset |
| Windows.SortInPlace | lab2/src/ImageProcessor.cpp:322 | the array ends sorted and is a permutation of its old contents |
| Windows.MinIndex | lab2/src/ImageProcessor.cpp:322 | returns the position of a smallest element of the suffix |
| Windows.GetMedian | lab2/src/ImageProcessor.cpp:321-324 | `getMedian` leaves the vector sorted and returns the element at index `size / 2` of the sorted order |
| Windows.MedianBounds | lab2/src/ImageProcessor.cpp:321-324 | the median is one of the samples and lies between their minimum and maximum |
| Windows.Window | lab2/src/ImageProcessor.cpp:337-343 | the clamped neighbourhood has `(2 off + 1)^2` samples |
| Windows.WindowAt | lab2/src/ImageProcessor.cpp:337-343 | entry `ky * side + kx` of the window is the sample at the clamped `(x + kx - off, y + ky - off)` |
| Windows.WindowStep | lab2/src/ImageProcessor.cpp:337-343 | the ky/kx loops read the window in order, one sample at a time |
| Windows.WindowRow | lab2/src/ImageProcessor.cpp:365-369 | one row of the window has `2 off + 1` samples |
| Windows.WindowRows | lab2/src/ImageProcessor.cpp:364-370 | one pass of the ky loop appends that row's samples to the window read so far |
| Windows.RowsStep | lab2/src/ImageProcessor.cpp:364-370 | one more pass of the ky loop appends row `ky` |
| Windows.RowsMinStep | lab2/src/ImageProcessor.cpp:364-370 | after row `ky`, the running minimum is the minimum of the earlier rows' minimum and that row's |
| Windows.RowsMaxStep | lab2/src/ImageProcessor.cpp:391-397 | after row `ky`, the running maximum is the maximum of the earlier rows' maximum and that row's |
| Windows.RowsPrefix | lab2/src/ImageProcessor.cpp:364-370 | the first `i` rows are the window's first `i (2 off + 1)` samples |
| Windows.WindowIsRows | lab2/src/ImageProcessor.cpp:364-370 | all rows together make up the window |
| Windows.WindowMinIs | lab2/src/ImageProcessor.cpp:364-370 | the running minimum after all rows is the window's minimum |
| Windows.WindowMaxIs | lab2/src/ImageProcessor.cpp:391-397 | the running maximum after all rows is the window's maximum |
| Windows.WindowCentre | lab2/src/ImageProcessor.cpp:337-343 | the pixel itself is in its window |
| Windows.WindowInImage | lab2/src/ImageProcessor.cpp:339-341 | every window sample is read at an in-image coordinate pair |
| ImageProcessor.GatherWindow | lab2/src/ImageProcessor.cpp:335-343 | the push loop of `medianFilter` collects exactly the clamped window |
| ImageProcessor.WindowMin | lab2/src/ImageProcessor.cpp:362-370 | the `minVal` loop of `minFilter` returns the window's minimum |
| ImageProcessor.WindowRowMin | lab2/src/ImageProcessor.cpp:365-369 | the kx loop lowers the running value to the minimum of it and one window row |
| ImageProcessor.WindowMax | lab2/src/ImageProcessor.cpp:389-397 | the `maxVal` loop of `maxFilter` returns the window's maximum |
| ImageProcessor.WindowRowMax | lab2/src/ImageProcessor.cpp:392-396 | the kx loop raises the running value to the maximum of it and one window row |
| ImageProcessor.RankAt | lab2/src/ImageProcessor.cpp:334-346 | the per-sample body of a rank filter returns the median, minimum or maximum of the window |
| ImageProcessor.RankRow | lab2/src/ImageProcessor.cpp:333-347 | one row of the x/channel loops writes that row's rank values into the clone and nothing after it |
| ImageProcessor.RankFilter | lab2/src/ImageProcessor.cpp:326-351 | bumps an even size to odd, and sets every sample of a clone to the rank value of its clamped window |
| ImageProcessor.MedianFilter | lab2/src/ImageProcessor.cpp:326-351 | `medianFilter` returns the median-filtered image |
| ImageProcessor.MinFilter | lab2/src/ImageProcessor.cpp:353-378 | `minFilter` returns the minimum-filtered image |
| ImageProcessor.MaxFilter | lab2/src/ImageProcessor.cpp:380-405 | `maxFilter` returns the maximum-filtered image |
| ImageProcessor.RankFilterOrder | lab2/src/ImageProcessor.cpp:326-405 | pixel-wise, the minimum filter is at most the input, the maximum filter at least it, and the median lies between the two |
| ImageProcessor.TermAt | lab2/src/ImageProcessor.cpp:421-423 | term `ky * size + kx` of the sum is the clamped neighbour times `kernel[ky][kx]` |
| ImageProcessor.ConvolveAt | lab2/src/ImageProcessor.cpp:417-427 | the ky/kx loop returns the kernel sum over the clamped neighbourhood, clamped to [0, 255] |
| ImageProcessor.ApplyConvolution | lab2/src/ImageProcessor.cpp:409-434 | keeps the dimensions and sets every sample of a clone to its clamped convolution value |
| ImageProcessor.SharpenFilter | lab2/src/ImageProcessor.cpp:282-289 | convolution with the kernel `0 -1 0 / -1 5 -1 / 0 -1 0` |
| ImageProcessor.LaplacianFilter | lab2/src/ImageProcessor.cpp:291-298 | convolution with the kernel `-1 -1 -1 / -1 8 -1 / -1 -1 -1` |
| ImageProcessor.ConvSumFlat | lab2/src/ImageProcessor.cpp:419-425 | on a flat channel, the sum is the channel's value times the kernel's weight |
| ImageProcessor.TermFlat | lab2/src/ImageProcessor.cpp:423 | on a flat channel, every term is the value times its kernel cell |
| ImageProcessor.SharpenWeight | lab2/src/ImageProcessor.cpp:283-287 | the sharpen kernel's cells add up to 1 |
| ImageProcessor.LaplacianWeight | lab2/src/ImageProcessor.cpp:292-296 | the Laplacian kernel's cells add up to 0 |
| ImageProcessor.SharpenFlat | lab2/src/ImageProcessor.cpp:282-289 | sharpening leaves a flat image unchanged |
| ImageProcessor.LaplacianFlat | lab2/src/ImageProcessor.cpp:291-298 | the Laplacian turns a flat image all zero |
| Otsu.OtsuSearch | lab2/src/ImageProcessorPart2.cpp:15-47 | the weighted sum and the candidate loop, with its `continue` and `break`, return the Otsu threshold |
| Otsu.OtsuPick | lab2/src/ImageProcessorPart2.cpp:27-47 | the kept candidate lies in [0, 255] |
| Otsu.OtsuRunState | lab2/src/ImageProcessorPart2.cpp:27-45 | after `t` iterations, the accumulators hold the background weight, the class sum and the best score so far |
| Otsu.StepSkip | lab2/src/ImageProcessorPart2.cpp:28-29 | `continue`: an empty background scores nothing |
| Otsu.StepStop | lab2/src/ImageProcessorPart2.cpp:31-32 | `break`: once the background holds every pixel, nothing more is scored |
| Otsu.StepScore | lab2/src/ImageProcessorPart2.cpp:34-44 | a scored candidate replaces the best only with a strictly larger variance |
| Otsu.StepStopped | lab2/src/ImageProcessorPart2.cpp:32 | a stopped loop stays stopped |
| Otsu.StepRunning | lab2/src/ImageProcessorPart2.cpp:28 | a running loop sees the weight of bins `0..t` |
| Otsu.OtsuRunStopped | lab2/src/ImageProcessorPart2.cpp:32 | once stopped, the accumulators no longer change |
| Otsu.OtsuChoice | lab2/src/ImageProcessorPart2.cpp:41-44 | the result is the lowest candidate of maximal positive variance, or 0 when no candidate scores above 0 |
| Otsu.OtsuSingleBin | lab2/src/ImageProcessorPart2.cpp:27-47 | with at most one occupied bin the threshold is 0 |
| Otsu.CumOneBin | lab2/src/ImageProcessorPart2.cpp:28-32 | with at most one occupied bin every background weight is 0 or the total |
| Otsu.OtsuClassesNonEmpty | lab2/src/ImageProcessorPart2.cpp:28-33 | a non-zero threshold has `wB > 0` and `wF > 0` |
| Otsu.OtsuTwoBins | lab2/src/ImageProcessorPart2.cpp:27-45 | on two occupied bins `a < b`, the threshold is `a` when its score is positive and 0 otherwise |
| Otsu.TwoBinScorePositive | lab2/src/ImageProcessorPart2.cpp:36-39 | with the exact weight product, two separated bins score positive |
| Otsu.Wrap32 | lab2/src/ThresholdProcessing.cpp:53 | the 32-bit product lies in the `int` range and equals the exact product when that fits |
| Otsu.WrappedScoreNonPositive | lab2/src/ThresholdProcessing.cpp:53 | when the 32-bit product wraps negative, the variance is never positive |
| Otsu.OverflowHistogram | lab2/src/ThresholdProcessing.cpp:53 | 100000 pixels split evenly between intensities 10 and 200 |
| Otsu.OtsuProductOverflows | lab2/src/ThresholdProcessing.cpp:53 | on that histogram, the wrapped product yields threshold 0 and the exact product yields 10 |
| ImageProcessorPart2.CalculateOtsuThreshold | lab2/src/ImageProcessorPart2.cpp:9-48 | the histogram total followed by the candidate loop, with the float weight product |
| ImageProcessorPart2.ThresholdFixed | lab2/src/ImageProcessorPart2.cpp:58-70 | gray, clone, and channel 0 set to 255 where the gray value reaches the threshold and to 0 elsewhere |
| ImageProcessorPart2.FixedThresholdedAt | lab2/src/ImageProcessorPart2.cpp:58-70 | a one-channel image of the same size whose pixel is 255 iff gray is at least `t`, and 0 iff gray is below `t` |
| ImageProcessorPart2.FixedThresholdExample | lab2/src/ImageProcessorPart2.cpp:58-70 | the row 0, 85, 170, 255 at 128 becomes 0, 0, 255, 255 |
| ImageProcessorPart2.ThresholdOtsu | lab2/src/ImageProcessorPart2.cpp:50-56 | the fixed threshold at the Otsu level of the gray histogram |
| ImageProcessorPart2.OtsuSingleIntensity | lab2/src/ImageProcessorPart2.cpp:50-56 | an image of one gray value is thresholded at 0, so it becomes all 255 |
| ImageProcessorPart2.ScanSum | lab2/src/ImageProcessorPart2.cpp:75-80 | the `long long` sum loop returns the sum of all gray samples |
| ImageProcessorPart2.RowSum | lab2/src/ImageProcessorPart2.cpp:77-79 | the x loop adds one row's samples |
| ImageProcessorPart2.SumBetween | lab2/src/ImageProcessorPart2.cpp:75-82 | samples in `[lo, hi]` have a sum between `lo n` and `hi n` |
| ImageProcessorPart2.MeanBounds | lab2/src/ImageProcessorPart2.cpp:82 | `floor(sum / (w h))` lies between the minimum and the maximum sample, so in [0, 255] |
| ImageProcessorPart2.ThresholdMean | lab2/src/ImageProcessorPart2.cpp:72-84 | the fixed threshold at the floor of the mean gray value |
| ImageProcessorPart2.WindowSum | lab2/src/ImageProcessorPart2.cpp:93-100 | the wy/wx loop returns the sum and the number of the clamped window's samples |
| ImageProcessorPart2.CalculateLocalMean | lab2/src/ImageProcessorPart2.cpp:88-103 | returns the window sum divided by the sample count |
| ImageProcessorPart2.WindowMeanBounds | lab2/src/ImageProcessorPart2.cpp:88-103 | the window has `(2 (size / 2) + 1)^2` samples, which is `size^2` for an odd size, and the mean lies between the window's minimum and maximum |
| ImageProcessorPart2.ISqrt | lab2/src/ImageProcessorPart2.cpp:212 | the integer square root `r` satisfies `r^2 <= n < (r + 1)^2` |
| ImageProcessorPart2.RootFrom | lab2/src/ImageProcessorPart2.cpp:212 | the upward search ends at the integer square root |
| ImageProcessorPart2.GradStep | lab2/src/ImageProcessorPart2.cpp:204-209 | visiting cell (kx, ky) adds `pixel * kernel[ky + 1][kx + 1]` to the sum |
| ImageProcessorPart2.GradientAt | lab2/src/ImageProcessorPart2.cpp:202-210 | the 3 x 3 loop returns both gradient sums at (x, y) |
| ImageProcessorPart2.EdgesStart | lab2/src/ImageProcessorPart2.cpp:186 | the new one-channel image starts all zero |
| ImageProcessorPart2.EdgesWrite | lab2/src/ImageProcessorPart2.cpp:214 | writing one inner pixel extends the finished part in scan order |
| ImageProcessorPart2.EdgesRow | lab2/src/ImageProcessorPart2.cpp:200-201 | finishing a row moves on to the next |
| ImageProcessorPart2.EdgesDone | lab2/src/ImageProcessorPart2.cpp:200-216 | after the loops, the buffer is the edge map |
| ImageProcessorPart2.EdgeDetection | lab2/src/ImageProcessorPart2.cpp:184-219 | gray, a zero one-channel image, and every inner pixel set to the capped gradient magnitude |
| ImageProcessorPart2.SobelEdgeDetection | lab2/src/ImageProcessorPart2.cpp:184-219 | the edge map with the Sobel kernels |
| ImageProcessorPart2.PrewittEdgeDetection | lab2/src/ImageProcessorPart2.cpp:221-256 | the edge map with the Prewitt kernels |
| ImageProcessorPart2.EdgeMapAt | lab2/src/ImageProcessorPart2.cpp:184-219 | a one-channel image of the input's size; the first and last rows and columns are 0; an inner pixel is 255 from `255^2` on and the integer root of `gx^2 + gy^2` below that |
| ImageProcessorPart2.MagnitudeBounds | lab2/src/ImageProcessorPart2.cpp:212-214 | the capped root is 255 from `255^2` on and the integer square root below |
| ImageProcessorPart2.GradSumFlat | lab2/src/ImageProcessorPart2.cpp:204-209 | on a flat image, a gradient sum is the value times the kernel's weight |
| ImageProcessorPart2.EdgeKernelWeights | lab2/src/ImageProcessorPart2.cpp:188-198 | each Sobel and Prewitt kernel adds up to 0 |
| ImageProcessorPart2.EdgeMapFlat | lab2/src/ImageProcessorPart2.cpp:184-256 | in an image of one gray value, both operators give all zeros |
| ImageProcessorPart2.Element | lab2/src/ImageProcessorPart2.cpp:311-347 | the element is a square whose side is the size made odd |
| ImageProcessorPart2.CreateStructuringElement | lab2/src/ImageProcessorPart2.cpp:311-347 | the zero matrix with ones set per shape is exactly `Element` |
| ImageProcessorPart2.ElementShape | lab2/src/ImageProcessorPart2.cpp:311-347 | an even size is bumped to odd; the centre cell is 1; RECT is all ones; CROSS has ones exactly on the centre row and column; ELLIPSE has a one iff `dx^2 + dy^2 <= c^2` |
| ImageProcessorPart2.ElementSymmetric | lab2/src/ImageProcessorPart2.cpp:317-344 | every shape is symmetric about both axes and the diagonal |
| ImageProcessorPart2.CellSymmetric | lab2/src/ImageProcessorPart2.cpp:317-344 | a cell keeps its value under transposition and under the reflections about both axes |
| ImageProcessorPart2.MaskedExtremes | lab2/src/ImageProcessorPart2.cpp:362-370 | the extremes of the masked neighbourhood grow row by row |
| ImageProcessorPart2.RowMinIs | lab2/src/ImageProcessorPart2.cpp:363-369 | the kx loop lowers the running value to the minimum over that row's non-zero cells |
| ImageProcessorPart2.RunMinIs | lab2/src/ImageProcessorPart2.cpp:360-370 | `minVal` after the loops is the minimum over the masked neighbourhood |
| ImageProcessorPart2.RowMaxIs | lab2/src/ImageProcessorPart2.cpp:384-390 | the kx loop raises the running value to the maximum over that row's non-zero cells |
| ImageProcessorPart2.RunMaxIs | lab2/src/ImageProcessorPart2.cpp:381-391 | `maxVal` after the loops is the maximum over the masked neighbourhood |
| ImageProcessorPart2.MaskedMin | lab2/src/ImageProcessorPart2.cpp:360-370 | the ERODE loop at one pixel returns the masked minimum |
| ImageProcessorPart2.MaskedMax | lab2/src/ImageProcessorPart2.cpp:381-391 | the DILATE loop at one pixel returns the masked maximum |
| ImageProcessorPart2.Pass | lab2/src/ImageProcessorPart2.cpp:354-396 | one pass keeps the gray image's shape |
| ImageProcessorPart2.MorphPass | lab2/src/ImageProcessorPart2.cpp:357-396 | the ERODE or DILATE case returns the clone with channel 0 eroded or dilated |
| ImageProcessorPart2.MorphRow | lab2/src/ImageProcessorPart2.cpp:359-373 | the x loop of one row writes that row's pass values and leaves everything after it as in the input |
| ImageProcessorPart2.ElementIndexable | lab2/src/ImageProcessorPart2.cpp:351-364 | the loops over `kernelSize` never index beyond the bumped element |
| ImageProcessorPart2.Morphed | lab2/src/ImageProcessorPart2.cpp:349-415 | `morphology` returns a one-channel image of the input's width and height |
| ImageProcessorPart2.Morphology | lab2/src/ImageProcessorPart2.cpp:349-415 | gray, element, and one pass, or for OPEN and CLOSE two recursive calls |
| ImageProcessorPart2.MorphedCompositions | lab2/src/ImageProcessorPart2.cpp:399-411 | OPEN is DILATE of ERODE and CLOSE is ERODE of DILATE |
| ImageProcessorPart2.MorphedPasses | lab2/src/ImageProcessorPart2.cpp:356-411 | each operation as passes over the gray image |
| ImageProcessorPart2.MaskedRowHas | lab2/src/ImageProcessorPart2.cpp:363-368 | the sample of a non-zero cell of a row is among the masked samples |
| ImageProcessorPart2.MaskedHas | lab2/src/ImageProcessorPart2.cpp:362-369 | the sample of a non-zero cell is among the masked neighbourhood |
| ImageProcessorPart2.CentreMasked | lab2/src/ImageProcessorPart2.cpp:362-369 | the pixel itself is among its masked neighbours |
| ImageProcessorPart2.PassOrder | lab2/src/ImageProcessorPart2.cpp:357-396 | erosion never raises a pixel and dilation never lowers one |
| ImageProcessorPart2.MaskedBelow | lab2/src/ImageProcessorPart2.cpp:362-369 | an image below another pixel-wise has its masked samples below the other's |
| ImageProcessorPart2.MinOfBelow | lab2/src/ImageProcessorPart2.cpp:368 | samples below others, position by position, have smaller extremes |
| ImageProcessorPart2.PassMonotone | lab2/src/ImageProcessorPart2.cpp:357-396 | erosion and dilation keep the pixel-wise order of images |
| ImageProcessorPart2.PassSandwich | lab2/src/ImageProcessorPart2.cpp:357-411 | the erode, dilate, open and close passes over one gray image are ordered around it |
| ImageProcessorPart2.MorphologyOrder | lab2/src/ImageProcessorPart2.cpp:349-415 | pixel-wise, ERODE is at most the gray image and DILATE at least it, and OPEN and CLOSE lie between ERODE and DILATE |
| PointOperations.Mapped | lab2/src/PointOperations.cpp:170-184 | a per-sample map keeps the image's shape |
| PointOperations.MappedAt | lab2/src/PointOperations.cpp:176-177 | a mapped sample depends only on the input sample at the same place |
| PointOperations.MapImage | lab2/src/PointOperations.cpp:170-184 | the clone-and-overwrite x/y/channel loop sets every sample to `f` of the input's |
| PointOperations.Invert | lab2/src/PointOperations.cpp:170-184 | every sample `v` becomes `255 - v` |
| PointOperations.BitwiseNot | lab2/src/PointOperations.cpp:288-290 | `bitwiseNOT` is `invert` |
| PointOperations.InvertInvolution | lab2/src/PointOperations.cpp:170-184 | inverting twice gives back the image |
| PointOperations.ClipBrightness | lab2/src/PointOperations.cpp:186-200 | every sample goes through `glm::clamp(v, minVal, maxVal)` |
| PointOperations.ClippedAt | lab2/src/PointOperations.cpp:186-200 | with `minVal <= maxVal` every output lies in `[minVal, maxVal]` and in-range samples are kept; with crossed bounds the output is `maxVal` |
| PointOperations.LevelCount | lab2/src/PointOperations.cpp:205-206 | the level count is forced into [2, 256] and kept when it is already there |
| PointOperations.QuantLevel | lab2/src/PointOperations.cpp:214 | `round(val / step)` is a level in `[0, n - 1]` |
| PointOperations.Quantize | lab2/src/PointOperations.cpp:202-223 | every sample goes through the quantizer of the clamped level count |
| PointOperations.QuantizerProperties | lab2/src/PointOperations.cpp:202-223 | 0 stays 0 and 255 stays 255 at every level count, and the quantizer is monotone |
| PointOperations.TwoLevels | lab2/src/PointOperations.cpp:202-223 | with two levels a sample becomes 0 below 128 and 255 otherwise |
| PointOperations.QuantizeExample | lab2/src/PointOperations.cpp:202-223 | the row 0, 100, 200, 255 at two levels becomes 0, 0, 255, 255 |
| PointOperations.BuildTable | lab2/src/PointOperations.cpp:100-103 | `lut[i] = entry(i)` for every `i` from 0 to 255 |
| PointOperations.TableApplied | lab2/src/PointOperations.cpp:105-112 | mapping through a table that holds `entry` is mapping by `entry` |
| PointOperations.ApplyTable | lab2/src/PointOperations.cpp:98-115 | builds the table once and maps every sample of every channel through it |
| PointOperations.GammaCorrection | lab2/src/PointOperations.cpp:97-116 | every sample goes through the gamma curve's table |
| PointOperations.LogarithmicTransform | lab2/src/PointOperations.cpp:123-145 | every sample goes through the log curve's table |
| PointOperations.PowerTransform | lab2/src/PointOperations.cpp:147-168 | every sample goes through the power curve's table |
| PointOperations.Rewritten | lab2/src/PointOperations.cpp:230-241 | rewriting channels keeps the image's shape |
| PointOperations.RewrittenAt | lab2/src/PointOperations.cpp:230-241 | channels below `m` read the new values, and the others read the original |
| PointOperations.RewriteTail | lab2/src/PointOperations.cpp:234 | in each pixel, the channels from `m` on keep their samples |
| PointOperations.RewriteChannels | lab2/src/PointOperations.cpp:230-241 | the clone loop over the first `m` channels yields exactly `Rewritten` |
| PointOperations.Combined | lab2/src/PointOperations.cpp:225-286 | a bitwise operation keeps `img1`'s shape |
| PointOperations.CombinedAt | lab2/src/PointOperations.cpp:225-241 | `img1`'s sample when the sizes differ or the channel is beyond `img2`'s, and otherwise `op` of the two samples |
| PointOperations.Combine | lab2/src/PointOperations.cpp:225-244 | the shared body of the three bitwise operations |
| PointOperations.BitwiseAnd | lab2/src/PointOperations.cpp:225-244 | `bitwiseAND` is the channel-wise `&`, with the size-mismatch fallback |
| PointOperations.BitwiseOr | lab2/src/PointOperations.cpp:246-265 | `bitwiseOR` is the channel-wise `\|`, with the size-mismatch fallback |
| PointOperations.BitwiseXor | lab2/src/PointOperations.cpp:267-286 | `bitwiseXOR` is the channel-wise `^`, with the size-mismatch fallback |
| PointOperations.BitsSelf | lab2/src/PointOperations.cpp:237 | on bytes, `v & v == v`, `v \| v == v` and `v ^ v == 0` |
| PointOperations.BitsCommute | lab2/src/PointOperations.cpp:237 | the three byte operations commute |
| PointOperations.CombinedSelf | lab2/src/PointOperations.cpp:225-286 | an image AND or OR itself is itself, and XOR itself is all zero |
| PointOperations.CombinedCommutes | lab2/src/PointOperations.cpp:225-286 | for images of the same shape, the order of the operands does not matter |
| PointOperations.LinearContrastManual | lab2/src/PointOperations.cpp:35-66 | an unchanged clone when `minIn >= maxIn`, and otherwise every sample stretched |
| PointOperations.StretcherProperties | lab2/src/PointOperations.cpp:50-59 | `v <= minIn` becomes `minOut` and `v >= maxIn` becomes `maxOut`; with `minOut <= maxOut` the stretch is monotone and stays in `[minOut, maxOut]` |
| PointOperations.InnerStretch | lab2/src/PointOperations.cpp:56 | strictly between the bounds, the truncated offset stays within the output span |
| PointOperations.CollectIntensities | lab2/src/PointOperations.cpp:10-22 | one intensity per pixel in y/x order: channel 0 below three channels, the luminance otherwise |
| PointOperations.SortedIntensities | lab2/src/PointOperations.cpp:24 | `std::sort` leaves the sorted order of the collected intensities |
| PointOperations.PercentileAsWritten | lab2/src/PointOperations.cpp:26-30 | the unchecked read is defined iff the truncated index lies inside the vector |
| PointOperations.HundredthPercentileOutOfBounds | lab2/src/PointOperations.cpp:27-30 | percentile 100 indexes one past the end of the vector |
| PointOperations.PercentileAgrees | lab2/src/PointOperations.cpp:26-30 | wherever the unchecked read is inside the vector, the clamped read gives the same value |
| PointOperations.PercentileIndexOrder | lab2/src/PointOperations.cpp:26-27 | for percentiles in [0, 100] the truncated index is non-negative, grows with the percentile, and is at most the size |
| PointOperations.PercentileOrder | lab2/src/PointOperations.cpp:26-30 | on a sorted vector, percentile 0 is the first element, percentile 100 the last, and the read is monotone |
| PointOperations.LinearContrast | lab2/src/PointOperations.cpp:6-33 | collect, sort, read the two percentiles and stretch onto [0, 255] |
| PointOperations.PercentileContrastBounds | lab2/src/PointOperations.cpp:24-32 | the two bounds are intensities of the image and ordered; when they differ, the lower goes to 0 and the upper to 255 |
| Histogram.Compute | lab2/src/Histogram.cpp:5-27 | one increment per pixel: of the luminance bin for channel -1, otherwise of the channel's bin |
| Histogram.ComputeLuminance | lab2/src/Histogram.cpp:29-31 | `compute(img, -1)` |
| Histogram.ComputeTotal | lab2/src/Histogram.cpp:5-27 | 256 bins summing to `width * height` in either mode |
| Histogram.EqualizeRGB | lab2/src/Histogram.cpp:33-72 | channels below `min(3, channels)` go through tables built from the unmodified input, and the others are unchanged |
| Histogram.EqualizedChannelsAt | lab2/src/Histogram.cpp:36-67 | each of the first three channels goes through its own table, and a further channel is untouched |
| Histogram.EqualizedChannelsAgree | lab2/src/Histogram.cpp:33-72 | agrees with `equalizeHistogramRGB` for three or more channels and with `equalizeHistogram` for one |
| Histogram.LinearContrastManual | lab2/src/Histogram.cpp:160-190 | an unchanged clone when `minIn >= maxIn`, and otherwise channels below 3 stretched onto [0, 255] |
| Histogram.ManualStretchedAt | lab2/src/Histogram.cpp:160-186 | `v <= minIn` becomes 0, `v >= maxIn` becomes 255, the order of samples is kept, and a fourth channel is never touched |
| Histogram.ManualStretchedAgrees | lab2/src/Histogram.cpp:160-186 | for up to three channels, this is the point-operation stretch with output range [0, 255] |
| Histogram.BottomScan | lab2/src/Histogram.cpp:137-146 | the upward `cumSum` loop with `break` returns the first bin whose cumulative count reaches `minCount` |
| Histogram.TopScan | lab2/src/Histogram.cpp:148-155 | the downward loop with `break` returns the first bin from the top whose count from the top reaches the target |
| Histogram.AboveStep | lab2/src/Histogram.cpp:149-150 | one step down adds the bin to the count from the top |
| Histogram.LowCutFrom | lab2/src/Histogram.cpp:140-146 | the bottom scan stops at the first bin that reaches the count, and leaves 0 when none does |
| Histogram.HighCutFrom | lab2/src/Histogram.cpp:149-155 | the top scan stops at the first bin from the top that reaches the count, and leaves 255 when none does |
| Histogram.StretchBounds | lab2/src/Histogram.cpp:133-155 | the truncated counts `total * percentile / 100` and the two scans |
| Histogram.LinearContrast | lab2/src/Histogram.cpp:130-158 | the luminance histogram, the two bounds read off it, and the manual stretch |
| Histogram.LowCutAbove | lab2/src/Histogram.cpp:140-146 | fewer than `minCount` samples lie below the bottom cut |
| Histogram.CutsOrdered | lab2/src/Histogram.cpp:137-155 | with `0 <= minCount <= maxCount` the bottom cut is at most the top cut |
| Histogram.BoundsOrdered | lab2/src/Histogram.cpp:133-155 | for percentiles `0 <= min <= max`, `minVal <= maxVal` |
| Histogram.HistContrastBounds | lab2/src/Histogram.cpp:130-157 | so `linearContrast` never passes `minIn > maxIn` to the manual stretch |
| ThresholdProcessing.ComputeHistogram | lab2/src/ThresholdProcessing.cpp:6-23 | one increment of the intensity's bin per pixel |
| ThresholdProcessing.HistogramTotal | lab2/src/ThresholdProcessing.cpp:6-23 | 256 bins summing to `width * height`; below three channels, the histogram of channel 0 |
| ThresholdProcessing.CalculateOtsuThreshold | lab2/src/ThresholdProcessing.cpp:25-62 | the histogram, `totalPixels = w * h` and the candidate loop with the exact weight product |
| ThresholdProcessing.OtsuLevelProperties | lab2/src/ThresholdProcessing.cpp:25-62 | the threshold lies in [0, 255]; it is 0 when at most one intensity occurs; a non-zero one splits the pixels into two non-empty classes |
| ThresholdProcessing.OtsuThreshold | lab2/src/ThresholdProcessing.cpp:64-67 | the fixed threshold at Otsu's level |
| ThresholdProcessing.Peak | lab2/src/ThresholdProcessing.cpp:72-79 | the peak is a bin index |
| ThresholdProcessing.PeakIsFirstMaximum | lab2/src/ThresholdProcessing.cpp:72-79 | the peak is the first bin of maximal count |
| ThresholdProcessing.FindPeak | lab2/src/ThresholdProcessing.cpp:72-79 | the strict `>` loop returns the peak and its count |
| ThresholdProcessing.FindOccupied | lab2/src/ThresholdProcessing.cpp:81-93 | the two `break` loops return `first` and `last` |
| ThresholdProcessing.FirstOccupiedIsFirst | lab2/src/ThresholdProcessing.cpp:82-87 | `first` is the lowest occupied bin, or 0 when there is none |
| ThresholdProcessing.LastOccupiedIsLast | lab2/src/ThresholdProcessing.cpp:88-93 | `last` is the highest occupied bin, or 255 when there is none |
| ThresholdProcessing.Radicand | lab2/src/ThresholdProcessing.cpp:108-111 | the radicand of the denominator, as the 32-bit `int` the source computes or exactly; the exact value is never negative |
| ThresholdProcessing.Distance | lab2/src/ThresholdProcessing.cpp:104-111 | the compared distance is non-negative: the numerator's absolute value for a positive radicand, 0 for every bin when the radicand is negative (NaN), and 1 exactly for off-line bins when it is zero (infinite) |
| ThresholdProcessing.FarthestIsFirstMaximum | lab2/src/ThresholdProcessing.cpp:100-117 | in either arithmetic, the loop keeps the first candidate of largest positive distance, and the peak when every distance is 0, which covers the all-NaN case |
| ThresholdProcessing.FarthestBin | lab2/src/ThresholdProcessing.cpp:100-117 | the distance loop from `min(lineStart, lineEnd)` to `max(lineStart, lineEnd)`, with wrapped or exact arithmetic |
| ThresholdProcessing.SearchBetween | lab2/src/ThresholdProcessing.cpp:95-119 | the threshold lies between `min(lineStart, maxIdx)` and `max(lineStart, maxIdx)` at largest distance, and defaults to `maxIdx` when no distance is positive |
| ThresholdProcessing.FarthestAgrees | lab2/src/ThresholdProcessing.cpp:100-117 | while the numerators and the radicand fit in `int`, the wrapped loop keeps what the exact loop keeps |
| ThresholdProcessing.TriangleLevel | lab2/src/ThresholdProcessing.cpp:69-120 | the triangle threshold, as written or with exact arithmetic, is a byte |
| ThresholdProcessing.TriangleAgrees | lab2/src/ThresholdProcessing.cpp:69-120 | without overflow in the distance loop, the threshold as written equals the exact one |
| ThresholdProcessing.SkewedHistogram | lab2/src/ThresholdProcessing.cpp:108-111 | one pixel at 0 and one at 150, and 50000 at 100 |
| ThresholdProcessing.SkewedLine | lab2/src/ThresholdProcessing.cpp:72-98 | on that histogram the peak is 100 and the line starts at 0 |
| ThresholdProcessing.SkewedWrapped | lab2/src/ThresholdProcessing.cpp:108-117 | the wrapped radicand is negative, so the search keeps the peak |
| ThresholdProcessing.SkewedDistance | lab2/src/ThresholdProcessing.cpp:104-111 | with exact arithmetic, bin 99 is strictly farther from the line than every other bin in 0..100 |
| ThresholdProcessing.SkewedExact | lab2/src/ThresholdProcessing.cpp:100-117 | with exact arithmetic, the search returns 99 |
| ThresholdProcessing.TriangleRadicandOverflows | lab2/src/ThresholdProcessing.cpp:108-111 | on that histogram, the threshold as written is 100 and the exact threshold is 99 |
| ThresholdProcessing.CalculateTriangleThreshold | lab2/src/ThresholdProcessing.cpp:69-120 | histogram, peak, `first`/`last`, the far end of the longer tail, and the distance search, with exact arithmetic |
| ThresholdProcessing.TriangleThreshold | lab2/src/ThresholdProcessing.cpp:122-125 | the fixed threshold at the exact triangle level |
| ThresholdProcessing.FixedThreshold | lab2/src/ThresholdProcessing.cpp:127-151 | every channel of every pixel of a clone set to the binary value of the pixel's intensity |
| ThresholdProcessing.FixedThresholdedAt | lab2/src/ThresholdProcessing.cpp:127-151 | the channel count is kept, and every channel is 255 iff the intensity is at least the threshold, and 0 iff it is below |
| ThresholdProcessing.DoubleThreshold | lab2/src/ThresholdProcessing.cpp:153-184 | every channel of every pixel of a clone set to the three-level value of the pixel's intensity |
| ThresholdProcessing.DoubleThresholdedAt | lab2/src/ThresholdProcessing.cpp:153-184 | only 0, 128 and 255 occur: 255 iff the intensity is at least `high`, 128 iff it lies in `[low, high)`, and 0 otherwise |
| ThresholdProcessing.DoubleWithEqualThresholds | lab2/src/ThresholdProcessing.cpp:153-184 | with equal thresholds the double threshold is the fixed one |

## Left out

- `Image::load` and `Image::save` (lab2/src/Image.cpp:21-76) are not modelled: they wrap the stb_image codec, which is file I/O.
- `updateTexture` and the texture ID of the second `Image` variant are not modelled: they are GPU side effects.
- GUI, windowing and platform code are not modelled.
- The luminance `0.299 R + 0.587 G + 0.114 B` is floating point. It is the abstract parameter `Luma`, which returns a byte. A byte result makes the clamp of `Histogram::compute` (lab2/src/Histogram.cpp:13) implicit.
- `getPixelRGB` is read as three `getPixel` reads of channels 0, 1 and 2, with 0 for a missing channel. `Histogram.cpp`, `PointOperations.cpp` and `ThresholdProcessing.cpp` use a second `Image` variant, and that variant's header is not part of this model.
- Floating-point rounding is not modelled, because the arithmetic is taken as exact:
  - `std::round` is the rational `RoundDiv`.
  - The truncating float stretches of `autoLinearContrast` and `linearContrastManual` are integer division.
  - The percentile counts are exact rationals, truncated.
  - The Otsu means and variances are `real`s.
  - Where single-precision rounding would cross an integer, the source can differ by one.
- `Distribution.Entry`: an intensity below the smallest present one gets entry 0. The source's float expression there is negative, and converting it to `uint8_t` is undefined. The program never reads such an entry.
- The triangle distance divides by a `sqrt` that is the same for every bin. For a positive radicand, the model compares the integer numerators.
- ThresholdProcessing.Distance: the source converts the numerator to `float`, which rounds above 2^24. Two different numerators can then tie, and the strict `>` keeps the earlier bin where the model keeps the farther one. The model does not capture this rounding.
- The Sobel/Prewitt magnitude `std::sqrt` is the integer square root of the exact sum of squares, capped at 255.
- `std::sort` is implemented as the selection sort `Windows.SortInPlace`. `Windows.SortedUnique` shows that every correct sort leaves the same vector.
- `PointOperations.LinearContrast`: an empty image is returned unchanged. The source reads `intensities[0]` of an empty vector there, which is undefined.
- `ImageProcessorPart2.ThresholdMean` requires a non-empty image, because the source divides by `width * height`.
- `ImageProcessorPart2.MorphologyOrder` requires `kernelSize >= 1`. With size 0 the loops visit no cell, so ERODE writes 255 and DILATE writes 0 everywhere.
- Histogram counts, sums and indices are unbounded integers. Two 32-bit overflows that change a result are modelled under Findings:
  - the Otsu product `wB * wF`;
  - the triangle numerator and radicand.
- `Otsu.OtsuThreshold`: its wrapped variant wraps only the product `wB * wF`. The weighted sums are exact, so the model does not capture a third 32-bit overflow that changes a result.
  - Where: both Otsu implementations add `int` products to their `float` sums, at lab2/src/ImageProcessorPart2.cpp:17 and :34 (`i * histogram[i]`, `t * histogram[t]`) and at lab2/src/ThresholdProcessing.cpp:31 and :48 (`i * hist[i]`, `t * hist[t]`).
  - When: a product wraps once bin `i` holds more than `2^31 / i` pixels, which is 8,421,504 at `i = 255`.
  - Example: one pixel at 0, one at 200 and 9,000,000 at 255. The exact threshold is 0, and so is the model's wrapped one. Both sources pick 200.
- Negative window and kernel sizes are excluded: `ImageProcessor.RankFilter`, `ImageProcessorPart2.CreateStructuringElement`, `ImageProcessorPart2.Morphology` and `ImageProcessorPart2.CalculateLocalMean` take a `nat`. In the source, a negative size gives empty loops, and `getMedian` then reads `values[0]` of an empty vector.
- The following are floating-point operations and are not modelled:
  - HSV equalisation: `equalizeHistogramHSV`, `Histogram::equalizeHSV`, `RGBtoHSV`, `HSVtoRGB` and ImageProcessor's `rgbToHsv`/`hsvToRgb`.
  - `linearContrast(alpha, beta)`.
  - The smoothing kernels: `averageFilter`, `createGaussianKernel`, `gaussianFilter` and `unsharpMasking`. `applyConvolution` is modelled for the integer kernels only.
  - `adjustBrightnessContrast`.
  - The curve entries `applyGamma`, `applyLog` and the `pow` entry of `powerTransform`. They are an abstract curve parameter of the table methods.
  - `calculateLocalStdDev`, `thresholdAdaptive`, `thresholdNiblack`, `thresholdSauvola` and `cannyEdgeDetection`.
  - `calculateImageIntensity`.

## Findings

| source | as written | input that shows it | evidently intended | confidence | as-written member | corrected member |
|---|---|---|---|---|---|---|
| lab2/src/ImageProcessor.cpp:49 | the table divides by `totalPixels - cdfMin` (also lab2/src/ImageProcessor.cpp:95 and lab2/src/Histogram.cpp:58) | an image whose samples are all 128, where `totalPixels == cdfMin` | a defined table; the model keeps a one-intensity image as it is | not executed | Distribution.SingleIntensityDividesByZero | Distribution.EqualizeSingleIntensity |
| lab2/src/PointOperations.cpp:27-30 | `intensities[maxIdx]` with `maxIdx = size * maxPercentile / 100`, unchecked | `maxPercentile = 100` on any image, which gives index `size` | the index clamped to the last element, so percentile 100 reads the largest intensity | not executed | PointOperations.HundredthPercentileOutOfBounds | PointOperations.PercentileOrder |
| lab2/src/ThresholdProcessing.cpp:53 | `wB * wF` is a 32-bit `int` product | 100000 pixels split evenly between intensities 10 and 200: `50000 * 50000` wraps negative and the threshold is 0 | the exact product, which gives threshold 10 (lab2/src/ImageProcessorPart2.cpp:39 avoids this overflow by multiplying as `float`; its weighted sums still wrap, see "## Left out") | not executed | Otsu.OtsuProductOverflows | ThresholdProcessing.OtsuLevelProperties |
| lab2/src/ThresholdProcessing.cpp:108-111 | the radicand of the triangle distance is an `int` sum of `int` products, computed before the conversion to `float` | one pixel at 0 and one at 150, and 50000 at 100: `100^2 + 49999^2` wraps negative, `sqrt` gives NaN, no distance compares greater, and the threshold is the peak 100 | the distance measured exactly, which gives threshold 99 | not executed | ThresholdProcessing.TriangleRadicandOverflows | ThresholdProcessing.SearchBetween |
