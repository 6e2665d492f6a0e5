# Integer image filters of `lab1.py`, modelled in Dafny

`lab1.py` filters colour images channel by channel. It splits an H×W×3 image into red,
green and blue planes of 8-bit samples. It applies one named filter to each plane and
stacks the three results again. This project models the integer part of that pipeline:

- edge-replication padding (`np.pad(..., mode='edge')`);
- the order-statistic filters `erode`, `dilate` and `median`, which fill a zeroed output
  array pixel by pixel in nested loops;
- the point transforms `binarization` and `lighting_correction`;
- `merge_channels` and the filter dispatch of `show_all_img`.

Modules, one per file:

- `Errors` (`errors.dfy`): the error cases and a `Result` type. The errors are:
  - `CannotExtendEmptyAxis`, numpy's refusal to edge-pad an axis of length 0;
  - `ShapeMismatch`, raised by `np.stack`;
  - `MissingChannel`, indexing channel 2 of an image with fewer channels;
  - `UnknownFilter`, a name that assigns no filtered plane, so the merge at line 44 fails;
  - `NotModelled`, for the floating-point filters.
- `Planes` (`planes.dfy`): samples (0..255), planes with their dimensions, the value of a
  2-D array, and the photographic negative used to state duality.
- `Padding` (`padding.dfy`): edge padding as a clamped read. It also defines the K×K
  window a filter reads from the padded plane.
- `OrderStatistics` (`order_statistics.dfy`): minimum, maximum and numpy's median of a
  window. The median is defined through insertion sort.
- `WindowFilters` (`window_filters.dfy`):
  - the functional specification `Filtered` of the three window filters;
  - its properties;
  - the methods `Erode`, `Dilate` and `Median`, which work as the source does and are proved
    to compute `Filtered`.
- `PointTransforms` (`point_transforms.dfy`): binarization and lighting correction.
- `Channels` (`channels.dfy`): colour images, channel extraction and `merge_channels`.
- `Dispatch` (`dispatch.dfy`): filter names, one filter applied to a plane, and the method
  `FilterImage` for the dispatch chain of `show_all_img`.

Behaviour of `lab1.py` that the model keeps:

- The code checks no kernel size. Even kernel sizes are accepted: the window then starts
  `k // 2` samples above and left of the pixel and is not centred. The model does the same.
- The code accepts any threshold and any brightness. Binarization compares the sample with
  the threshold as integers. Lighting correction clips the product into [0, 255], so a
  negative brightness gives 0.
- `median` reads only `kernel.shape[0]` and uses a square window.
- `show_all_img` does not check the filter name. An unknown name reaches line 44 with
  unbound planes and fails there. The model returns `UnknownFilter` for it.

## Model

| member | source | states |
|---|---|---|
| Padding.Pad | lab1.py:121-125 | Edge padding fails exactly when an axis of length 0 would have to grow. Otherwise the result is (H+2·ph)×(W+2·pw), and every cell is the input read at the clamped row and column. |
| Padding.EdgeRead | lab1.py:125 | The sample edge padding shows at any coordinates is a sample of the plane (the one at the clamped row and column); inside the plane it is the plane's own sample. |
| Padding.EdgeReadNearest | lab1.py:125 | Inside the plane, the clamped read is the plane's own sample. Above, below, left or right of it, the read repeats the nearest border row or column. |
| Padding.PadKeepsInterior | lab1.py:122-125 | Padding succeeds iff no empty axis must grow. The padded plane holds the input at offset (ph, pw). |
| Padding.PadReplicatesEdges | lab1.py:157-160 | The ph rows above and below copy the first and last input rows. The pw columns left and right copy the first and last input columns. |
| Padding.Window | lab1.py:130 | The region of interest starting at (i, j) and read within the padded plane is non-empty for a kernel of at least 1×1. |
| Padding.WindowSize | lab1.py:130 | A window holds exactly kh·kw samples. |
| Padding.WindowMembers | lab1.py:130 | A sample is in the window iff it sits in rows i..i+kh-1 and columns j..j+kw-1 of the padded plane. |
| OrderStatistics.SeqMin | lab1.py:131 | `np.min`: the result is a sample of the window and is at most every sample. |
| OrderStatistics.SeqMax | lab1.py:147 | `np.max`: the result is a sample of the window and is at least every sample. |
| OrderStatistics.InsertSorts | lab1.py:165 | Inserting into a sorted sequence keeps it sorted. It adds exactly the inserted sample. |
| OrderStatistics.SortSorts | lab1.py:165 | Sorting a window gives a sorted permutation of it. |
| OrderStatistics.SortedUnique | lab1.py:165 | Two sorted permutations of the same samples are equal, so the sorted window is unique. |
| OrderStatistics.MedianBounds | lab1.py:165 | The median lies between the window's minimum and maximum. For an odd number of samples it is one of them. |
| OrderStatistics.MedianOfSortedRearrangement | lab1.py:165 | The median is the middle element of any sorted permutation of the window. For an even count it is the truncated mean of the two middle elements. |
| OrderStatistics.SeqMedian | lab1.py:165 | `np.median` of a window, defined on its sorted order with the truncated mean for an even count; a one-sample window's median is that sample. Its order-statistic properties are stated by MedianBounds and MedianOfSortedRearrangement. |
| OrderStatistics.ConstantWindow | lab1.py:162-165 | A window of equal samples has that sample as minimum, maximum and median. |
| WindowFilters.Filtered | lab1.py:117-133 | A window filter fails exactly when padding by (kh/2, kw/2) fails. Otherwise it returns a valid plane of the input's height and width. |
| WindowFilters.WindowIsNeighbourhood | lab1.py:128-131 | The window read for pixel (i, j) holds exactly the edge-replicated samples at rows i-kh/2..i-kh/2+kh-1 and the matching columns. |
| WindowFilters.ErodeIsNeighbourhoodMin | lab1.py:128-131 | Eroded pixel (i, j) is at most every sample of its neighbourhood and equal to one of them. |
| WindowFilters.DilateIsNeighbourhoodMax | lab1.py:144-147 | Dilated pixel (i, j) is at least every sample of its neighbourhood and equal to one of them. |
| WindowFilters.ErodeBelowInput | lab1.py:128-131 | The window contains the pixel itself, so erosion never raises a sample. |
| WindowFilters.DilateAboveInput | lab1.py:144-147 | The window contains the pixel itself, so dilation never lowers a sample. |
| WindowFilters.ErodeDilateDuality | lab1.py:144-147 | At every pixel, dilate(p) = 255 − erode(255 − p) with the same kernel shape. |
| WindowFilters.DilateIsInvertedErode | lab1.py:136-149 | On whole planes, dilating p succeeds iff eroding its negative does. The result is then the negative of that erosion. |
| WindowFilters.MedianBetweenErodeAndDilate | lab1.py:162-165 | At every pixel, erode ≤ median ≤ dilate with the same square kernel. |
| WindowFilters.MedianIsNeighbourhoodSample | lab1.py:162-165 | For an odd kernel size, the median pixel equals a sample of the pixel's edge-replicated neighbourhood. |
| WindowFilters.UniformIsFixedPoint | lab1.py:128-131 | A non-empty plane with all samples equal is returned unchanged by erosion, dilation and the median. |
| WindowFilters.ErodeShrinksAsKernelGrows | lab1.py:128-131 | A larger kernel never gives a larger eroded sample. |
| WindowFilters.DilateGrowsAsKernelGrows | lab1.py:144-147 | A larger kernel never gives a smaller dilated sample. |
| WindowFilters.FilledIsFiltered | lab1.py:128-131 | A plane of the input's shape whose pixel (i, j) reduces the window at (i, j) of the padded input is the filtered plane. |
| WindowFilters.Erode | lab1.py:117-133 | The nested loops over a zeroed output produce exactly `Filtered(img, kh, kw, MinOf)`, including the padding error. |
| WindowFilters.Dilate | lab1.py:136-149 | The nested loops produce exactly `Filtered(img, kh, kw, MaxOf)`. |
| WindowFilters.Median | lab1.py:152-167 | With a k×k window for `kernel.shape[0] == k`, the nested loops produce exactly `Filtered(img, k, k, MedianOf)`. |
| PointTransforms.Binarization | lab1.py:207-209 | The output has the input's shape and every sample is 0 or 255. It is 255 iff the input sample is ≥ the threshold. |
| PointTransforms.BinarizationIdempotent | lab1.py:207-209 | For every threshold, binarizing twice with the same threshold equals binarizing once. |
| PointTransforms.BinarizationAntitone | lab1.py:208 | A higher threshold makes no sample whiter. |
| PointTransforms.BinarizationExample | lab1.py:207-209 | At the default threshold 128, [[0,127],[128,255]] becomes [[0,0],[255,255]]. |
| PointTransforms.LightingCorrection | lab1.py:195-198 | The output has the input's shape. Every sample is v·brightness clipped into [0, 255]. |
| PointTransforms.LightingIdentity | lab1.py:195-198 | Brightness 1 is the identity. |
| PointTransforms.LightenProperties | lab1.py:196-197 | For brightness ≥ 0, a sample becomes min(255, v·b). The map is monotone, never darkens for b ≥ 1, and is 255 iff v·b ≥ 255. |
| PointTransforms.LightingComposes | lab1.py:196-197 | For non-negative factors, correcting by a and then by b equals correcting once by a·b. |
| PointTransforms.LightingExample | lab1.py:195-198 | At the default brightness 2, 200 saturates to 255 and 100 doubles to 200. |
| Channels.Channel | lab1.py:11-13 | Channel c of an image is a plane of its height and width holding component c of every pixel. |
| Channels.MergeChannels | lab1.py:7-8 | Stacking fails iff the three planes differ in shape. Otherwise the result is H×W×3 and pixel (i, j) is [r(i,j), g(i,j), b(i,j)]. |
| Channels.SplitAfterMerge | lab1.py:7-8 | The channels of a merged image are the three planes merged. |
| Channels.MergeAfterSplit | lab1.py:7-13 | Merging the three channels of a three-channel image gives the image back. |
| Dispatch.ParseFilterInvertsName | lab1.py:15-39 | Each filter is selected by its own name and by no other string. |
| Dispatch.ParseFilter | lab1.py:15-39 | A recognised name is exactly the name of the filter it selects; an unrecognised name is the name of no filter. |
| Dispatch.ApplyFilter | lab1.py:15-42 | A selected filter keeps the plane's shape. It fails only where padding fails, or for the floating-point filters left out. |
| Dispatch.ApplyFilterOutcomeDependsOnShape | lab1.py:15-42 | Whether a filter fails, and with which error, depends only on the plane's shape. |
| Dispatch.Dispatched | lab1.py:11-44 | Fewer than 3 channels gives MissingChannel, checked before the name (the channel slicing at lines 11-13 comes first). An unrecognised name then gives UnknownFilter. A result is an H×W×3 image. |
| Dispatch.DispatchedOutcome | lab1.py:11-44 | For a recognised name and a three-channel image the result is Ok iff the filter succeeds on one channel. Stacking never fails. |
| Dispatch.DispatchedFiltersEveryChannel | lab1.py:11-44 | A filtered image is H×W×3, and each of its channels is the selected filter applied, with the same kernel, to the same channel of the input. |
| Dispatch.FilterImage | lab1.py:11-44 | The if/elif chain, calling the filter once per channel and then merging, computes exactly `Dispatched(img, name, kh, kw)`. |

## Left out

- Gaussian filtering (`create_gaussian_kernel`, `gaussian`, lab1.py:170-192): floating-point `exp` and π arithmetic. The dispatch returns `NotModelled("gaussian")` for it.
- `gamma_correction` (lab1.py:201-203): a floating-point power. The dispatch returns `NotModelled("gamma_correction")`.
- PointTransforms.LightingCorrection: only integer brightness is modelled. A fractional brightness needs float multiplication and truncation.
- Plotting and histograms (lab1.py:45-114): matplotlib display only. `show_all_img` returns the image built at line 44 (lab1.py:91); the model's `FilterImage` returns the same image without the plotting at lines 45-90.
- Reading the image file and the script driver (lab1.py:212-216): file I/O and module-level execution.
- The module-level `kernel` (lab1.py:215): its shape is passed as `kh` and `kw` instead. Its values are never read by the modelled filters.
- WindowFilters.Erode, WindowFilters.Dilate, WindowFilters.Median: kernels with a zero dimension are excluded by `requires`. There numpy raises on an empty window for min and max and produces NaN for the median.
- Channels.Image: grayscale 2-D images are not modelled. On those the channel indexing at lab1.py:11 already fails. Images with more than three channels use the first three, as the slicing does.
- OrderStatistics.SeqMedian: the float mean of the two middle samples for an even window is modelled as its truncation to an integer. That is the value the uint8 store keeps for non-negative samples.
- Dispatch.ApplyFilter, Dispatch.Dispatched, Dispatch.FilterImage: a kernel of at least 1×1 is required for every filter, also for `lighting_correction` and `binarization`, which never read it. The only call (lab1.py:215-216) passes a 3×3 kernel.
