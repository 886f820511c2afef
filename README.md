# Dark-channel-prior haze removal, modelled in Dafny

This project models the image-processing core of `Haze-Removal-IOT.py`. That core
removes haze from a colour photograph with the dark channel prior:

1. `getMinChannel` takes, for every pixel, the smallest of its three 8-bit samples.
2. `getDarkChannel` replaces every cell of that map with the minimum of the
   blockSize x blockSize window around it. It works through a copy of the map
   padded with 255 on every side.
3. `getAtomsphericLight` builds one `Node` per pixel and sorts the nodes by
   dark-channel value, brightest first, with Python's stable `sorted`. It takes
   the first `int(percent * size)` nodes and returns the largest original
   sample over their three channels.
4. `getRecoverScene` chains the three steps above. It then computes the
   transmission `1 - omega * dark / light`, raised to `t0` where it falls below
   it. Per channel it inverts the scattering model, `(I - light) / t + light`,
   clamps the result to [0, 255] and converts it to `uint8`.

The model has one module per stage, plus a shared `Grids` module:

- Input images and single-channel maps are sequence values.
- The arrays that the source fills in place are Dafny arrays:
  - the padded buffer and the dark channel;
  - the transmission map;
  - the radiance buffer and the output image.
- Each imperative operation is a method with the source's loops or masked
  assignments. It is proved against a reference function:
  - for `getDarkChannel`, the minimum over the window clipped to the image;
  - for the ranking, a stable sort proved to be a permutation;
  - for the whole pipeline, a function from the input image to the output
    image.
- Python's `int()` truncates toward zero: the model's `Trunc`.
- The `uint8` conversion of a clamped value floors it: the model's `.Floor`.
- float64 arithmetic is modelled by exact `real` arithmetic.

Where the atmospheric light is 0, the source divides the dark channel by 0.
For omega > 0, a pixel whose dark value is positive gets the raw transmission
-inf. Line 54 raises that to t0, so the pixel comes out as the clamped I / t0,
an ordinary value. A pixel whose dark value is 0 gets 0 / 0 = NaN, which
survives both clamps, and its `uint8` conversion is undefined. The model
returns `None` wherever the light is 0 (`RecoverSceneOf`). The light is 0
exactly when every sample of the selected pixels is 0 (`LightZeroIffBlack`).

Two details of the code shape the results:

- The number of pixels used for the atmospheric light is
  `int(percent * size)`, truncated. It can be 0. With the default percent
  0.001, it is size / 1000 rounded down (`DefaultSelectionCount`). An image of
  fewer than 1000 pixels selects no pixel, so it has light 0 and no result
  (`SmallImageHasNoResult`). A 320 x 240 camera frame has 76 800 pixels and
  selects 76.
- `getDarkChannel` takes the minimum of each window directly, over the
  padded buffer, for every output cell.

## Model

| member | source | states |
|---|---|---|
| MinChannel.PixelMin | Haze-Removal-IOT.py:22-23 | the value is at most each of the pixel's three samples, and is one of them |
| MinChannel.GetMinChannel | Haze-Removal-IOT.py:22-23 | the map has the image's H x W shape; each cell is at most every channel of its pixel and equals one of them |
| MinChannel.MinChannelOfUniform | Haze-Removal-IOT.py:22-23 | an image whose samples all equal v has the constant min-channel map v |
| DarkChannel.ClippedWindowMin | Haze-Removal-IOT.py:26-34 | the value is at most every map cell of the window [i-a, i+a] x [j-a, j+a] clipped to the map, and equals one of them |
| DarkChannel.DarkChannelOf | Haze-Removal-IOT.py:25-35 | the dark channel has the map's shape and is nowhere above the map |
| DarkChannel.WindowMin | Haze-Removal-IOT.py:34 | `np.min` of an array slice: at most every cell of the slice, and equal to one of them |
| DarkChannel.PaddedWindowIsClipped | Haze-Removal-IOT.py:26-34 | the minimum of a padded window equals the minimum of the clipped window of the map, because the 255 padding never lowers a minimum |
| DarkChannel.MakePadded | Haze-Removal-IOT.py:26-30 | the new buffer holds the map in its interior, offset by A = (blockSize-1)/2, and 255 in the border A cells wide |
| DarkChannel.BlockMin | Haze-Removal-IOT.py:34 | the window minimum read from the padded buffer is the clipped-window minimum at the output cell |
| DarkChannel.FillRow | Haze-Removal-IOT.py:33-34 | the inner loop fills output row `row` with its clipped-window minima, leaves the rows above it as they were and leaves the rows below it unchanged |
| DarkChannel.FillDark | Haze-Removal-IOT.py:32-34 | the outer loop fills every output row with its clipped-window minima |
| DarkChannel.GetDarkChannel | Haze-Removal-IOT.py:25-35 | the nested loop writes every cell of the H x W output with the minimum of its window clipped to the map |
| DarkChannel.DarkChannelOfBlockOne | Haze-Removal-IOT.py:25-35 | with blockSize 1 the dark channel is the map itself |
| DarkChannel.DarkChannelAntitone | Haze-Removal-IOT.py:25-35 | a larger window never gives a larger dark-channel value at any cell |
| DarkChannel.DarkChannelOfUniform | Haze-Removal-IOT.py:25-35 | a constant map is its own dark channel for every window size |
| AtmosphericLight.RowMajorNodesEnumerate | Haze-Removal-IOT.py:38-39 | the node list has H*W entries; each names a pixel with that pixel's value; it lists every pixel in strictly increasing row-major position |
| AtmosphericLight.Insert | Haze-Removal-IOT.py:40 | inserting a node adds exactly that node to the multiset |
| AtmosphericLight.SortByValueDesc | Haze-Removal-IOT.py:40 | the sorted list is a permutation of its input, with values non-increasing |
| AtmosphericLight.SortRanked | Haze-Removal-IOT.py:39-40 | stability: sorting a row-major list puts each higher value first and equal values in row-major order |
| AtmosphericLight.Ranking | Haze-Removal-IOT.py:39-40 | the ranking holds every pixel exactly once, ordered by value descending, with ties in row-major order |
| AtmosphericLight.Trunc | Haze-Removal-IOT.py:42 | `int(x)` truncates toward zero: the floor for x >= 0 and the ceiling for x < 0 |
| AtmosphericLight.Taken | Haze-Removal-IOT.py:42 | the loop count max(0, int(percent * size)) never exceeds the pixel count when percent is at most 1 |
| AtmosphericLight.ChannelMax | Haze-Removal-IOT.py:43-45 | after j channel steps the running value is at least each of those j samples, is 0 when j is 0, and is otherwise one of them |
| AtmosphericLight.SelectedLight | Haze-Removal-IOT.py:41-45 | the light is 0 for an empty selection; it is at least every sample of every selected pixel; otherwise it is one of those samples |
| AtmosphericLight.AtmosphericLightOf | Haze-Removal-IOT.py:37-46 | the light is 0 when no pixel is taken; otherwise it is the largest sample of the first k ranked pixels (`Selected`), an upper bound that is attained |
| AtmosphericLight.SelectedLightZeroIffBlack | Haze-Removal-IOT.py:41-45 | the accumulated light of a selection is 0 exactly when every sample of every selected pixel is 0 |
| AtmosphericLight.LightZeroIffBlack | Haze-Removal-IOT.py:37-46 | the atmospheric light is 0 exactly when every channel of each of the first k ranked pixels is 0, in particular when k is 0 |
| AtmosphericLight.CollectNodes | Haze-Removal-IOT.py:39 | the comprehension's loops build exactly the row-major node list of the dark channel |
| AtmosphericLight.BrightestSample | Haze-Removal-IOT.py:41-45 | the accumulator loop returns the light of the first k nodes |
| AtmosphericLight.GetAtmosphericLight | Haze-Removal-IOT.py:37-46 | the result is the atmospheric light of the first max(0, int(percent * size)) pixels of the ranking |
| RecoverScene.Transmission | Haze-Removal-IOT.py:53-54 | the transmission is at least t0 and at least the raw 1 - omega*dark/light, and equals one of the two |
| RecoverScene.TransmissionAtMostOne | Haze-Removal-IOT.py:53-54 | with omega >= 0 and t0 <= 1 the transmission lies in [t0, 1] |
| RecoverScene.TransmissionAntitone | Haze-Removal-IOT.py:53-54 | a larger dark-channel value never gives a larger transmission |
| RecoverScene.Clamp255 | Haze-Removal-IOT.py:59-60 | the result lies in [0, 255]; values in range are unchanged, values above become 255 and values below become 0 |
| RecoverScene.RecoveredSample | Haze-Removal-IOT.py:57-61 | an output sample is 255 when the inverted model reaches 255, 0 when it is at most 0, and otherwise the floor of the inverted value |
| RecoverScene.RecoveredSampleAtLight | Haze-Removal-IOT.py:57-61 | a sample equal to the atmospheric light is recovered unchanged, whatever the transmission |
| RecoverScene.RecoveredSampleStretches | Haze-Removal-IOT.py:57-61 | for 0 < t <= 1, samples brighter than the light never get darker and darker ones never get brighter |
| RecoverScene.DehazedImage | Haze-Removal-IOT.py:52-61 | the recovered image has the input's H x W x 3 shape |
| RecoverScene.DefaultSelectionFits | Haze-Removal-IOT.py:37-51 | the default percent never asks for more pixels than the image has |
| RecoverScene.DefaultSelectionCount | Haze-Removal-IOT.py:37-42 | the default percent selects size / 1000 pixels, rounded down |
| RecoverScene.RecoverSceneOf | Haze-Removal-IOT.py:48-61 | no result exactly when every sample of the first Taken(0.001, size) ranked pixels is 0, that is when the atmospheric light is 0; otherwise an image of the input's H x W shape |
| RecoverScene.SmallImageHasNoResult | Haze-Removal-IOT.py:42-51 | an image of fewer than 1000 pixels selects no pixel for the light and so has no result |
| RecoverScene.TransmissionMap | Haze-Removal-IOT.py:53-54 | the elementwise map and then the masked overwrite give the transmission of every pixel |
| RecoverScene.Radiance | Haze-Removal-IOT.py:55-61 | the per-channel inversion, the two masked clamps and the uint8 conversion give the recovered sample of every pixel and channel |
| RecoverScene.Dehaze | Haze-Removal-IOT.py:52-61 | the transmission and radiance steps produce exactly the dehazed image |
| RecoverScene.GetRecoverScene | Haze-Removal-IOT.py:48-61 | the method fails exactly when the light is 0; otherwise its output array holds the pipeline function's image sample by sample |
| RecoverScene.DehazedUniform | Haze-Removal-IOT.py:57-61 | dehazing a uniform image against its own value as the light leaves it unchanged |
| RecoverScene.UniformImageIsFixedPoint | Haze-Removal-IOT.py:48-61 | a uniform non-zero image is returned unchanged by the whole pipeline whenever at least one pixel is selected |
| HazeMetric.ClampPercentage | Haze-Removal-IOT.py:74 | the reported percentage lies in [0, 100]; in-range values are unchanged, negative ones become 0 and those above 100 become 100 |
| HazeMetric.ClampPercentageIdempotent | Haze-Removal-IOT.py:74 | clamping a clamped percentage changes nothing |
| HazeMetric.ClampPercentageMonotone | Haze-Removal-IOT.py:74 | a larger ratio never reports a smaller reduction |

## Left out

- The Tk GUI, the Picamera2 camera stream, threads, file dialogs, image loading and saving, the text report, timing and the histogram plots: I/O and user interface, not part of the core.
- `calculate_haze_reduction` (lines 63-73): only its final clamp at line 74 is modelled. The float64 mean and ratio before it are floating point.
- float64 arithmetic: the model uses exact reals, so rounding and NaN/inf do not arise. The properties hold under exact arithmetic only.
- `percent * size` is computed exactly before it is truncated. float64 rounding could differ at exact multiples.
- RecoverScene.RecoverSceneOf: returns `None` for the whole image where the atmospheric light is 0, as GetRecoverScene does; see the next line.
- RecoverScene.GetRecoverScene: where the atmospheric light is 0, the source divides by zero. Pixels with a positive dark value then get transmission t0 and an ordinary clamped output. Pixels with dark value 0 get NaN and an undefined `uint8`. The model returns `None` for the whole image instead of modelling either.
- DarkChannel.GetDarkChannel: requires an odd blockSize >= 1. With an even or non-positive blockSize the source fails with an index or shape error, and that failure is not modelled.
- RecoverScene.GetRecoverScene: requires t0 > 0, so that the division by the transmission is defined. The source's default is 0.1.
- AtmosphericLight.GetAtmosphericLight: requires that `int(percent * size)` not exceed the pixel count. Beyond that, the source fails with an index error, which is not modelled.
- Empty images are excluded: every image and map has at least one row and one column.
- Python's `sorted` (Timsort) is modelled as a stable insertion sort. Any stable sort gives the same result.
