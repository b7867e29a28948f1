# Image morphing: resize, affine blend, frame schedule

A Dafny model of `morphing/morphing.py`. The script resizes a list of images
to one size (`redimensiona_imagens`). It blends images in the CIELAB colour
space with an affine combination of weights (`morphing`). And it plays an
endless slideshow that morphs every image into the next one (`main`).

The model has five modules:

- `Wrappers`: `Option` and `Result`. A Python exception becomes a `Failure`
  naming the exception.
- `Images`: 8-bit three-channel pixels and images as lists of rows.
  `Flatten` is `reshape((-1, 3))` and `Unflatten` is
  `reshape((height, width, 3))`. It proves that the two are inverse to each
  other and where each pixel lands.
- `Resizing`: `redimensiona_imagens`, the loop that appends one resized image
  per input. The resampling itself is a function parameter.
- `Blending`: `morphing`.
  - Flattening the Lab images.
  - The float64 accumulator loop `morphed_pixels += alphas[i] * pixels[i]`,
    including numpy's broadcasting of a one-pixel buffer.
  - The reshape back to (height, width, 3).
  - The exceptions this code can raise (IndexError, ValueError), as errors.
  - The blend is specified by `Mix`, the weighted sum at one pixel position.
    Lemmas prove that it reproduces an image under weights [1, 0] or [0, 1],
    that it interpolates linearly, and that it stays within [0, 255] for
    convex weights.
- `Schedule`: `main`.
  - `n_interpolacoes = n_morphing // (len(imagens) - 1)`, with Python's floor
    division.
  - The weights `[1 - n/s, n/s]`.
  - The three nested loops, stopped by the ESC key.
  - The exceptions the loops can raise: ZeroDivisionError twice, and
    UnboundLocalError when `key` is read before it is ever assigned.
  - `FrameAt` defines the schedule the way the loops walk it: one `Next` step
    per frame shown. `FrameAtFormula` proves its closed form by quotient and
    remainder. From that follow the properties of the schedule:
    - the frame order;
    - the period `(count - 1) * (s + 1)`;
    - the start and end of every pass;
    - the steps dropped by the floor division;
    - every inner image is shown twice in a row.
  - `Run` returns the list of `morphing` calls, one per frame shown. It is
    proved to equal the schedule up to the first ESC.

Some behaviour of the code that the model keeps as written:

- **Weights.** `morphing` reads `alphas[i]` only for the images it is given,
  so extra weights are ignored. A missing weight raises IndexError.
- **Broadcasting.** numpy broadcasts a buffer of one pixel onto the
  accumulator. Any other length mismatch raises ValueError.
- **Errors.** A bad configuration has no error of its own. `main` raises:
  - ZeroDivisionError for one image (line 58);
  - ZeroDivisionError when `0 <= n_morphing < len(imagens) - 1`, because the
    steps per pair are then 0 (line 64);
  - UnboundLocalError for no images, or for a negative `n_morphing` with two
    or more images, because no frame is shown and `key` is never assigned
    (lines 75 and 77).
- **Conversion.** Both images are converted to Lab again on every `morphing`
  call. The model converts per call (`Blending.Morph`).

## Model

| member | source | states |
|---|---|---|
| Resizing.ResizeAll | morphing/morphing.py:13-16 | The result has one entry per input image, in order, and entry `i` is the resize of image `i` to the target size. |
| Images.FlattenLength | morphing/morphing.py:32 | `reshape((-1, 3))` of a height-by-width image has width * height pixels. |
| Images.FlattenAt | morphing/morphing.py:32 | Row `y`, column `x` of the image becomes pixel `y * width + x` of the flat buffer. |
| Images.Unflatten | morphing/morphing.py:40 | `reshape((height, width, 3))` of a buffer of exactly width * height pixels is an image of `height` rows of `width` pixels. |
| Images.UnflattenAt | morphing/morphing.py:40 | Row `y`, column `x` of the reshaped image is pixel `y * width + x` of the buffer. |
| Images.FlattenUnflatten | morphing/morphing.py:32-40 | Reshaping a buffer to an image and flattening it again gives back the buffer. |
| Images.UnflattenFlatten | morphing/morphing.py:32-40 | Flattening an image and reshaping it to its own size gives back the image. |
| Blending.ToPixelVectors | morphing/morphing.py:31-32 | One flat pixel buffer per Lab image, in order, each the image's rows concatenated. |
| Blending.AddScaled | morphing/morphing.py:37 | `acc += alpha * buf` adds `alpha` times the buffer's pixel at every position, and the single pixel everywhere when the buffer broadcasts. |
| Blending.Blend | morphing/morphing.py:35-37 | Succeeds exactly when there is at least one buffer, a weight for every buffer, and every buffer broadcasts onto the first. Otherwise it reports the first failing image in loop order: IndexError for no image or a missing weight, ValueError for a shape mismatch. On success, position `p` holds the weighted sum `Mix` over all images. |
| Blending.Morph | morphing/morphing.py:19-45 | Succeeds exactly when the blend succeeds and the blend has width * height pixels; otherwise the reshape raises ValueError or the blend's error is reported. On success the result is the back-conversion of the reshaped weighted sum of the Lab buffers. |
| Blending.ExplainsUnique | morphing/morphing.py:35-37 | The reported blend error is determined by the inputs, and no error is reported on inputs the loop completes. |
| Blending.MixIdentity | morphing/morphing.py:36-37 | One image with weight 1 blends to itself. |
| Blending.MixFirst | morphing/morphing.py:36-37 | Weights [1, 0] reproduce the first image exactly. |
| Blending.MixSecond | morphing/morphing.py:36-37 | Weights [0, 1] reproduce the second image exactly. |
| Blending.MixLerp | morphing/morphing.py:36-37 | With weights [1 - alpha, alpha] the blend at each position is `Lerp`: every channel is `a + alpha * (b - a)`, the straight line between the two images. |
| Blending.MixBounds | morphing/morphing.py:35-37 | With non-negative weights every accumulated channel lies between 0 and 255 times the sum of the weights used so far. |
| Blending.MixInByteRange | morphing/morphing.py:36-43 | Non-negative weights summing to 1 keep every blended channel in [0, 255], the range of the `np.uint8` narrowing. |
| Blending.MixPointwise | morphing/morphing.py:36-37 | The blend at a position depends only on the pixels the buffers contribute there. |
| Blending.ColumnAgrees | morphing/morphing.py:31-32 | Position `y * width + x` of every Lab buffer holds that image's pixel at row `y`, column `x`. |
| Blending.LabBuffersLength | morphing/morphing.py:31-32 | Lab images of the target size give one buffer each of width * height pixels. |
| Blending.MorphedPixel | morphing/morphing.py:29-40 | When every Lab image has the target size, the blend and reshape succeed. Row `y`, column `x` of the result is the weighted sum of the input pixels at row `y`, column `x`. |
| Blending.MorphedPairPixel | morphing/morphing.py:29-40 | Two Lab images of the target size, blended with weights [1 - alpha, alpha]: the blend and reshape succeed, and row `y`, column `x` of the result is `Lerp` of the two images' pixels there. |
| Schedule.FloorDiv | morphing/morphing.py:58 | Python's `a // b`: the quotient rounded towards minus infinity, for both signs of `b`. |
| Schedule.StepsPerPair | morphing/morphing.py:58 | `s` is the floor of `n_morphing / (count - 1)`. With two or more images it is positive exactly when `n_morphing >= count - 1`, zero exactly when `0 <= n_morphing < count - 1`, and negative exactly when `n_morphing < 0`. With no images it is `n_morphing // -1`, that is `-n_morphing`. |
| Schedule.ConfigError | morphing/morphing.py:58-77 | The exception `main` stops with, one case per condition (see the bullets above the table). `None` exactly when there are at least two images and `n_morphing >= count - 1`. |
| Schedule.Alpha | morphing/morphing.py:64 | `alpha = n / s` lies in [0, 1] for `0 <= n <= s`, is 0 at `n = 0` and 1 at `n = s`. |
| Schedule.AlphaSpacing | morphing/morphing.py:62-64 | Consecutive sub-steps are exactly `1 / s` apart, so alpha rises strictly. |
| Schedule.Weights | morphing/morphing.py:64-66 | `[1 - alpha, alpha]` has two non-negative entries summing to 1, is [1, 0] at the first sub-step and [0, 1] at the last. |
| Schedule.Period | morphing/morphing.py:61-62 | A pass shows `(count - 1) * (s + 1)` frames, at least `s + 1`. |
| Schedule.Next | morphing/morphing.py:61-62 | The loops' next frame stays within the pairs and sub-steps. |
| Schedule.FrameAt | morphing/morphing.py:60-62 | Frame `t`, reached by `t` loop steps from pair 0, sub-step 0, is a valid pair and sub-step. |
| Schedule.FrameAtFormula | morphing/morphing.py:60-62 | Frame `t` is pair `u / (s + 1)`, sub-step `u % (s + 1)`, where `u` is `t` modulo the period. |
| Schedule.WithinPass | morphing/morphing.py:61-62 | Inside the first pass, frame `t` is pair `t / (s + 1)`, sub-step `t % (s + 1)`. |
| Schedule.FrameAtIndex | morphing/morphing.py:61-62 | Sub-step `n` of pair `i` is shown as frame `i * (s + 1) + n` of each pass. |
| Schedule.PassOrder | morphing/morphing.py:61-62 | Within a pass, frames strictly increase by pair, and by sub-step within a pair. |
| Schedule.FrameAtPeriodic | morphing/morphing.py:60-62 | The schedule repeats after every pass. |
| Schedule.PassStart | morphing/morphing.py:60-62 | Every pass starts at pair 0, sub-step 0. |
| Schedule.PassEnd | morphing/morphing.py:60-62 | Every pass ends at the last pair's last sub-step. |
| Schedule.StepsDropped | morphing/morphing.py:58-62 | The pairs get `n_morphing - n_morphing % (count - 1)` steps in total. A pass has at most `n_morphing + count - 1` frames, and exactly that many only when `count - 1` divides `n_morphing`. |
| Schedule.TwoImagesFourSteps | morphing/morphing.py:58-66 | Two images and four steps give weights [1, 0], [0.75, 0.25], [0.5, 0.5], [0.25, 0.75], [0, 1], then the schedule starts over. |
| Schedule.ScheduledMixInRange | morphing/morphing.py:64-66 | Every blend the schedule asks for stays within [0, 255] on equal-length buffers. |
| Schedule.PairJoin | morphing/morphing.py:61-66 | On equal-length buffers, the weights of a pair's last sub-step ([0, 1] on images `i`, `i + 1`) and of the next pair's first sub-step ([1, 0] on images `i + 1`, `i + 2`) give the same blend, which is image `i + 1` itself. |
| Schedule.ShownTwice | morphing/morphing.py:60-66 | The last frame of pair `i` calls `morphing` on images `i` and `i + 1` with weights [0, 1]. The next frame calls it on images `i + 1` and `i + 2` with weights [1, 0]. Both blend to image `i + 1`, so every inner image is shown twice in a row. |
| Schedule.ScheduledMorph | morphing/morphing.py:62-66 | When every image converts to a Lab image of the target size, the `morphing` call recorded for any frame cannot raise. Its weights are `[1 - alpha, alpha]`, the blend and reshape succeed, and every cell is `Lerp` of the pair's two Lab pixels at the frame's alpha. |
| Schedule.FirstEsc | morphing/morphing.py:72-74 | The index of the first ESC among the keys read, with no ESC before it. |
| Schedule.ShowPair | morphing/morphing.py:62-74 | The inner loop over sub-steps of one pair. It raises ZeroDivisionError exactly when `s = 0` and shows nothing when `s < 0`. Otherwise it appends the scheduled calls in order and leaves `key` as the last key read. It stops at the first ESC, or after all `s + 1` frames at the next pair's first frame. |
| Schedule.Run | morphing/morphing.py:48-79 | Applies to every key stream that holds an ESC, and to any key stream when the configuration raises. Fails exactly when `ConfigError` reports an exception, and with that exception, whatever the keys. Otherwise it makes exactly one `morphing` call per frame up to and including the first ESC, and call `t` is the scheduled call for frame `t` on the resized images. |

## Left out

- `cv2.resize` with bilinear filtering is a function parameter of `ResizeAll` and `Run`; its pixel arithmetic is not modelled.
- `cv2.cvtColor` in both directions is a function parameter of `Morph`, and so is the `np.uint8` narrowing before the conversion back. `MixInByteRange` shows that convex weights keep the blend within the 8-bit range, but the narrowing's truncation of fractions is not modelled.
- float64 arithmetic is modelled with exact real numbers; rounding is not modelled.
- Pixels always have three channels, so `reshape((-1, 3))` of a buffer whose size is not a multiple of 3 is not modelled.
- numpy broadcasting is modelled only between flat buffers: equal length, or a single pixel. Broadcasting of other shapes does not arise, because every buffer is flat.
- `cv2.imshow`, the window and `cv2.destroyAllWindows` are left out. `cv2.waitKey` is the `keys` parameter of `Run`: `keys[t]` is the key read after frame `t`.
- Run: requires an ESC among the keys when `ConfigError` accepts the configuration. Such a configuration loops forever without an ESC, and that endless run is not modelled. Every other configuration raises before any key is read, and `Run` gives `ConfigError`'s exception whatever the keys.
- Run: records each `morphing` call rather than executing it. `Blending.Morph` states what each call computes, and `Schedule.ScheduledMorph` shows the recorded calls succeed on images of the target size.
- The `__main__` block (loading the image files and choosing the parameters) is not part of this model.
