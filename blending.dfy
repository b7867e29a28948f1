/** The affine blend of `morphing`: the CIELAB images are flattened into
    lists of pixel vectors, a float64 accumulator shaped like the first list
    receives `alphas[i] * pixels[i]` for every image `i`, and the sum is
    reshaped to (height, width, 3) and converted back to BGR.

    Real numbers stand for float64. The colour conversions `cv2.cvtColor`
    (BGR to Lab and back, the latter after the `np.uint8` narrowing) are
    foreign code and enter the model as the function parameters `toLab` and
    `toBgr`. */
module Blending {
  import opened Wrappers
  import opened Images

  /** The exceptions `morphing` can raise. */
  datatype BlendError =
    | NoImages                  // `pixels[0]` of an empty list: IndexError
    | MissingWeight             // `alphas[i]` past the end of the weights: IndexError
    | ShapeMismatch(index: nat) // buffer `index` does not broadcast onto the accumulator: ValueError
    | ReshapeMismatch           // the blend does not hold width * height pixels: ValueError

  const Zero := Sample(0.0, 0.0, 0.0)

  /** A pixel converted to the accumulator's element type. */
  function Widen(p: Pixel): Sample
  {
    Sample(p.c0 as real, p.c1 as real, p.c2 as real)
  }

  /** `alpha * pixel`, channel by channel. */
  function Scale(alpha: real, p: Pixel): Sample
  {
    Sample(alpha * p.c0 as real, alpha * p.c1 as real, alpha * p.c2 as real)
  }

  function Add(x: Sample, y: Sample): Sample
  {
    Sample(x.c0 + y.c0, x.c1 + y.c1, x.c2 + y.c2)
  }

  /** numpy lets `morphed_pixels += alphas[i] * pixels[i]` through when the
      buffer has the accumulator's number of pixels, or exactly one pixel,
      which is then broadcast onto every position. */
  predicate Broadcasts(buf: seq<Pixel>, length: nat)
  {
    |buf| == length || |buf| == 1
  }

  /** The pixel a buffer contributes at accumulator position `p`. */
  function At(buf: seq<Pixel>, p: nat): Pixel
    requires |buf| == 1 || p < |buf|
  {
    if |buf| == 1 then buf[0] else buf[p]
  }

  /** The first `n` buffers all broadcast onto a buffer shaped like the first one. */
  predicate Compatible(bufs: seq<seq<Pixel>>, n: nat)
    requires 0 < |bufs| && n <= |bufs|
  {
    forall i :: 0 <= i < n ==> Broadcasts(bufs[i], |bufs[0]|)
  }

  /** The inputs on which the accumulator loop runs to the end. */
  predicate Blendable(bufs: seq<seq<Pixel>>, alphas: seq<real>)
  {
    0 < |bufs| <= |alphas| && Compatible(bufs, |bufs|)
  }

  /** Position `p` of the accumulator after the first `n` images:
      the sum over i < n of alphas[i] * bufs[i][p]. */
  function Mix(bufs: seq<seq<Pixel>>, alphas: seq<real>, n: nat, p: nat): Sample
    requires 0 < |bufs| && n <= |bufs| && n <= |alphas|
    requires Compatible(bufs, n) && p < |bufs[0]|
    decreases n
  {
    if n == 0 then Zero
    else Add(Mix(bufs, alphas, n - 1, p), Scale(alphas[n - 1], At(bufs[n - 1], p)))
  }

  /** The whole blended buffer. */
  function MixAll(bufs: seq<seq<Pixel>>, alphas: seq<real>): seq<Sample>
    requires Blendable(bufs, alphas)
  {
    seq(|bufs[0]|, p requires 0 <= p < |bufs[0]| => Mix(bufs, alphas, |bufs|, p))
  }

  /** The error the accumulator loop stops with: the first image it cannot
      process, by the order in which the loop evaluates its operands. */
  predicate Explains(e: BlendError, bufs: seq<seq<Pixel>>, alphas: seq<real>)
  {
    match e
    case NoImages => |bufs| == 0
    case MissingWeight => 0 < |bufs| && |alphas| < |bufs| && Compatible(bufs, |alphas|)
    case ShapeMismatch(i) =>
      0 < i < |bufs| && i < |alphas| && Compatible(bufs, i) && !Broadcasts(bufs[i], |bufs[0]|)
    case ReshapeMismatch => false
  }

  /** Lines 31-32: one list of pixel vectors per image, built by appending. */
  method ToPixelVectors(labImages: seq<Grid<Pixel>>) returns (pixels: seq<seq<Pixel>>)
    ensures |pixels| == |labImages|
    ensures forall i :: 0 <= i < |labImages| ==> pixels[i] == Flatten(labImages[i])
  {
    pixels := [];
    for j := 0 to |labImages|
      invariant |pixels| == j
      invariant forall i :: 0 <= i < j ==> pixels[i] == Flatten(labImages[i])
    {
      pixels := pixels + [Flatten(labImages[j])];
    }
  }

  /** `acc += alpha * buf`: numpy's in-place add of one scaled buffer,
      broadcast when it holds a single pixel. */
  method AddScaled(acc: array<Sample>, alpha: real, buf: seq<Pixel>)
    requires Broadcasts(buf, acc.Length)
    modifies acc
    ensures forall q :: 0 <= q < acc.Length ==> acc[q] == Add(old(acc[q]), Scale(alpha, At(buf, q)))
  {
    for p := 0 to acc.Length
      invariant forall q :: 0 <= q < p ==> acc[q] == Add(old(acc[q]), Scale(alpha, At(buf, q)))
      invariant forall q :: p <= q < acc.Length ==> acc[q] == old(acc[q])
    {
      acc[p] := Add(acc[p], Scale(alpha, At(buf, p)));
    }
  }

  /** Lines 35-37: the zero accumulator shaped like the first buffer, and
      `morphed_pixels += alphas[i] * pixels[i]` for every image in turn. */
  method Blend(pixels: seq<seq<Pixel>>, alphas: seq<real>) returns (r: Result<seq<Sample>, BlendError>)
    ensures r.Success? <==> Blendable(pixels, alphas)
    ensures r.Failure? ==> Explains(r.error, pixels, alphas)
    ensures r.Success? ==> |r.value| == |pixels[0]|
    ensures r.Success? ==> forall p :: 0 <= p < |r.value| ==> r.value[p] == Mix(pixels, alphas, |pixels|, p)
  {
    if |pixels| == 0 {
      return Failure(NoImages);
    }
    var morphed := new Sample[|pixels[0]|](_ => Zero);
    var i := 0;
    while i < |pixels|
      invariant 0 <= i <= |pixels| && i <= |alphas|
      invariant Compatible(pixels, i)
      invariant forall p :: 0 <= p < morphed.Length ==> morphed[p] == Mix(pixels, alphas, i, p)
    {
      if i >= |alphas| {
        return Failure(MissingWeight);
      }
      if !Broadcasts(pixels[i], morphed.Length) {
        return Failure(ShapeMismatch(i));
      }
      AddScaled(morphed, alphas[i], pixels[i]);
      assert Compatible(pixels, i + 1);
      i := i + 1;
    }
    return Success(morphed[..]);
  }

  /** Line 29: every image converted to CIELAB. */
  function LabImages(images: seq<Grid<Pixel>>, toLab: Grid<Pixel> -> Grid<Pixel>): seq<Grid<Pixel>>
  {
    seq(|images|, i requires 0 <= i < |images| => toLab(images[i]))
  }

  /** Lines 31-32: the pixel buffers of the Lab images. */
  function LabBuffers(labs: seq<Grid<Pixel>>): seq<seq<Pixel>>
  {
    seq(|labs|, i requires 0 <= i < |labs| => Flatten(labs[i]))
  }

  /** `morphing(imagem, alphas, tamanho)`: convert, flatten, blend, reshape
      to (height, width, 3), narrow and convert back. */
  method Morph(images: seq<Grid<Pixel>>, alphas: seq<real>, size: Size,
               toLab: Grid<Pixel> -> Grid<Pixel>, toBgr: Grid<Sample> -> Grid<Pixel>)
    returns (r: Result<Grid<Pixel>, BlendError>)
    ensures var bufs := LabBuffers(LabImages(images, toLab));
      r.Success? <==> Blendable(bufs, alphas) && |bufs[0]| == size.width * size.height
    ensures var bufs := LabBuffers(LabImages(images, toLab));
      r == Failure(ReshapeMismatch) ==> Blendable(bufs, alphas) && |bufs[0]| != size.width * size.height
    ensures r.Failure? && r.error != ReshapeMismatch ==> Explains(r.error, LabBuffers(LabImages(images, toLab)), alphas)
    ensures var bufs := LabBuffers(LabImages(images, toLab));
      r.Success? ==> r.value == toBgr(Unflatten(MixAll(bufs, alphas), size.width, size.height))
  {
    var labImages := LabImages(images, toLab);
    var pixels := ToPixelVectors(labImages);
    assert pixels == LabBuffers(LabImages(images, toLab));
    var morphed := Blend(pixels, alphas);
    if morphed.Failure? {
      return Failure(morphed.error);
    }
    if |morphed.value| != size.width * size.height {
      return Failure(ReshapeMismatch);
    }
    assert morphed.value == MixAll(pixels, alphas);
    var morphedImage := Unflatten(morphed.value, size.width, size.height);
    return Success(toBgr(morphedImage));
  }

  /** The error the accumulator loop reports is determined by the inputs:
      no two different errors explain the same inputs, and none explains
      inputs on which the loop succeeds. */
  lemma ExplainsUnique(e1: BlendError, e2: BlendError, bufs: seq<seq<Pixel>>, alphas: seq<real>)
    requires Explains(e1, bufs, alphas)
    ensures !Blendable(bufs, alphas)
    ensures Explains(e2, bufs, alphas) ==> e1 == e2
  {
  }

  /** `blend([buf], [1.0]) == buf`: one image with weight 1 comes back unchanged. */
  lemma MixIdentity(buf: seq<Pixel>, p: nat)
    requires p < |buf|
    ensures Mix([buf], [1.0], 1, p) == Widen(buf[p])
  {
  }

  /** Weights [1, 0] reproduce the first image. */
  lemma MixFirst(a: seq<Pixel>, b: seq<Pixel>, p: nat)
    requires |a| == |b| && p < |a|
    ensures Mix([a, b], [1.0, 0.0], 2, p) == Widen(a[p])
  {
  }

  /** Weights [0, 1] reproduce the second image. */
  lemma MixSecond(a: seq<Pixel>, b: seq<Pixel>, p: nat)
    requires |a| == |b| && p < |a|
    ensures Mix([a, b], [0.0, 1.0], 2, p) == Widen(b[p])
  {
    var bufs, alphas := [a, b], [0.0, 1.0];
    assert Mix(bufs, alphas, 0, p) == Zero;
    assert Mix(bufs, alphas, 1, p) == Add(Zero, Scale(0.0, At(a, p)));
    assert Mix(bufs, alphas, 1, p) == Zero;
    assert Mix(bufs, alphas, 2, p) == Add(Zero, Scale(1.0, At(b, p)));
  }

  /** The point `alpha` of the way from `a` to `b`, channel by channel. */
  function Lerp(a: Pixel, b: Pixel, alpha: real): Sample
  {
    Sample(a.c0 as real + alpha * (b.c0 as real - a.c0 as real),
           a.c1 as real + alpha * (b.c1 as real - a.c1 as real),
           a.c2 as real + alpha * (b.c2 as real - a.c2 as real))
  }

  /** With weights [1 - alpha, alpha] each channel moves along the straight
      line from the first image's value to the second's. */
  lemma MixLerp(a: seq<Pixel>, b: seq<Pixel>, alpha: real, p: nat)
    requires |a| == |b| && p < |a|
    ensures Mix([a, b], [1.0 - alpha, alpha], 2, p) == Lerp(a[p], b[p], alpha)
  {
  }

  /** The sum of the first `n` weights. */
  function Sum(alphas: seq<real>, n: nat): real
    requires n <= |alphas|
  {
    if n == 0 then 0.0 else Sum(alphas, n - 1) + alphas[n - 1]
  }

  predicate InRange(x: Sample, lo: real, hi: real)
  {
    lo <= x.c0 <= hi && lo <= x.c1 <= hi && lo <= x.c2 <= hi
  }

  lemma ScaleInRange(alpha: real, p: Pixel)
    requires alpha >= 0.0
    ensures InRange(Scale(alpha, p), 0.0, 255.0 * alpha)
  {
    var c0, c1, c2 := p.c0, p.c1, p.c2;
    ChannelBound(alpha, c0);
    ChannelBound(alpha, c1);
    ChannelBound(alpha, c2);
    assert Scale(alpha, p) == Sample(alpha * c0 as real, alpha * c1 as real, alpha * c2 as real);
  }

  lemma ChannelBound(alpha: real, c: Byte)
    requires alpha >= 0.0
    ensures 0.0 <= alpha * c as real <= 255.0 * alpha
  {
    assert 255.0 * alpha - alpha * c as real == alpha * (255.0 - c as real);
  }

  /** With non-negative weights every channel of the blend lies between 0
      and 255 times the sum of the weights used so far. */
  lemma {:induction false} MixBounds(bufs: seq<seq<Pixel>>, alphas: seq<real>, n: nat, p: nat)
    requires 0 < |bufs| && n <= |bufs| && n <= |alphas|
    requires Compatible(bufs, n) && p < |bufs[0]|
    requires forall i :: 0 <= i < n ==> alphas[i] >= 0.0
    ensures InRange(Mix(bufs, alphas, n, p), 0.0, 255.0 * Sum(alphas, n))
  {
    if n > 0 {
      MixBounds(bufs, alphas, n - 1, p);
      ScaleInRange(alphas[n - 1], At(bufs[n - 1], p));
    }
  }

  /** Weights that are non-negative and sum to 1 keep every channel of the
      blend inside the 8-bit range [0, 255]. */
  lemma MixInByteRange(bufs: seq<seq<Pixel>>, alphas: seq<real>, p: nat)
    requires Blendable(bufs, alphas) && p < |bufs[0]|
    requires forall i :: 0 <= i < |bufs| ==> alphas[i] >= 0.0
    requires Sum(alphas, |bufs|) == 1.0
    ensures InRange(Mix(bufs, alphas, |bufs|, p), 0.0, 255.0)
  {
    MixBounds(bufs, alphas, |bufs|, p);
  }

  /** Two families of buffers that contribute the same pixels at positions
      `p1` and `p2` blend to the same value there. */
  lemma {:induction false} MixPointwise(bufs1: seq<seq<Pixel>>, p1: nat, bufs2: seq<seq<Pixel>>, p2: nat,
                                        alphas: seq<real>, n: nat)
    requires 0 < |bufs1| && n <= |bufs1| && n <= |alphas| && Compatible(bufs1, n) && p1 < |bufs1[0]|
    requires 0 < |bufs2| && n <= |bufs2| && Compatible(bufs2, n) && p2 < |bufs2[0]|
    requires forall i :: 0 <= i < n ==> At(bufs1[i], p1) == At(bufs2[i], p2)
    ensures Mix(bufs1, alphas, n, p1) == Mix(bufs2, alphas, n, p2)
  {
    if n > 0 {
      MixPointwise(bufs1, p1, bufs2, p2, alphas, n - 1);
    }
  }

  /** The pixels at row `y`, column `x` of each image, as one-pixel buffers. */
  function PixelsAt(labs: seq<Grid<Pixel>>, size: Size, y: nat, x: nat): seq<seq<Pixel>>
    requires forall i :: 0 <= i < |labs| ==> HasShape(labs[i], size.width, size.height)
    requires y < size.height && x < size.width
  {
    seq(|labs|, i requires 0 <= i < |labs| =>
      assert HasShape(labs[i], size.width, size.height);
      [labs[i][y][x]])
  }

  /** When every Lab image has the target size, the blend and the reshape
      succeed, and row `y`, column `x` of the blended image is the weighted
      sum of the pixels at row `y`, column `x` of the input images. */
  lemma MorphedPixel(labs: seq<Grid<Pixel>>, alphas: seq<real>, size: Size, y: nat, x: nat)
    requires 0 < |labs| <= |alphas|
    requires forall i :: 0 <= i < |labs| ==> HasShape(labs[i], size.width, size.height)
    requires y < size.height && x < size.width
    ensures var bufs := LabBuffers(labs);
      && Blendable(bufs, alphas)
      && |bufs[0]| == size.width * size.height
      && Unflatten(MixAll(bufs, alphas), size.width, size.height)[y][x]
         == Mix(PixelsAt(labs, size, y, x), alphas, |labs|, 0)
  {
    var w, h := size.width, size.height;
    var bufs := LabBuffers(labs);
    var column := PixelsAt(labs, size, y, x);
    ColumnAgrees(labs, size, y, x);
    var p := y * w + x;
    UnflattenAt(MixAll(bufs, alphas), w, h, y, x);
    MixPointwise(bufs, p, column, 0, alphas, |labs|);
  }

  /** Two Lab images of the target size blended with weights
      `[1 - alpha, alpha]`: the blend and the reshape succeed, and each cell
      moves along the straight line from the first image to the second. */
  lemma MorphedPairPixel(la: Grid<Pixel>, lb: Grid<Pixel>, alpha: real, size: Size, y: nat, x: nat)
    requires HasShape(la, size.width, size.height) && HasShape(lb, size.width, size.height)
    requires y < size.height && x < size.width
    ensures var bufs := LabBuffers([la, lb]);
      && Blendable(bufs, [1.0 - alpha, alpha])
      && |bufs[0]| == size.width * size.height
      && Unflatten(MixAll(bufs, [1.0 - alpha, alpha]), size.width, size.height)[y][x]
         == Lerp(la[y][x], lb[y][x], alpha)
  {
    var labs := [la, lb];
    MorphedPixel(labs, [1.0 - alpha, alpha], size, y, x);
    var column := PixelsAt(labs, size, y, x);
    assert column == [[la[y][x]], [lb[y][x]]];
    MixLerp(column[0], column[1], alpha, 0);
  }

  /** Position `y * width + x` of every image's buffer holds the pixel at
      row `y`, column `x` of that image. */
  lemma ColumnAgrees(labs: seq<Grid<Pixel>>, size: Size, y: nat, x: nat)
    requires forall i :: 0 <= i < |labs| ==> HasShape(labs[i], size.width, size.height)
    requires y < size.height && x < size.width
    ensures |LabBuffers(labs)| == |labs|
    ensures forall i :: 0 <= i < |labs| ==> |LabBuffers(labs)[i]| == size.width * size.height
    ensures 0 <= y * size.width + x < size.width * size.height
    ensures forall i :: 0 <= i < |labs| ==>
      LabBuffers(labs)[i][y * size.width + x] == PixelsAt(labs, size, y, x)[i][0]
  {
    LabBuffersLength(labs, size);
    CellInRange(y, x, size.width, size.height);
    forall i | 0 <= i < |labs|
      ensures LabBuffers(labs)[i][y * size.width + x] == PixelsAt(labs, size, y, x)[i][0]
    {
      FlattenAt(labs[i], size.width, size.height, y, x);
    }
  }

  /** Images of one size flatten to buffers of one length. */
  lemma LabBuffersLength(labs: seq<Grid<Pixel>>, size: Size)
    requires forall i :: 0 <= i < |labs| ==> HasShape(labs[i], size.width, size.height)
    ensures |LabBuffers(labs)| == |labs|
    ensures forall i :: 0 <= i < |labs| ==> |LabBuffers(labs)[i]| == size.width * size.height
  {
    forall i | 0 <= i < |labs| ensures |LabBuffers(labs)[i]| == size.width * size.height {
      FlattenLength(labs[i], size.width, size.height);
    }
  }
}
