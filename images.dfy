/** Pixel data of the morphing script: 8-bit three-channel images laid out
    as numpy's (height, width, 3) arrays, the flat list of pixel vectors that
    `reshape((-1, 3))` makes of them, and `reshape((height, width, 3))` back. */
module Images {

  /** One uint8 channel value. */
  type Byte = x: int | 0 <= x < 256

  /** A three-channel 8-bit pixel: BGR as loaded, CIELAB after conversion. */
  datatype Pixel = Pixel(c0: Byte, c1: Byte, c2: Byte)

  /** A pixel of the float64 accumulator; real numbers stand for float64. */
  datatype Sample = Sample(c0: real, c1: real, c2: real)

  /** An image as a list of rows, each row a list of pixels. */
  type Grid<T> = seq<seq<T>>

  /** The target size `tamanho`, given as (width, height). */
  datatype Size = Size(width: nat, height: nat)

  /** `g` has `height` rows of `width` pixels each. */
  predicate HasShape<T>(g: Grid<T>, width: nat, height: nat)
  {
    |g| == height && forall y :: 0 <= y < |g| ==> |g[y]| == width
  }

  /** `reshape((-1, 3))`: the rows of the image, concatenated in order. */
  function Flatten<T>(g: Grid<T>): seq<T>
  {
    if g == [] then [] else g[0] + Flatten(g[1..])
  }

  /** A `width`-wide image of `height` rows flattens to width * height pixels. */
  lemma {:induction false} FlattenLength<T>(g: Grid<T>, width: nat, height: nat)
    requires HasShape(g, width, height)
    ensures |Flatten(g)| == width * height
  {
    if g != [] {
      FlattenLength(g[1..], width, height - 1);
      RowOffset(height, width, 0);
    }
  }

  /** Row `y`, column `x` of a `width`-wide image sits at `y * width + x` of its flattening. */
  lemma {:induction false} FlattenAt<T>(g: Grid<T>, width: nat, height: nat, y: nat, x: nat)
    requires HasShape(g, width, height)
    requires y < height && x < width
    ensures y * width + x < |Flatten(g)| && Flatten(g)[y * width + x] == g[y][x]
  {
    FlattenLength(g, width, height);
    if y > 0 {
      FlattenAt(g[1..], width, height - 1, y - 1, x);
      RowOffset(y, width, x);
    }
  }

  /** Row `y` starts one row after row `y - 1`. */
  lemma RowOffset(y: nat, width: nat, x: nat)
    requires y > 0
    ensures y * width + x == width + ((y - 1) * width + x)
    ensures width * y == width + width * (y - 1)
  {
  }

  /** A cell of a `width` by `height` image lies inside the flat buffer. */
  lemma CellInRange(y: nat, x: nat, width: nat, height: nat)
    requires y < height && x < width
    ensures y * width + x < width * height
  {
    assert (y + 1) * width <= height * width;
  }

  /** `reshape((height, width, 3))` of a flat list of exactly width * height pixels. */
  function Unflatten<T>(s: seq<T>, width: nat, height: nat): (g: Grid<T>)
    requires |s| == width * height
    ensures HasShape(g, width, height)
    decreases height
  {
    if height == 0 then []
    else
      RowOffset(height, width, 0);
      [s[..width]] + Unflatten(s[width..], width, height - 1)
  }

  /** Row `y`, column `x` of the reshaped image is pixel `y * width + x` of the flat buffer. */
  lemma {:induction false} UnflattenAt<T>(s: seq<T>, width: nat, height: nat, y: nat, x: nat)
    requires |s| == width * height
    requires y < height && x < width
    ensures y * width + x < |s| && Unflatten(s, width, height)[y][x] == s[y * width + x]
    decreases height
  {
    CellInRange(y, x, width, height);
    RowOffset(height, width, 0);
    if y > 0 {
      UnflattenAt(s[width..], width, height - 1, y - 1, x);
      RowOffset(y, width, x);
    }
  }

  /** Reshaping a flat buffer to an image and back gives the buffer again. */
  lemma {:induction false} FlattenUnflatten<T>(s: seq<T>, width: nat, height: nat)
    requires |s| == width * height
    ensures Flatten(Unflatten(s, width, height)) == s
    decreases height
  {
    if height > 0 {
      RowOffset(height, width, 0);
      var g := Unflatten(s, width, height);
      FlattenUnflatten(s[width..], width, height - 1);
      assert g[1..] == Unflatten(s[width..], width, height - 1);
      assert s == s[..width] + s[width..];
    }
  }

  /** Flattening an image and reshaping it to its own size gives the image again. */
  lemma UnflattenFlatten<T>(g: Grid<T>, width: nat, height: nat)
    requires HasShape(g, width, height)
    ensures |Flatten(g)| == width * height
    ensures Unflatten(Flatten(g), width, height) == g
  {
    FlattenLength(g, width, height);
    var h := Unflatten(Flatten(g), width, height);
    forall y | 0 <= y < height ensures h[y] == g[y] {
      forall x | 0 <= x < width ensures h[y][x] == g[y][x] {
        FlattenAt(g, width, height, y, x);
        UnflattenAt(Flatten(g), width, height, y, x);
      }
    }
  }
}
