/** `redimensiona_imagens`: every image is resampled to the common target
    size. The resampling itself (OpenCV's bilinear `cv2.resize`) is foreign
    code and enters the model as the function parameter `resize`. */
module Resizing {
  import opened Images

  /** Builds the list of resized images by appending one result per input. */
  method ResizeAll(images: seq<Grid<Pixel>>, size: Size, resize: (Grid<Pixel>, Size) -> Grid<Pixel>)
    returns (resized: seq<Grid<Pixel>>)
    ensures |resized| == |images|
    ensures forall i :: 0 <= i < |images| ==> resized[i] == resize(images[i], size)
  {
    resized := [];
    for j := 0 to |images|
      invariant |resized| == j
      invariant forall i :: 0 <= i < j ==> resized[i] == resize(images[i], size)
    {
      resized := resized + [resize(images[j], size)];
    }
  }
}
