/** The Sobel edge filter of convolution.c. */
module Sobel {
  import opened Words

  /** A greyscale picture, row by row. */
  datatype Image = Image(width: int, height: int, data: seq<byte>)

  function Index(width: int, x: int, y: int): int { y * width + x }

  predicate Inside(img: Image, x: int, y: int) { 0 <= x < img.width && 0 <= y < img.height }

  ghost predicate Valid(img: Image) { forall x, y | Inside(img, x, y) :: 0 <= Index(img.width, x, y) < |img.data| }

  /** The picture continued by black in all directions. */
  function Pixel(img: Image, x: int, y: int): int
    requires Valid(img)
  {
    if Inside(img, x, y) then img.data[Index(img.width, x, y)] else 0
  }

  // ----- reference: a smoothing and a central difference, one per direction -----

  function SmoothColumn(img: Image, x: int, y: int): int
    requires Valid(img)
  {
    Pixel(img, x, y - 1) + 2 * Pixel(img, x, y) + Pixel(img, x, y + 1)
  }

  function SmoothRow(img: Image, x: int, y: int): int
    requires Valid(img)
  {
    Pixel(img, x - 1, y) + 2 * Pixel(img, x, y) + Pixel(img, x + 1, y)
  }

  function GradientX(img: Image, x: int, y: int): int
    requires Valid(img)
  {
    SmoothColumn(img, x + 1, y) - SmoothColumn(img, x - 1, y)
  }

  function GradientY(img: Image, x: int, y: int): int
    requires Valid(img)
  {
    SmoothRow(img, x, y + 1) - SmoothRow(img, x, y - 1)
  }

  function Abs(i: int): nat { if i < 0 then -i else i }

  function Magnitude(img: Image, x: int, y: int): nat
    requires Valid(img)
  {
    Abs(GradientX(img, x, y)) + Abs(GradientY(img, x, y))
  }

  function Edge(img: Image, x: int, y: int): byte
    requires Valid(img)
  {
    if Magnitude(img, x, y) > 125 then 220 else 50
  }

  /** out is the filtered img. */
  ghost predicate IsEdgeMap(img: Image, out: Image)
    requires Valid(img) && Valid(out)
  {
    && out.width == img.width && out.height == img.height
    && forall x, y | Inside(img, x, y) :: Pixel(out, x, y) == Edge(img, x, y)
  }

  // ----- the code -----

  const KERNEL_X := [-1, 0, 1, -2, 0, 2, -1, 0, 1]
  const KERNEL_Y := [-1, -2, -1, 0, 0, 0, 1, 2, 1]

  /** The kernel's cells 0 .. k-1, row by row, applied around (x, y). */
  function Cells(img: Image, kernel: seq<int>, x: int, y: int, k: nat): int
    requires Valid(img) && k <= |kernel|
  {
    if k == 0 then 0
    else Cells(img, kernel, x, y, k - 1) + Pixel(img, x - 1 + (k - 1) % 3, y - 1 + (k - 1) / 3) * kernel[k - 1]
  }

  lemma AllCells(img: Image, x: int, y: int)
    requires Valid(img)
    ensures Cells(img, KERNEL_X, x, y, 9) == GradientX(img, x, y)
    ensures Cells(img, KERNEL_Y, x, y, 9) == GradientY(img, x, y)
  {
    hide Pixel;
    var a, b, c := Pixel(img, x - 1, y - 1), Pixel(img, x, y - 1), Pixel(img, x + 1, y - 1);
    var d, f := Pixel(img, x - 1, y), Pixel(img, x + 1, y);
    var g, h, i := Pixel(img, x - 1, y + 1), Pixel(img, x, y + 1), Pixel(img, x + 1, y + 1);
    assert Cells(img, KERNEL_X, x, y, 1) == -a;
    assert Cells(img, KERNEL_X, x, y, 3) == c - a;
    assert Cells(img, KERNEL_X, x, y, 5) == c - a - 2 * d;
    assert Cells(img, KERNEL_X, x, y, 7) == c - a - 2 * d + 2 * f - g;
    assert Cells(img, KERNEL_Y, x, y, 1) == -a;
    assert Cells(img, KERNEL_Y, x, y, 3) == -a - 2 * b - c;
    assert Cells(img, KERNEL_Y, x, y, 5) == -a - 2 * b - c;
    assert Cells(img, KERNEL_Y, x, y, 7) == -a - 2 * b - c + g;
  }

  lemma IndexUnique(width: int, x: int, y: int, u: int, v: int)
    requires 0 <= x < width && 0 <= u < width && Index(width, x, y) == Index(width, u, v)
    ensures x == u && y == v
  {
    assert width * (y - v) == u - x;
    Multiple(width, y - v);
  }

  lemma MulMono(a: int, b: int, c: int)
    requires a <= b && c >= 0
    ensures a * c <= b * c
  {}

  lemma IndexBound(width: int, height: int, x: int, y: int)
    requires 0 <= x < width && 0 <= y < height
    ensures 0 <= Index(width, x, y) < width * height
  {
    MulMono(0, y, width);
    MulMono(y, height - 1, width);
    assert (height - 1) * width == height * width - width;
  }

  lemma SizedIsValid(img: Image)
    requires img.width > 0 && img.height > 0 ==> img.width * img.height <= |img.data|
    ensures Valid(img)
  {
    forall x, y | Inside(img, x, y) ensures 0 <= Index(img.width, x, y) < |img.data| {
      IndexBound(img.width, img.height, x, y);
    }
  }

  /** Pixels before (x, y) in reading order are filtered, and nothing else has changed. */
  ghost predicate Done(img: Image, out: seq<byte>, was: seq<byte>, x: int, y: int)
    requires Valid(img)
  {
    && |out| == |was|
    && (forall u, v | Inside(img, u, v) && (v < y || (v == y && u < x)) ::
          0 <= Index(img.width, u, v) < |out| && out[Index(img.width, u, v)] == Edge(img, u, v))
    && (forall i | 0 <= i < |out| && (img.width <= 0 || img.height <= 0 || i >= img.width * img.height) ::
          out[i] == was[i])
  }

  lemma NoPixels(img: Image, out: seq<byte>)
    requires Valid(img)
    ensures Done(img, out, out, 0, 0)
  {}

  lemma OnePixel(img: Image, out: seq<byte>, was: seq<byte>, x: int, y: int)
    requires Valid(img) && Done(img, out, was, x, y) && Inside(img, x, y)
    requires img.width * img.height <= |out|
    ensures
      var at := y * img.width + x;
      0 <= at < |out| && Done(img, out[at := Edge(img, x, y)], was, x + 1, y)
  {
    hide Edge;
    IndexBound(img.width, img.height, x, y);
    forall u, v | Inside(img, u, v) && Index(img.width, u, v) == Index(img.width, x, y) ensures u == x && v == y {
      IndexUnique(img.width, u, v, x, y);
    }
  }

  lemma NextRow(img: Image, out: seq<byte>, was: seq<byte>, y: int)
    requires Valid(img) && Done(img, out, was, if img.width < 0 then 0 else img.width, y)
    ensures Done(img, out, was, 0, y + 1)
  {}

  lemma AllRows(img: Image, out: seq<byte>, was: seq<byte>, y: int)
    requires Valid(img) && Done(img, out, was, 0, y) && y >= img.height
    requires Valid(Image(img.width, img.height, out))
    ensures IsEdgeMap(img, Image(img.width, img.height, out))
    ensures |out| == |was|
    ensures forall i | 0 <= i < |out| && (img.width <= 0 || img.height <= 0 || i >= img.width * img.height) ::
      out[i] == was[i]
  {}

  lemma NextCell(img: Image, x: int, y: int, i: nat, j: nat)
    requires Valid(img) && i < 3 && j < 3
    ensures Cells(img, KERNEL_X, x, y, 0) == 0 == Cells(img, KERNEL_Y, x, y, 0)
    ensures 0 <= 3 * j + i < 9
    ensures Inside(img, x - 1 + i, y - 1 + j) ==> 0 <= (y - 1 + j) * img.width + (x - 1 + i) < |img.data|
    ensures
      var k, p := 3 * j + i, if Inside(img, x - 1 + i, y - 1 + j)
                             then img.data[(y - 1 + j) * img.width + (x - 1 + i)] else 0;
      && Cells(img, KERNEL_X, x, y, k + 1) == Cells(img, KERNEL_X, x, y, k) + p * KERNEL_X[k]
      && Cells(img, KERNEL_Y, x, y, k + 1) == Cells(img, KERNEL_Y, x, y, k) + p * KERNEL_Y[k]
  {
    var k := 3 * j + i;
    assert k % 3 == i && k / 3 == j;
  }

  /** The two inner loops of convolution_grayscale: cells outside the picture are skipped. */
  method Gradients(input: array<byte>, width: int, height: int, x: int, y: int)
    returns (gradientX: int, gradientY: int)
    requires Valid(Image(width, height, input[..])) && Inside(Image(width, height, input[..]), x, y)
    ensures gradientX == GradientX(Image(width, height, input[..]), x, y)
    ensures gradientY == GradientY(Image(width, height, input[..]), x, y)
  {
    hide Cells, Pixel, Index, GradientX, GradientY;
    ghost var img := Image(width, height, input[..]);
    NextCell(img, x, y, 0, 0);
    gradientX, gradientY := 0, 0;
    var j := 0;
    while j < 3
      invariant 0 <= j <= 3
      invariant gradientX == Cells(img, KERNEL_X, x, y, 3 * j)
      invariant gradientY == Cells(img, KERNEL_Y, x, y, 3 * j)
    {
      var i := 0;
      while i < 3
        invariant 0 <= i <= 3
        invariant gradientX == Cells(img, KERNEL_X, x, y, 3 * j + i)
        invariant gradientY == Cells(img, KERNEL_Y, x, y, 3 * j + i)
      {
        NextCell(img, x, y, i, j);
        var xIndex, yIndex := x - 1 + i, y - 1 + j;
        if xIndex >= 0 && xIndex < width && yIndex >= 0 && yIndex < height {
          var index := yIndex * width + xIndex;
          gradientX := gradientX + input[index] * KERNEL_X[j * 3 + i];
          gradientY := gradientY + input[index] * KERNEL_Y[j * 3 + i];
        }
        i := i + 1;
      }
      j := j + 1;
    }
    AllCells(img, x, y);
  }

  lemma EdgeIs(img: Image, x: int, y: int)
    requires Valid(img)
    ensures Edge(img, x, y) == if Abs(GradientX(img, x, y)) + Abs(GradientY(img, x, y)) > 125 then 220 else 50
  {}

  /** convolution_grayscale: fills output with the edge map of input and touches nothing
      behind it. */
  method ConvolutionGrayscale(input: array<byte>, output: array<byte>, width: int, height: int)
    requires input != output
    requires width > 0 && height > 0 ==> width * height <= input.Length && width * height <= output.Length
    modifies output
    ensures Valid(Image(width, height, input[..])) && Valid(Image(width, height, output[..]))
    ensures IsEdgeMap(Image(width, height, input[..]), Image(width, height, output[..]))
    ensures forall i | 0 <= i < output.Length && (width <= 0 || height <= 0 || i >= width * height) ::
      output[i] == old(output[i])
  {
    hide Pixel, Index, Edge, Done, GradientX, GradientY;
    ghost var img := Image(width, height, input[..]);
    SizedIsValid(img);
    NoPixels(img, output[..]);
    var y := 0;
    while y < height
      invariant 0 <= y <= (if height < 0 then 0 else height)
      invariant Done(img, output[..], old(output[..]), 0, y)
    {
      var x := 0;
      while x < width
        invariant 0 <= x <= (if width < 0 then 0 else width)
        invariant Done(img, output[..], old(output[..]), x, y)
      {
        var gradientX, gradientY := Gradients(input, width, height, x, y);
        var gradientMag := Abs(gradientX) + Abs(gradientY);
        ghost var before := output[..];
        OnePixel(img, before, old(output[..]), x, y);
        EdgeIs(img, x, y);
        output[y * width + x] := if gradientMag > 125 then 220 else 50;
        assert output[..] == before[y * width + x := Edge(img, x, y)];
        x := x + 1;
      }
      NextRow(img, output[..], old(output[..]), y);
      y := y + 1;
    }
    SizedIsValid(Image(width, height, output[..]));
    AllRows(img, output[..], old(output[..]), y);
  }

  // ----- laws of the filter -----

  /** Two absolute gradients cannot both be large: six weights of 255, not eight. */
  lemma MagnitudeBound(img: Image, x: int, y: int)
    requires Valid(img)
    ensures Magnitude(img, x, y) <= 1530
  {}

  lemma MagnitudeBoundTight()
    ensures
      var img := Image(3, 3, [0, 0, 255, 0, 0, 255, 255, 255, 255]);
      Valid(img) && Magnitude(img, 1, 1) == 1530
  {}

  /** The gradients are both odd or both even, so the threshold is met from 126 on. */
  lemma MagnitudeEven(img: Image, x: int, y: int)
    requires Valid(img)
    ensures Magnitude(img, x, y) % 2 == 0
  {
    hide Pixel;
    var gx, gy := GradientX(img, x, y), GradientY(img, x, y);
    var c, g := Pixel(img, x + 1, y - 1), Pixel(img, x - 1, y + 1);
    var b, d, f, h := Pixel(img, x, y - 1), Pixel(img, x - 1, y), Pixel(img, x + 1, y), Pixel(img, x, y + 1);
    var a, i := Pixel(img, x - 1, y - 1), Pixel(img, x + 1, y + 1);
    assert gx + gy == 2 * (i - a + f - d + h - b);
  }

  /** The threshold and both output values, on a picture of four columns with one pixel lit. */
  lemma CornerEdge(v: byte)
    ensures
      var img := Image(4, 3, [0, 0, 0, v, 0, 0, 0, 0, 0, 0, 0, 0]);
      Valid(img) && Edge(img, 2, 1) == (if v >= 63 then 220 else 50) && Edge(img, 1, 1) == 50
  {}

  /** A flat picture has no edges inside, and a frame along its border once it is bright enough. */
  lemma FlatPictureEdges(img: Image, c: byte, x: int, y: int)
    requires Valid(img) && img.width >= 3 && img.height >= 3 && Inside(img, x, y)
    requires forall u, v | Inside(img, u, v) :: Pixel(img, u, v) == c
    ensures
      var sides := (if x == 0 || x == img.width - 1 then 1 else 0) + (if y == 0 || y == img.height - 1 then 1 else 0);
      Edge(img, x, y) == if (sides == 1 && c >= 32) || (sides == 2 && c >= 21) then 220 else 50
  {
    forall u, v | x - 1 <= u <= x + 1 && y - 1 <= v <= y + 1
      ensures Pixel(img, u, v) == if 0 <= u < img.width && 0 <= v < img.height then c else 0
    {
      assert Inside(img, u, v) ==> Pixel(img, u, v) == c;
    }
  }

  ghost predicate Transposed(a: Image, b: Image)
    requires Valid(a) && Valid(b)
  {
    && b.width == a.height && b.height == a.width
    && forall x, y | Inside(a, x, y) :: Pixel(b, y, x) == Pixel(a, x, y)
  }

  ghost predicate MirroredX(a: Image, b: Image)
    requires Valid(a) && Valid(b)
  {
    && b.width == a.width && b.height == a.height
    && forall x, y | Inside(a, x, y) :: Pixel(b, FlipX(a, x), y) == Pixel(a, x, y)
  }

  ghost predicate MirroredY(a: Image, b: Image)
    requires Valid(a) && Valid(b)
  {
    && b.width == a.width && b.height == a.height
    && forall x, y | Inside(a, x, y) :: Pixel(b, x, FlipY(a, y)) == Pixel(a, x, y)
  }

  function FlipX(img: Image, x: int): int { img.width - 1 - x }

  function FlipY(img: Image, y: int): int { img.height - 1 - y }

  lemma TransposedPixel(a: Image, b: Image, x: int, y: int)
    requires Valid(a) && Valid(b) && Transposed(a, b)
    ensures Pixel(b, y, x) == Pixel(a, x, y)
  {}

  lemma MirroredXPixel(a: Image, b: Image, x: int, y: int)
    requires Valid(a) && Valid(b) && MirroredX(a, b)
    ensures Pixel(b, FlipX(a, x), y) == Pixel(a, x, y)
  {}

  lemma MirroredYPixel(a: Image, b: Image, x: int, y: int)
    requires Valid(a) && Valid(b) && MirroredY(a, b)
    ensures Pixel(b, x, FlipY(a, y)) == Pixel(a, x, y)
  {}

  lemma TransposedEdge(a: Image, b: Image, x: int, y: int)
    requires Valid(a) && Valid(b) && Transposed(a, b)
    ensures Edge(b, y, x) == Edge(a, x, y)
  {
    hide Pixel, Transposed;
    TransposedPixel(a, b, x - 1, y - 1); TransposedPixel(a, b, x, y - 1); TransposedPixel(a, b, x + 1, y - 1);
    TransposedPixel(a, b, x - 1, y);                                      TransposedPixel(a, b, x + 1, y);
    TransposedPixel(a, b, x - 1, y + 1); TransposedPixel(a, b, x, y + 1); TransposedPixel(a, b, x + 1, y + 1);
  }

  lemma MirroredXEdge(a: Image, b: Image, x: int, y: int)
    requires Valid(a) && Valid(b) && MirroredX(a, b)
    ensures Edge(b, FlipX(a, x), y) == Edge(a, x, y)
  {
    hide Pixel, MirroredX;
    MirroredXPixel(a, b, x - 1, y - 1); MirroredXPixel(a, b, x, y - 1); MirroredXPixel(a, b, x + 1, y - 1);
    MirroredXPixel(a, b, x - 1, y);                                     MirroredXPixel(a, b, x + 1, y);
    MirroredXPixel(a, b, x - 1, y + 1); MirroredXPixel(a, b, x, y + 1); MirroredXPixel(a, b, x + 1, y + 1);
  }

  lemma MirroredYEdge(a: Image, b: Image, x: int, y: int)
    requires Valid(a) && Valid(b) && MirroredY(a, b)
    ensures Edge(b, x, FlipY(a, y)) == Edge(a, x, y)
  {
    hide Pixel, MirroredY;
    MirroredYPixel(a, b, x - 1, y - 1); MirroredYPixel(a, b, x, y - 1); MirroredYPixel(a, b, x + 1, y - 1);
    MirroredYPixel(a, b, x - 1, y);                                     MirroredYPixel(a, b, x + 1, y);
    MirroredYPixel(a, b, x - 1, y + 1); MirroredYPixel(a, b, x, y + 1); MirroredYPixel(a, b, x + 1, y + 1);
  }

  /** The filter commutes with exchanging rows and columns, ... */
  lemma EdgesOfTransposed(a: Image, b: Image, ea: Image, eb: Image)
    requires Valid(a) && Valid(b) && Valid(ea) && Valid(eb)
    requires Transposed(a, b) && IsEdgeMap(a, ea) && IsEdgeMap(b, eb)
    ensures Transposed(ea, eb)
  {
    hide Pixel, Edge;
    forall x, y | Inside(ea, x, y) ensures Pixel(eb, y, x) == Pixel(ea, x, y) {
      TransposedEdge(a, b, x, y);
      assert Inside(a, x, y) && Inside(b, y, x);
    }
  }

  /** ... with mirroring left to right, ... */
  lemma EdgesOfMirroredX(a: Image, b: Image, ea: Image, eb: Image)
    requires Valid(a) && Valid(b) && Valid(ea) && Valid(eb)
    requires MirroredX(a, b) && IsEdgeMap(a, ea) && IsEdgeMap(b, eb)
    ensures MirroredX(ea, eb)
  {
    hide Pixel, Edge;
    forall x, y | Inside(ea, x, y) ensures Pixel(eb, FlipX(ea, x), y) == Pixel(ea, x, y) {
      MirroredXEdge(a, b, x, y);
      assert Inside(a, x, y) && Inside(b, FlipX(a, x), y);
    }
  }

  /** ... and with mirroring top to bottom. */
  lemma EdgesOfMirroredY(a: Image, b: Image, ea: Image, eb: Image)
    requires Valid(a) && Valid(b) && Valid(ea) && Valid(eb)
    requires MirroredY(a, b) && IsEdgeMap(a, ea) && IsEdgeMap(b, eb)
    ensures MirroredY(ea, eb)
  {
    hide Pixel, Edge;
    forall x, y | Inside(ea, x, y) ensures Pixel(eb, x, FlipY(ea, y)) == Pixel(ea, x, y) {
      MirroredYEdge(a, b, x, y);
      assert Inside(a, x, y) && Inside(b, x, FlipY(a, y));
    }
  }

  predicate Interior(img: Image, x: int, y: int) { 1 <= x < img.width - 1 && 1 <= y < img.height - 1 }

  /** Away from the border, the edges of the negative and of a uniformly brightened picture
      are the edges of the picture. */
  lemma EdgesIgnoreAffineTone(a: Image, b: Image, sign: int, offset: int, x: int, y: int)
    requires Valid(a) && Valid(b) && a.width == b.width && a.height == b.height
    requires (sign == 1 || sign == -1)
    requires forall u, v | Inside(a, u, v) :: Pixel(b, u, v) == sign * Pixel(a, u, v) + offset
    requires Interior(a, x, y)
    ensures Edge(b, x, y) == Edge(a, x, y)
  {
    hide Pixel;
    forall u, v | x - 1 <= u <= x + 1 && y - 1 <= v <= y + 1 ensures Inside(a, u, v) {}
    assert GradientX(b, x, y) == sign * GradientX(a, x, y);
    assert GradientY(b, x, y) == sign * GradientY(a, x, y);
  }
}
