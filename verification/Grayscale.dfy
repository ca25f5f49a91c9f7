/** The three conversions of grayscale.c, and how they fit together. */
module Grayscale {
  import opened Words

  /** struct img_1D_t. */
  datatype Image1D = Image1D(width: int, height: int, components: int, data: array<byte>) {
    function Pixels(): nat { if width * height > 0 then width * height else 0 }
  }

  /** The number of the pixel in column u of row v. */
  function At(img: Image1D, u: int, v: int): int { v * img.width + u }

  /** A position inside the picture. */
  predicate Inside(img: Image1D, u: int, v: int) { 0 <= u < img.width && 0 <= v < img.height }

  lemma {:induction false} RowsBefore(width: nat, v: nat, height: nat)
    requires v <= height
    ensures v * width <= height * width
    decreases height
  {
    if v < height {
      RowsBefore(width, v, height - 1);
      assert height * width == (height - 1) * width + width;
    }
  }

  lemma PixelInside(img: Image1D, u: int, v: int)
    requires Inside(img, u, v)
    ensures 0 <= At(img, u, v) < img.Pixels()
  {
    RowsBefore(img.width, 0, v);
    RowsBefore(img.width, v + 1, img.height);
    assert (v + 1) * img.width == v * img.width + img.width;
  }

  /** The pixels of a picture are those of its rows and columns, and no others. */
  lemma EveryPixel(img: Image1D, p: nat)
    requires img.width >= 0 && img.height >= 0
    ensures p < img.Pixels() <==> exists u, v | Inside(img, u, v) :: p == At(img, u, v)
  {
    if p < img.Pixels() {
      var u, v := p % img.width, p / img.width;
      if v >= img.height { RowsBefore(img.width, img.height, v); }
      assert Inside(img, u, v) && p == At(img, u, v);
    }
    forall u, v | Inside(img, u, v) ensures At(img, u, v) < img.Pixels() { PixelInside(img, u, v); }
  }

  /** Where pixel i starts. */
  function Start(i: nat, c: nat): nat { i * c }

  lemma StartNext(i: nat, c: nat)
    ensures Start(0, c) == 0 && Start(i + 1, c) == Start(i, c) + c
  {}

  lemma {:induction false} StartOrder(i: nat, j: nat, c: nat)
    requires i <= j
    ensures Start(i, c) + (j - i) <= Start(j, c) || c == 0
    ensures i < j ==> Start(i, c) + c <= Start(j, c)
    decreases j
  {
    hide Start;
    if i < j {
      StartOrder(i, j - 1, c);
      StartNext(j - 1, c);
    }
  }

  /** The bytes of pixel i. */
  function Pixel(s: seq<byte>, i: nat, c: nat): (p: seq<byte>)
    requires Start(i, c) + c <= |s|
    ensures |p| == c
  {
    s[Start(i, c)..][..c]
  }

  function Mean(p: seq<byte>): byte
    requires |p| >= 3
  {
    (p[0] as int + p[1] as int + p[2] as int) / 3
  }

  /** One grey value per pixel. */
  function Greys(s: seq<byte>, n: nat, c: nat): (g: seq<byte>)
    requires c >= 3 && Start(n, c) <= |s|
    ensures |g| == n
  {
    seq(n, i requires 0 <= i < n => StartOrder(i, n, c); Mean(Pixel(s, i, c)))
  }

  /** now is was with the colours of the first pixels set to the values v. */
  ghost predicate Painted(v: seq<byte>, was: seq<byte>, now: seq<byte>, c: nat)
    requires c >= 3
  {
    && |now| == |was| && Start(|v|, c) <= |was|
    && (forall i | 0 <= i < |v| :: PaintedAt(v[i], was, now, i, c))
    && now[Start(|v|, c)..] == was[Start(|v|, c)..]
  }

  ghost predicate PaintedAt(g: byte, was: seq<byte>, now: seq<byte>, i: nat, c: nat)
    requires c >= 3
  {
    && |now| == |was| && Start(i, c) + c <= |was|
    && Pixel(now, i, c) == [g, g, g] + Pixel(was, i, c)[3..]
  }

  /** Painting the next pixel. */
  lemma PaintNext(v: seq<byte>, g: byte, was: seq<byte>, now: seq<byte>, next: seq<byte>, c: nat)
    requires c >= 3 && Painted(v, was, now, c) && Start(|v|, c) + c <= |was|
    requires var s := Start(|v|, c); next == now[..s] + [g, g, g] + now[s + 3..]
    ensures Painted(v + [g], was, next, c)
  {
    hide Start;
    var n, s := |v|, Start(|v|, c);
    StartNext(n, c);
    assert next[s + c..] == now[s..][c..] == was[s + c..];
    forall i | 0 <= i < |v + [g]| ensures PaintedAt((v + [g])[i], was, next, i, c) {
      if i < n {
        StartOrder(i, n, c);
        assert PaintedAt(v[i], was, now, i, c);
        assert Pixel(next, i, c) == Pixel(now, i, c);
      } else {
        assert next[s..] == [g, g, g] + now[s..][3..];
        assert now[s..] == was[s..];
        assert Pixel(next, n, c) == [g, g, g] + Pixel(was, n, c)[3..];
      }
    }
  }

  /** The grey value of pixel i, from what is left of the image there. */
  lemma MeanOfPixel(s: seq<byte>, rest: seq<byte>, n: nat, i: nat, c: nat)
    requires c >= 3 && Start(n, c) <= |s| && i < n
    requires Start(i, c) <= |s| && rest == s[Start(i, c)..]
    ensures |rest| >= c && Greys(s, n, c)[i] == (rest[0] as int + rest[1] as int + rest[2] as int) / 3
  {
    StartOrder(i, n, c);
  }

  /** The first i values stand in front of what was there. */
  predicate Stored(v: seq<byte>, was: seq<byte>, now: seq<byte>, i: nat) {
    |now| == |was| && i <= |v| && i <= |now| && now[..i] == v[..i] && now[i..] == was[i..]
  }

  lemma StoreNext(v: seq<byte>, was: seq<byte>, now: seq<byte>, next: seq<byte>, i: nat)
    requires Stored(v, was, now, i) && i < |v| && i < |was|
    requires next == now[..i] + [v[i]] + now[i + 1..]
    ensures Stored(v, was, next, i + 1)
    ensures forall j | i < j <= |was| :: next[j..] == now[j..]
  {
    assert next[i + 1..] == now[i..][1..];
    assert v[..i + 1] == v[..i] + [v[i]];
  }

  // ----- the conversions -----

  /** rgba_to_grayscale32; the two images may share their data. */
  method RgbaToGrayscale32(img: Image1D, result: Image1D)
    requires img.components == 4
    requires Start(img.Pixels(), 4) <= img.data.Length && Start(img.Pixels(), 4) <= result.data.Length
    modifies result.data
    ensures Painted(Greys(old(img.data[..]), img.Pixels(), 4), old(result.data[..]), result.data[..], 4)
  {
    var currentData, resultData := img.data, result.data;
    var imgSize := img.width * img.height * img.components;
    ghost var n, src, was := img.Pixels(), img.data[..], resultData[..];
    ghost var greys := Greys(src, n, 4);
    var i := 0;
    ghost var k := 0;
    while i < imgSize
      invariant 0 <= k <= n && i == Start(k, 4)
      invariant Painted(greys[..k], was, resultData[..], 4)
      invariant currentData[i..] == src[i..]
    {
      StartNext(k, 4);
      StartOrder(k + 1, n, 4);
      var pixelVal: byte := (currentData[i] as int + currentData[i + 1] as int + currentData[i + 2] as int) / 3;
      MeanOfPixel(src, currentData[i..], n, k, 4);
      ghost var now := resultData[..];
      resultData[i] := pixelVal;
      resultData[i + 1] := pixelVal;
      resultData[i + 2] := pixelVal;
      PaintNext(greys[..k], pixelVal, was, now, resultData[..], 4);
      assert greys[..k + 1] == greys[..k] + [pixelVal];
      i, k := i + 4, k + 1;
    }
    assert greys[..k] == greys;
  }

  /** rgba_to_grayscale8; the result may overwrite the image's own data. */
  method RgbaToGrayscale8(img: Image1D, result: array<byte>)
    requires img.components >= 3
    requires Start(img.Pixels(), img.components) <= img.data.Length && img.Pixels() <= result.Length
    modifies result
    ensures result[..img.Pixels()] == Greys(old(img.data[..]), img.Pixels(), img.components)
    ensures result[img.Pixels()..] == old(result[img.Pixels()..])
  {
    hide Start, Greys;
    var imgSize := img.width * img.height;
    ghost var n, c, src := img.Pixels(), img.components, img.data[..];
    ghost var greys := Greys(src, n, c);
    var i, at := 0, 0;
    StartNext(0, c);
    while i < imgSize
      invariant 0 <= i <= n && at == Start(i, c) && i <= at <= img.data.Length
      invariant Stored(greys, old(result[..]), result[..], i)
      invariant img.data[at..] == src[at..]
    {
      StartNext(i, c);
      StartOrder(i + 1, n, c);
      MeanOfPixel(src, img.data[at..], n, i, c);
      ghost var now := result[..];
      result[i] := (img.data[at] as int + img.data[at + 1] as int + img.data[at + 2] as int) / 3;
      assert result[..] == now[..i] + [greys[i]] + now[i + 1..];
      StoreNext(greys, old(result[..]), now, result[..], i);
      i, at := i + 1, at + img.components;
    }
  }

  /** grayscale_to_rgba. */
  method GrayscaleToRgba(greyBuffer: array<byte>, result: Image1D)
    requires greyBuffer != result.data && result.components >= 3
    requires Start(result.Pixels(), result.components) <= result.data.Length && result.Pixels() <= greyBuffer.Length
    modifies result.data
    ensures Painted(greyBuffer[..result.Pixels()], old(result.data[..]), result.data[..], result.components)
  {
    ghost var n, was := result.Pixels(), result.data[..];
    var i := 0;
    while i < result.width * result.height
      invariant 0 <= i <= n
      invariant Painted(greyBuffer[..i], was, result.data[..], result.components)
    {
      ghost var now := result.data[..];
      StartNext(i, result.components);
      StartOrder(i + 1, n, result.components);
      result.data[i * result.components] := greyBuffer[i];
      result.data[i * result.components + 1] := greyBuffer[i];
      result.data[i * result.components + 2] := greyBuffer[i];
      PaintNext(greyBuffer[..i], greyBuffer[i], was, now, result.data[..], result.components);
      assert greyBuffer[..i + 1] == greyBuffer[..i] + [greyBuffer[i]];
      i := i + 1;
    }
  }

  // ----- pixel by pixel -----

  lemma {:induction false} StartIs(p: nat, n: nat, c: nat)
    requires p < n
    ensures Start(p, c) == p * c && Start(p, c) + c <= Start(n, c)
  {
    StartOrder(p, n, c);
  }

  /** The grey value of the pixel in column u of row v is the mean of its three colour bytes. */
  lemma GreyOfPixel(img: Image1D, s: seq<byte>, c: nat, u: int, v: int)
    requires c >= 3 && Start(img.Pixels(), c) <= |s| && Inside(img, u, v)
    ensures
      var p, at := v * img.width + u, (v * img.width + u) * c;
      && 0 <= p < img.Pixels() && 0 <= at && at + 3 <= |s|
      && Greys(s, img.Pixels(), c)[p] == (s[at] as int + s[at + 1] as int + s[at + 2] as int) / 3
  {
    var p := At(img, u, v);
    PixelInside(img, u, v);
    StartIs(p, img.Pixels(), c);
    MeanOfPixel(s, s[Start(p, c)..], img.Pixels(), p, c);
  }

  /** Painting sets the three colour bytes of the pixel in column u of row v and leaves its others. */
  lemma PaintOfPixel(img: Image1D, g: seq<byte>, was: seq<byte>, now: seq<byte>, c: nat, u: int, v: int)
    requires c >= 3 && |g| == img.Pixels() && Painted(g, was, now, c) && Inside(img, u, v)
    ensures
      var p, at := v * img.width + u, (v * img.width + u) * c;
      && 0 <= p < |g| && 0 <= at && at + c <= |now| == |was|
      && now[at..at + c] == [g[p], g[p], g[p]] + was[at + 3..at + c]
  {
    var p := At(img, u, v);
    PixelInside(img, u, v);
    StartIs(p, img.Pixels(), c);
    assert PaintedAt(g[p], was, now, p, c);
    SliceIs(now, Start(p, c), c);
    SliceIs(was, Start(p, c), c);
  }

  lemma SliceIs(s: seq<byte>, at: nat, c: nat)
    requires c >= 3 && at + c <= |s|
    ensures s[at..][..c] == s[at..at + c] && s[at..][..c][3..] == s[at + 3..at + c]
  {}

  // ----- how they fit together -----

  /** What was painted is what the grey conversion reads back. */
  lemma GreysOfPainted(v: seq<byte>, was: seq<byte>, now: seq<byte>, c: nat)
    requires c >= 3 && Painted(v, was, now, c)
    ensures Greys(now, |v|, c) == v
  {
    forall i | 0 <= i < |v| ensures Greys(now, |v|, c)[i] == v[i] {
      assert PaintedAt(v[i], was, now, i, c);
      StartOrder(i, |v|, c);
    }
  }

  lemma {:induction false} PaintedPrefix(v: seq<byte>, was: seq<byte>, a: seq<byte>, b: seq<byte>, c: nat, k: nat)
    requires c >= 3 && Painted(v, was, a, c) && Painted(v, was, b, c) && k <= |v|
    ensures Start(k, c) <= |was| && a[..Start(k, c)] == b[..Start(k, c)]
  {
    hide Start;
    StartNext(0, c);
    if k > 0 {
      PaintedPrefix(v, was, a, b, c, k - 1);
      StartNext(k - 1, c);
      StartOrder(k, |v|, c);
      var s := Start(k - 1, c);
      assert PaintedAt(v[k - 1], was, a, k - 1, c) && PaintedAt(v[k - 1], was, b, k - 1, c);
      assert a[..s + c] == a[..s] + Pixel(a, k - 1, c) && b[..s + c] == b[..s] + Pixel(b, k - 1, c);
    }
  }

  /** The values determine the picture; so going through one grey byte per pixel and back paints as grayscale32 does. */
  lemma PaintedUnique(v: seq<byte>, was: seq<byte>, a: seq<byte>, b: seq<byte>, c: nat)
    requires c >= 3 && Painted(v, was, a, c) && Painted(v, was, b, c)
    ensures a == b
  {
    var s := Start(|v|, c);
    PaintedPrefix(v, was, a, b, c, |v|);
    assert a == a[..s] + a[s..] && b == b[..s] + b[s..];
  }

  /** The two ways to a grey RGBA picture leave the same bytes. */
  method BothWays(img: Image1D, direct: Image1D, buffer: array<byte>, back: Image1D)
    requires img.components == 4 && back.components == 4 && back.Pixels() == direct.Pixels() == img.Pixels()
    requires Start(img.Pixels(), 4) <= img.data.Length && Start(img.Pixels(), 4) <= direct.data.Length
    requires Start(img.Pixels(), 4) <= back.data.Length && img.Pixels() <= buffer.Length
    requires img.data != direct.data && img.data != buffer && direct.data != buffer
    requires back.data != img.data && back.data != direct.data && back.data != buffer
    requires direct.data[..] == back.data[..]
    modifies direct.data, buffer, back.data
    ensures direct.data[..] == back.data[..]
    ensures Greys(back.data[..], img.Pixels(), 4) == buffer[..img.Pixels()]
  {
    RgbaToGrayscale32(img, direct);
    RgbaToGrayscale8(img, buffer);
    GrayscaleToRgba(buffer, back);
    PaintedUnique(buffer[..img.Pixels()], old(back.data[..]), direct.data[..], back.data[..], 4);
    GreysOfPainted(buffer[..img.Pixels()], old(back.data[..]), back.data[..], 4);
  }
}
