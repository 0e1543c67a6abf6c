// The greyscale ("L" mode) image operations find_rainclouds uses.  An image
// is a sequence of rows of 8-bit pixels.  The operations that give a new
// image in PIL (Image.point, ImageOps.invert, ImageChops.offset) are
// functions on image values; the ones that change an image in place
// (putdata, putpixel, paste) are methods of Canvas, over a two-dimensional
// array.

module Raster {

  type Pixel = v: int | 0 <= v <= 255

  type Image = seq<seq<Pixel>>

  /** An image with h rows of w pixels. */
  predicate IsImage(img: Image, w: nat, h: nat) {
    |img| == h && forall y :: 0 <= y < h ==> |img[y]| == w
  }

  predicate SameShape(a: Image, b: Image) {
    |a| == |b| && forall y :: 0 <= y < |a| ==> |a[y]| == |b[y]|
  }

  /** Every pixel is black (0) or white (255). */
  predicate IsBinary(img: Image) {
    forall y, x :: 0 <= y < |img| && 0 <= x < |img[y]| ==> img[y][x] == 0 || img[y][x] == 255
  }

  /** Image.new("L", (w, h)): all black. */
  function Blank(w: nat, h: nat): (img: Image)
    ensures IsImage(img, w, h)
  {
    seq(h, y => seq(w, x => 0))
  }

  // ---- Image.point(lambda p: p > threshold and 255) ----

  const CloudThreshold: int := 191

  /** The value `p > 191 and 255` gives for a pixel: 255, or False, which PIL stores as 0. */
  function ThresholdPixel(p: Pixel): Pixel {
    if p > CloudThreshold then 255 else 0
  }

  function Threshold(img: Image): (r: Image)
    ensures SameShape(r, img)
    ensures forall y, x :: 0 <= y < |r| && 0 <= x < |r[y]| ==> r[y][x] == ThresholdPixel(img[y][x])
  {
    seq(|img|, y requires 0 <= y < |img| => seq(|img[y]|, x requires 0 <= x < |img[y]| => ThresholdPixel(img[y][x])))
  }

  /** The cloud mask is two-valued: white exactly where the enhanced image is brighter than 191. */
  lemma ThresholdIsBinary(img: Image)
    ensures IsBinary(Threshold(img))
    ensures forall y, x :: 0 <= y < |img| && 0 <= x < |img[y]| ==>
              (Threshold(img)[y][x] == 255 <==> img[y][x] > CloudThreshold)
  {
  }

  // ---- ImageOps.invert ----

  function Invert(img: Image): (r: Image)
    ensures SameShape(r, img)
    ensures forall y, x :: 0 <= y < |r| && 0 <= x < |r[y]| ==> r[y][x] == 255 - img[y][x]
  {
    seq(|img|, y requires 0 <= y < |img| => seq(|img[y]|, x requires 0 <= x < |img[y]| => 255 - img[y][x]))
  }

  /** Inverting twice gives the image back, and a binary image stays binary. */
  lemma InvertInvolution(img: Image)
    ensures Invert(Invert(img)) == img
    ensures IsBinary(img) ==> IsBinary(Invert(img))
  {
    var r := Invert(Invert(img));
    assert |r| == |img|;
    forall y | 0 <= y < |img|
      ensures r[y] == img[y]
    {
      assert |r[y]| == |img[y]|;
    }
  }

  // ---- ImageChops.offset(img, dx, 0): a horizontal shift that wraps around ----

  function Offset(img: Image, dx: int): (r: Image)
    ensures SameShape(r, img)
  {
    seq(|img|, y requires 0 <= y < |img| =>
      seq(|img[y]|, x requires 0 <= x < |img[y]| => img[y][(x - dx) % |img[y]|]))
  }

  /** Column x of the result shows column (x - dx) mod width of the image. */
  lemma OffsetAt(img: Image, dx: int, y: nat, x: nat)
    requires y < |img| && x < |img[y]|
    ensures Offset(img, dx)[y][x] == img[y][(x - dx) % |img[y]|]
  {
  }

  /** The pixel of column c moves to column (c + dx) mod width. */
  lemma OffsetMoves(img: Image, dx: int, y: nat, c: nat)
    requires y < |img| && c < |img[y]|
    ensures Offset(img, dx)[y][(c + dx) % |img[y]|] == img[y][c]
  {
    var w := |img[y]|;
    var x := (c + dx) % w;
    ModShift(c, dx, w);
  }

  /** Shifting by dx and then by -dx gives the image back. */
  lemma OffsetRoundTrip(img: Image, dx: int)
    ensures Offset(Offset(img, dx), -dx) == img
  {
    var r := Offset(Offset(img, dx), -dx);
    forall y | 0 <= y < |img|
      ensures r[y] == img[y]
    {
      var w := |img[y]|;
      forall x | 0 <= x < w
        ensures r[y][x] == img[y][x]
      {
        ModShift(x, dx, w);
      }
    }
  }

  /** ((c + d) mod w - d) mod w == c for a column c. */
  lemma ModShift(c: int, d: int, w: int)
    requires 0 <= c < w
    ensures ((c + d) % w - d) % w == c
    ensures (c - (-d)) % w == (c + d) % w
  {
    var q := (c + d) / w;
    assert (c + d) % w == c + d - q * w;
    var e := (c + d) % w - d;
    assert e == c - q * w;
    ModMultiple(c, -q, w);
  }

  lemma ModMultiple(c: int, k: int, w: int)
    requires 0 <= c < w
    ensures (c + k * w) % w == c
  {
    DivModUnique(c + k * w, w, k, c);
  }

  /** Euclidean division is unique: n == q * w + r with 0 <= r < w fixes q and r. */
  lemma DivModUnique(n: int, w: int, q: int, r: int)
    requires 0 <= r < w && n == q * w + r
    ensures n / w == q && n % w == r
  {
    var q', r' := n / w, n % w;
    assert n == q' * w + r';
    assert (q - q') * w == r' - r by {
      assert (q - q') * w == q * w - q' * w;
    }
    if q - q' >= 1 {
      MulAtLeast(q - q', w);
    } else if q' - q >= 1 {
      assert (q' - q) * w == -((q - q') * w);
      MulAtLeast(q' - q, w);
    }
  }

  lemma MulAtLeast(a: int, w: int)
    requires a >= 1 && w > 0
    ensures a * w >= w
  {
    assert a * w == (a - 1) * w + w;
    assert (a - 1) * w >= 0;
  }

  // ---- paste(src, (0, 0), mask) ----

  /** PIL's blend of one pixel: round((dst * (255 - m) + src * m) / 255), computed
      as ((t + 128) + ((t + 128) >> 8)) >> 8. */
  function Blend(dst: Pixel, src: Pixel, m: Pixel): (r: Pixel) {
    var t := dst * (255 - m) + src * m + 128;
    BlendInRange(dst, src, m);
    (t + t / 256) / 256
  }

  lemma BlendInRange(dst: Pixel, src: Pixel, m: Pixel)
    ensures var t := dst * (255 - m) + src * m + 128; 0 <= (t + t / 256) / 256 <= 255
  {
    var a, b := dst * (255 - m), src * m;
    MulMono(dst, 255, 255 - m);
    MulMono(src, 255, m);
    assert 0 <= a + b <= 65025;
    RoundedDiv255InRange(a + b + 128);
  }

  lemma RoundedDiv255InRange(t: int)
    requires 0 <= t <= 65153
    ensures 0 <= (t + t / 256) / 256 <= 255
  {
    assert 0 <= t / 256 <= 254;
  }

  /** A black mask pixel keeps the destination, a white one takes the source. */
  lemma BlendSelects(dst: Pixel, src: Pixel)
    ensures Blend(dst, src, 0) == dst
    ensures Blend(dst, src, 255) == src
  {
    Div255Exact(dst);
    Div255Exact(src);
  }

  lemma Div255Exact(v: Pixel)
    ensures var t := 255 * v + 128; (t + t / 256) / 256 == v
  {
    var t := 255 * v + 128;
    if v <= 128 {
      assert t == 256 * v + (128 - v);
      assert t / 256 == v;
    } else {
      assert t == 256 * (v - 1) + (384 - v);
      assert t / 256 == v - 1;
    }
  }

  /** The image `dst` becomes after dst.paste(src, (0, 0), mask), all three of one shape. */
  function Pasted(dst: Image, src: Image, mask: Image): (r: Image)
    requires SameShape(dst, src) && SameShape(dst, mask)
    ensures SameShape(r, dst)
  {
    seq(|dst|, y requires 0 <= y < |dst| =>
      seq(|dst[y]|, x requires 0 <= x < |dst[y]| => Blend(dst[y][x], src[y][x], mask[y][x])))
  }

  /** With a binary mask, paste is an exact per-pixel choice. */
  lemma PastedSelects(dst: Image, src: Image, mask: Image, y: nat, x: nat)
    requires SameShape(dst, src) && SameShape(dst, mask) && IsBinary(mask)
    requires y < |dst| && x < |dst[y]|
    ensures Pasted(dst, src, mask)[y][x] == if mask[y][x] == 0 then dst[y][x] else src[y][x]
  {
    BlendSelects(dst[y][x], src[y][x]);
  }

  /** An image pasted with itself as the mask: white pixels of the mask come out white,
      every other pixel is unchanged. */
  lemma PasteSelfMask(dst: Image, m: Image)
    requires SameShape(dst, m) && IsBinary(m)
    ensures forall y, x :: 0 <= y < |dst| && 0 <= x < |dst[y]| ==>
              Pasted(dst, m, m)[y][x] == if m[y][x] == 255 then 255 else dst[y][x]
  {
    forall y, x | 0 <= y < |dst| && 0 <= x < |dst[y]|
      ensures Pasted(dst, m, m)[y][x] == if m[y][x] == 255 then 255 else dst[y][x]
    {
      PastedSelects(dst, m, m, y, x);
    }
  }

  // ---- putdata / putpixel ----

  /** The image after putdata(data): the flat list fills the pixels in row-major
      order; pixels past the end of the list keep their value. */
  function PutData(img: Image, w: nat, data: seq<Pixel>): (r: Image)
    requires forall y :: 0 <= y < |img| ==> |img[y]| == w
    ensures SameShape(r, img)
  {
    seq(|img|, y requires 0 <= y < |img| =>
      seq(w, x requires 0 <= x < w => if y * w + x < |data| then data[y * w + x] else img[y][x]))
  }

  /** An image whose pixels are taken, row-major, from a list of exactly w * h values. */
  lemma PutDataFull(img: Image, w: nat, h: nat, data: seq<Pixel>, y: nat, x: nat)
    requires IsImage(img, w, h) && |data| == w * h && y < h && x < w
    ensures y * w + x < |data| && PutData(img, w, data)[y][x] == data[y * w + x]
  {
    assert y * w + x < (y + 1) * w <= h * w by {
      assert (y + 1) * w == y * w + w;
      assert y + 1 <= h;
      MulMono(y + 1, h, w);
    }
  }

  /** The image after putpixel((x, y), v). */
  function WithPixel(img: Image, x: nat, y: nat, v: Pixel): (r: Image)
    requires y < |img| && x < |img[y]|
    ensures SameShape(r, img) && r[y][x] == v
    ensures forall y', x' :: 0 <= y' < |img| && 0 <= x' < |img[y']| && (y', x') != (y, x) ==> r[y'][x'] == img[y'][x']
  {
    var row: seq<Pixel> := img[y][x := v];
    img[y := row]
  }

  /** Images are equal when their shapes and all their pixels are. */
  lemma ImageExt(a: Image, b: Image)
    requires SameShape(a, b)
    requires forall y, x :: 0 <= y < |a| && 0 <= x < |a[y]| ==> a[y][x] == b[y][x]
    ensures a == b
  {
    forall y | 0 <= y < |a|
      ensures a[y] == b[y]
    {
    }
  }

  lemma MulMono(a: nat, b: nat, w: nat)
    requires a <= b
    ensures 0 <= a * w <= b * w
  {
  }

  /** An in-place greyscale image. */
  class Canvas {
    const width: nat
    const height: nat
    const px: array2<Pixel>

    ghost predicate Valid()
      reads this
    {
      px.Length0 == height && px.Length1 == width
    }

    function Content(): (img: Image)
      reads this, px
      requires Valid()
      ensures IsImage(img, width, height)
    {
      seq(height, y requires 0 <= y < height reads px =>
        seq(width, x requires 0 <= x < width reads px => px[y, x]))
    }

    /** Image.new("L", (w, h)) */
    constructor New(w: nat, h: nat)
      ensures Valid() && fresh(px)
      ensures width == w && height == h && Content() == Blank(w, h)
    {
      width, height := w, h;
      px := new Pixel[h, w]((y, x) => 0);
      new;
      ImageExt(Content(), Blank(w, h));
    }

    /** A new image object holding the pixels of an image value (the result of
        Image.point, ImageOps.invert or ImageChops.offset). */
    constructor FromPixels(img: Image, w: nat, h: nat)
      requires IsImage(img, w, h)
      ensures Valid() && fresh(px)
      ensures width == w && height == h && Content() == img
    {
      width, height := w, h;
      px := new Pixel[h, w]((y, x) requires 0 <= y < h && 0 <= x < w => img[y][x]);
      new;
      ImageExt(Content(), img);
    }

    /** putdata(data) */
    method PutDataIn(data: seq<Pixel>)
      requires Valid()
      modifies px
      ensures Content() == PutData(old(Content()), width, data)
    {
      ghost var before := Content();
      var k := 0;
      for y := 0 to height
        invariant k == y * width
        invariant forall y', x' :: 0 <= y' < height && 0 <= x' < width ==>
                    px[y', x'] == if y' < y then PutData(before, width, data)[y'][x'] else before[y'][x']
      {
        for x := 0 to width
          invariant k == y * width + x
          invariant forall y', x' :: 0 <= y' < height && 0 <= x' < width ==>
                      px[y', x'] == if y' < y || (y' == y && x' < x) then PutData(before, width, data)[y'][x'] else before[y'][x']
        {
          if k < |data| {
            px[y, x] := data[k];
          }
          k := k + 1;
        }
      }
      ImageExt(Content(), PutData(before, width, data));
    }

    /** putpixel((x, y), v) */
    method PutPixel(x: nat, y: nat, v: Pixel)
      requires Valid() && x < width && y < height
      modifies px
      ensures Content() == WithPixel(old(Content()), x, y, v)
    {
      ghost var before := Content();
      px[y, x] := v;
      ImageExt(Content(), WithPixel(before, x, y, v));
    }

    /** paste(src, (0, 0), mask) with src and mask of the canvas's own size. */
    method Paste(src: Image, mask: Image)
      requires Valid() && IsImage(src, width, height) && IsImage(mask, width, height)
      modifies px
      ensures Content() == Pasted(old(Content()), src, mask)
    {
      ghost var before := Content();
      for y := 0 to height
        invariant forall y', x' :: 0 <= y' < height && 0 <= x' < width ==>
                    px[y', x'] == if y' < y then Pasted(before, src, mask)[y'][x'] else before[y'][x']
      {
        for x := 0 to width
          invariant forall y', x' :: 0 <= y' < height && 0 <= x' < width ==>
                      px[y', x'] == if y' < y || (y' == y && x' < x) then Pasted(before, src, mask)[y'][x'] else before[y'][x']
        {
          px[y, x] := Blend(px[y, x], src[y][x], mask[y][x]);
        }
      }
      ImageExt(Content(), Pasted(before, src, mask));
    }
  }
}
