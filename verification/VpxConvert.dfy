/**
 The BGRA to I420 conversion in front of the VP8 encoder (optional/cast/VpxEncoder.cpp): one luma sample a
 pixel, one pair of chroma samples for every block of two by two, written in place into three planes.
 */
module VpxConvert {
  import opened Arith
  import opened Bytes

  datatype Pixel = Pixel(b: byte, g: byte, r: byte)

  // ------------------------------------------------------------------ colour

  function Luma(p: Pixel): (v: byte) {
    (77 * p.r as int + 150 * p.g as int + 29 * p.b as int) / 0x100
  }

  function BlueDifference(p: Pixel): (v: byte) {
    (-43 * p.r as int - 85 * p.g as int + 128 * p.b as int) / 0x100 + 128
  }

  function RedDifference(p: Pixel): (v: byte) {
    (128 * p.r as int - 107 * p.g as int - 21 * p.b as int) / 0x100 + 128
  }

  function Clamped(v: int): byte {
    if v < 0 then 0 else if v > 255 then 255 else v
  }

  // ------------------------------------------------------------------ pixels and blocks

  function OctetAt(pix: bytes, at: nat): byte {
    if at < |pix| then pix[at] else 0
  }

  function PixelAt(pix: bytes, stride: nat, x: nat, y: nat): Pixel {
    var at := y * stride + 4 * x;
    Pixel(OctetAt(pix, at), OctetAt(pix, at + 1), OctetAt(pix, at + 2))
  }

  /** An image of `w` by `h` pixels in rows `stride` octets apart. */
  datatype Image = Image(pix: bytes, stride: nat, w: nat, h: nat) {
    predicate Valid() {
      w > 0 && h > 0 ==> 4 * w <= stride && (h - 1) * stride + 4 * w <= |pix|
    }

    function At(x: nat, y: nat): Pixel {
      PixelAt(pix, stride, x, y)
    }

    /** The pixels of row `y` that the block at column `x` has, one at the right edge of an odd width. */
    function RowPart(x: nat, y: nat): seq<Pixel> {
      if y >= h || x >= w then [] else [At(x, y)] + if x + 1 < w then [At(x + 1, y)] else []
    }

    function Block(x: nat, y: nat): seq<Pixel> {
      RowPart(x, y) + RowPart(x, y + 1)
    }

    function Average(cx: nat, cy: nat): Pixel {
      Mean(Block(2 * cx, 2 * cy))
    }
  }

  datatype Sum = Sum(b: nat, g: nat, r: nat, n: nat)

  function Total(ps: seq<Pixel>): (s: Sum)
    ensures s.n == |ps| && s.b <= 255 * s.n && s.g <= 255 * s.n && s.r <= 255 * s.n
  {
    if ps == [] then Sum(0, 0, 0, 0)
    else
      var t, p := Total(ps[..|ps| - 1]), ps[|ps| - 1];
      Sum(t.b + p.b, t.g + p.g, t.r + p.r, t.n + 1)
  }

  lemma QuotientIsByte(sum: nat, n: nat)
    requires n > 0 && sum <= 255 * n
    ensures 0 <= sum / n < 0x100
  {
    Division(sum, n);
    assert n * (255 - sum / n) == n * 255 - n * (sum / n);
    WholeMultiple(n, 255 - sum / n);
  }

  /** The truncated mean of each channel. */
  function Mean(ps: seq<Pixel>): Pixel {
    var t := Total(ps);
    if t.n == 0 then Pixel(0, 0, 0)
    else
      QuotientIsByte(t.b, t.n);
      QuotientIsByte(t.g, t.n);
      QuotientIsByte(t.r, t.n);
      Pixel(t.b / t.n, t.g / t.n, t.r / t.n)
  }

  // ------------------------------------------------------------------ planes

  /** Sample `k` lies before column `x` of row `y`, in a plane `w` samples wide. */
  predicate Done(k: nat, stride: nat, w: nat, x: nat, y: nat) {
    stride > 0 && k % stride < w && (k / stride < y || (k / stride == y && k % stride < x))
  }

  function Sample(before: bytes, stride: nat, w: nat, x: nat, y: nat, f: (nat, nat) -> byte, k: nat): byte
    requires k < |before|
  {
    if Done(k, stride, w, x, y) then f(k % stride, k / stride) else before[k]
  }

  /** `before` with the samples up to column `x` of row `y` painted, and its row padding untouched. */
  function Painted(before: bytes, stride: nat, w: nat, x: nat, y: nat, f: (nat, nat) -> byte): (r: bytes)
    ensures |r| == |before|
  {
    seq(|before|, k requires 0 <= k < |before| => Sample(before, stride, w, x, y, f, k))
  }

  lemma PlaceOf(x: nat, y: nat, stride: nat)
    requires x < stride
    ensures (y * stride + x) / stride == y && (y * stride + x) % stride == x
  {
    Quotient(y * stride + x, stride, y, x);
  }

  lemma OnlyPlace(k: nat, x: nat, y: nat, stride: nat)
    requires stride > 0 && k / stride == y && k % stride == x
    ensures k == y * stride + x
  {
    Division(k, stride);
  }

  lemma PaintOne(before: bytes, stride: nat, w: nat, x: nat, y: nat, f: (nat, nat) -> byte)
    requires x < w <= stride && y * stride + x < |before|
    ensures Painted(before, stride, w, x + 1, y, f) == Painted(before, stride, w, x, y, f)[y * stride + x := f(x, y)]
  {
    hide Sample;
    var a, b := Painted(before, stride, w, x + 1, y, f), Painted(before, stride, w, x, y, f)[y * stride + x := f(x, y)];
    forall k: nat | k < |before| ensures a[k] == b[k] {
      SampleOne(before, stride, w, x, y, f, k);
    }
  }

  lemma SampleOne(before: bytes, stride: nat, w: nat, x: nat, y: nat, f: (nat, nat) -> byte, k: nat)
    requires x < w <= stride && k < |before|
    ensures Sample(before, stride, w, x + 1, y, f, k) ==
            if k == y * stride + x then f(x, y) else Sample(before, stride, w, x, y, f, k)
  {
    PlaceOf(x, y, stride);
    if k / stride == y && k % stride == x {
      OnlyPlace(k, x, y, stride);
    }
  }

  lemma PaintRow(before: bytes, stride: nat, w: nat, y: nat, f: (nat, nat) -> byte)
    ensures Painted(before, stride, w, w, y, f) == Painted(before, stride, w, 0, y + 1, f)
  {
    forall k: nat | k < |before| ensures Sample(before, stride, w, w, y, f, k)
        == Sample(before, stride, w, 0, y + 1, f, k) {
      RowDone(k, stride, w, y);
    }
  }

  lemma RowDone(k: nat, stride: nat, w: nat, y: nat)
    ensures Done(k, stride, w, w, y) == Done(k, stride, w, 0, y + 1)
  {
  }

  lemma PaintNone(before: bytes, stride: nat, w: nat, f: (nat, nat) -> byte)
    ensures Painted(before, stride, w, 0, 0, f) == before
  {
    forall k: nat | k < |before| ensures Sample(before, stride, w, 0, 0, f, k) == before[k] {
      NoneDone(k, stride, w);
    }
  }

  lemma NoneDone(k: nat, stride: nat, w: nat)
    ensures !Done(k, stride, w, 0, 0)
  {
    if stride > 0 {
      Division(k, stride);
    }
  }

  /** There is room for `w` by `h` samples. */
  predicate Room(length: nat, stride: nat, w: nat, h: nat) {
    w > 0 && h > 0 ==> w <= stride && (h - 1) * stride + w <= length
  }

  lemma Inside(length: nat, stride: nat, w: nat, h: nat, x: nat, y: nat)
    requires Room(length, stride, w, h) && x < w && y < h
    ensures y * stride + x < length
  {
    MulMono(y, h - 1, stride);
  }

  function LumaOf(i: Image): (nat, nat) -> byte {
    (x, y) => Luma(i.At(x, y))
  }

  function BlueOf(i: Image): (nat, nat) -> byte {
    (x, y) => BlueDifference(i.Average(x, y))
  }

  function RedOf(i: Image): (nat, nat) -> byte {
    (x, y) => RedDifference(i.Average(x, y))
  }

  function Half(n: nat): nat {
    (n + 1) / 2
  }

  // ------------------------------------------------------------------ the loops

  /** The four octets of a pixel lie inside the buffer. */
  lemma PixelInside(i: Image, x: nat, y: nat)
    requires i.Valid() && x < i.w && y < i.h
    ensures y * i.stride + 4 * x + 3 < |i.pix|
  {
    MulMono(y, i.h - 1, i.stride);
  }

  method ReadPixel(bgra: array<byte>, stride: nat, w: nat, h: nat, x: nat, y: nat) returns (p: Pixel)
    requires Image(bgra[..], stride, w, h).Valid() && x < w && y < h
    ensures p == Image(bgra[..], stride, w, h).At(x, y)
  {
    PixelInside(Image(bgra[..], stride, w, h), x, y);
    var at := y * stride + x * 4;
    p := Pixel(bgra[at], bgra[at + 1], bgra[at + 2]);
  }

  /** One sample stored, in raster order. */
  method PaintSample(plane: array<byte>, stride: nat, w: nat, h: nat, x: nat, y: nat, v: byte, ghost before: bytes,
      ghost f: (nat, nat) -> byte)
    requires Room(plane.Length, stride, w, h) && x < w && y < h && |before| == plane.Length
    requires plane[..] == Painted(before, stride, w, x, y, f) && v == f(x, y)
    modifies plane
    ensures plane[..] == Painted(before, stride, w, x + 1, y, f)
  {
    hide Painted;
    Inside(plane.Length, stride, w, h, x, y);
    PaintOne(before, stride, w, x, y, f);
    plane[y * stride + x] := v;
  }

  method PaintLuma(bgra: array<byte>, stride: nat, w: nat, h: nat, plane: array<byte>, planeStride: nat)
    requires Image(bgra[..], stride, w, h).Valid() && Room(plane.Length, planeStride, w, h) && bgra != plane
    modifies plane
    ensures plane[..] == Painted(old(plane[..]), planeStride, w, 0, h, LumaOf(Image(bgra[..], stride, w, h)))
  {
    hide Painted, Luma, Image.At, Image.Valid;
    ghost var image := Image(bgra[..], stride, w, h);
    ghost var before, f := plane[..], LumaOf(image);
    PaintNone(before, planeStride, w, f);
    var y := 0;
    while y < h
      invariant 0 <= y <= h && bgra[..] == image.pix
      invariant plane[..] == Painted(before, planeStride, w, 0, y, f)
    {
      var x := 0;
      while x < w
        invariant 0 <= x <= w && bgra[..] == image.pix
        invariant plane[..] == Painted(before, planeStride, w, x, y, f)
      {
        var p := ReadPixel(bgra, stride, w, h, x, y);
        var v := (77 * p.r as int + 150 * p.g as int + 29 * p.b as int) / 0x100;
        LumaUnclamped(p, v);
        PaintSample(plane, planeStride, w, h, x, y, Clamped(v), before, f);
        x := x + 1;
      }
      PaintRow(before, planeStride, w, y, f);
      y := y + 1;
    }
  }

  /** The clamp in the code is never taken. */
  lemma LumaUnclamped(p: Pixel, v: int)
    requires v == (77 * p.r as int + 150 * p.g as int + 29 * p.b as int) / 0x100
    ensures 0 <= v <= 255 && Clamped(v) == Luma(p)
  {
  }

  lemma ChromaUnclamped(p: Pixel, u: int, v: int)
    requires u == (-43 * p.r as int - 85 * p.g as int + 128 * p.b as int) / 0x100 + 128
    requires v == (128 * p.r as int - 107 * p.g as int - 21 * p.b as int) / 0x100 + 128
    ensures 0 <= u <= 255 && Clamped(u) == BlueDifference(p)
    ensures 0 <= v <= 255 && Clamped(v) == RedDifference(p)
  {
  }

  lemma TotalSnoc(ps: seq<Pixel>, p: Pixel)
    ensures Total(ps + [p]) == Sum(Total(ps).b + p.b, Total(ps).g + p.g, Total(ps).r + p.r, Total(ps).n + 1)
  {
    assert (ps + [p])[..|ps|] == ps;
  }

  method AverageBlock(bgra: array<byte>, stride: nat, w: nat, h: nat, x: nat, y: nat) returns (p: Pixel)
    requires Image(bgra[..], stride, w, h).Valid() && x < w && y < h
    ensures p == Mean(Image(bgra[..], stride, w, h).Block(x, y))
  {
    hide Image.At, Image.Valid, Total;
    ghost var image := Image(bgra[..], stride, w, h);
    ghost var taken: seq<Pixel> := [];
    var sumB: nat, sumG: nat, sumR: nat, n: nat := 0, 0, 0, 0;
    assert Total([]) == Sum(0, 0, 0, 0) by { NoPixels(); }
    var dy := 0;
    while dy < 2 && y + dy < h
      invariant 0 <= dy <= 2 && y + dy <= h
      invariant taken == if dy == 0 then [] else if dy == 1 then image.RowPart(x, y) else image.Block(x, y)
      invariant Total(taken) == Sum(sumB, sumG, sumR, n)
    {
      ghost var above, row := taken, image.RowPart(x, y + dy);
      assert above == above + row[..0];
      var dx := 0;
      while dx < 2 && x + dx < w
        invariant 0 <= dx <= 2 && x + dx <= w && dx <= |row|
        invariant taken == above + row[..dx]
        invariant Total(taken) == Sum(sumB, sumG, sumR, n)
      {
        var q := ReadPixel(bgra, stride, w, h, x + dx, y + dy);
        TotalSnoc(taken, q);
        assert row[dx] == q && row[..dx + 1] == row[..dx] + [q];
        taken := taken + [q];
        sumB := sumB + q.b;
        sumG := sumG + q.g;
        sumR := sumR + q.r;
        n := n + 1;
        dx := dx + 1;
      }
      assert row[..dx] == row;
      assert taken == above + row;
      dy := dy + 1;
    }
    assert taken == image.Block(x, y);
    CountOf(taken);
    QuotientIsByte(sumB, n);
    QuotientIsByte(sumG, n);
    QuotientIsByte(sumR, n);
    p := Pixel(sumB / n, sumG / n, sumR / n);
  }

  lemma NoPixels()
    ensures Total([]) == Sum(0, 0, 0, 0)
  {
  }

  lemma CountOf(ps: seq<Pixel>)
    ensures Total(ps).n == |ps| && Total(ps).b <= 255 * |ps| && Total(ps).g <= 255 * |ps| && Total(ps).r <= 255 * |ps|
  {
  }

  lemma HalfIndex(x: nat, w: nat)
    requires x < w && x % 2 == 0
    ensures x / 2 < Half(w) && (x + 2) / 2 == x / 2 + 1 && (x + 2) % 2 == 0 && 2 * (x / 2) == x
  {
  }

  lemma HalfEnd(x: nat, w: nat)
    requires w <= x <= w + 1 && x % 2 == 0
    ensures x / 2 == Half(w)
  {
  }

  method PaintChroma(bgra: array<byte>, stride: nat, w: nat, h: nat,
                     uPlane: array<byte>, uStride: nat, vPlane: array<byte>, vStride: nat)
    requires Image(bgra[..], stride, w, h).Valid()
    requires Room(uPlane.Length, uStride, Half(w), Half(h)) && Room(vPlane.Length, vStride, Half(w), Half(h))
    requires bgra != uPlane && bgra != vPlane && uPlane != vPlane
    modifies uPlane, vPlane
    ensures uPlane[..] == Painted(old(uPlane[..]), uStride, Half(w), 0, Half(h), BlueOf(Image(bgra[..], stride, w, h)))
    ensures vPlane[..] == Painted(old(vPlane[..]), vStride, Half(w), 0, Half(h), RedOf(Image(bgra[..], stride, w, h)))
  {
    hide Painted, BlueDifference, RedDifference, Image.Block, Image.Valid, Room, Mean, Half, Clamped;
    ghost var image := Image(bgra[..], stride, w, h);
    ghost var beforeU, fu, beforeV, fv := uPlane[..], BlueOf(image), vPlane[..], RedOf(image);
    PaintNone(beforeU, uStride, Half(w), fu);
    PaintNone(beforeV, vStride, Half(w), fv);
    var y := 0;
    while y < h
      invariant 0 <= y <= h + 1 && y % 2 == 0 && bgra[..] == image.pix
      invariant uPlane[..] == Painted(beforeU, uStride, Half(w), 0, y / 2, fu)
      invariant vPlane[..] == Painted(beforeV, vStride, Half(w), 0, y / 2, fv)
    {
      var x := 0;
      while x < w
        invariant 0 <= x <= w + 1 && x % 2 == 0 && bgra[..] == image.pix
        invariant uPlane[..] == Painted(beforeU, uStride, Half(w), x / 2, y / 2, fu)
        invariant vPlane[..] == Painted(beforeV, vStride, Half(w), x / 2, y / 2, fv)
      {
        HalfIndex(x, w);
        HalfIndex(y, h);
        ghost var cx, cy := x / 2, y / 2;
        var p := AverageBlock(bgra, stride, w, h, x, y);
        assert 2 * cx == x && 2 * cy == y && p == image.Average(cx, cy);
        var u := (-43 * p.r as int - 85 * p.g as int + 128 * p.b as int) / 0x100 + 128;
        var v := (128 * p.r as int - 107 * p.g as int - 21 * p.b as int) / 0x100 + 128;
        ChromaUnclamped(p, u, v);
        PaintSample(uPlane, uStride, Half(w), Half(h), x / 2, y / 2, Clamped(u), beforeU, fu);
        PaintSample(vPlane, vStride, Half(w), Half(h), x / 2, y / 2, Clamped(v), beforeV, fv);
        x := x + 2;
      }
      HalfIndex(y, h);
      HalfEnd(x, w);
      PaintRow(beforeU, uStride, Half(w), y / 2, fu);
      PaintRow(beforeV, vStride, Half(w), y / 2, fv);
      y := y + 2;
    }
    HalfEnd(y, h);
  }

  // ------------------------------------------------------------------ what the planes hold

  lemma PlaneAt(before: bytes, stride: nat, w: nat, h: nat, f: (nat, nat) -> byte, x: nat, y: nat)
    requires Room(|before|, stride, w, h) && x < w && y < h
    ensures y * stride + x < |before| && Painted(before, stride, w, 0, h, f)[y * stride + x] == f(x, y)
  {
    Inside(|before|, stride, w, h, x, y);
    PlaceOf(x, y, stride);
  }

  /** Every sample of a painted plane has its value, and the padding of each row is as before. */
  lemma PlaneHolds(before: bytes, stride: nat, w: nat, h: nat, f: (nat, nat) -> byte)
    requires Room(|before|, stride, w, h)
    ensures var plane := Painted(before, stride, w, 0, h, f);
            && (forall x: nat, y: nat | x < w && y < h :: y * stride + x < |plane| && plane[y * stride + x] == f(x, y))
            && (forall k: nat | k < |plane| && (stride == 0 || k % stride >= w || k / stride >= h) ::
                  plane[k] == before[k])
  {
    var plane := Painted(before, stride, w, 0, h, f);
    forall x: nat, y: nat | x < w && y < h ensures y * stride + x < |plane| && plane[y * stride + x] == f(x, y) {
      PlaneAt(before, stride, w, h, f, x, y);
    }
  }

  /** The luma sample of pixel (`x`, `y`), told from its blue, green and red octets. */
  ghost predicate LumaSample(plane: bytes, planeStride: nat, bgra: bytes, stride: nat, x: nat, y: nat) {
    var to, at := y * planeStride + x, y * stride + 4 * x;
    && to < |plane| && at + 2 < |bgra|
    && plane[to] as int == (77 * bgra[at + 2] as int + 150 * bgra[at + 1] as int + 29 * bgra[at] as int) / 256
  }

  /** The sum of one octet of each pixel in the block at (`cx`, `cy`): of one, two or four pixels. */
  function OctetSum(bgra: bytes, stride: nat, w: nat, h: nat, cx: nat, cy: nat, channel: nat): nat
    requires |bgra| > 2 * cy * stride + 8 * cx + channel
    requires 2 * cx + 1 < w ==> |bgra| > 2 * cy * stride + 8 * cx + 4 + channel
    requires 2 * cy + 1 < h ==> |bgra| > (2 * cy + 1) * stride + 8 * cx + channel
    requires 2 * cx + 1 < w && 2 * cy + 1 < h ==> |bgra| > (2 * cy + 1) * stride + 8 * cx + 4 + channel
  {
    var upper, lower := 2 * cy * stride + 8 * cx + channel, (2 * cy + 1) * stride + 8 * cx + channel;
    bgra[upper] as int
    + (if 2 * cx + 1 < w then bgra[upper + 4] as int else 0)
    + (if 2 * cy + 1 < h then bgra[lower] as int else 0)
    + (if 2 * cx + 1 < w && 2 * cy + 1 < h then bgra[lower + 4] as int else 0)
  }

  /** The four corners of a block, as far as the image has them, lie inside the buffer. */
  ghost predicate BlockInside(bgra: bytes, stride: nat, w: nat, h: nat, cx: nat, cy: nat) {
    && |bgra| > 2 * cy * stride + 8 * cx + 2
    && (2 * cx + 1 < w ==> |bgra| > 2 * cy * stride + 8 * cx + 6)
    && (2 * cy + 1 < h ==> |bgra| > (2 * cy + 1) * stride + 8 * cx + 2)
    && (2 * cx + 1 < w && 2 * cy + 1 < h ==> |bgra| > (2 * cy + 1) * stride + 8 * cx + 6)
  }

  /** The chroma samples of block (`cx`, `cy`), told from the truncated means of its blue, green and red octets. */
  ghost predicate ChromaSample(
      uPlane: bytes, uStride: nat, vPlane: bytes, vStride: nat, bgra: bytes, stride: nat, w: nat, h: nat, cx: nat,
      cy: nat) {
    && cy * uStride + cx < |uPlane| && cy * vStride + cx < |vPlane| && BlockInside(bgra, stride, w, h, cx, cy)
    && var n := (if 2 * cx + 1 < w then 2 else 1) * (if 2 * cy + 1 < h then 2 else 1);
       var b := OctetSum(bgra, stride, w, h, cx, cy, 0) / n;
       var g := OctetSum(bgra, stride, w, h, cx, cy, 1) / n;
       var r := OctetSum(bgra, stride, w, h, cx, cy, 2) / n;
       && uPlane[cy * uStride + cx] as int == (-43 * r - 85 * g + 128 * b) / 256 + 128
       && vPlane[cy * vStride + cx] as int == (128 * r - 107 * g - 21 * b) / 256 + 128
  }

  lemma PixelOctets(i: Image, x: nat, y: nat)
    requires i.Valid() && x < i.w && y < i.h
    ensures var at := y * i.stride + 4 * x;
            && at + 3 < |i.pix| && i.At(x, y) == Pixel(i.pix[at], i.pix[at + 1], i.pix[at + 2])
  {
    PixelInside(i, x, y);
  }

  lemma LumaHolds(i: Image, plane: bytes, planeStride: nat, x: nat, y: nat)
    requires i.Valid() && x < i.w && y < i.h
    requires y * planeStride + x < |plane| && plane[y * planeStride + x] == LumaOf(i)(x, y)
    ensures LumaSample(plane, planeStride, i.pix, i.stride, x, y)
  {
    hide Image.At, Image.Valid;
    PixelOctets(i, x, y);
  }

  lemma TotalOfFew(a: Pixel, b: Pixel, c: Pixel, d: Pixel)
    ensures Total([a]) == Sum(a.b, a.g, a.r, 1)
    ensures Total([a, b]) == Sum(a.b + b.b, a.g + b.g, a.r + b.r, 2)
    ensures Total([a, b, c, d]) == Sum(a.b + b.b + c.b + d.b, a.g + b.g + c.g + d.g, a.r + b.r + c.r + d.r, 4)
  {
    NoPixels();
    TotalSnoc([], a);
    TotalSnoc([a], b);
    TotalSnoc([a, b], c);
    TotalSnoc([a, b, c], d);
    assert [] + [a] == [a] && [a] + [b] == [a, b] && [a, b] + [c] == [a, b, c] && [a, b, c] + [d] == [a, b, c, d];
  }

  /** The blue, green and red octet sums of a block. */
  lemma BlockTotal(i: Image, cx: nat, cy: nat)
    requires i.Valid() && 2 * cx < i.w && 2 * cy < i.h
    ensures BlockInside(i.pix, i.stride, i.w, i.h, cx, cy)
    ensures Total(i.Block(2 * cx, 2 * cy)) == Sum(
                OctetSum(i.pix, i.stride, i.w, i.h, cx, cy, 0), OctetSum(i.pix, i.stride, i.w, i.h, cx, cy, 1),
                OctetSum(i.pix, i.stride, i.w, i.h, cx, cy, 2),
                (if 2 * cx + 1 < i.w then 2 else 1) * (if 2 * cy + 1 < i.h then 2 else 1))
  {
    hide Image.At, Image.Valid, Total;
    var right, below := 2 * cx + 1 < i.w, 2 * cy + 1 < i.h;
    var a := i.At(2 * cx, 2 * cy);
    PixelOctets(i, 2 * cx, 2 * cy);
    var b, c, d := a, a, a;
    if right {
      b := i.At(2 * cx + 1, 2 * cy);
      PixelOctets(i, 2 * cx + 1, 2 * cy);
    }
    if below {
      c := i.At(2 * cx, 2 * cy + 1);
      PixelOctets(i, 2 * cx, 2 * cy + 1);
    }
    if right && below {
      d := i.At(2 * cx + 1, 2 * cy + 1);
      PixelOctets(i, 2 * cx + 1, 2 * cy + 1);
    }
    TotalOfFew(a, b, c, d);
    TotalOfFew(a, c, c, d);
    assert i.Block(2 * cx, 2 * cy) ==
      if right && below then [a, b, c, d] else if right then [a, b] else if below then [a, c] else [a];
  }

  lemma ChromaHolds(
      i: Image, uPlane: bytes, uStride: nat, vPlane: bytes, vStride: nat, cx: nat, cy: nat)
    requires i.Valid() && 2 * cx < i.w && 2 * cy < i.h
    requires cy * uStride + cx < |uPlane| && uPlane[cy * uStride + cx] == BlueOf(i)(cx, cy)
    requires cy * vStride + cx < |vPlane| && vPlane[cy * vStride + cx] == RedOf(i)(cx, cy)
    ensures ChromaSample(uPlane, uStride, vPlane, vStride, i.pix, i.stride, i.w, i.h, cx, cy)
  {
    hide Image.Block, Image.Valid, Total, OctetSum, BlockInside;
    BlockTotal(i, cx, cy);
  }

  lemma AllLuma(i: Image, before: bytes, planeStride: nat)
    requires i.Valid() && Room(|before|, planeStride, i.w, i.h)
    ensures var plane := Painted(before, planeStride, i.w, 0, i.h, LumaOf(i));
            forall x: nat, y: nat | x < i.w && y < i.h :: LumaSample(plane, planeStride, i.pix, i.stride, x, y)
  {
    hide *;
    var plane := Painted(before, planeStride, i.w, 0, i.h, LumaOf(i));
    forall x: nat, y: nat | x < i.w && y < i.h ensures LumaSample(plane, planeStride, i.pix, i.stride, x, y) {
      PlaneAt(before, planeStride, i.w, i.h, LumaOf(i), x, y);
      LumaHolds(i, plane, planeStride, x, y);
    }
  }

  lemma AllChroma(i: Image, uBefore: bytes, uStride: nat, vBefore: bytes, vStride: nat)
    requires i.Valid() && Room(|uBefore|, uStride, Half(i.w), Half(i.h))
             && Room(|vBefore|, vStride, Half(i.w), Half(i.h))
    ensures var uPlane := Painted(uBefore, uStride, Half(i.w), 0, Half(i.h), BlueOf(i));
            var vPlane := Painted(vBefore, vStride, Half(i.w), 0, Half(i.h), RedOf(i));
            forall cx: nat, cy: nat | 2 * cx < i.w && 2 * cy < i.h ::
              ChromaSample(uPlane, uStride, vPlane, vStride, i.pix, i.stride, i.w, i.h, cx, cy)
  {
    hide *;
    var uPlane := Painted(uBefore, uStride, Half(i.w), 0, Half(i.h), BlueOf(i));
    var vPlane := Painted(vBefore, vStride, Half(i.w), 0, Half(i.h), RedOf(i));
    forall cx: nat, cy: nat | 2 * cx < i.w && 2 * cy < i.h
      ensures ChromaSample(uPlane, uStride, vPlane, vStride, i.pix, i.stride, i.w, i.h, cx, cy)
    {
      HalfIsAbove(cx, i.w);
      HalfIsAbove(cy, i.h);
      PlaneAt(uBefore, uStride, Half(i.w), Half(i.h), BlueOf(i), cx, cy);
      PlaneAt(vBefore, vStride, Half(i.w), Half(i.h), RedOf(i), cx, cy);
      ChromaHolds(i, uPlane, uStride, vPlane, vStride, cx, cy);
    }
  }

  lemma HalfIsAbove(c: nat, n: nat)
    ensures 2 * c < n <==> c < Half(n)
  {
  }

  method BgraToI420(bgra: array<byte>, stride: nat, w: nat, h: nat, yPlane: array<byte>, yStride: nat,
                    uPlane: array<byte>, uStride: nat, vPlane: array<byte>, vStride: nat)
    requires Image(bgra[..], stride, w, h).Valid()
    requires Room(yPlane.Length, yStride, w, h)
    requires Room(uPlane.Length, uStride, Half(w), Half(h)) && Room(vPlane.Length, vStride, Half(w), Half(h))
    requires bgra != yPlane && bgra != uPlane && bgra != vPlane && yPlane != uPlane && yPlane != vPlane
             && uPlane != vPlane
    modifies yPlane, uPlane, vPlane
    ensures yPlane[..] == Painted(old(yPlane[..]), yStride, w, 0, h, LumaOf(Image(bgra[..], stride, w, h)))
    ensures uPlane[..] == Painted(old(uPlane[..]), uStride, Half(w), 0, Half(h), BlueOf(Image(bgra[..], stride, w, h)))
    ensures vPlane[..] == Painted(old(vPlane[..]), vStride, Half(w), 0, Half(h), RedOf(Image(bgra[..], stride, w, h)))
    ensures forall x: nat, y: nat | x < w && y < h :: LumaSample(yPlane[..], yStride, bgra[..], stride, x, y)
    ensures forall cx: nat, cy: nat | 2 * cx < w && 2 * cy < h ::
              ChromaSample(uPlane[..], uStride, vPlane[..], vStride, bgra[..], stride, w, h, cx, cy)
  {
    hide *;
    PaintLuma(bgra, stride, w, h, yPlane, yStride);
    PaintChroma(bgra, stride, w, h, uPlane, uStride, vPlane, vStride);
    ghost var i := Image(bgra[..], stride, w, h);
    AllLuma(i, old(yPlane[..]), yStride);
    AllChroma(i, old(uPlane[..]), uStride, old(vPlane[..]), vStride);
  }

  /** A block holds exactly the pixels of the image whose coordinates halve to its own: one, two or four. */
  lemma BlockIs(i: Image, cx: nat, cy: nat)
    requires cx < Half(i.w) && cy < Half(i.h)
    ensures var columns, rows := if 2 * cx + 1 < i.w then 2 else 1, if 2 * cy + 1 < i.h then 2 else 1;
            && |i.Block(2 * cx, 2 * cy)| == columns * rows
            && forall x: nat, y: nat | x < i.w && y < i.h && x / 2 == cx && y / 2 == cy ::
                 i.Block(2 * cx, 2 * cy)[y % 2 * columns + x % 2] == i.At(x, y)
  {
    hide Image.At;
    var columns := if 2 * cx + 1 < i.w then 2 else 1;
    forall x: nat, y: nat | x < i.w && y < i.h && x / 2 == cx && y / 2 == cy
      ensures y % 2 * columns + x % 2 < |i.Block(2 * cx, 2 * cy)|
              && i.Block(2 * cx, 2 * cy)[y % 2 * columns + x % 2] == i.At(x, y)
    {
      assert x == 2 * cx + x % 2 && y == 2 * cy + y % 2;
    }
  }

  predicate Grey(p: Pixel) {
    p.r == p.g == p.b
  }

  /** Grey has its own level as luma and neutral chroma. */
  lemma GreyIsNeutral(p: Pixel)
    requires Grey(p)
    ensures Luma(p) == p.g && BlueDifference(p) == 128 && RedDifference(p) == 128
  {
  }

  lemma {:induction false} GreyTotal(ps: seq<Pixel>)
    requires forall p :: p in ps ==> Grey(p)
    ensures Total(ps).r == Total(ps).g == Total(ps).b
  {
    if ps != [] {
      var init, last := ps[..|ps| - 1], ps[|ps| - 1];
      assert last in ps && forall p :: p in init ==> p in ps;
      GreyTotal(init);
    }
  }

  /**
   An image of greys, of any levels, edges and odd sizes included, becomes its levels in luma and 128 in
   every chroma sample.
   */
  lemma GreyImage(i: Image)
    requires forall x: nat, y: nat | x < i.w && y < i.h :: Grey(i.At(x, y))
    ensures forall x: nat, y: nat | x < i.w && y < i.h :: LumaOf(i)(x, y) == i.At(x, y).g
    ensures forall cx: nat, cy: nat | cx < Half(i.w) && cy < Half(i.h) ::
              BlueOf(i)(cx, cy) == 128 && RedOf(i)(cx, cy) == 128
  {
    hide Image.At, Luma, BlueDifference, RedDifference;
    forall x: nat, y: nat | x < i.w && y < i.h ensures LumaOf(i)(x, y) == i.At(x, y).g {
      GreyIsNeutral(i.At(x, y));
    }
    forall cx: nat, cy: nat | cx < Half(i.w) && cy < Half(i.h) ensures BlueOf(i)(cx, cy) == 128
        && RedOf(i)(cx, cy) == 128 {
      GreyTotal(i.Block(2 * cx, 2 * cy));
      GreyIsNeutral(i.Average(cx, cy));
    }
  }
}
