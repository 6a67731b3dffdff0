/**
 The strided image buffer `ImageT<Pixel>`.

 An image is its pixel format, its width, height, depth and row padding, and
 one flat byte buffer. Every byte is addressed through `Geometry.IndexOf`,
 whose pixel part is the offset `z*bpr*h + y*bpr + x*bpp`. The operations are
 pure functions from image to image; each contract says, for every coordinate
 of the result, which byte of the input (or of a source buffer) it holds.
 */
module Images {

  import opened Geometry
  import opened Channels
  import Pixels

  type byte = b: int | 0 <= b < 256

  datatype Image = Image(format: PixelFormat, width: nat, height: nat, depth: nat, rowPadding: nat, data: seq<byte>)

  /** The addressing shape of an image. */
  function ShapeOf(img: Image): Shape
  {
    Shape(img.width, img.height, img.depth, ChannelCount(img.format.layout), img.format.value.Size(), img.rowPadding)
  }

  /** The buffer holds exactly `bytesPerRow * height * depth` bytes. */
  predicate Valid(img: Image)
  {
    ValidFormat(img.format) && |img.data| == ShapeOf(img).Size()
  }

  /** Same format and dimensions, whatever the bytes. */
  predicate SameShape(a: Image, b: Image)
  {
    a.(data := b.data) == b
  }

  /** The byte of the image at coordinate c. */
  function At(img: Image, c: Coord): byte
    requires Valid(img) && Contains(ShapeOf(img), c)
  {
    IndexBound(ShapeOf(img), c);
    img.data[IndexOf(ShapeOf(img), c)]
  }

  /** Two images of one shape with the same byte at every coordinate are equal. */
  lemma SameBytes(a: Image, b: Image)
    requires Valid(a) && Valid(b) && SameShape(a, b)
    requires forall c | Contains(ShapeOf(a), c) :: At(a, c) == At(b, c)
    ensures a == b
  {
    var s := ShapeOf(a);
    forall c | Contains(s, c)
      ensures IndexBoundAt(s, c) && a.data[IndexOf(s, c)] == b.data[IndexOf(s, c)]
    {
      IndexBound(s, c);
      assert At(a, c) == At(b, c);
    }
    Extensionality(s, a.data, b.data);
  }

  function ByteOr(s: seq<byte>, i: nat): byte
  {
    if i < |s| then s[i] else 0
  }

  // ---------------------------------------------------------------------------
  // Size getters

  function ChannelCountOf(img: Image): nat
  {
    ChannelCount(img.format.layout)
  }

  /** `bytesPerPixel()`, which is `sizeof(Pixel)`. */
  function BytesPerPixel(img: Image): nat
  {
    PixelSize(img.format)
  }

  /** `bytesPerRow()`, multiplied out from width, value size and channel count. */
  function BytesPerRow(img: Image): nat
  {
    img.width * img.format.value.Size() * ChannelCountOf(img) + img.rowPadding
  }

  function ByteCount(img: Image): nat
  {
    |img.data|
  }

  function PixelCount(img: Image): nat
  {
    img.width * img.depth * img.height
  }

  function BitsPerChannel(img: Image): nat
  {
    img.format.value.Size() * 8
  }

  function BitsPerPixel(img: Image): nat
  {
    ChannelCountOf(img) * BitsPerChannel(img)
  }

  /** How the size getters relate to each other. */
  lemma SizeRelations(img: Image)
    requires Valid(img)
    ensures ByteCount(img) == BytesPerRow(img) * img.height * img.depth
    ensures BytesPerRow(img) == img.width * BytesPerPixel(img) + img.rowPadding
    ensures BytesPerPixel(img) == ChannelCountOf(img) * img.format.value.Size() == ShapeOf(img).PixelBytes()
    ensures BitsPerPixel(img) == 8 * BytesPerPixel(img)
    ensures 1 <= ChannelCountOf(img) <= 4 && BitsPerChannel(img) in {8, 16, 32}
    ensures PixelCount(img) == img.width * img.height * img.depth
  {
    ShapeStrides(ShapeOf(img));
  }

  /** `isFloatingPoint()`, `hasAlpha()` and `alphaPosition()` delegate to the pixel type. */
  function ImageHasAlpha(img: Image): (r: bool)
    requires Valid(img)
    ensures r <==> Alpha in Tags(img.format.layout)
  {
    HasAlpha(img.format.layout)
  }

  function ImageAlphaPosition(img: Image): (r: int)
    requires Valid(img)
    ensures r == -1 <==> !ImageHasAlpha(img)
    ensures r != -1 ==> 0 <= r < ChannelCountOf(img) && Tags(img.format.layout)[r] == Alpha
  {
    AlphaPosition(img.format.layout)
  }

  // ---------------------------------------------------------------------------
  // Construction, resizing, copying

  /** The default constructor: 0 x 0 x 0 with no padding and no bytes. */
  function Empty(format: PixelFormat): (r: Image)
    requires ValidFormat(format)
    ensures Valid(r) && r.format == format
    ensures r.width == 0 && r.height == 0 && r.depth == 0 && r.rowPadding == 0
    ensures ByteCount(r) == 0
  {
    Image(format, 0, 0, 0, 0, [])
  }

  /** `resize(w, h, d, p)`: sets all four dimensions and reallocates the buffer.
      The source leaves the new contents unspecified; the model fills zeros,
      and no contract depends on them. */
  function Resize(img: Image, width: nat, height: nat, depth: nat, rowPadding: nat): (r: Image)
    requires ValidFormat(img.format)
    ensures Valid(r) && r.format == img.format
    ensures r.width == width && r.height == height && r.depth == depth && r.rowPadding == rowPadding
    ensures ByteCount(r) == BytesPerRow(r) * height * depth
  {
    var r := img.(width := width, height := height, depth := depth, rowPadding := rowPadding);
    r.(data := seq(ShapeOf(r).Size(), _ => 0))
  }

  /** `resize(w, h)`: depth becomes 1 and the row padding is kept. */
  function Resize2(img: Image, width: nat, height: nat): (r: Image)
    requires ValidFormat(img.format)
    ensures Valid(r) && r.format == img.format
    ensures r.width == width && r.height == height && r.depth == 1 && r.rowPadding == img.rowPadding
    ensures ByteCount(r) == BytesPerRow(r) * height
  {
    Resize(img, width, height, 1, img.rowPadding)
  }

  /** The dimensioned constructor `ImageT(w, h, d, p)`. */
  function Create(format: PixelFormat, width: nat, height: nat, depth: nat, rowPadding: nat): (r: Image)
    requires ValidFormat(format)
    ensures Valid(r) && r.format == format
    ensures r.width == width && r.height == height && r.depth == depth && r.rowPadding == rowPadding
  {
    Resize(Empty(format), width, height, depth, rowPadding)
  }

  /** Copy construction, copy assignment and `clone()`: a deep copy. */
  function Clone(img: Image): (r: Image)
    ensures SameShape(r, img) && r.data == img.data
  {
    Image(img.format, img.width, img.height, img.depth, img.rowPadding, img.data)
  }

  /** `clear()`: drops the bytes but keeps the dimensions. */
  function Clear(img: Image): (r: Image)
    ensures SameShape(r, img) && ByteCount(r) == 0
    ensures Valid(img) ==> (Valid(r) <==> ShapeOf(img).Size() == 0)
  {
    img.(data := [])
  }

  // ---------------------------------------------------------------------------
  // Loading

  /** `loadPixels(w, h, d, src, p)`: resize, then copy `byteCount()` bytes of
      `src`, padding bytes included. */
  function LoadPixels(img: Image, width: nat, height: nat, depth: nat, src: seq<byte>, rowPadding: nat): (r: Image)
    requires ValidFormat(img.format)
    requires |src| >= |Resize(img, width, height, depth, rowPadding).data|
    ensures Valid(r) && SameShape(r, Resize(img, width, height, depth, rowPadding))
    ensures forall c | Contains(ShapeOf(r), c) :: IndexBoundAt(ShapeOf(r), c) && At(r, c) == src[IndexOf(ShapeOf(r), c)]
  {
    var sized := Resize(img, width, height, depth, rowPadding);
    var r := sized.(data := src[..|sized.data|]);
    var s := ShapeOf(r);
    assert forall c | Contains(s, c) :: IndexBoundAt(s, c) && At(r, c) == src[IndexOf(s, c)] by {
      forall c | Contains(s, c)
        ensures IndexBoundAt(s, c) && At(r, c) == src[IndexOf(s, c)]
      {
        IndexBound(s, c);
      }
    }
    r
  }

  /** `loadPixels(w, h, src, p)` and the two-dimensional constructor: a single layer. */
  function LoadPixels2(img: Image, width: nat, height: nat, src: seq<byte>, rowPadding: nat): (r: Image)
    requires ValidFormat(img.format)
    requires |src| >= |Resize(img, width, height, 1, rowPadding).data|
    ensures Valid(r) && r.format == img.format
    ensures r.width == width && r.height == height && r.depth == 1 && r.rowPadding == rowPadding
    ensures r.data == src[..ByteCount(r)]
  {
    LoadPixels(img, width, height, 1, src, rowPadding)
  }

  // ---------------------------------------------------------------------------
  // Rearranging bytes

  /** m maps the coordinates of shape s onto coordinates of s. */
  ghost predicate MapsInto(s: Shape, m: Coord -> Coord)
  {
    forall c | Contains(s, c) :: Contains(s, m(c))
  }

  /** The image whose byte at c is the input's byte at m(c). */
  function Remap(img: Image, m: Coord -> Coord): (r: Image)
    requires Valid(img) && MapsInto(ShapeOf(img), m)
    ensures Valid(r) && SameShape(r, img)
    ensures forall c | Contains(ShapeOf(img), c) :: At(r, c) == At(img, m(c))
  {
    var s := ShapeOf(img);
    var r := img.(data := Tabulate(s, c => ByteOr(img.data, IndexOf(s, m(c)))));
    assert forall c | Contains(s, c) :: At(r, c) == At(img, m(c)) by {
      forall c | Contains(s, c)
        ensures At(r, c) == At(img, m(c))
      {
        IndexBound(s, m(c));
      }
    }
    r
  }

  /** Position i of [0, n) counted from the other end; other positions stay. */
  function Mirror(i: nat, n: nat): nat
  {
    if i < n then n - 1 - i else i
  }

  function MirrorRows(s: Shape, c: Coord): Coord
  {
    match c
    case Sample(x, y, z, ch, b) => Sample(x, Mirror(y, s.height), z, ch, b)
    case Padding(y, z, p) => Padding(Mirror(y, s.height), z, p)
  }

  function MirrorColumns(s: Shape, c: Coord): Coord
  {
    match c
    case Sample(x, y, z, ch, b) => Sample(Mirror(x, s.width), y, z, ch, b)
    case Padding(_, _, _) => c
  }

  function MirrorLayers(s: Shape, c: Coord): Coord
  {
    match c
    case Sample(x, y, z, ch, b) => Sample(x, y, Mirror(z, s.depth), ch, b)
    case Padding(y, z, p) => Padding(y, Mirror(z, s.depth), p)
  }

  /** `flipRows()`: in every layer, row y and row h-1-y trade places, each
      with its padding. */
  function FlipRows(img: Image): (r: Image)
    requires Valid(img)
    ensures Valid(r) && SameShape(r, img)
    ensures forall x, y, z, ch, b | Contains(ShapeOf(img), Sample(x, y, z, ch, b)) ::
      At(r, Sample(x, y, z, ch, b)) == At(img, Sample(x, img.height - 1 - y, z, ch, b))
    ensures forall y, z, p | Contains(ShapeOf(img), Padding(y, z, p)) ::
      At(r, Padding(y, z, p)) == At(img, Padding(img.height - 1 - y, z, p))
  {
    var s := ShapeOf(img);
    var r := Remap(img, c => MirrorRows(s, c));
    assert forall x, y, z, ch, b | Contains(s, Sample(x, y, z, ch, b)) ::
      At(r, Sample(x, y, z, ch, b)) == At(img, Sample(x, img.height - 1 - y, z, ch, b)) by {
      forall x, y, z, ch, b | Contains(s, Sample(x, y, z, ch, b))
        ensures At(r, Sample(x, y, z, ch, b)) == At(img, Sample(x, img.height - 1 - y, z, ch, b))
      {
        assert MirrorRows(s, Sample(x, y, z, ch, b)) == Sample(x, img.height - 1 - y, z, ch, b);
      }
    }
    assert forall y, z, p | Contains(s, Padding(y, z, p)) ::
      At(r, Padding(y, z, p)) == At(img, Padding(img.height - 1 - y, z, p)) by {
      forall y, z, p | Contains(s, Padding(y, z, p))
        ensures At(r, Padding(y, z, p)) == At(img, Padding(img.height - 1 - y, z, p))
      {
        assert MirrorRows(s, Padding(y, z, p)) == Padding(img.height - 1 - y, z, p);
      }
    }
    r
  }

  /** `flipColumns()`: in every row, pixel x and pixel w-1-x trade places as
      whole pixels; the padding stays in place. */
  function FlipColumns(img: Image): (r: Image)
    requires Valid(img)
    ensures Valid(r) && SameShape(r, img)
    ensures forall x, y, z, ch, b | Contains(ShapeOf(img), Sample(x, y, z, ch, b)) ::
      At(r, Sample(x, y, z, ch, b)) == At(img, Sample(img.width - 1 - x, y, z, ch, b))
    ensures forall y, z, p | Contains(ShapeOf(img), Padding(y, z, p)) ::
      At(r, Padding(y, z, p)) == At(img, Padding(y, z, p))
  {
    var s := ShapeOf(img);
    var r := Remap(img, c => MirrorColumns(s, c));
    assert forall x, y, z, ch, b | Contains(s, Sample(x, y, z, ch, b)) ::
      At(r, Sample(x, y, z, ch, b)) == At(img, Sample(img.width - 1 - x, y, z, ch, b)) by {
      forall x, y, z, ch, b | Contains(s, Sample(x, y, z, ch, b))
        ensures At(r, Sample(x, y, z, ch, b)) == At(img, Sample(img.width - 1 - x, y, z, ch, b))
      {
        assert MirrorColumns(s, Sample(x, y, z, ch, b)) == Sample(img.width - 1 - x, y, z, ch, b);
      }
    }
    assert forall y, z, p | Contains(s, Padding(y, z, p)) :: At(r, Padding(y, z, p)) == At(img, Padding(y, z, p)) by {
      forall y, z, p | Contains(s, Padding(y, z, p))
        ensures At(r, Padding(y, z, p)) == At(img, Padding(y, z, p))
      {
        assert MirrorColumns(s, Padding(y, z, p)) == Padding(y, z, p);
      }
    }
    r
  }

  /** `flipLayers()`: layer z and layer d-1-z trade places. */
  function FlipLayers(img: Image): (r: Image)
    requires Valid(img)
    ensures Valid(r) && SameShape(r, img)
    ensures forall x, y, z, ch, b | Contains(ShapeOf(img), Sample(x, y, z, ch, b)) ::
      At(r, Sample(x, y, z, ch, b)) == At(img, Sample(x, y, img.depth - 1 - z, ch, b))
    ensures forall y, z, p | Contains(ShapeOf(img), Padding(y, z, p)) ::
      At(r, Padding(y, z, p)) == At(img, Padding(y, img.depth - 1 - z, p))
  {
    var s := ShapeOf(img);
    var r := Remap(img, c => MirrorLayers(s, c));
    assert forall x, y, z, ch, b | Contains(s, Sample(x, y, z, ch, b)) ::
      At(r, Sample(x, y, z, ch, b)) == At(img, Sample(x, y, img.depth - 1 - z, ch, b)) by {
      forall x, y, z, ch, b | Contains(s, Sample(x, y, z, ch, b))
        ensures At(r, Sample(x, y, z, ch, b)) == At(img, Sample(x, y, img.depth - 1 - z, ch, b))
      {
        assert MirrorLayers(s, Sample(x, y, z, ch, b)) == Sample(x, y, img.depth - 1 - z, ch, b);
      }
    }
    assert forall y, z, p | Contains(s, Padding(y, z, p)) ::
      At(r, Padding(y, z, p)) == At(img, Padding(y, img.depth - 1 - z, p)) by {
      forall y, z, p | Contains(s, Padding(y, z, p))
        ensures At(r, Padding(y, z, p)) == At(img, Padding(y, img.depth - 1 - z, p))
      {
        assert MirrorLayers(s, Padding(y, z, p)) == Padding(y, img.depth - 1 - z, p);
      }
    }
    r
  }

  /** `flip()`: layers, then rows, then columns; pixel (x, y, z) ends up at
      (w-1-x, h-1-y, d-1-z). */
  function Flip(img: Image): (r: Image)
    requires Valid(img)
    ensures Valid(r) && SameShape(r, img)
    ensures forall x, y, z, ch, b | Contains(ShapeOf(img), Sample(x, y, z, ch, b)) ::
      At(r, Sample(x, y, z, ch, b)) == At(img, Sample(img.width - 1 - x, img.height - 1 - y, img.depth - 1 - z, ch, b))
    ensures forall y, z, p | Contains(ShapeOf(img), Padding(y, z, p)) ::
      At(r, Padding(y, z, p)) == At(img, Padding(img.height - 1 - y, img.depth - 1 - z, p))
  {
    FlipSamples(img);
    FlipPadding(img);
    FlipColumns(FlipRows(FlipLayers(img)))
  }

  lemma FlipSamples(img: Image)
    requires Valid(img)
    ensures forall x, y, z, ch, bt | Contains(ShapeOf(img), Sample(x, y, z, ch, bt)) ::
      At(FlipColumns(FlipRows(FlipLayers(img))), Sample(x, y, z, ch, bt)) ==
      At(img, Sample(img.width - 1 - x, img.height - 1 - y, img.depth - 1 - z, ch, bt))
  {
    var a := FlipLayers(img);
    var b := FlipRows(a);
    var r := FlipColumns(b);
    var s := ShapeOf(img);
    assert ShapeOf(a) == s && ShapeOf(b) == s;
    forall x, y, z, ch, bt | Contains(s, Sample(x, y, z, ch, bt))
      ensures At(r, Sample(x, y, z, ch, bt)) == At(img, Sample(img.width - 1 - x, img.height - 1 - y, img.depth - 1 - z, ch, bt))
    {
      var x', y' := img.width - 1 - x, img.height - 1 - y;
      assert At(r, Sample(x, y, z, ch, bt)) == At(b, Sample(x', y, z, ch, bt));
      assert At(b, Sample(x', y, z, ch, bt)) == At(a, Sample(x', y', z, ch, bt));
    }
  }

  lemma FlipPadding(img: Image)
    requires Valid(img)
    ensures forall y, z, p | Contains(ShapeOf(img), Padding(y, z, p)) ::
      At(FlipColumns(FlipRows(FlipLayers(img))), Padding(y, z, p)) ==
      At(img, Padding(img.height - 1 - y, img.depth - 1 - z, p))
  {
    var a := FlipLayers(img);
    var b := FlipRows(a);
    var r := FlipColumns(b);
    var s := ShapeOf(img);
    assert ShapeOf(a) == s && ShapeOf(b) == s;
    forall y, z, p | Contains(s, Padding(y, z, p))
      ensures At(r, Padding(y, z, p)) == At(img, Padding(img.height - 1 - y, img.depth - 1 - z, p))
    {
      assert At(r, Padding(y, z, p)) == At(b, Padding(y, z, p));
      assert At(b, Padding(y, z, p)) == At(a, Padding(img.height - 1 - y, z, p));
    }
  }

  /** Channel index ch after exchanging channels a and b. */
  function SwapIndex(ch: nat, a: nat, b: nat): nat
  {
    if ch == a then b else if ch == b then a else ch
  }

  function SwapCoord(a: nat, b: nat, c: Coord): Coord
  {
    match c
    case Sample(x, y, z, ch, bt) => Sample(x, y, z, SwapIndex(ch, a, b), bt)
    case Padding(_, _, _) => c
  }

  /** `swapChannels(a, b)`: in every pixel, the values of channels a and b
      trade places; the padding stays in place. */
  function SwapChannels(img: Image, a: nat, b: nat): (r: Image)
    requires Valid(img) && a < ChannelCountOf(img) && b < ChannelCountOf(img)
    ensures Valid(r) && SameShape(r, img)
    ensures forall x, y, z, bt | Contains(ShapeOf(img), Sample(x, y, z, a, bt)) ::
      At(r, Sample(x, y, z, a, bt)) == At(img, Sample(x, y, z, b, bt)) &&
      At(r, Sample(x, y, z, b, bt)) == At(img, Sample(x, y, z, a, bt))
    ensures forall x, y, z, ch, bt | Contains(ShapeOf(img), Sample(x, y, z, ch, bt)) && ch != a && ch != b ::
      At(r, Sample(x, y, z, ch, bt)) == At(img, Sample(x, y, z, ch, bt))
    ensures forall y, z, p | Contains(ShapeOf(img), Padding(y, z, p)) ::
      At(r, Padding(y, z, p)) == At(img, Padding(y, z, p))
  {
    var s := ShapeOf(img);
    var r := Remap(img, c => SwapCoord(a, b, c));
    assert forall x, y, z, bt | Contains(s, Sample(x, y, z, a, bt)) ::
      At(r, Sample(x, y, z, a, bt)) == At(img, Sample(x, y, z, b, bt)) &&
      At(r, Sample(x, y, z, b, bt)) == At(img, Sample(x, y, z, a, bt)) by {
      forall x, y, z, bt | Contains(s, Sample(x, y, z, a, bt))
        ensures At(r, Sample(x, y, z, a, bt)) == At(img, Sample(x, y, z, b, bt))
        ensures At(r, Sample(x, y, z, b, bt)) == At(img, Sample(x, y, z, a, bt))
      {
        assert SwapCoord(a, b, Sample(x, y, z, a, bt)) == Sample(x, y, z, b, bt);
        assert SwapCoord(a, b, Sample(x, y, z, b, bt)) == Sample(x, y, z, a, bt);
      }
    }
    assert forall x, y, z, ch, bt | Contains(s, Sample(x, y, z, ch, bt)) && ch != a && ch != b ::
      At(r, Sample(x, y, z, ch, bt)) == At(img, Sample(x, y, z, ch, bt)) by {
      forall x, y, z, ch, bt | Contains(s, Sample(x, y, z, ch, bt)) && ch != a && ch != b
        ensures At(r, Sample(x, y, z, ch, bt)) == At(img, Sample(x, y, z, ch, bt))
      {
        assert SwapCoord(a, b, Sample(x, y, z, ch, bt)) == Sample(x, y, z, ch, bt);
      }
    }
    assert forall y, z, p | Contains(s, Padding(y, z, p)) :: At(r, Padding(y, z, p)) == At(img, Padding(y, z, p)) by {
      forall y, z, p | Contains(s, Padding(y, z, p))
        ensures At(r, Padding(y, z, p)) == At(img, Padding(y, z, p))
      {
        assert SwapCoord(a, b, Padding(y, z, p)) == Padding(y, z, p);
      }
    }
    r
  }

  // ---------------------------------------------------------------------------
  // Laws of the rearrangements

  /** Flipping the rows twice restores the image. */
  lemma FlipRowsInvolution(img: Image)
    requires Valid(img)
    ensures FlipRows(FlipRows(img)) == img
  {
    var r := FlipRows(img);
    var rr := FlipRows(r);
    var h := img.height;
    forall c | Contains(ShapeOf(img), c)
      ensures At(rr, c) == At(img, c)
    {
      match c {
        case Sample(x, y, z, ch, b) => assert At(rr, c) == At(r, Sample(x, h - 1 - y, z, ch, b));
        case Padding(y, z, p) => assert At(rr, c) == At(r, Padding(h - 1 - y, z, p));
      }
    }
    SameBytes(rr, img);
  }

  /** Flipping the columns twice restores the image. */
  lemma FlipColumnsInvolution(img: Image)
    requires Valid(img)
    ensures FlipColumns(FlipColumns(img)) == img
  {
    var r := FlipColumns(img);
    var rr := FlipColumns(r);
    var w := img.width;
    forall c | Contains(ShapeOf(img), c)
      ensures At(rr, c) == At(img, c)
    {
      match c {
        case Sample(x, y, z, ch, b) => assert At(rr, c) == At(r, Sample(w - 1 - x, y, z, ch, b));
        case Padding(y, z, p) => assert At(rr, c) == At(r, c);
      }
    }
    SameBytes(rr, img);
  }

  /** Flipping the layers twice restores the image. */
  lemma FlipLayersInvolution(img: Image)
    requires Valid(img)
    ensures FlipLayers(FlipLayers(img)) == img
  {
    var r := FlipLayers(img);
    var rr := FlipLayers(r);
    var d := img.depth;
    forall c | Contains(ShapeOf(img), c)
      ensures At(rr, c) == At(img, c)
    {
      match c {
        case Sample(x, y, z, ch, b) => assert At(rr, c) == At(r, Sample(x, y, d - 1 - z, ch, b));
        case Padding(y, z, p) => assert At(rr, c) == At(r, Padding(y, d - 1 - z, p));
      }
    }
    SameBytes(rr, img);
  }

  /** `flip()` twice restores the image: the three axis flips commute, and
      each undoes itself. */
  lemma FlipInvolution(img: Image)
    requires Valid(img)
    ensures Flip(Flip(img)) == img
  {
    var l := FlipLayers(img);
    var y := FlipRows(l);
    calc {
      Flip(Flip(img));
      FlipColumns(FlipRows(FlipLayers(FlipColumns(y))));
      { FlipColumnsLayersCommute(y); }
      FlipColumns(FlipRows(FlipColumns(FlipLayers(y))));
      { FlipRowsColumnsCommute(FlipLayers(y)); }
      FlipColumns(FlipColumns(FlipRows(FlipLayers(y))));
      { FlipColumnsInvolution(FlipRows(FlipLayers(y))); }
      FlipRows(FlipLayers(FlipRows(l)));
      { FlipRowsLayersCommute(l); }
      FlipRows(FlipRows(FlipLayers(l)));
      { FlipRowsInvolution(FlipLayers(l)); }
      FlipLayers(FlipLayers(img));
      { FlipLayersInvolution(img); }
      img;
    }
  }

  /** The three flips act on independent axes, so the order in which
      `flip()` applies them does not change its result. */
  lemma FlipRowsColumnsCommute(img: Image)
    requires Valid(img)
    ensures FlipRows(FlipColumns(img)) == FlipColumns(FlipRows(img))
  {
    var a := FlipRows(FlipColumns(img));
    var b := FlipColumns(FlipRows(img));
    var w, h := img.width, img.height;
    forall c | Contains(ShapeOf(img), c)
      ensures At(a, c) == At(b, c)
    {
      match c {
        case Sample(x, y, z, ch, bt) =>
          assert At(a, c) == At(FlipColumns(img), Sample(x, h - 1 - y, z, ch, bt));
          assert At(b, c) == At(FlipRows(img), Sample(w - 1 - x, y, z, ch, bt));
        case Padding(y, z, p) =>
          assert At(a, c) == At(FlipColumns(img), Padding(h - 1 - y, z, p));
          assert At(b, c) == At(FlipRows(img), c);
      }
    }
    SameBytes(a, b);
  }

  lemma FlipRowsLayersCommute(img: Image)
    requires Valid(img)
    ensures FlipRows(FlipLayers(img)) == FlipLayers(FlipRows(img))
  {
    var a := FlipRows(FlipLayers(img));
    var b := FlipLayers(FlipRows(img));
    var h, d := img.height, img.depth;
    forall c | Contains(ShapeOf(img), c)
      ensures At(a, c) == At(b, c)
    {
      match c {
        case Sample(x, y, z, ch, bt) =>
          var y', z' := h - 1 - y, d - 1 - z;
          assert Contains(ShapeOf(img), Sample(x, y', z, ch, bt)) && Contains(ShapeOf(img), Sample(x, y, z', ch, bt));
          assert At(a, c) == At(FlipLayers(img), Sample(x, y', z, ch, bt)) == At(img, Sample(x, y', z', ch, bt));
          assert At(b, c) == At(FlipRows(img), Sample(x, y, z', ch, bt)) == At(img, Sample(x, y', z', ch, bt));
        case Padding(y, z, p) =>
          var y', z' := h - 1 - y, d - 1 - z;
          assert Contains(ShapeOf(img), Padding(y', z, p)) && Contains(ShapeOf(img), Padding(y, z', p));
          assert At(a, c) == At(FlipLayers(img), Padding(y', z, p)) == At(img, Padding(y', z', p));
          assert At(b, c) == At(FlipRows(img), Padding(y, z', p)) == At(img, Padding(y', z', p));
      }
    }
    SameBytes(a, b);
  }

  lemma FlipColumnsLayersCommute(img: Image)
    requires Valid(img)
    ensures FlipColumns(FlipLayers(img)) == FlipLayers(FlipColumns(img))
  {
    var a := FlipColumns(FlipLayers(img));
    var b := FlipLayers(FlipColumns(img));
    var w, d := img.width, img.depth;
    forall c | Contains(ShapeOf(img), c)
      ensures At(a, c) == At(b, c)
    {
      match c {
        case Sample(x, y, z, ch, bt) =>
          assert At(a, c) == At(FlipLayers(img), Sample(w - 1 - x, y, z, ch, bt));
          assert At(b, c) == At(FlipColumns(img), Sample(x, y, d - 1 - z, ch, bt));
        case Padding(y, z, p) =>
          assert At(a, c) == At(FlipLayers(img), c);
          assert At(b, c) == At(FlipColumns(img), Padding(y, d - 1 - z, p));
      }
    }
    SameBytes(a, b);
  }

  /** Swapping the same two channels twice restores the image. */
  lemma SwapChannelsInvolution(img: Image, a: nat, b: nat)
    requires Valid(img) && a < ChannelCountOf(img) && b < ChannelCountOf(img)
    ensures SwapChannels(SwapChannels(img, a, b), a, b) == img
  {
    var r := SwapChannels(img, a, b);
    var rr := SwapChannels(r, a, b);
    forall c | Contains(ShapeOf(img), c)
      ensures At(rr, c) == At(img, c)
    {
      match c {
        case Sample(x, y, z, ch, bt) =>
          if ch == a {
            assert At(rr, c) == At(r, Sample(x, y, z, b, bt));
          } else if ch == b {
            assert At(rr, c) == At(r, Sample(x, y, z, a, bt));
          } else {
            assert At(rr, c) == At(r, c);
          }
        case Padding(y, z, p) => assert At(rr, c) == At(r, c);
      }
    }
    SameBytes(rr, img);
  }

  /** Swapping a channel with itself changes nothing. */
  lemma SwapChannelsSame(img: Image, a: nat)
    requires Valid(img) && a < ChannelCountOf(img)
    ensures SwapChannels(img, a, a) == img
  {
    var r := SwapChannels(img, a, a);
    forall c | Contains(ShapeOf(img), c)
      ensures At(r, c) == At(img, c)
    {
      match c {
        case Sample(x, y, z, ch, bt) =>
          if ch == a {
            assert At(r, c) == At(img, Sample(x, y, z, a, bt));
          } else {
            assert At(r, c) == At(img, c);
          }
        case Padding(y, z, p) => assert At(r, c) == At(img, c);
      }
    }
    SameBytes(r, img);
  }

  /** The order of the two channel arguments does not matter. */
  lemma SwapChannelsSymmetric(img: Image, a: nat, b: nat)
    requires Valid(img) && a < ChannelCountOf(img) && b < ChannelCountOf(img)
    ensures SwapChannels(img, a, b) == SwapChannels(img, b, a)
  {
    var r := SwapChannels(img, a, b);
    var q := SwapChannels(img, b, a);
    forall c | Contains(ShapeOf(img), c)
      ensures At(r, c) == At(q, c)
    {
      match c {
        case Sample(x, y, z, ch, bt) =>
          if ch == a {
            assert At(r, c) == At(img, Sample(x, y, z, b, bt));
            assert At(q, Sample(x, y, z, a, bt)) == At(img, Sample(x, y, z, b, bt));
          } else if ch == b {
            assert At(r, c) == At(img, Sample(x, y, z, a, bt));
            assert At(q, Sample(x, y, z, b, bt)) == At(img, Sample(x, y, z, a, bt));
          } else {
            assert At(r, c) == At(img, c) == At(q, c);
          }
        case Padding(y, z, p) => assert At(r, c) == At(img, c) == At(q, c);
      }
    }
    SameBytes(r, q);
  }

  // ---------------------------------------------------------------------------
  // Region updates

  /** A box of pixels: the position of its first pixel and its extent. */
  datatype Region = Region(left: nat, top: nat, layer: nat, width: nat, height: nat, depth: nat)

  predicate RegionInside(img: Image, rg: Region)
  {
    rg.left + rg.width <= img.width && rg.top + rg.height <= img.height && rg.layer + rg.depth <= img.depth
  }

  /** True when c is a byte of a pixel inside the region. */
  predicate InRegion(rg: Region, c: Coord)
  {
    c.Sample? && rg.left <= c.x < rg.left + rg.width && rg.top <= c.y < rg.top + rg.height
    && rg.layer <= c.z < rg.layer + rg.depth
  }

  /** Which row of the region, counted across its layers, holds sample c. */
  function RegionRow(rg: Region, c: Coord): nat
    requires InRegion(rg, c)
  {
    (c.z - rg.layer) * rg.height + (c.y - rg.top)
  }

  /** Offset of sample c from the first byte of its region row. */
  function InRowOffset(rg: Region, s: Shape, c: Coord): nat
    requires InRegion(rg, c)
  {
    (c.x - rg.left) * s.PixelBytes() + c.channel * s.valueSize + c.b
  }

  /** Byte of the source buffer copied to sample c, when consecutive region
      rows start `stride` bytes apart in the source. */
  function SourceIndex(rg: Region, s: Shape, stride: nat, c: Coord): nat
    requires InRegion(rg, c)
  {
    RegionRow(rg, c) * stride + InRowOffset(rg, s, c)
  }

  /** Number of source bytes the row copies reach: the last row starts at
      `(rows - 1) * stride` and spans the region's width. */
  function SourceExtent(rg: Region, s: Shape, stride: nat): nat
  {
    var rows := rg.height * rg.depth;
    var rowWidth := rg.width * s.PixelBytes();
    if rows == 0 || rowWidth == 0 then 0 else (rows - 1) * stride + rowWidth
  }

  /** Position of sample c when the region's pixels are listed row after row,
      layer after layer, each pixel densely packed. */
  function PackedIndex(rg: Region, s: Shape, c: Coord): nat
    requires InRegion(rg, c)
  {
    (RegionRow(rg, c) * rg.width + (c.x - rg.left)) * s.PixelBytes() + c.channel * s.valueSize + c.b
  }

  /** Bytes of the region's pixels when packed. */
  function PackedSize(rg: Region, s: Shape): nat
  {
    rg.width * rg.height * rg.depth * s.PixelBytes()
  }

  lemma StridedBound(k: nat, rows: nat, stride: nat, inRow: nat, rowWidth: nat)
    requires k < rows && inRow < rowWidth
    ensures k * stride + inRow < (rows - 1) * stride + rowWidth
  {
    MulMonotone(k, rows - 1, stride);
  }

  /** Every sample of a region inside the image is fed from inside the source extent. */
  lemma SourceIndexBound(rg: Region, s: Shape, stride: nat, c: Coord)
    requires Contains(s, c) && InRegion(rg, c) && stride >= rg.width * s.PixelBytes()
    ensures SourceIndex(rg, s, stride, c) < SourceExtent(rg, s, stride)
  {
    var zz, yy, xx := c.z - rg.layer, c.y - rg.top, c.x - rg.left;
    MulBound(zz, yy, rg.height, rg.depth);
    assert rg.depth * rg.height == rg.height * rg.depth;
    SampleInRow(xx, c.channel, c.b, rg.width, s.channels, s.valueSize);
    StridedBound(RegionRow(rg, c), rg.height * rg.depth, stride, InRowOffset(rg, s, c), rg.width * s.PixelBytes());
  }

  /** With rows packed back to back, the strided index is the packed index. */
  lemma PackedStride(rg: Region, s: Shape, c: Coord)
    requires InRegion(rg, c)
    ensures SourceIndex(rg, s, rg.width * s.PixelBytes(), c) == PackedIndex(rg, s, c)
    ensures SourceExtent(rg, s, rg.width * s.PixelBytes()) <= PackedSize(rg, s)
  {
    var k, w, pb := RegionRow(rg, c), rg.width, s.PixelBytes();
    var xx := c.x - rg.left;
    assert k * (w * pb) + xx * pb == (k * w + xx) * pb;
    var rows := rg.height * rg.depth;
    if rows > 0 {
      assert (rows - 1) * (w * pb) + w * pb == rows * (w * pb);
    }
    assert rows * (w * pb) == w * rg.height * rg.depth * pb;
  }

  /** The region copy shared by both readings of the source pointer: every
      sample of the region gets the source byte at its strided index, every
      other byte of the image is kept. */
  function UpdateRegion(img: Image, rg: Region, src: seq<byte>, stride: nat): (r: Image)
    requires Valid(img) && RegionInside(img, rg)
    requires stride >= rg.width * BytesPerPixel(img) && |src| >= SourceExtent(rg, ShapeOf(img), stride)
    ensures Valid(r) && SameShape(r, img)
    ensures forall c | Contains(ShapeOf(img), c) && InRegion(rg, c) ::
      SourceIndex(rg, ShapeOf(img), stride, c) < |src| && At(r, c) == src[SourceIndex(rg, ShapeOf(img), stride, c)]
    ensures forall c | Contains(ShapeOf(img), c) && !InRegion(rg, c) :: At(r, c) == At(img, c)
  {
    var s := ShapeOf(img);
    var r := img.(data := Tabulate<byte>(s, c => if InRegion(rg, c) then ByteOr(src, SourceIndex(rg, s, stride, c)) else ByteOr(img.data, IndexOf(s, c))));
    assert forall c | Contains(s, c) && InRegion(rg, c) ::
      SourceIndex(rg, s, stride, c) < |src| && At(r, c) == src[SourceIndex(rg, s, stride, c)] by {
      forall c | Contains(s, c) && InRegion(rg, c)
        ensures SourceIndex(rg, s, stride, c) < |src| && At(r, c) == src[SourceIndex(rg, s, stride, c)]
      {
        SourceIndexBound(rg, s, stride, c);
      }
    }
    assert forall c | Contains(s, c) && !InRegion(rg, c) :: At(r, c) == At(img, c) by {
      forall c | Contains(s, c) && !InRegion(rg, c)
        ensures At(r, c) == At(img, c)
      {
        IndexBound(s, c);
      }
    }
    r
  }

  /** `updatePixels(left, top, layer, w, h, d, src)` as written: the source
      pointer is a `const ValueType *`, but it is advanced by `rowWidth`, a
      byte count, so consecutive region rows are read `rowWidth * sizeof(ValueType)`
      bytes apart. */
  function UpdatePixelsAsWritten(img: Image, rg: Region, src: seq<byte>): (r: Image)
    requires Valid(img) && RegionInside(img, rg)
    requires |src| >= SourceExtent(rg, ShapeOf(img), rg.width * BytesPerPixel(img) * img.format.value.Size())
    ensures Valid(r) && SameShape(r, img)
    ensures forall c | Contains(ShapeOf(img), c) && InRegion(rg, c) ::
      SourceIndex(rg, ShapeOf(img), rg.width * BytesPerPixel(img) * img.format.value.Size(), c) < |src| &&
      At(r, c) == src[SourceIndex(rg, ShapeOf(img), rg.width * BytesPerPixel(img) * img.format.value.Size(), c)]
    ensures forall c | Contains(ShapeOf(img), c) && !InRegion(rg, c) :: At(r, c) == At(img, c)
  {
    var rowWidth := rg.width * BytesPerPixel(img);
    MulMonotone(1, img.format.value.Size(), rowWidth);
    UpdateRegion(img, rg, src, rowWidth * img.format.value.Size())
  }

  /** `updatePixels(left, top, layer, w, h, d, src)` with the source read as
      the region's pixels packed row after row and layer after layer: the
      byte of every region sample comes from its packed position, every other
      byte of the image is kept. */
  function UpdatePixels(img: Image, rg: Region, src: seq<byte>): (r: Image)
    requires Valid(img) && RegionInside(img, rg)
    requires |src| >= PackedSize(rg, ShapeOf(img))
    ensures Valid(r) && SameShape(r, img)
    ensures forall c | Contains(ShapeOf(img), c) && InRegion(rg, c) ::
      PackedIndex(rg, ShapeOf(img), c) < |src| && At(r, c) == src[PackedIndex(rg, ShapeOf(img), c)]
    ensures forall c | Contains(ShapeOf(img), c) && !InRegion(rg, c) :: At(r, c) == At(img, c)
  {
    var s := ShapeOf(img);
    PackedStrideExtent(rg, s);
    var r := UpdateRegion(img, rg, src, rg.width * BytesPerPixel(img));
    assert forall c | Contains(s, c) && InRegion(rg, c) :: PackedIndex(rg, s, c) < |src| && At(r, c) == src[PackedIndex(rg, s, c)] by {
      forall c | Contains(s, c) && InRegion(rg, c)
        ensures PackedIndex(rg, s, c) < |src| && At(r, c) == src[PackedIndex(rg, s, c)]
      {
        PackedStride(rg, s, c);
      }
    }
    r
  }

  lemma PackedStrideExtent(rg: Region, s: Shape)
    ensures SourceExtent(rg, s, rg.width * s.PixelBytes()) <= PackedSize(rg, s)
  {
    var w, pb, rows := rg.width, s.PixelBytes(), rg.height * rg.depth;
    if rows > 0 {
      assert (rows - 1) * (w * pb) + w * pb == rows * (w * pb);
    }
    assert rows * (w * pb) == w * rg.height * rg.depth * pb;
  }

  /** `updatePixels(left, top, w, h, src)` as written: it forwards to the
      written three-dimensional update with a region of depth one in layer 0,
      so its source rows are read `rowWidth * sizeof(ValueType)` bytes apart. */
  function UpdatePixels2AsWritten(img: Image, left: nat, top: nat, width: nat, height: nat, src: seq<byte>): (r: Image)
    requires Valid(img) && left + width <= img.width && top + height <= img.height && img.depth >= 1
    requires |src| >= SourceExtent(Region(left, top, 0, width, height, 1), ShapeOf(img),
      width * BytesPerPixel(img) * img.format.value.Size())
    ensures Valid(r) && SameShape(r, img)
    ensures forall c | Contains(ShapeOf(img), c) && InRegion(Region(left, top, 0, width, height, 1), c) ::
      c.z == 0 &&
      SourceIndex(Region(left, top, 0, width, height, 1), ShapeOf(img), width * BytesPerPixel(img) * img.format.value.Size(), c) < |src| &&
      At(r, c) == src[SourceIndex(Region(left, top, 0, width, height, 1), ShapeOf(img), width * BytesPerPixel(img) * img.format.value.Size(), c)]
    ensures forall c | Contains(ShapeOf(img), c) && !InRegion(Region(left, top, 0, width, height, 1), c) ::
      At(r, c) == At(img, c)
  {
    UpdatePixelsAsWritten(img, Region(left, top, 0, width, height, 1), src)
  }

  /** `updatePixels(left, top, w, h, src)` over the packed reading of the
      source: a region of depth one in layer 0. */
  function UpdatePixels2(img: Image, left: nat, top: nat, width: nat, height: nat, src: seq<byte>): (r: Image)
    requires Valid(img) && left + width <= img.width && top + height <= img.height && img.depth >= 1
    requires |src| >= width * height * BytesPerPixel(img)
    ensures Valid(r) && SameShape(r, img)
    ensures forall c | Contains(ShapeOf(img), c) && InRegion(Region(left, top, 0, width, height, 1), c) ::
      c.z == 0 && PackedIndex(Region(left, top, 0, width, height, 1), ShapeOf(img), c) < |src| &&
      At(r, c) == src[PackedIndex(Region(left, top, 0, width, height, 1), ShapeOf(img), c)]
    ensures forall c | Contains(ShapeOf(img), c) && !InRegion(Region(left, top, 0, width, height, 1), c) ::
      At(r, c) == At(img, c)
  {
    var rg := Region(left, top, 0, width, height, 1);
    assert PackedSize(rg, ShapeOf(img)) == width * height * BytesPerPixel(img);
    UpdatePixels(img, rg, src)
  }

  /** For one-byte values the written two-dimensional update is the packed one. */
  lemma UpdatePixels2AgreeForBytes(img: Image, left: nat, top: nat, width: nat, height: nat, src: seq<byte>)
    requires Valid(img) && left + width <= img.width && top + height <= img.height && img.depth >= 1
    requires img.format.value.Size() == 1 && |src| >= width * height * BytesPerPixel(img)
    ensures |src| >= SourceExtent(Region(left, top, 0, width, height, 1), ShapeOf(img), width * BytesPerPixel(img) * img.format.value.Size())
    ensures UpdatePixels2AsWritten(img, left, top, width, height, src) == UpdatePixels2(img, left, top, width, height, src)
  {
    var rg := Region(left, top, 0, width, height, 1);
    var s := ShapeOf(img);
    assert PackedSize(rg, s) == width * height * BytesPerPixel(img);
    PackedStrideExtent(rg, s);
    assert width * BytesPerPixel(img) * 1 == width * s.PixelBytes();
    UpdateAsWrittenAgreesForBytes(img, rg, src);
  }

  // ---------------------------------------------------------------------------
  // Single pixels

  /** True when c is a byte of pixel (x, y, z). */
  predicate IsPixel(c: Coord, x: nat, y: nat, z: nat)
  {
    c.Sample? && c.x == x && c.y == y && c.z == z
  }

  /** Byte b of channel ch sits at `ch * valueSize + b` inside the pixel. */
  lemma ChannelByteBound(s: Shape, ch: nat, b: nat)
    requires ch < s.channels && b < s.valueSize
    ensures ch * s.valueSize + b < s.PixelBytes()
  {
    SampleInRow(0, ch, b, 1, s.channels, s.valueSize);
  }

  /** Every byte offset inside a pixel splits into a channel and a byte. */
  lemma ChannelByteSplit(s: Shape, i: nat)
    requires i < s.PixelBytes()
    ensures s.valueSize > 0 && i / s.valueSize < s.channels && i % s.valueSize < s.valueSize
    ensures i == (i / s.valueSize) * s.valueSize + i % s.valueSize
  {
    PositiveFactors(s.channels, s.valueSize);
    if i / s.valueSize >= s.channels {
      MulMonotone(s.channels, i / s.valueSize, s.valueSize);
      assert false;
    }
  }

  /** `setPixel(x, y, z, value)`: `pixel(x, y, z).setValue(value)` copies
      `bytesPerPixel()` bytes of `value` over the pixel; every other byte is kept. */
  function SetPixel(img: Image, x: nat, y: nat, z: nat, value: seq<byte>): (r: Image)
    requires Valid(img) && x < img.width && y < img.height && z < img.depth
    requires |value| >= BytesPerPixel(img)
    ensures Valid(r) && SameShape(r, img)
    ensures forall ch: nat, b: nat | Contains(ShapeOf(img), Sample(x, y, z, ch, b)) ::
      ch * img.format.value.Size() + b < |value| && At(r, Sample(x, y, z, ch, b)) == value[ch * img.format.value.Size() + b]
    ensures forall c | Contains(ShapeOf(img), c) && !IsPixel(c, x, y, z) :: At(r, c) == At(img, c)
  {
    var s := ShapeOf(img);
    var r := img.(data := Tabulate<byte>(s, c => if IsPixel(c, x, y, z) then ByteOr(value, c.channel * s.valueSize + c.b) else ByteOr(img.data, IndexOf(s, c))));
    assert forall ch: nat, b: nat | Contains(s, Sample(x, y, z, ch, b)) ::
      ch * s.valueSize + b < |value| && At(r, Sample(x, y, z, ch, b)) == value[ch * s.valueSize + b] by {
      forall ch: nat, b: nat | Contains(s, Sample(x, y, z, ch, b))
        ensures ch * s.valueSize + b < |value| && At(r, Sample(x, y, z, ch, b)) == value[ch * s.valueSize + b]
      {
        ChannelByteBound(s, ch, b);
      }
    }
    assert forall c | Contains(s, c) && !IsPixel(c, x, y, z) :: At(r, c) == At(img, c) by {
      forall c | Contains(s, c) && !IsPixel(c, x, y, z)
        ensures At(r, c) == At(img, c)
      {
        IndexBound(s, c);
      }
    }
    r
  }

  /** `setPixel(x, y, value)`: the pixel of layer 0. */
  function SetPixel2(img: Image, x: nat, y: nat, value: seq<byte>): (r: Image)
    requires Valid(img) && x < img.width && y < img.height && img.depth >= 1
    requires |value| >= BytesPerPixel(img)
    ensures Valid(r) && SameShape(r, img)
    ensures forall ch: nat, b: nat | Contains(ShapeOf(img), Sample(x, y, 0, ch, b)) ::
      ch * img.format.value.Size() + b < |value| && At(r, Sample(x, y, 0, ch, b)) == value[ch * img.format.value.Size() + b]
    ensures forall c | Contains(ShapeOf(img), c) && !IsPixel(c, x, y, 0) :: At(r, c) == At(img, c)
  {
    SetPixel(img, x, y, 0, value)
  }

  /** The bytes `pixel(x, y, z)` refers to: `bytesPerPixel()` consecutive bytes
      starting at `z * bytesPerRow * height + y * bytesPerRow + x * bytesPerPixel`. */
  function PixelBytesAt(img: Image, x: nat, y: nat, z: nat): (r: seq<byte>)
    requires Valid(img) && x < img.width && y < img.height && z < img.depth
    ensures |r| == BytesPerPixel(img)
    ensures forall ch: nat, b: nat | Contains(ShapeOf(img), Sample(x, y, z, ch, b)) ::
      ch * img.format.value.Size() + b < |r| && r[ch * img.format.value.Size() + b] == At(img, Sample(x, y, z, ch, b))
  {
    var s := ShapeOf(img);
    var off := Offset(s, x, y, z);
    PixelSpan(s, x, y, z);
    var r := img.data[off .. off + s.PixelBytes()];
    assert forall ch: nat, b: nat | Contains(s, Sample(x, y, z, ch, b)) ::
      ch * s.valueSize + b < |r| && r[ch * s.valueSize + b] == At(img, Sample(x, y, z, ch, b)) by {
      forall ch: nat, b: nat | Contains(s, Sample(x, y, z, ch, b))
        ensures ch * s.valueSize + b < |r| && r[ch * s.valueSize + b] == At(img, Sample(x, y, z, ch, b))
      {
        ChannelByteBound(s, ch, b);
        var k := ch * s.valueSize + b;
        assert IndexOf(s, Sample(x, y, z, ch, b)) == off + k;
        assert r[k] == img.data[off + k];
      }
    }
    r
  }

  /** The bytes of pixel (x, y, z) lie inside the buffer. */
  lemma PixelSpan(s: Shape, x: nat, y: nat, z: nat)
    requires x < s.width && y < s.height && z < s.depth && s.channels > 0 && s.valueSize > 0
    ensures Offset(s, x, y, z) + s.PixelBytes() <= s.Size()
  {
    var last := Sample(x, y, z, s.channels - 1, s.valueSize - 1);
    IndexBound(s, last);
    assert (s.channels - 1) * s.valueSize + s.valueSize == s.channels * s.valueSize;
  }

  /** `pixel(x, y, z)` as a pixel value: channel ch holds the `sizeof(ValueType)`
      bytes of that channel. */
  function GetPixel(img: Image, x: nat, y: nat, z: nat): (p: Pixels.Pixel<seq<byte>>)
    requires Valid(img) && x < img.width && y < img.height && z < img.depth
    ensures Pixels.Valid(p) && p.format == img.format
    ensures forall ch: nat, b: nat | Contains(ShapeOf(img), Sample(x, y, z, ch, b)) ::
      |Pixels.Channel(p, ch)| == img.format.value.Size() && Pixels.Channel(p, ch)[b] == At(img, Sample(x, y, z, ch, b))
  {
    var s := ShapeOf(img);
    var bytes := PixelBytesAt(img, x, y, z);
    var vs := s.valueSize;
    var p := Pixels.Pixel(img.format, seq(s.channels, ch requires 0 <= ch < s.channels =>
      ChannelByteBound(s, ch, vs - 1);
      bytes[ch * vs .. ch * vs + vs]));
    assert forall ch: nat, b: nat | Contains(s, Sample(x, y, z, ch, b)) ::
      |Pixels.Channel(p, ch)| == vs && Pixels.Channel(p, ch)[b] == At(img, Sample(x, y, z, ch, b)) by {
      forall ch: nat, b: nat | Contains(s, Sample(x, y, z, ch, b))
        ensures |Pixels.Channel(p, ch)| == vs && Pixels.Channel(p, ch)[b] == At(img, Sample(x, y, z, ch, b))
      {
        ChannelByteBound(s, ch, b);
        ChannelByteBound(s, ch, vs - 1);
      }
    }
    p
  }

  // ---------------------------------------------------------------------------
  // Laws of the pixel accessors

  /** Reading a pixel back after setting it gives the bytes that were set. */
  lemma SetPixelThenRead(img: Image, x: nat, y: nat, z: nat, value: seq<byte>)
    requires Valid(img) && x < img.width && y < img.height && z < img.depth
    requires |value| >= BytesPerPixel(img)
    ensures PixelBytesAt(SetPixel(img, x, y, z, value), x, y, z) == value[..BytesPerPixel(img)]
  {
    var s := ShapeOf(img);
    var r := SetPixel(img, x, y, z, value);
    var got := PixelBytesAt(r, x, y, z);
    forall i | 0 <= i < s.PixelBytes()
      ensures got[i] == value[i]
    {
      ChannelByteSplit(s, i);
      var ch, b := i / s.valueSize, i % s.valueSize;
      assert got[ch * s.valueSize + b] == At(r, Sample(x, y, z, ch, b));
    }
  }

  /** Setting a pixel to the bytes it already holds changes nothing. */
  lemma ReadThenSetPixel(img: Image, x: nat, y: nat, z: nat)
    requires Valid(img) && x < img.width && y < img.height && z < img.depth
    ensures SetPixel(img, x, y, z, PixelBytesAt(img, x, y, z)) == img
  {
    var bytes := PixelBytesAt(img, x, y, z);
    var r := SetPixel(img, x, y, z, bytes);
    forall c | Contains(ShapeOf(img), c)
      ensures At(r, c) == At(img, c)
    {
      if IsPixel(c, x, y, z) {
        assert At(r, c) == bytes[c.channel * img.format.value.Size() + c.b];
      }
    }
    SameBytes(r, img);
  }

  /** Of two writes to the same pixel, the second wins. */
  lemma SetPixelTwice(img: Image, x: nat, y: nat, z: nat, u: seq<byte>, v: seq<byte>)
    requires Valid(img) && x < img.width && y < img.height && z < img.depth
    requires |u| >= BytesPerPixel(img) && |v| >= BytesPerPixel(img)
    ensures SetPixel(SetPixel(img, x, y, z, u), x, y, z, v) == SetPixel(img, x, y, z, v)
  {
    var a := SetPixel(SetPixel(img, x, y, z, u), x, y, z, v);
    var b := SetPixel(img, x, y, z, v);
    forall c | Contains(ShapeOf(img), c)
      ensures At(a, c) == At(b, c)
    {
      if IsPixel(c, x, y, z) {
        assert At(a, c) == v[c.channel * img.format.value.Size() + c.b];
      }
    }
    SameBytes(a, b);
  }

  /** Setting one pixel is updating the one-pixel region at that pixel. */
  lemma SetPixelIsUnitUpdate(img: Image, x: nat, y: nat, z: nat, value: seq<byte>)
    requires Valid(img) && x < img.width && y < img.height && z < img.depth
    requires |value| >= BytesPerPixel(img)
    ensures PackedSize(Region(x, y, z, 1, 1, 1), ShapeOf(img)) == BytesPerPixel(img)
    ensures SetPixel(img, x, y, z, value) == UpdatePixels(img, Region(x, y, z, 1, 1, 1), value)
  {
    var rg := Region(x, y, z, 1, 1, 1);
    var a := SetPixel(img, x, y, z, value);
    var b := UpdatePixels(img, rg, value);
    forall c | Contains(ShapeOf(img), c)
      ensures At(a, c) == At(b, c)
    {
      if IsPixel(c, x, y, z) {
        assert InRegion(rg, c);
        assert PackedIndex(rg, ShapeOf(img), c) == c.channel * img.format.value.Size() + c.b;
      } else {
        assert !InRegion(rg, c);
      }
    }
    SameBytes(a, b);
  }

  /** `swapChannels(a, b)` exchanges channels a and b of every pixel value. */
  lemma SwapChannelsSwapsPixelChannels(img: Image, a: nat, b: nat, x: nat, y: nat, z: nat)
    requires Valid(img) && a < ChannelCountOf(img) && b < ChannelCountOf(img)
    requires x < img.width && y < img.height && z < img.depth
    ensures Pixels.Channel(GetPixel(SwapChannels(img, a, b), x, y, z), a) == Pixels.Channel(GetPixel(img, x, y, z), b)
    ensures Pixels.Channel(GetPixel(SwapChannels(img, a, b), x, y, z), b) == Pixels.Channel(GetPixel(img, x, y, z), a)
  {
    var r := SwapChannels(img, a, b);
    var p := GetPixel(r, x, y, z);
    var q := GetPixel(img, x, y, z);
    var vs := img.format.value.Size();
    forall bt | 0 <= bt < vs
      ensures Pixels.Channel(p, a)[bt] == Pixels.Channel(q, b)[bt]
      ensures Pixels.Channel(p, b)[bt] == Pixels.Channel(q, a)[bt]
    {
      assert Pixels.Channel(p, a)[bt] == At(r, Sample(x, y, z, a, bt));
      assert Pixels.Channel(q, b)[bt] == At(img, Sample(x, y, z, b, bt));
      assert Pixels.Channel(p, b)[bt] == At(r, Sample(x, y, z, b, bt));
      assert Pixels.Channel(q, a)[bt] == At(img, Sample(x, y, z, a, bt));
    }
    assert |Pixels.Channel(p, a)| == vs && |Pixels.Channel(q, b)| == vs by {
      assert Contains(ShapeOf(img), Sample(x, y, z, a, 0));
      assert Contains(ShapeOf(img), Sample(x, y, z, b, 0));
    }
  }

  // ---------------------------------------------------------------------------
  // The two readings of the update source

  lemma OverreachArith(rows: nat, rowWidth: nat, vs: nat)
    requires rows >= 2 && rowWidth >= 1 && vs >= 2
    ensures (rows - 1) * (rowWidth * vs) + rowWidth > rows * rowWidth
  {
    MulMonotone(2, vs, rowWidth);
    assert (rows - 1) * (rowWidth * vs) >= (rows - 1) * (rowWidth * 2) by {
      MulMonotone(rowWidth * 2, rowWidth * vs, rows - 1);
    }
    assert (rows - 1) * (rowWidth * 2) + rowWidth == rows * rowWidth + (rows - 1) * rowWidth;
    MulMonotone(1, rows - 1, rowWidth);
  }

  /** For multi-byte values, the written update reads further into the source
      than the region's packed pixels reach, as soon as the region has a
      pixel and more than one row. */
  lemma UpdateAsWrittenOverreaches(img: Image, rg: Region)
    requires Valid(img) && img.format.value.Size() >= 2
    requires rg.width >= 1 && rg.height * rg.depth >= 2
    ensures SourceExtent(rg, ShapeOf(img), rg.width * BytesPerPixel(img) * img.format.value.Size()) > PackedSize(rg, ShapeOf(img))
  {
    var s := ShapeOf(img);
    var rowWidth := rg.width * s.PixelBytes();
    MulMonotone(1, s.channels, s.valueSize);
    MulMonotone(1, rg.width, s.PixelBytes());
    OverreachArith(rg.height * rg.depth, rowWidth, s.valueSize);
    assert rg.height * rg.depth * rowWidth == PackedSize(rg, s);
  }

  /** For one-byte values both readings coincide. */
  lemma UpdateAsWrittenAgreesForBytes(img: Image, rg: Region, src: seq<byte>)
    requires Valid(img) && RegionInside(img, rg) && img.format.value.Size() == 1
    requires |src| >= PackedSize(rg, ShapeOf(img))
    requires |src| >= SourceExtent(rg, ShapeOf(img), rg.width * BytesPerPixel(img) * img.format.value.Size())
    ensures UpdatePixelsAsWritten(img, rg, src) == UpdatePixels(img, rg, src)
  {
    var s := ShapeOf(img);
    var a := UpdatePixelsAsWritten(img, rg, src);
    var b := UpdatePixels(img, rg, src);
    assert rg.width * BytesPerPixel(img) * 1 == rg.width * s.PixelBytes();
    forall c | Contains(s, c)
      ensures At(a, c) == At(b, c)
    {
      if InRegion(rg, c) {
        PackedStride(rg, s, c);
      }
    }
    SameBytes(a, b);
  }

  /** A two-by-two 16-bit gray image without padding, updated as a whole from
      four packed values (eight bytes): the written update starts pixel (0, 1)
      at source byte 8, one past the last byte of the four values, where the
      packed reading starts it at byte 4. */
  lemma UpdateAsWrittenGray16Example()
    ensures ShapeOf(Image(PixelFormat(U16, GrayLayout), 2, 2, 1, 0, [])) == Gray16Shape
    ensures PackedSize(WholeGray16, Gray16Shape) == 8
    ensures WholeGray16.width * Gray16Shape.PixelBytes() * Gray16Shape.valueSize == 8
    ensures SourceIndex(WholeGray16, Gray16Shape, 8, Sample(0, 1, 0, 0, 0)) == 8
    ensures SourceExtent(WholeGray16, Gray16Shape, 8) == 12
    ensures PackedIndex(WholeGray16, Gray16Shape, Sample(0, 1, 0, 0, 0)) == 4
  {
  }

  /** The shape of a two-by-two 16-bit gray image without padding, and its whole region. */
  const Gray16Shape: Shape := Shape(2, 2, 1, 1, 2, 0)
  const WholeGray16: Region := Region(0, 0, 0, 2, 2, 1)

  lemma PackedLinear(z: nat, y: nat, x: nat, h: nat, w: nat, pb: nat)
    ensures ((z * h + y) * w + x) * pb == z * (w * pb) * h + y * (w * pb) + x * pb
  {
    assert ((z * h + y) * w + x) * pb == (z * h + y) * (w * pb) + x * pb;
    assert (z * h + y) * (w * pb) == z * h * (w * pb) + y * (w * pb);
    assert z * h * (w * pb) == z * (w * pb) * h;
  }

  /** Without row padding, updating the whole image from a buffer is loading
      that buffer: the packed order of all pixels is the buffer layout. */
  lemma UpdateWholeIsLoad(img: Image, src: seq<byte>)
    requires Valid(img) && img.rowPadding == 0
    requires |src| >= ByteCount(img)
    requires |src| >= PackedSize(Region(0, 0, 0, img.width, img.height, img.depth), ShapeOf(img))
    ensures UpdatePixels(img, Region(0, 0, 0, img.width, img.height, img.depth), src) ==
      LoadPixels(img, img.width, img.height, img.depth, src, 0)
  {
    var s := ShapeOf(img);
    var rg := Region(0, 0, 0, img.width, img.height, img.depth);
    var a := UpdatePixels(img, rg, src);
    var b := LoadPixels(img, img.width, img.height, img.depth, src, 0);
    ShapeStrides(s);
    assert ShapeOf(b) == s;
    forall c | Contains(s, c)
      ensures At(a, c) == At(b, c)
    {
      assert c.Sample? && InRegion(rg, c);
      PackedLinear(c.z, c.y, c.x, s.height, s.width, s.PixelBytes());
      assert PackedIndex(rg, s, c) == IndexOf(s, c);
    }
    SameBytes(a, b);
  }

  // ---------------------------------------------------------------------------
  // Worked examples

  /** A 3 x 3 one-byte gray image holding 0..8 row by row: updating its
      2 x 2 region at (1, 1) with 8, 7, 6, 5 rewrites exactly the lower right
      pixels, in row-major order. */
  lemma UpdateExample(img: Image)
    requires Valid(img) && img.format == PixelFormat(U8, GrayLayout)
    requires img.width == 3 && img.height == 3 && img.depth == 1
    requires forall x: nat, y: nat | x < 3 && y < 3 :: At(img, Sample(x, y, 0, 0, 0)) == 3 * y + x
    ensures |[8, 7, 6, 5]| >= SourceExtent(Region(1, 1, 0, 2, 2, 1), ShapeOf(img), 2 * BytesPerPixel(img) * 1)
    ensures var r := UpdatePixels2AsWritten(img, 1, 1, 2, 2, [8, 7, 6, 5]);
      At(r, Sample(0, 0, 0, 0, 0)) == 0 && At(r, Sample(1, 0, 0, 0, 0)) == 1 && At(r, Sample(2, 0, 0, 0, 0)) == 2 &&
      At(r, Sample(0, 1, 0, 0, 0)) == 3 && At(r, Sample(1, 1, 0, 0, 0)) == 8 && At(r, Sample(2, 1, 0, 0, 0)) == 7 &&
      At(r, Sample(0, 2, 0, 0, 0)) == 6 && At(r, Sample(1, 2, 0, 0, 0)) == 6 && At(r, Sample(2, 2, 0, 0, 0)) == 5
  {
    UpdatePixels2AgreeForBytes(img, 1, 1, 2, 2, [8, 7, 6, 5]);
    var r := UpdatePixels2(img, 1, 1, 2, 2, [8, 7, 6, 5]);
    var rg := Region(1, 1, 0, 2, 2, 1);
    assert ShapeOf(img) == Shape(3, 3, 1, 1, 1, img.rowPadding);
    assert At(img, Sample(0, 0, 0, 0, 0)) == 0 && At(img, Sample(1, 0, 0, 0, 0)) == 1 && At(img, Sample(2, 0, 0, 0, 0)) == 2;
    assert At(img, Sample(0, 1, 0, 0, 0)) == 3 && At(img, Sample(0, 2, 0, 0, 0)) == 6;
    assert PackedIndex(rg, ShapeOf(img), Sample(1, 1, 0, 0, 0)) == 0;
    assert PackedIndex(rg, ShapeOf(img), Sample(2, 1, 0, 0, 0)) == 1;
    assert PackedIndex(rg, ShapeOf(img), Sample(1, 2, 0, 0, 0)) == 2;
    assert PackedIndex(rg, ShapeOf(img), Sample(2, 2, 0, 0, 0)) == 3;
  }

  /** A 2 x 2 one-byte gray image holding 255, 125, 50, 25: flipping its rows
      and then its columns. */
  lemma FlipExample(img: Image)
    requires Valid(img) && img.format == PixelFormat(U8, GrayLayout)
    requires img.width == 2 && img.height == 2 && img.depth == 1
    requires At(img, Sample(0, 0, 0, 0, 0)) == 255 && At(img, Sample(1, 0, 0, 0, 0)) == 125
    requires At(img, Sample(0, 1, 0, 0, 0)) == 50 && At(img, Sample(1, 1, 0, 0, 0)) == 25
    ensures var rows := FlipRows(img);
      var both := FlipColumns(rows);
      At(rows, Sample(0, 0, 0, 0, 0)) == 50 && At(rows, Sample(1, 0, 0, 0, 0)) == 25 &&
      At(rows, Sample(0, 1, 0, 0, 0)) == 255 && At(rows, Sample(1, 1, 0, 0, 0)) == 125 &&
      At(both, Sample(0, 0, 0, 0, 0)) == 25 && At(both, Sample(1, 0, 0, 0, 0)) == 50 &&
      At(both, Sample(0, 1, 0, 0, 0)) == 125 && At(both, Sample(1, 1, 0, 0, 0)) == 255
  {
    var rows := FlipRows(img);
    var both := FlipColumns(rows);
    assert ShapeOf(img) == Shape(2, 2, 1, 1, 1, img.rowPadding);
    assert At(rows, Sample(0, 0, 0, 0, 0)) == At(img, Sample(0, 1, 0, 0, 0));
    assert At(rows, Sample(1, 0, 0, 0, 0)) == At(img, Sample(1, 1, 0, 0, 0));
    assert At(rows, Sample(0, 1, 0, 0, 0)) == At(img, Sample(0, 0, 0, 0, 0));
    assert At(rows, Sample(1, 1, 0, 0, 0)) == At(img, Sample(1, 0, 0, 0, 0));
    assert At(both, Sample(0, 0, 0, 0, 0)) == At(rows, Sample(1, 0, 0, 0, 0));
    assert At(both, Sample(1, 0, 0, 0, 0)) == At(rows, Sample(0, 0, 0, 0, 0));
    assert At(both, Sample(0, 1, 0, 0, 0)) == At(rows, Sample(1, 1, 0, 0, 0));
    assert At(both, Sample(1, 1, 0, 0, 0)) == At(rows, Sample(0, 1, 0, 0, 0));
  }
}
