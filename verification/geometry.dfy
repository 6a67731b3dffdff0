/**
 Byte addressing inside a strided, possibly three-dimensional pixel buffer.

 A buffer is `depth` layers of `height` rows. A row holds `width` densely
 packed pixels of `channels` values of `valueSize` bytes each, followed by
 `padding` unused bytes. Every byte of such a buffer is named by exactly one
 `Coord`, and `IndexOf` / `CoordOf` are inverse bijections between the valid
 coordinates and the byte indices `[0, Size())`. Every buffer operation of
 the image model is written as a `Tabulate` over coordinates, so its contract
 can be stated per pixel, per channel and per padding byte.
 */
module Geometry {

  /** The dimensions that determine where every byte of an image lives. */
  datatype Shape = Shape(width: nat, height: nat, depth: nat, channels: nat, valueSize: nat, padding: nat)
  {
    /** Size of one pixel; the pixel type is assumed densely packed,
        so it is the channel count times the value size. */
    function PixelBytes(): nat { channels * valueSize }

    /** Distance between the starts of two consecutive rows. */
    function RowBytes(): nat { width * valueSize * channels + padding }

    /** Distance between the starts of two consecutive layers. */
    function LayerBytes(): nat { RowBytes() * height }

    /** Number of bytes of the whole buffer. */
    function Size(): nat { (width * valueSize * channels + padding) * height * depth }
  }

  /** A byte of the buffer: byte `b` of channel `channel` of pixel (x, y, z),
      or byte `p` of the padding that ends row y of layer z. */
  datatype Coord =
    | Sample(x: nat, y: nat, z: nat, channel: nat, b: nat)
    | Padding(y: nat, z: nat, p: nat)

  /** True when `c` names a byte of a buffer of shape `s`. */
  predicate Contains(s: Shape, c: Coord)
  {
    match c
    case Sample(x, y, z, ch, b) =>
      x < s.width && y < s.height && z < s.depth && ch < s.channels && b < s.valueSize
    case Padding(y, z, p) =>
      y < s.height && z < s.depth && p < s.padding
  }

  /** Byte offset of the first byte of row y of layer z. */
  function RowStart(s: Shape, y: nat, z: nat): nat
  {
    z * s.RowBytes() * s.height + y * s.RowBytes()
  }

  /** Byte offset of pixel (x, y, z): the one addressing formula of the image. */
  function Offset(s: Shape, x: nat, y: nat, z: nat): nat
  {
    RowStart(s, y, z) + x * s.PixelBytes()
  }

  /** Byte index of a coordinate. */
  function IndexOf(s: Shape, c: Coord): nat
  {
    match c
    case Sample(x, y, z, ch, b) => Offset(s, x, y, z) + ch * s.valueSize + b
    case Padding(y, z, p) => RowStart(s, y, z) + s.width * s.PixelBytes() + p
  }

  /** Coordinate of a byte index, by successive division by the layer, row,
      pixel and value strides. The first branch is never taken for an index
      inside the buffer (see `IndexOfCoordOf`). */
  function CoordOf(s: Shape, i: nat): Coord
  {
    var row := s.RowBytes();
    var layer := row * s.height;
    if row == 0 || layer == 0 then Padding(0, 0, 0)
    else
      var z := i / layer;
      var inLayer := i % layer;
      var y := inLayer / row;
      var inRow := inLayer % row;
      if s.PixelBytes() > 0 && s.valueSize > 0 && inRow < s.width * s.PixelBytes() then
        var inPixel := inRow % s.PixelBytes();
        Sample(inRow / s.PixelBytes(), y, z, inPixel / s.valueSize, inPixel % s.valueSize)
      else
        Padding(y, z, inRow - s.width * s.PixelBytes())
  }

  // ---------------------------------------------------------------------------
  // Arithmetic facts

  /** Euclidean division is determined by quotient and remainder. */
  lemma DivModUnique(a: int, n: int, q: int, r: int)
    requires n > 0 && 0 <= r < n && a == q * n + r
    ensures a / n == q && a % n == r
  {
    var q' := a / n;
    var r' := a % n;
    assert a == q' * n + r';
    assert (q - q') * n == r' - r;
    if q - q' >= 1 {
      MulMonotone(1, q - q', n);
      assert false;
    } else if q' - q >= 1 {
      MulMonotone(1, q' - q, n);
      assert false;
    }
  }

  lemma MulMonotone(a: int, b: int, n: int)
    requires a <= b && n >= 0
    ensures a * n <= b * n
  {
    assert b * n - a * n == (b - a) * n;
  }

  lemma PositiveFactors(a: nat, b: nat)
    requires a * b > 0
    ensures a > 0 && b > 0
  {
  }

  /** A quotient below m and a remainder below n stay below m * n. */
  lemma MulBound(q: int, r: int, n: int, m: int)
    requires 0 <= q < m && 0 <= r < n
    ensures q * n + r < m * n
  {
    assert q * n + r < (q + 1) * n;
    MulMonotone(q + 1, m, n);
  }

  // ---------------------------------------------------------------------------
  // The coordinate bijection

  lemma ShapeStrides(s: Shape)
    ensures s.RowBytes() == s.width * s.PixelBytes() + s.padding
    ensures s.Size() == s.LayerBytes() * s.depth
  {
    assert s.width * s.valueSize * s.channels == s.width * (s.channels * s.valueSize);
  }

  /** Within a row: sample (x, ch, b) lies inside the pixel area. */
  lemma SampleInRow(x: nat, ch: nat, b: nat, w: nat, chs: nat, vs: nat)
    requires x < w && ch < chs && b < vs
    ensures ch * vs + b < chs * vs
    ensures x * (chs * vs) + ch * vs + b < w * (chs * vs)
  {
    MulBound(ch, b, vs, chs);
    MulBound(x, ch * vs + b, chs * vs, w);
  }

  /** Row y of layer z, byte `inRow`, lies inside a buffer of d layers of h rows. */
  lemma LinearBound(z: nat, y: nat, inRow: nat, row: nat, h: nat, d: nat)
    requires z < d && y < h && inRow < row
    ensures y * row + inRow < row * h
    ensures z * row * h + y * row + inRow < row * h * d
  {
    MulBound(y, inRow, row, h);
    MulBound(z, y * row + inRow, row * h, d);
    assert z * row * h == z * (row * h);
    assert row * h * d == d * (row * h);
  }

  /** Dividing a linear index by the layer and row strides recovers its parts. */
  lemma LinearDecode(z: nat, y: nat, inRow: nat, row: nat, h: nat)
    requires y < h && inRow < row
    ensures row * h > 0
    ensures (z * row * h + y * row + inRow) / (row * h) == z
    ensures (z * row * h + y * row + inRow) % (row * h) == y * row + inRow
    ensures (y * row + inRow) / row == y && (y * row + inRow) % row == inRow
  {
    MulBound(y, inRow, row, h);
    assert z * row * h == z * (row * h);
    DivModUnique(z * row * h + y * row + inRow, row * h, z, y * row + inRow);
    DivModUnique(y * row + inRow, row, y, inRow);
  }

  /** Any index below row * h * d splits into layer, row and in-row parts. */
  lemma LinearSplit(i: nat, row: nat, h: nat, d: nat)
    requires i < row * h * d
    ensures row > 0 && row * h > 0
    ensures i / (row * h) < d
    ensures (i % (row * h)) / row < h
    ensures i == (i / (row * h)) * row * h + ((i % (row * h)) / row) * row + (i % (row * h)) % row
  {
    assert row * h * d == (row * h) * d;
    PositiveFactors(row * h, d);
    PositiveFactors(row, h);
    var layer := row * h;
    var z := i / layer;
    var inLayer := i % layer;
    if z >= d {
      MulMonotone(d, z, layer);
      assert false;
    }
    var y := inLayer / row;
    if y >= h {
      MulMonotone(h, y, row);
      assert false;
    }
    assert z * layer == z * row * h;
  }

  /** Inside the pixel area of a row, the in-row offset splits into pixel, channel and byte. */
  lemma SampleSplit(inRow: nat, w: nat, chs: nat, vs: nat)
    requires inRow < w * (chs * vs) && chs * vs > 0 && vs > 0
    ensures inRow / (chs * vs) < w
    ensures (inRow % (chs * vs)) / vs < chs
    ensures inRow == (inRow / (chs * vs)) * (chs * vs) + ((inRow % (chs * vs)) / vs) * vs + (inRow % (chs * vs)) % vs
  {
    var pb := chs * vs;
    var x := inRow / pb;
    if x >= w {
      MulMonotone(w, x, pb);
      assert false;
    }
    var ch := (inRow % pb) / vs;
    if ch >= chs {
      MulMonotone(chs, ch, vs);
      assert false;
    }
  }

  /** Every coordinate of the buffer names a byte inside it. */
  lemma IndexBound(s: Shape, c: Coord)
    requires Contains(s, c)
    ensures IndexOf(s, c) < s.Size()
  {
    ShapeStrides(s);
    var inRow: nat;
    match c {
      case Sample(x, y, z, ch, b) =>
        SampleInRow(x, ch, b, s.width, s.channels, s.valueSize);
        inRow := x * s.PixelBytes() + ch * s.valueSize + b;
      case Padding(y, z, p) =>
        inRow := s.width * s.PixelBytes() + p;
    }
    LinearBound(c.z, c.y, inRow, s.RowBytes(), s.height, s.depth);
  }

  /** Decoding the index of a coordinate gives the coordinate back. */
  lemma CoordOfIndexOf(s: Shape, c: Coord)
    requires Contains(s, c)
    ensures CoordOf(s, IndexOf(s, c)) == c
  {
    ShapeStrides(s);
    var pb := s.PixelBytes();
    var inRow: nat;
    match c {
      case Sample(x, y, z, ch, b) =>
        SampleInRow(x, ch, b, s.width, s.channels, s.valueSize);
        inRow := x * pb + ch * s.valueSize + b;
        DivModUnique(inRow, pb, x, ch * s.valueSize + b);
        DivModUnique(ch * s.valueSize + b, s.valueSize, ch, b);
      case Padding(y, z, p) =>
        inRow := s.width * pb + p;
    }
    LinearDecode(c.z, c.y, inRow, s.RowBytes(), s.height);
  }

  /** Every byte index of the buffer is the index of a valid coordinate. */
  lemma IndexOfCoordOf(s: Shape, i: nat)
    requires i < s.Size()
    ensures Contains(s, CoordOf(s, i))
    ensures IndexOf(s, CoordOf(s, i)) == i
  {
    ShapeStrides(s);
    var row := s.RowBytes();
    var pb := s.PixelBytes();
    LinearSplit(i, row, s.height, s.depth);
    var inRow := (i % (row * s.height)) % row;
    if pb > 0 && s.valueSize > 0 && inRow < s.width * pb {
      SampleSplit(inRow, s.width, s.channels, s.valueSize);
    } else {
      assert s.width * pb <= inRow < row by {
        if s.valueSize == 0 || pb == 0 {
          assert pb == 0;
          assert s.width * pb == 0;
        }
      }
    }
  }

  /** Two buffers of shape `s` are equal when they agree on every coordinate. */
  lemma Extensionality<T>(s: Shape, a: seq<T>, b: seq<T>)
    requires |a| == s.Size() && |b| == s.Size()
    requires forall c | Contains(s, c) :: IndexBoundAt(s, c) && a[IndexOf(s, c)] == b[IndexOf(s, c)]
    ensures a == b
  {
    forall i | 0 <= i < |a|
      ensures a[i] == b[i]
    {
      IndexOfCoordOf(s, i);
      var c := CoordOf(s, i);
      assert IndexBoundAt(s, c);
    }
  }

  /** `IndexBound` as a predicate, so that it can guard an index in a quantifier. */
  predicate IndexBoundAt(s: Shape, c: Coord)
  {
    IndexOf(s, c) < s.Size()
  }

  /** The buffer whose byte at coordinate c is `f(c)`. */
  function Tabulate<T>(s: Shape, f: Coord -> T): (r: seq<T>)
    ensures |r| == s.Size()
    ensures forall c | Contains(s, c) :: IndexBoundAt(s, c) && r[IndexOf(s, c)] == f(c)
  {
    var r := seq(s.Size(), i requires 0 <= i < s.Size() => f(CoordOf(s, i)));
    assert forall c | Contains(s, c) :: IndexBoundAt(s, c) && r[IndexOf(s, c)] == f(c) by {
      forall c | Contains(s, c)
        ensures IndexBoundAt(s, c) && r[IndexOf(s, c)] == f(c)
      {
        IndexBound(s, c);
        CoordOfIndexOf(s, c);
      }
    }
    r
  }
}
