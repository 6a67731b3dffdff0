/**
 The pixel iterator `PixelIteratorT`.

 An iterator is a byte position inside its image's buffer and the column it
 believes that position is in. Moving by n pixels moves the position by n
 pixel sizes, plus one row padding for every row end crossed. Positions are
 counted from the first byte of the buffer and may go below zero: the
 written decrement can step in front of the buffer.
 */
module PixelIterators {

  import opened Geometry
  import Images

  /** What the iterator reads from its image: width, row padding and `sizeof(Pixel)`. */
  datatype Frame = Frame(width: nat, rowPadding: nat, pixelBytes: nat)
  {
    function RowBytes(): nat { width * pixelBytes + rowPadding }
  }

  /** The iterator state: byte position and current column. */
  datatype Iter = Iter(pos: int, x: nat)

  function FrameOf(img: Images.Image): Frame
  {
    Frame(img.width, img.rowPadding, Images.BytesPerPixel(img))
  }

  /** `begin()`: the first byte of the buffer, column 0. */
  const Begin: Iter := Iter(0, 0)

  // ---------------------------------------------------------------------------
  // Arithmetic facts

  /** Adding n to an index of a row of width w carries `(k % w + n) / w` rows. */
  lemma DivModAdd(k: nat, n: nat, w: nat)
    requires w > 0
    ensures (k + n) / w == k / w + (k % w + n) / w
    ensures (k + n) % w == (k % w + n) % w
  {
    var q, r := k / w, k % w;
    var q2, r2 := (r + n) / w, (r + n) % w;
    assert k + n == (q + q2) * w + r2;
    DivModUnique(k + n, w, q + q2, r2);
  }

  /** Advancing from column r by n pixels, of which q2 rows' worth wrap to column r2. */
  lemma IncrementArith(q: int, r: int, n: int, q2: int, r2: int, w: int, pb: int, pad: int)
    requires r + n == q2 * w + r2
    ensures (q + q2) * (w * pb + pad) + r2 * pb == q * (w * pb + pad) + r * pb + q2 * pad + n * pb
  {
    assert (q + q2) * (w * pb + pad) == q * (w * pb + pad) + q2 * w * pb + q2 * pad;
    assert r2 * pb == (r + n) * pb - q2 * w * pb;
  }

  /** Index order is lexicographic order on (row, column). */
  lemma LexOrder(j: nat, k: nat, w: nat)
    requires w > 0 && j < k
    ensures j / w < k / w || (j / w == k / w && j % w < k % w)
  {
    if j / w > k / w {
      MulMonotone(k / w + 1, j / w, w);
      assert false;
    }
  }

  /** Positions of (row, column) pairs grow lexicographically. */
  lemma PositionOrder(qj: nat, rj: nat, qk: nat, rk: nat, w: nat, pb: nat, pad: nat)
    requires rj < w && rk < w && pb > 0
    requires qj < qk || (qj == qk && rj < rk)
    ensures qj * (w * pb + pad) + rj * pb < qk * (w * pb + pad) + rk * pb
  {
    var row := w * pb + pad;
    if qj == qk {
      MulMonotone(rj + 1, rk, pb);
    } else {
      MulMonotone(rj + 1, w, pb);
      assert rj * pb < w * pb <= row;
      MulMonotone(qj + 1, qk, row);
      assert qj * row + row <= qk * row;
    }
  }

  /** Stepping back n pixels from column r of row q when the step crosses
      exactly a rows: row q - a, column 0. */
  lemma DecrementArithExact(q: int, r: int, n: int, a: int, w: int, pb: int, pad: int)
    requires n - r == a * w
    ensures (q - a) * (w * pb + pad) + 0 * pb == q * (w * pb + pad) + r * pb - (a * pad + n * pb)
  {
    assert (q - a) * (w * pb + pad) == q * (w * pb + pad) - a * w * pb - a * pad;
    assert (n - r) * pb == a * w * pb;
  }

  /** Stepping back n pixels from column r of row q when the step crosses a
      whole rows and b more pixels: row q - a - 1, column w - b. */
  lemma DecrementArithPartial(q: int, r: int, n: int, a: int, b: int, w: int, pb: int, pad: int)
    requires n - r == a * w + b
    ensures (q - a - 1) * (w * pb + pad) + (w - b) * pb == q * (w * pb + pad) + r * pb - ((a + 1) * pad + n * pb)
  {
    assert (q - a - 1) * (w * pb + pad) == q * (w * pb + pad) - (a + 1) * w * pb - (a + 1) * pad;
    assert (n - r) * pb == a * w * pb + b * pb;
    assert (w - b) * pb == w * pb - b * pb;
  }

  /** The start of row `z * h + y` is `z * row * h + y * row`. */
  lemma RowOfLayer(z: nat, y: nat, h: nat, row: nat)
    ensures (z * h + y) * row == z * row * h + y * row
  {
  }

  // ---------------------------------------------------------------------------
  // Moving forward

  /** `increment(n)`, which is also `++it`, `it += n` and `it + n`. When the
      new column `x + n` passes `width - 1`, the iterator moves to column
      `(x + n) % width` and pays one row padding per row end crossed. For a
      zero width `width - 1` wraps to the largest unsigned value, so the test
      fails and only the pixel bytes are added. */
  function Increment(f: Frame, it: Iter, n: nat): (r: Iter)
    ensures f.width > 0 ==> r.x == (it.x + n) % f.width
    ensures f.width > 0 ==> r.pos == it.pos + n * f.pixelBytes + ((it.x + n) / f.width) * f.rowPadding
    ensures f.width == 0 ==> r == Iter(it.pos + n * f.pixelBytes, it.x + n)
  {
    var noff := it.x + n;
    if f.width > 0 && noff > f.width - 1 then
      Iter(it.pos + (noff / f.width) * f.rowPadding + n * f.pixelBytes, noff % f.width)
    else
      assert f.width > 0 ==> noff / f.width == 0 && noff % f.width == noff by {
        if f.width > 0 {
          DivModUnique(noff, f.width, 0, noff);
        }
      }
      Iter(it.pos + n * f.pixelBytes, noff)
  }

  /** Moving by a and then by b is moving by a + b, from any iterator state. */
  lemma IncrementAdditive(f: Frame, it: Iter, a: nat, b: nat)
    ensures Increment(f, Increment(f, it, a), b) == Increment(f, it, a + b)
  {
    assert (a + b) * f.pixelBytes == a * f.pixelBytes + b * f.pixelBytes;
    if f.width > 0 {
      DivModAdd(it.x + a, b, f.width);
      assert ((it.x + a) / f.width + ((it.x + a) % f.width + b) / f.width) * f.rowPadding ==
        ((it.x + a) / f.width) * f.rowPadding + (((it.x + a) % f.width + b) / f.width) * f.rowPadding;
    }
  }

  /** Where the iterator at pixel index k (row-major over all rows of all
      layers) should be: row `k / width` and column `k % width`. */
  function Canonical(f: Frame, k: nat): Iter
    requires f.width > 0
  {
    Iter((k / f.width) * f.RowBytes() + (k % f.width) * f.pixelBytes, k % f.width)
  }

  /** Moving forward by n pixels from pixel k reaches pixel k + n. */
  lemma IncrementCanonical(f: Frame, k: nat, n: nat)
    requires f.width > 0
    ensures Increment(f, Canonical(f, k), n) == Canonical(f, k + n)
  {
    var w := f.width;
    var q, r := k / w, k % w;
    var q2, r2 := (r + n) / w, (r + n) % w;
    DivModAdd(k, n, w);
    IncrementArith(q, r, n, q2, r2, w, f.pixelBytes, f.rowPadding);
  }

  /** `end()`, the iterator advanced by `pixelCount()` from `begin()`, is one
      past the last pixel: column 0 and the byte just after the buffer. */
  lemma EndIsByteCount(img: Images.Image)
    requires Images.Valid(img) && img.width > 0
    ensures Increment(FrameOf(img), Begin, Images.PixelCount(img)) == Canonical(FrameOf(img), Images.PixelCount(img))
    ensures Increment(FrameOf(img), Begin, Images.PixelCount(img)) == Iter(Images.ByteCount(img), 0)
  {
    var f := FrameOf(img);
    var w, h, d := img.width, img.height, img.depth;
    IncrementCanonical(f, 0, Images.PixelCount(img));
    assert Canonical(f, 0) == Begin;
    EndArith(w, h, d, f.RowBytes());
    DivModUnique(w * d * h, w, d * h, 0);
    Images.SizeRelations(img);
    assert f.RowBytes() == Images.BytesPerRow(img);
  }

  lemma EndArith(w: nat, h: nat, d: nat, row: nat)
    ensures w * d * h == (d * h) * w
    ensures (d * h) * row == row * h * d
  {
  }

  /** Pixel (x, y, z) is pixel index `(z * height + y) * width + x` in the
      iterator's row-major order over all rows of all layers. */
  function PixelIndex(img: Images.Image, x: nat, y: nat, z: nat): nat
  {
    (z * img.height + y) * img.width + x
  }

  /** The canonical iterator at a pixel's index stands on that pixel's offset
      in the buffer, and the index is below `pixelCount()`. */
  lemma CanonicalAddressesPixel(img: Images.Image, x: nat, y: nat, z: nat)
    requires Images.Valid(img) && x < img.width && y < img.height && z < img.depth
    ensures PixelIndex(img, x, y, z) < Images.PixelCount(img)
    ensures Canonical(FrameOf(img), PixelIndex(img, x, y, z)).pos == Offset(Images.ShapeOf(img), x, y, z)
  {
    var q := z * img.height + y;
    IndexArith(x, y, z, img.width, img.height, img.depth);
    SameRowBytes(img);
    OffsetOfRow(Images.ShapeOf(img), q, x, y, z);
  }

  /** Index `(z * h + y) * w + x` lies below `w * d * h` and sits in row
      `z * h + y`, column x. */
  lemma IndexArith(x: nat, y: nat, z: nat, w: nat, h: nat, d: nat)
    requires x < w && y < h && z < d
    ensures (z * h + y) * w + x < w * d * h
    ensures ((z * h + y) * w + x) / w == z * h + y
    ensures ((z * h + y) * w + x) % w == x
  {
    var q := z * h + y;
    MulBound(z, y, h, d);
    MulBound(q, x, w, d * h);
    assert w * d * h == (d * h) * w;
    DivModUnique(q * w + x, w, q, x);
  }

  /** Row `z * height + y` of the buffer is row y of layer z. */
  lemma OffsetOfRow(s: Shape, q: nat, x: nat, y: nat, z: nat)
    requires q == z * s.height + y
    ensures Offset(s, x, y, z) == q * s.RowBytes() + x * s.PixelBytes()
  {
    RowOfLayer(z, y, s.height, s.RowBytes());
  }

  /** The iterator's row length is the image's row stride. */
  lemma SameRowBytes(img: Images.Image)
    requires Images.Valid(img)
    ensures FrameOf(img).pixelBytes == Images.ShapeOf(img).PixelBytes()
    ensures FrameOf(img).RowBytes() == Images.ShapeOf(img).RowBytes()
  {
    ShapeStrides(Images.ShapeOf(img));
  }

  /** `*it`: the `sizeof(Pixel)` bytes at the iterator's position. */
  function Deref(img: Images.Image, it: Iter): (r: seq<Images.byte>)
    requires 0 <= it.pos && it.pos + Images.BytesPerPixel(img) <= |img.data|
    ensures |r| == Images.BytesPerPixel(img)
    ensures forall i | 0 <= i < |r| :: r[i] == img.data[it.pos + i]
  {
    img.data[it.pos .. it.pos + Images.BytesPerPixel(img)]
  }

  /** Dereferencing the canonical iterator at a pixel's index reads the same
      bytes as `pixel(x, y, z)`. */
  lemma DerefCanonical(img: Images.Image, x: nat, y: nat, z: nat)
    requires Images.Valid(img) && x < img.width && y < img.height && z < img.depth
    ensures var it := Canonical(FrameOf(img), PixelIndex(img, x, y, z));
      0 <= it.pos && it.pos + Images.BytesPerPixel(img) <= |img.data| &&
      Deref(img, it) == Images.PixelBytesAt(img, x, y, z)
  {
    CanonicalAddressesPixel(img, x, y, z);
    var s := Images.ShapeOf(img);
    Images.PixelSpan(s, x, y, z);
    var it := Canonical(FrameOf(img), PixelIndex(img, x, y, z));
    assert Deref(img, it) == img.data[Offset(s, x, y, z) .. Offset(s, x, y, z) + s.PixelBytes()];
  }

  /** Canonical positions grow strictly with the pixel index. */
  lemma CanonicalMonotone(f: Frame, j: nat, k: nat)
    requires f.width > 0 && f.pixelBytes > 0 && j < k
    ensures Canonical(f, j).pos < Canonical(f, k).pos
  {
    LexOrder(j, k, f.width);
    PositionOrder(j / f.width, j % f.width, k / f.width, k % f.width, f.width, f.pixelBytes, f.rowPadding);
  }

  /** `==`, `!=`, `<` and `>` compare byte positions only; the column is ignored. */
  predicate Equal(a: Iter, b: Iter) { a.pos == b.pos }

  predicate NotEqual(a: Iter, b: Iter) { !Equal(a, b) }

  predicate Less(a: Iter, b: Iter) { a.pos < b.pos }

  predicate Greater(a: Iter, b: Iter) { a.pos > b.pos }

  /** On canonical iterators the comparisons agree with the pixel indices. */
  lemma ComparisonsFollowIndices(f: Frame, j: nat, k: nat)
    requires f.width > 0 && f.pixelBytes > 0
    ensures Equal(Canonical(f, j), Canonical(f, k)) <==> j == k
    ensures NotEqual(Canonical(f, j), Canonical(f, k)) <==> j != k
    ensures Less(Canonical(f, j), Canonical(f, k)) <==> j < k
    ensures Greater(Canonical(f, j), Canonical(f, k)) <==> j > k
  {
    if j < k {
      CanonicalMonotone(f, j, k);
    } else if k < j {
      CanonicalMonotone(f, k, j);
    }
  }

  // ---------------------------------------------------------------------------
  // Moving backward

  /** `decrement(n)` as written, which is also `--it`, `it -= n` and `it - n`.
      When the new column `x - n` is negative, with `anoff = n - x`, it moves
      back `anoff / width + 1` rows and to column `width - anoff % width`.
      When `anoff` is a multiple of the width that is one row too many and
      column `width` instead of column 0. A zero width divides by zero, so the
      row-crossing branch needs a positive width. */
  function DecrementAsWritten(f: Frame, it: Iter, n: nat): (r: Iter)
    requires it.x >= n || f.width > 0
    ensures it.x >= n ==> r == Iter(it.pos - n * f.pixelBytes, it.x - n)
    ensures it.x < n ==> 1 <= r.x <= f.width
    ensures it.x < n ==> r.pos == it.pos - n * f.pixelBytes - ((n - it.x) / f.width + 1) * f.rowPadding
  {
    var noff: int := it.x - n;
    if noff < 0 then
      var anoff := -noff;
      var rows := anoff / f.width + 1;
      Iter(it.pos - (rows * f.rowPadding + n * f.pixelBytes), f.width - anoff % f.width)
    else
      Iter(it.pos - n * f.pixelBytes, noff)
  }

  /** `decrement(n)` moving back exactly the rows it crosses: `anoff / width`
      of them when `anoff` is a multiple of the width, landing in column 0. */
  function Decrement(f: Frame, it: Iter, n: nat): (r: Iter)
    requires it.x >= n || f.width > 0
    ensures it.x >= n ==> r == Iter(it.pos - n * f.pixelBytes, it.x - n)
    ensures it.x < n ==> r.x < f.width && (r.x + n - it.x) % f.width == 0
    ensures it.x < n ==>
      r.pos == it.pos - n * f.pixelBytes - ((n - it.x + f.width - 1) / f.width) * f.rowPadding
  {
    var noff: int := it.x - n;
    if noff < 0 then
      var anoff := -noff;
      var rows := if anoff % f.width == 0 then anoff / f.width else anoff / f.width + 1;
      var x := if anoff % f.width == 0 then 0 else f.width - anoff % f.width;
      assert (x + anoff) % f.width == 0 && rows == (anoff + f.width - 1) / f.width by {
        if anoff % f.width == 0 {
          DivModUnique(x + anoff, f.width, anoff / f.width, 0);
          DivModUnique(anoff + f.width - 1, f.width, anoff / f.width, f.width - 1);
        } else {
          DivModUnique(x + anoff, f.width, anoff / f.width + 1, 0);
          DivModUnique(anoff + f.width - 1, f.width, anoff / f.width + 1, anoff % f.width - 1);
        }
      }
      Iter(it.pos - (rows * f.rowPadding + n * f.pixelBytes), x)
    else
      Iter(it.pos - n * f.pixelBytes, noff)
  }

  /** The written decrement differs from the exact one only when it crosses
      rows by an exact multiple of the width: then it stands one row padding
      lower, in column `width`. */
  lemma DecrementAsWrittenDiffers(f: Frame, it: Iter, n: nat)
    requires f.width > 0
    ensures it.x >= n || (n - it.x) % f.width != 0 ==> DecrementAsWritten(f, it, n) == Decrement(f, it, n)
    ensures it.x < n && (n - it.x) % f.width == 0 ==>
      DecrementAsWritten(f, it, n) == Iter(Decrement(f, it, n).pos - f.rowPadding, f.width)
  {
  }

  /** Moving back by n pixels from pixel k, with n at most k, reaches pixel k - n. */
  lemma DecrementCanonical(f: Frame, k: nat, n: nat)
    requires f.width > 0 && n <= k
    ensures Decrement(f, Canonical(f, k), n) == Canonical(f, k - n)
  {
    if k % f.width >= n {
      DecrementInRow(f, k, n);
    } else if (n - k % f.width) % f.width == 0 {
      DecrementToRowStart(f, k, n);
    } else {
      DecrementIntoRow(f, k, n);
    }
  }

  /** The step back stays inside the current row. */
  lemma DecrementInRow(f: Frame, k: nat, n: nat)
    requires f.width > 0 && n <= k % f.width
    ensures Decrement(f, Canonical(f, k), n) == Canonical(f, k - n)
  {
    var w, pb := f.width, f.pixelBytes;
    var q, r := k / w, k % w;
    DivModUnique(k - n, w, q, r - n);
    assert (r - n) * pb == r * pb - n * pb;
  }

  /** The step back ends at the start of an earlier row. */
  lemma DecrementToRowStart(f: Frame, k: nat, n: nat)
    requires f.width > 0 && k % f.width < n <= k && (n - k % f.width) % f.width == 0
    ensures Decrement(f, Canonical(f, k), n) == Canonical(f, k - n)
  {
    var w, pb, pad := f.width, f.pixelBytes, f.rowPadding;
    var q, r := k / w, k % w;
    var a := (n - r) / w;
    DivModUnique(k - n, w, q - a, 0);
    DecrementArithExact(q, r, n, a, w, pb, pad);
  }

  /** The step back ends inside an earlier row. */
  lemma DecrementIntoRow(f: Frame, k: nat, n: nat)
    requires f.width > 0 && k % f.width < n <= k && (n - k % f.width) % f.width != 0
    ensures Decrement(f, Canonical(f, k), n) == Canonical(f, k - n)
  {
    var w, pb, pad := f.width, f.pixelBytes, f.rowPadding;
    var q, r := k / w, k % w;
    var a, b := (n - r) / w, (n - r) % w;
    DivModUnique(k - n, w, q - a - 1, w - b);
    DecrementArithPartial(q, r, n, a, b, w, pb, pad);
  }

  /** Moving forward then back by the same count returns to the same pixel. */
  lemma DecrementUndoesIncrement(f: Frame, k: nat, n: nat)
    requires f.width > 0
    ensures Decrement(f, Increment(f, Canonical(f, k), n), n) == Canonical(f, k)
  {
    IncrementCanonical(f, k, n);
    DecrementCanonical(f, k + n, n);
  }

  /** On images at least two pixels wide, the written `--it` on a canonical
      iterator is exact: one step back never crosses a whole row. */
  lemma DecrementByOneExact(f: Frame, k: nat)
    requires f.width >= 2 && k >= 1
    ensures DecrementAsWritten(f, Canonical(f, k), 1) == Canonical(f, k - 1)
  {
    DecrementAsWrittenDiffers(f, Canonical(f, k), 1);
    if Canonical(f, k).x < 1 {
      DivModUnique(1, f.width, 0, 1);
    }
    DecrementCanonical(f, k, 1);
  }

  /** `++it` applied m times. */
  function StepForward(f: Frame, it: Iter, m: nat): Iter
    decreases m
  {
    if m == 0 then it else StepForward(f, Increment(f, it, 1), m - 1)
  }

  /** The written `--it` applied m times. */
  function StepBack(f: Frame, it: Iter, m: nat): Iter
    requires f.width > 0
    decreases m
  {
    if m == 0 then it else StepBack(f, DecrementAsWritten(f, it, 1), m - 1)
  }

  /** m single steps forward from pixel k reach pixel k + m. */
  lemma {:induction false} StepForwardCanonical(f: Frame, k: nat, m: nat)
    requires f.width > 0
    ensures StepForward(f, Canonical(f, k), m) == Canonical(f, k + m)
    decreases m
  {
    if m > 0 {
      IncrementCanonical(f, k, 1);
      StepForwardCanonical(f, k + 1, m - 1);
    }
  }

  /** On images at least two pixels wide, m written single steps back from
      pixel k reach pixel k - m. */
  lemma {:induction false} StepBackCanonical(f: Frame, k: nat, m: nat)
    requires f.width >= 2 && m <= k
    ensures StepBack(f, Canonical(f, k), m) == Canonical(f, k - m)
    decreases m
  {
    if m > 0 {
      DecrementByOneExact(f, k);
      StepBackCanonical(f, k - 1, m - 1);
    }
  }

  /** A full traversal: `pixelCount()` times `++it` from `begin()` reaches
      `end()`, and on images at least two pixels wide as many `--it` from
      `end()` return to `begin()`, padding or not. */
  lemma Traversal(img: Images.Image)
    requires Images.Valid(img) && img.width > 0
    ensures StepForward(FrameOf(img), Begin, Images.PixelCount(img)) == Iter(Images.ByteCount(img), 0)
    ensures img.width >= 2 ==>
      StepBack(FrameOf(img), Iter(Images.ByteCount(img), 0), Images.PixelCount(img)) == Begin
  {
    var f := FrameOf(img);
    var n := Images.PixelCount(img);
    assert Canonical(f, 0) == Begin;
    StepForwardCanonical(f, 0, n);
    EndIsByteCount(img);
    if img.width >= 2 {
      StepBackCanonical(f, n, n);
    }
  }

  /** On an image one pixel wide every written `--it` crosses a whole row:
      it lands one row padding in front of the previous pixel, in column 1. */
  lemma DecrementOneWide(f: Frame, k: nat)
    requires f.width == 1 && k >= 1
    ensures DecrementAsWritten(f, Canonical(f, k), 1) == Iter(Canonical(f, k - 1).pos - f.rowPadding, 1)
  {
    DecrementAsWrittenDiffers(f, Canonical(f, k), 1);
    DecrementCanonical(f, k, 1);
  }

  /** The padded 3 x 3 one-byte image (one padding byte per row): `begin() + 7`
      stands on pixel (1, 2) at byte 9, and `- 6` takes it to pixel (1, 0) at byte 1. */
  lemma PaddedIteratorExample()
    ensures Increment(Padded3, Begin, 7) == Iter(9, 1)
    ensures DecrementAsWritten(Padded3, Increment(Padded3, Begin, 7), 6) == Iter(1, 1)
  {
    DivModUnique(7, 3, 2, 1);
    DivModUnique(5, 3, 1, 2);
  }

  /** In the same image `begin() + 3` stands on pixel (0, 1) at byte 4, and
      the written `- 3` ends at byte -1, in front of the buffer, in column 3,
      where the exact decrement returns to `begin()`. */
  lemma PaddedRowStartExample()
    ensures Increment(Padded3, Begin, 3) == Iter(4, 0)
    ensures DecrementAsWritten(Padded3, Iter(4, 0), 3) == Iter(-1, 3)
    ensures Decrement(Padded3, Iter(4, 0), 3) == Begin
  {
    DivModUnique(3, 3, 1, 0);
    var r := Increment(Padded3, Begin, 3);
    assert r.x == 0 && r.pos == 4;
  }

  /** Width 3, one padding byte per row, one byte per pixel. */
  const Padded3: Frame := Frame(3, 1, 1)

  // ---------------------------------------------------------------------------
  // Postfix operators

  /** The iterator after a postfix operator, and the value the expression yields. */
  datatype Postfix = Postfix(after: Iter, yielded: Iter)

  /** `it++` as written: it increments `*this` and then returns `*this`, so
      the expression yields the advanced iterator. */
  function PostIncrementAsWritten(f: Frame, it: Iter): Postfix
  {
    var moved := Increment(f, it, 1);
    Postfix(moved, moved)
  }

  /** `it++` yielding the iterator as it was before the step. */
  function PostIncrement(f: Frame, it: Iter): Postfix
  {
    Postfix(Increment(f, it, 1), it)
  }

  /** `it--` as written: it yields the iterator after the step. */
  function PostDecrementAsWritten(f: Frame, it: Iter): Postfix
    requires it.x >= 1 || f.width > 0
  {
    var moved := DecrementAsWritten(f, it, 1);
    Postfix(moved, moved)
  }

  /** `it--` yielding the iterator as it was before the step. */
  function PostDecrement(f: Frame, it: Iter): Postfix
    requires it.x >= 1 || f.width > 0
  {
    Postfix(Decrement(f, it, 1), it)
  }

  /** Both versions of a postfix operator leave the iterator where the prefix
      operator does. Whenever pixels have a size, the written ones yield an
      iterator at a different position from the one they were applied to,
      while the corrected ones yield the original. */
  lemma PostfixYields(f: Frame, it: Iter)
    requires f.width > 0 && f.pixelBytes > 0
    ensures PostIncrementAsWritten(f, it).after == PostIncrement(f, it).after == Increment(f, it, 1)
    ensures PostDecrementAsWritten(f, it).after == DecrementAsWritten(f, it, 1)
    ensures PostIncrementAsWritten(f, it).yielded.pos > it.pos
    ensures PostIncrement(f, it).yielded == it
    ensures PostDecrementAsWritten(f, it).yielded.pos < it.pos
    ensures PostDecrement(f, it).yielded == it
  {
  }
}
