/**
 Pixels: a fixed-length vector of channel values, one per tag of the
 pixel's channel layout, in layout order.

 The model is generic in the carrier `T` of a channel value. Where the
 library value-initialises a channel (the tail of a brace-initialised
 array), the model takes that value as the parameter `zero`.
 */
module Pixels {

  import opened Channels

  datatype Pixel<T> = Pixel(format: PixelFormat, channels: seq<T>)

  /** A pixel holds exactly one value per channel of a well-formed layout. */
  predicate Valid<T>(p: Pixel<T>)
  {
    ValidFormat(p.format) && |p.channels| == ChannelCount(p.format.layout)
  }

  function Count<T>(p: Pixel<T>): nat
  {
    ChannelCount(p.format.layout)
  }

  /** `channel(i)`: the value of channel i; the index must be below the channel count. */
  function Channel<T>(p: Pixel<T>, i: nat): T
    requires Valid(p) && i < Count(p)
  {
    p.channels[i]
  }

  /** `setChannelValue(i, v)`: channel i becomes v, every other channel is kept. */
  function SetChannelValue<T>(p: Pixel<T>, i: nat, v: T): (r: Pixel<T>)
    requires Valid(p) && i < Count(p)
    ensures Valid(r) && r.format == p.format
    ensures Channel(r, i) == v
    ensures forall j | 0 <= j < Count(p) && j != i :: Channel(r, j) == Channel(p, j)
  {
    p.(channels := p.channels[i := v])
  }

  /** `setValue(ptr)`: the pixel copies the first `channelCount` values the pointer addresses. */
  function SetValue<T>(p: Pixel<T>, src: seq<T>): (r: Pixel<T>)
    requires Valid(p) && |src| >= Count(p)
    ensures Valid(r) && r.format == p.format
    ensures forall i | 0 <= i < Count(p) :: Channel(r, i) == src[i]
  {
    p.(channels := src[..Count(p)])
  }

  /** Reading back a written channel, and writing back a read one. */
  lemma SetChannelThenGet<T>(p: Pixel<T>, i: nat, v: T)
    requires Valid(p) && i < Count(p)
    ensures SetChannelValue(p, i, Channel(p, i)) == p
    ensures SetChannelValue(SetChannelValue(p, i, v), i, Channel(p, i)) == p
  {
  }

  /** Loading all channels of another pixel of the same format yields that pixel. */
  lemma SetValueCopies<T>(p: Pixel<T>, q: Pixel<T>)
    requires Valid(p) && Valid(q) && p.format == q.format
    ensures SetValue(p, q.channels) == q
  {
  }

  // ---------------------------------------------------------------------------
  // Equality

  /** `operator==`: compares channel by channel and stops at the first difference. */
  method Equals<T(==)>(p: Pixel<T>, q: Pixel<T>) returns (eq: bool)
    requires Valid(p) && Valid(q) && p.format == q.format
    ensures eq <==> forall i | 0 <= i < Count(p) :: Channel(p, i) == Channel(q, i)
  {
    var i := 0;
    while i < Count(p)
      invariant 0 <= i <= Count(p)
      invariant forall j | 0 <= j < i :: Channel(p, j) == Channel(q, j)
    {
      if Channel(p, i) != Channel(q, i) {
        return false;
      }
      i := i + 1;
    }
    return true;
  }

  /** `operator!=`: the negation of `==`. */
  method NotEquals<T(==)>(p: Pixel<T>, q: Pixel<T>) returns (ne: bool)
    requires Valid(p) && Valid(q) && p.format == q.format
    ensures ne <==> exists i | 0 <= i < Count(p) :: Channel(p, i) != Channel(q, i)
  {
    var eq := Equals(p, q);
    ne := !eq;
  }

  /** Channelwise equality of two pixels of one format is equality of the pixels. */
  lemma ChannelwiseIsIdentity<T>(p: Pixel<T>, q: Pixel<T>)
    requires Valid(p) && Valid(q) && p.format == q.format
    ensures (forall i | 0 <= i < Count(p) :: Channel(p, i) == Channel(q, i)) <==> p == q
  {
    if forall i | 0 <= i < Count(p) :: Channel(p, i) == Channel(q, i) {
      forall i | 0 <= i < |p.channels|
        ensures p.channels[i] == q.channels[i]
      {
        assert Channel(p, i) == Channel(q, i);
      }
      assert p.channels == q.channels;
    }
  }

  // ---------------------------------------------------------------------------
  // Introspection, delegated to the format

  /** `isFloatingPoint()`: true exactly for the floating-point value type. */
  function IsFloatingPoint<T>(p: Pixel<T>): (r: bool)
    ensures r <==> p.format.value == F32
  {
    p.format.value.IsFloat()
  }

  /** `hasAlpha()` of the pixel's layout. */
  function PixelHasAlpha<T>(p: Pixel<T>): (r: bool)
    requires Valid(p)
    ensures r <==> Alpha in Tags(p.format.layout)
  {
    HasAlpha(p.format.layout)
  }

  /** `alphaPosition()` of the pixel's layout. */
  function PixelAlphaPosition<T>(p: Pixel<T>): (r: int)
    requires Valid(p)
    ensures r == -1 || (0 <= r < Count(p) && Tags(p.format.layout)[r] == Alpha)
    ensures r == -1 <==> !PixelHasAlpha(p)
  {
    AlphaPosition(p.format.layout)
  }

  // ---------------------------------------------------------------------------
  // The per-arity setters

  /** Writes `vals` into the leading channels one `setChannelValue` at a time,
      in argument order; the trailing channels keep their values. */
  function SetLeading<T>(p: Pixel<T>, vals: seq<T>): (r: Pixel<T>)
    requires Valid(p) && |vals| <= Count(p)
    ensures Valid(r) && r.format == p.format
    ensures forall i | 0 <= i < |vals| :: Channel(r, i) == vals[i]
    ensures forall i | |vals| <= i < Count(p) :: Channel(r, i) == Channel(p, i)
    decreases |vals|
  {
    if |vals| == 0 then p
    else SetChannelValue(SetLeading(p, vals[..|vals| - 1]), |vals| - 1, vals[|vals| - 1])
  }

  /** `setValue(a, b)` of two-, three- and four-channel pixels. */
  function SetValue2<T>(p: Pixel<T>, a: T, b: T): (r: Pixel<T>)
    requires Valid(p) && Count(p) >= 2
    ensures Valid(r) && r.format == p.format
    ensures Channel(r, 0) == a && Channel(r, 1) == b
    ensures forall i | 2 <= i < Count(p) :: Channel(r, i) == Channel(p, i)
  {
    SetLeading(p, [a, b])
  }

  /** `setValue(a, b, c)` of three- and four-channel pixels. */
  function SetValue3<T>(p: Pixel<T>, a: T, b: T, c: T): (r: Pixel<T>)
    requires Valid(p) && Count(p) >= 3
    ensures Valid(r) && r.format == p.format
    ensures Channel(r, 0) == a && Channel(r, 1) == b && Channel(r, 2) == c
    ensures forall i | 3 <= i < Count(p) :: Channel(r, i) == Channel(p, i)
  {
    SetLeading(p, [a, b, c])
  }

  /** `setValue(a, b, c, d)` of four-channel pixels. */
  function SetValue4<T>(p: Pixel<T>, a: T, b: T, c: T, d: T): (r: Pixel<T>)
    requires Valid(p) && Count(p) == 4
    ensures Valid(r) && r.format == p.format
    ensures r.channels == [a, b, c, d]
  {
    SetLeading(p, [a, b, c, d])
  }

  /** A full-arity setter (and so a full-arity constructor) determines every
      channel: the result does not depend on what the pixel held before. */
  lemma FullAritySetIgnoresPrior<T>(p: Pixel<T>, q: Pixel<T>, vals: seq<T>)
    requires Valid(p) && Valid(q) && p.format == q.format && |vals| == Count(p)
    ensures SetLeading(p, vals) == SetLeading(q, vals)
    ensures SetLeading(p, vals).channels == vals
  {
    var rp := SetLeading(p, vals);
    var rq := SetLeading(q, vals);
    assert rp.channels == vals;
    assert rq.channels == vals;
  }

  /** The array a single-value setter copies from: `{ v }` brace-initialised to
      `n` elements, so element 0 is v and the rest are value-initialised. */
  function SingleValueArray<T>(v: T, zero: T, n: nat): (arr: seq<T>)
    requires n >= 1
    ensures |arr| == n && arr[0] == v
    ensures forall i | 1 <= i < n :: arr[i] == zero
  {
    [v] + seq(n - 1, _ => zero)
  }

  /** `setValue(v)` as written. A one-channel pixel sets channel 0; a two- or
      three-channel pixel copies `{ v }` brace-initialised to its own arity; a
      four-channel pixel copies four values out of a three-element array, so
      its last channel is `overread`, whatever follows the array in memory. */
  function SetSingleAsWritten<T>(p: Pixel<T>, v: T, zero: T, overread: T): (r: Pixel<T>)
    requires Valid(p)
    ensures Valid(r) && r.format == p.format
    ensures Channel(r, 0) == v
    ensures forall i | 1 <= i < Count(p) && i < 3 :: Channel(r, i) == zero
    ensures Count(p) == 4 ==> Channel(r, 3) == overread
  {
    var n := Count(p);
    if n == 1 then SetChannelValue(p, 0, v)
    else if n < 4 then SetValue(p, SingleValueArray(v, zero, n))
    else SetValue(p, SingleValueArray(v, zero, 3) + [overread])
  }

  /** `setValue(v)` with the array sized to the pixel's own arity, as the two-
      and three-channel versions do: channel 0 is v and every other channel is
      value-initialised. It is not a broadcast. */
  function SetSingle<T>(p: Pixel<T>, v: T, zero: T): (r: Pixel<T>)
    requires Valid(p)
    ensures Valid(r) && r.format == p.format
    ensures Channel(r, 0) == v
    ensures forall i | 1 <= i < Count(p) :: Channel(r, i) == zero
  {
    if Count(p) == 1 then SetChannelValue(p, 0, v)
    else SetValue(p, SingleValueArray(v, zero, Count(p)))
  }

  /** The written single-value setter agrees with the corrected one except on
      four-channel pixels, where channel 3 is the over-read value instead of zero. */
  lemma SingleValueOverread<T>(p: Pixel<T>, v: T, zero: T, overread: T)
    requires Valid(p)
    ensures Count(p) < 4 ==> SetSingleAsWritten(p, v, zero, overread) == SetSingle(p, v, zero)
    ensures Count(p) == 4 ==>
      (SetSingleAsWritten(p, v, zero, overread) == SetSingle(p, v, zero) <==> overread == zero)
  {
    var a := SetSingleAsWritten(p, v, zero, overread);
    var b := SetSingle(p, v, zero);
    if Count(p) < 4 || overread == zero {
      assert a.channels == b.channels;
    } else {
      assert Channel(a, 3) != Channel(b, 3);
    }
  }

  /** Pixel constructors: the arguments are written into storage that was not
      initialised, `prior`. One argument goes through the single-value
      `setValue(v)` as written, so a four-channel pixel built from one value
      gets the over-read value in channel 3; two or more arguments go through
      the setter of that arity. */
  function Construct<T>(prior: Pixel<T>, args: seq<T>, zero: T, overread: T): (r: Pixel<T>)
    requires Valid(prior) && 1 <= |args| <= Count(prior)
    requires |args| >= 2 ==> Count(prior) >= 2
    ensures Valid(r) && r.format == prior.format
    ensures forall i | 0 <= i < |args| :: Channel(r, i) == args[i]
    ensures |args| == 1 ==> forall i | 1 <= i < Count(prior) && i < 3 :: Channel(r, i) == zero
    ensures |args| == 1 && Count(prior) == 4 ==> Channel(r, 3) == overread
    ensures |args| >= 2 ==> forall i | |args| <= i < Count(prior) :: Channel(r, i) == Channel(prior, i)
  {
    if |args| == 1 then SetSingleAsWritten(prior, args[0], zero, overread) else SetLeading(prior, args)
  }

  /** A constructor that determines every channel, the one-value constructor
      and the full-arity one, does not depend on the uninitialised storage;
      a shorter argument list keeps the storage's trailing channels. */
  lemma ConstructIgnoresPrior<T>(p: Pixel<T>, q: Pixel<T>, args: seq<T>, zero: T, overread: T)
    requires Valid(p) && Valid(q) && p.format == q.format && 1 <= |args| <= Count(p)
    requires |args| >= 2 ==> Count(p) >= 2
    ensures |args| == 1 || |args| == Count(p) ==>
      Construct(p, args, zero, overread) == Construct(q, args, zero, overread)
    ensures Construct(p, args, zero, overread) == Construct(q, args, zero, overread) <==>
      forall i | 2 <= |args| <= i < Count(p) :: Channel(p, i) == Channel(q, i)
  {
    var a := Construct(p, args, zero, overread);
    var b := Construct(q, args, zero, overread);
    if forall i | 2 <= |args| <= i < Count(p) :: Channel(p, i) == Channel(q, i) {
      forall i | 0 <= i < Count(p)
        ensures a.channels[i] == b.channels[i]
      {
        assert Channel(a, i) == Channel(b, i);
      }
      assert a.channels == b.channels;
    } else {
      var i :| 2 <= |args| <= i < Count(p) && Channel(p, i) != Channel(q, i);
      assert Channel(a, i) != Channel(b, i);
    }
  }
}
