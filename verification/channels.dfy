/**
 Channel tags, channel layouts and pixel formats.

 A channel layout is an ordered tuple of one to four semantic channel tags.
 The library builds it at compile time from per-channel wrapper types; here
 a layout is a value of a datatype with one constructor per arity, and its
 structural identity is datatype equality.
 */
module Channels {

  import Geometry

  /** Semantic role of one channel. */
  datatype Tag = Gray | Red | Green | Blue | Alpha | Cyan | Magenta | Yellow | Black

  /** One argument slot of the alpha-position lookup: a channel tag, or the
      filler used for the unused slots of layouts with fewer than four channels. */
  datatype Slot = NoChannel | Channel(tag: Tag)

  /** True when at most one of the four slots is the alpha tag. */
  predicate AtMostOneAlphaSlot(a: Slot, b: Slot, c: Slot, d: Slot)
  {
    IsAlphaSlot(a) + IsAlphaSlot(b) + IsAlphaSlot(c) + IsAlphaSlot(d) <= 1
  }

  function IsAlphaSlot(s: Slot): nat
  {
    if s == Channel(Alpha) then 1 else 0
  }

  /** The alpha-position lookup: the specialisation whose slot holds the alpha
      tag is selected, and the primary template answers -1. Two alpha slots
      would make the choice ambiguous, which the compiler rejects. */
  function AlphaPositionOf(a: Slot, b: Slot, c: Slot, d: Slot): (r: int)
    requires AtMostOneAlphaSlot(a, b, c, d)
    ensures -1 <= r < 4
    ensures r == -1 <==> Channel(Alpha) !in [a, b, c, d]
    ensures r != -1 ==> [a, b, c, d][r] == Channel(Alpha)
  {
    if a == Channel(Alpha) then 0
    else if b == Channel(Alpha) then 1
    else if c == Channel(Alpha) then 2
    else if d == Channel(Alpha) then 3
    else -1
  }

  /** A channel layout of arity one to four. */
  datatype ChannelLayout =
    | Layout1(t0: Tag)
    | Layout2(t0: Tag, t1: Tag)
    | Layout3(t0: Tag, t1: Tag, t2: Tag)
    | Layout4(t0: Tag, t1: Tag, t2: Tag, t3: Tag)

  /** The layout's tags in channel order. */
  function Tags(l: ChannelLayout): seq<Tag>
  {
    match l
    case Layout1(t0) => [t0]
    case Layout2(t0, t1) => [t0, t1]
    case Layout3(t0, t1, t2) => [t0, t1, t2]
    case Layout4(t0, t1, t2, t3) => [t0, t1, t2, t3]
  }


  /** The per-arity channel count constant. */
  function ChannelCount(l: ChannelLayout): (r: nat)
    ensures 1 <= r <= 4
    ensures r == |Tags(l)|
  {
    match l
    case Layout1(_) => 1
    case Layout2(_, _) => 2
    case Layout3(_, _, _) => 3
    case Layout4(_, _, _, _) => 4
  }

  /** The four lookup slots of a layout: its tags, then `NoChannel` fillers. */
  function Slots(l: ChannelLayout): seq<Slot>
  {
    match l
    case Layout1(t0) => [Channel(t0), NoChannel, NoChannel, NoChannel]
    case Layout2(t0, t1) => [Channel(t0), Channel(t1), NoChannel, NoChannel]
    case Layout3(t0, t1, t2) => [Channel(t0), Channel(t1), Channel(t2), NoChannel]
    case Layout4(t0, t1, t2, t3) => [Channel(t0), Channel(t1), Channel(t2), Channel(t3)]
  }

  /** Only layouts with at most one alpha tag can be instantiated. */
  predicate WellFormed(l: ChannelLayout)
  {
    var s := Slots(l);
    AtMostOneAlphaSlot(s[0], s[1], s[2], s[3])
  }

  /** Index of the alpha tag among the layout's tags, or -1 when it has none. */
  function AlphaPosition(l: ChannelLayout): (r: int)
    requires WellFormed(l)
    ensures r == -1 <==> Alpha !in Tags(l)
    ensures r != -1 ==> 0 <= r < |Tags(l)| && Tags(l)[r] == Alpha
  {
    var s := Slots(l);
    AlphaPositionOf(s[0], s[1], s[2], s[3])
  }

  /** The position of alpha is the unique index holding the alpha tag. */
  lemma AlphaPositionUnique(l: ChannelLayout, i: nat)
    requires WellFormed(l) && i < |Tags(l)| && Tags(l)[i] == Alpha
    ensures AlphaPosition(l) == i
  {
  }

  /** The layout has an alpha channel exactly when it has an alpha position. */
  function HasAlpha(l: ChannelLayout): (r: bool)
    requires WellFormed(l)
    ensures r <==> Alpha in Tags(l)
  {
    AlphaPosition(l) != -1
  }

  /** Two layouts are the same layout exactly when they list the same tags:
      identity is structural, and equal arity does not make layouts equal. */
  lemma IdentityIsStructural(l1: ChannelLayout, l2: ChannelLayout)
    ensures l1 == l2 <==> Tags(l1) == Tags(l2)
  {
    if Tags(l1) == Tags(l2) {
      assert |Tags(l1)| == |Tags(l2)|;
      match l1 {
        case Layout1(a) => assert Tags(l2)[0] == a;
        case Layout2(a, b) => assert Tags(l2)[0] == a && Tags(l2)[1] == b;
        case Layout3(a, b, c) => assert Tags(l2)[0] == a && Tags(l2)[1] == b && Tags(l2)[2] == c;
        case Layout4(a, b, c, d) =>
          assert Tags(l2)[0] == a && Tags(l2)[1] == b && Tags(l2)[2] == c && Tags(l2)[3] == d;
      }
    }
  }

  // ---------------------------------------------------------------------------
  // Channel wrappers and composed layouts

  /** A per-channel wrapper type: its channel flag and the name of its field. */
  datatype ChannelWrapper = ChannelWrapper(flag: Tag, field: char)

  /** The library's wrapper for each tag (`Gray<T>` holds `v`, `Red<T>` holds `r`, ...). */
  function WrapperOf(t: Tag): (w: ChannelWrapper)
    ensures w.flag == t
  {
    match t
    case Gray => ChannelWrapper(Gray, 'v')
    case Red => ChannelWrapper(Red, 'r')
    case Green => ChannelWrapper(Green, 'g')
    case Blue => ChannelWrapper(Blue, 'b')
    case Alpha => ChannelWrapper(Alpha, 'a')
    case Cyan => ChannelWrapper(Cyan, 'c')
    case Magenta => ChannelWrapper(Magenta, 'm')
    case Yellow => ChannelWrapper(Yellow, 'y')
    case Black => ChannelWrapper(Black, 'k')
  }

  /** The layout derived from one to four wrappers, in declaration order. */
  function Compose(ws: seq<ChannelWrapper>): (l: ChannelLayout)
    requires 1 <= |ws| <= 4
    ensures |Tags(l)| == |ws|
    ensures forall i | 0 <= i < |ws| :: Tags(l)[i] == ws[i].flag
  {
    if |ws| == 1 then Layout1(ws[0].flag)
    else if |ws| == 2 then Layout2(ws[0].flag, ws[1].flag)
    else if |ws| == 3 then Layout3(ws[0].flag, ws[1].flag, ws[2].flag)
    else Layout4(ws[0].flag, ws[1].flag, ws[2].flag, ws[3].flag)
  }

  /** Composing the library's wrappers for a tag list yields a layout listing those tags. */
  lemma ComposeWrappers(ts: seq<Tag>)
    requires 1 <= |ts| <= 4
    ensures Tags(Compose(seq(|ts|, i requires 0 <= i < |ts| => WrapperOf(ts[i])))) == ts
  {
    var l := Compose(seq(|ts|, i requires 0 <= i < |ts| => WrapperOf(ts[i])));
    assert forall i | 0 <= i < |ts| :: Tags(l)[i] == ts[i];
  }

  // ---------------------------------------------------------------------------
  // Named layouts

  const GrayLayout: ChannelLayout := Layout1(Gray)
  const GrayAlphaLayout: ChannelLayout := Layout2(Gray, Alpha)
  const AlphaGrayLayout: ChannelLayout := Layout2(Alpha, Gray)
  const BGRLayout: ChannelLayout := Layout3(Blue, Green, Red)
  const BGRALayout: ChannelLayout := Layout4(Blue, Green, Red, Alpha)
  const ABGRLayout: ChannelLayout := Layout4(Alpha, Blue, Green, Red)
  const RGBLayout: ChannelLayout := Layout3(Red, Green, Blue)
  const RGBALayout: ChannelLayout := Layout4(Red, Green, Blue, Alpha)
  const ARGBLayout: ChannelLayout := Layout4(Alpha, Red, Green, Blue)
  const CMYKLayout: ChannelLayout := Layout4(Cyan, Magenta, Yellow, Black)

  /** Alpha positions and identities of the named layouts. */
  lemma NamedLayouts()
    ensures AlphaPosition(GrayAlphaLayout) == 1
    ensures AlphaPosition(AlphaGrayLayout) == 0 && AlphaPosition(ARGBLayout) == 0 && AlphaPosition(ABGRLayout) == 0
    ensures AlphaPosition(RGBALayout) == 3 && AlphaPosition(BGRALayout) == 3
    ensures AlphaPosition(GrayLayout) == -1 && AlphaPosition(RGBLayout) == -1
    ensures AlphaPosition(BGRLayout) == -1 && AlphaPosition(CMYKLayout) == -1
    ensures ChannelCount(RGBLayout) == ChannelCount(BGRLayout) && RGBLayout != BGRLayout
  {
  }

  // ---------------------------------------------------------------------------
  // Value types and pixel formats

  /** The scalar types a channel can hold. `F32` values are treated as opaque bytes. */
  datatype ValueType = U8 | U16 | U32 | F32
  {
    /** `sizeof` of the value type. */
    function Size(): nat
    {
      match this
      case U8 => 1
      case U16 => 2
      case U32 => 4
      case F32 => 4
    }

    predicate IsFloat()
    {
      this == F32
    }
  }

  /** A pixel type: its value type and its channel layout. */
  datatype PixelFormat = PixelFormat(value: ValueType, layout: ChannelLayout)

  predicate ValidFormat(f: PixelFormat)
  {
    WellFormed(f.layout)
  }

  /** `sizeof(Pixel)`: the pixel is assumed densely packed. */
  function PixelSize(f: PixelFormat): (r: nat)
    ensures r > 0
    ensures r % f.value.Size() == 0 && r / f.value.Size() == ChannelCount(f.layout)
  {
    var n := ChannelCount(f.layout);
    var v := f.value.Size();
    assert n * v % v == 0 && n * v / v == n by {
      Geometry.DivModUnique(n * v, v, n, 0);
    }
    n * v
  }
}
