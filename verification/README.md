# Pic pixel-buffer core, modelled in Dafny

Pic is a C++ library of in-memory raster images over compile-time pixel
formats. This project models its core, in five modules.

- **`Channels`** (`channels.dfy`): channel tags and channel layouts of
  arity one to four. Covers the alpha-position lookup, `hasAlpha`, the layout
  derived from channel wrappers, the named layouts, value types and
  `sizeof(Pixel)`.
- **`Pixels`** (`pixel.dfy`): `BasePixelT` and `Pixel1T` to `Pixel4T`.
  Covers channel access, `==` / `!=`, `setValue(ptr)`, `setChannelValue`,
  the per-arity setters and the constructors. The model is generic in the
  channel value type `T`, and the value a brace-initialised array gives its
  tail is passed in as `zero`.
- **`Geometry`** (`geometry.dfy`): the strided, padded, possibly
  three-dimensional byte buffer of an image.
  - The byte offset of pixel `(x, y, z)` is `z * bytesPerRow * height + y * bytesPerRow + x * bytesPerPixel`.
  - Every byte of the buffer is either a channel byte `Sample(x, y, z, channel, byte)` or a row padding byte `Padding(y, z, p)`.
  - `IndexOf` and `CoordOf` are inverse bijections between these coordinates and the byte indices below the buffer size.
- **`Images`** (`image.dfy`): `ImageT`, as an immutable record `(format,
  width, height, depth, rowPadding, data)`. Every operation rebuilds the byte
  sequence coordinate by coordinate, so each contract says what every byte
  of the result holds. This covers:
  - construction, `resize`, `clear` and copy;
  - `loadPixels` and `updatePixels`;
  - `setPixel` and `pixel`;
  - the three flips and `flip`;
  - `swapChannels`;
  - the size getters.
- **`PixelIterators`** (`iterator.dfy`): `PixelIteratorT`, as a byte
  position and a current column, with `increment(n)`, `decrement(n)`, the
  operators built on them, comparisons and dereference.

`sizeof(Pixel) == channelCount * sizeof(ValueType)` is taken as an assumption,
stated once in `Channels.PixelSize`. `bytesPerPixel()` is `sizeof(Pixel)`
(`Images.BytesPerPixel` is `Channels.PixelSize`), while `bytesPerRow()`
multiplies the channel count and the value size out directly. Under the
assumption the two agree, and `Images.SizeRelations` states that both equal
the pixel stride `Shape.PixelBytes` of the buffer geometry.

Where the library's own description and its code differ, the model follows the code:

- **Single-value setters zero-fill.** A pixel built from one value does not broadcast it to all channels. In the two- and three-channel versions, channel 0 gets the value and the other channels get the value-initialised element of `{ v }`. The four-channel version reads past its array (see Findings), and so does the four-channel constructor from one value, which calls it (`Pixels.Construct`).
- **The order of the flips inside `flip()` does not matter.** `flipRows`, `flipColumns` and `flipLayers` commute pairwise (`Images.FlipRowsColumnsCommute` and its two siblings), so layers-then-rows-then-columns is one of six equivalent orders.
- **`updatePixels` is exact only for one-byte values.** It advances its source pointer in a way that is exact only when values are one byte wide (see Findings). The two-dimensional overload forwards to it and inherits the same stride (`Images.UpdatePixels2AsWritten`).

## Model

| member | source | states |
|---|---|---|
| Channels.AlphaPositionOf | Pic/Channels.hpp:96-140 | With at most one alpha slot, the lookup answers -1 exactly when no slot is the alpha tag; otherwise the slot at the answer is alpha, and filler slots never match |
| Channels.ChannelCount | Pic/Channels.hpp:153-159 | The channel count is between 1 and 4 and equals the number of tags of the layout |
| Channels.Tags | Pic/Channels.hpp:145-270 | The `Channel0` to `Channel3` typedefs of `ChannelLayout1` to `ChannelLayout4`; `Channels.ChannelCount` states that their number is the channel count |
| Channels.WellFormed | Pic/Channels.hpp:96-140 | A layout with two alpha tags makes the alpha-position lookup ambiguous and cannot be instantiated; `Channels.AlphaPosition` and `Channels.AlphaPositionUnique` rely on it |
| Channels.AlphaPosition | Pic/Channels.hpp:277-280 | A layout's alpha position is -1 exactly when alpha is not among its tags; otherwise it is an index whose tag is alpha |
| Channels.AlphaPositionUnique | Pic/Channels.hpp:105-140 | Any index holding the alpha tag in a well-formed layout is the alpha position |
| Channels.HasAlpha | Pic/Channels.hpp:272-275 | `hasAlpha()` holds exactly when alpha is among the layout's tags |
| Channels.IdentityIsStructural | Pic/Channels.hpp:171-174 | Two layouts are the same layout exactly when their tag sequences are equal |
| Channels.WrapperOf | Pic/Channels.hpp:18-88 | Each tag's wrapper type carries that tag as its channel flag |
| Channels.Compose | Pic/Channels.hpp:288-324 | A layout composed from n wrappers has n tags, and its i-th tag is the flag of the i-th wrapper |
| Channels.ComposeWrappers | Pic/Channels.hpp:315-324 | Composing the wrappers of a tag list gives a layout listing exactly those tags in that order |
| Channels.NamedLayouts | Pic/Channels.hpp:327-336 | The named layouts' alpha positions: GrayAlpha 1; AlphaGray, ARGB and ABGR 0; RGBA and BGRA 3; Gray, RGB, BGR and CMYK -1. RGB and BGR have equal counts but are distinct |
| Channels.PixelSize | Pic/Image.hpp:597-601 | `sizeof(Pixel)` is positive and a whole number of values, and the number of values is the channel count |
| Pixels.Valid | Pic/Pixel.hpp:43-58 | A pixel stores exactly `channelCount()` values of a well-formed layout; every setter keeps this (`ensures Valid(r)`) |
| Pixels.SetChannelValue | Pic/Pixel.hpp:38-41 | Channel i becomes v; every other channel and the format are kept |
| Pixels.SetValue | Pic/Pixel.hpp:33-36 | Channel i becomes `ptr[i]` for every i below the channel count |
| Pixels.SetChannelThenGet | Pic/Pixel.hpp:38-53 | Writing back a channel's own value changes nothing; overwriting a channel and then restoring it gives back the original pixel |
| Pixels.SetValueCopies | Pic/Pixel.hpp:33-36 | Loading all channels of a pixel of the same format gives that pixel |
| Pixels.Equals | Pic/Pixel.hpp:17-26 | `==` is true exactly when every channel below the channel count is equal |
| Pixels.NotEquals | Pic/Pixel.hpp:28-31 | `!=` is true exactly when some channel differs |
| Pixels.ChannelwiseIsIdentity | Pic/Pixel.hpp:17-26 | Channelwise equality of two valid pixels of one format is equality of the pixels |
| Pixels.IsFloatingPoint | Pic/Pixel.hpp:75-78 | True exactly for the floating-point value type |
| Pixels.PixelHasAlpha | Pic/Pixel.hpp:80-83 | True exactly when the pixel's layout has the alpha tag |
| Pixels.PixelAlphaPosition | Pic/Pixel.hpp:85-88 | -1 exactly without alpha; otherwise an index below the channel count whose tag is alpha |
| Pixels.SetLeading | Pic/Pixel.hpp:312-318 | Consecutive `setChannelValue` calls from channel 0 set the leading channels to the arguments in order and keep the trailing channels |
| Pixels.SetValue2 | Pic/Pixel.hpp:299-303 | `setValue(a, b)` sets channels 0 and 1 and keeps every later channel |
| Pixels.SetValue3 | Pic/Pixel.hpp:305-310 | `setValue(a, b, c)` sets channels 0 to 2 and keeps channel 3 |
| Pixels.SetValue4 | Pic/Pixel.hpp:312-318 | `setValue(a, b, c, d)` makes the channels exactly `[a, b, c, d]` |
| Pixels.FullAritySetIgnoresPrior | Pic/Pixel.hpp:288-291 | A full-arity setter yields the arguments as channels, whatever the pixel held before |
| Pixels.SetSingleAsWritten | Pic/Pixel.hpp:293-297 | The written single-value setter: channel 0 is v, channels 1 and 2 are zero, and on four-channel pixels channel 3 is the value read past the array |
| Pixels.SetSingle | Pic/Pixel.hpp:163-167 | The single-value setter sized to the pixel's arity: channel 0 is v and every other channel is zero, not v |
| Pixels.SingleValueOverread | Pic/Pixel.hpp:293-297 | Below four channels the written and corrected setters agree; on four channels they agree exactly when the over-read value is zero |
| Pixels.Construct | Pic/Pixel.hpp:273-297 | Every argument lands in its channel. One argument goes through the written single-value setter: channels 1 and 2 are zero and, on four-channel pixels, channel 3 is the value read past the array. Several arguments leave the trailing channels as the uninitialised storage held them |
| Pixels.ConstructIgnoresPrior | Pic/Pixel.hpp:273-297 | Constructors from one value or from a full argument list give the same pixel whatever storage they start from; with a shorter list, two starting storages give the same pixel exactly when their trailing channels agree |
| Pixels.Count | Pic/Pixel.hpp:55-58 | `channelCount()` of the pixel's layout; a valid pixel holds exactly that many channels, and `Pixels.Channel` and the setters are bounded by it |
| Pixels.Channel | Pic/Pixel.hpp:43-53 | `channel(i)` for i below the channel count; what it reads is stated by `Pixels.SetChannelValue` and `Pixels.SetChannelThenGet` |
| Geometry.Offset | Pic/Image.hpp:537-541 | The offset of `pixel(x, y, z)`, `z * bytesPerRow * height + y * bytesPerRow + x * bytesPerPixel`; `PixelIterators.CanonicalAddressesPixel` states that the iterator at the pixel's index stands on it |
| Geometry.Size | Pic/Image.hpp:561-565 | The length `updateArraySize()` gives the buffer, `bytesPerRow * height * depth`; `Geometry.IndexOfCoordOf` states that it is exactly the channel and padding bytes |
| Geometry.CoordOfIndexOf | Pic/Image.hpp:537-541 | Decoding the byte index of any channel or padding byte of the buffer gives back that byte's coordinate |
| Geometry.IndexOfCoordOf | Pic/Image.hpp:561-565 | Every index below `bytesPerRow * height * depth` decodes to a coordinate that lies in the buffer and encodes back to that index, so the buffer is exactly its rows of pixels plus their padding |
| Geometry.IndexBound | Pic/Image.hpp:537-541 | The byte of any pixel channel or padding position lies inside the buffer |
| Geometry.IndexOf | Pic/Image.hpp:537-541 | The offset formula of `pixel(x, y, z)`, extended to channel and padding bytes; it is characterised by `Geometry.CoordOfIndexOf`, `Geometry.IndexOfCoordOf` and `Geometry.IndexBound` |
| Geometry.CoordOf | Pic/Image.hpp:537-541 | The inverse of the offset formula; `Geometry.IndexOfCoordOf` and `Geometry.CoordOfIndexOf` state that it inverts `Geometry.IndexOf` on the whole buffer |
| Geometry.ShapeStrides | Pic/Image.hpp:573-577 | The row stride is `width * bytesPerPixel + rowPadding`, and the buffer size is the layer stride times the depth |
| Images.Valid | Pic/Image.hpp:561-565 | The buffer holds exactly the `updateArraySize()` length for the image's dimensions; every image operation's `ensures Valid(r)` states it is preserved |
| Images.SizeRelations | Pic/Image.hpp:561-607 | In a valid image:<br>`byteCount == bytesPerRow * height * depth`<br>`bytesPerRow == width * bytesPerPixel + rowPadding`<br>`bytesPerPixel == channelCount * valueSize`, the buffer's pixel stride<br>`bitsPerPixel == 8 * bytesPerPixel`<br>the channel count is 1 to 4<br>`bitsPerChannel` is 8, 16 or 32<br>`pixelCount == width * height * depth` |
| Images.ChannelCountOf | Pic/Image.hpp:585-589 | `channelCount()` of the image's layout; `Images.SizeRelations` states it is 1 to 4 |
| Images.BytesPerPixel | Pic/Image.hpp:597-601 | `bytesPerPixel()`, `sizeof(Pixel)`; `Images.SizeRelations` states it is `channelCount * valueSize` and the buffer's pixel stride |
| Images.BytesPerRow | Pic/Image.hpp:573-577 | `bytesPerRow()`; `Images.SizeRelations` states it is `width * bytesPerPixel + rowPadding` |
| Images.ByteCount | Pic/Image.hpp:567-571 | `byteCount()`, the buffer's length; `Images.SizeRelations` states it is `bytesPerRow * height * depth` in a valid image |
| Images.PixelCount | Pic/Image.hpp:663-667 | `pixelCount()`; `Images.SizeRelations` states it is `width * height * depth` |
| Images.BitsPerChannel | Pic/Image.hpp:603-607 | `bitsPerChannel()`; `Images.SizeRelations` states it is 8, 16 or 32 |
| Images.BitsPerPixel | Pic/Image.hpp:591-595 | `bitsPerPixel()`; `Images.SizeRelations` states it is `8 * bytesPerPixel` |
| Images.ImageHasAlpha | Pic/Image.hpp:675-679 | The image has alpha exactly when its layout lists the alpha tag |
| Images.ImageAlphaPosition | Pic/Image.hpp:681-685 | -1 exactly without alpha; otherwise a channel index whose tag is alpha |
| Images.Empty | Pic/Image.hpp:257-266 | The default image is 0 x 0 x 0 with no padding and no bytes |
| Images.Resize | Pic/Image.hpp:360-368 | `resize(w, h, d, p)` sets all four dimensions and sizes the buffer to `bytesPerRow * h * d` |
| Images.Resize2 | Pic/Image.hpp:351-358 | `resize(w, h)` sets depth 1, keeps the row padding and sizes the buffer to `bytesPerRow * h` |
| Images.Create | Pic/Image.hpp:268-277 | The sized constructor yields a valid image with the requested dimensions and padding |
| Images.Clone | Pic/Image.hpp:299-308 | A copy has the same format, dimensions, padding and bytes |
| Images.Clear | Pic/Image.hpp:370-374 | `clear()` empties the buffer and keeps the dimensions, so the image stays consistent only when its dimensions describe zero bytes |
| Images.LoadPixels | Pic/Image.hpp:382-387 | After `loadPixels(w, h, d, src, p)` the image has those dimensions. Every channel and padding byte is the source byte at the same index, so `pixel(x, y, z)` reads `src` at its offset |
| Images.LoadPixels2 | Pic/Image.hpp:376-380 | The two-dimensional `loadPixels` makes the buffer the first `bytesPerRow * h` bytes of the source, with depth 1 |
| Images.FlipRows | Pic/Image.hpp:452-466 | Channel byte `(x, y, z)` comes from row `height - 1 - y` of the same layer, and padding travels with its row |
| Images.FlipColumns | Pic/Image.hpp:468-481 | Channel byte `(x, y, z, ch)` comes from column `width - 1 - x` with the same channel, and every padding byte is unchanged |
| Images.FlipLayers | Pic/Image.hpp:483-493 | Channel and padding bytes come from layer `depth - 1 - z`, at the same row and column |
| Images.Flip | Pic/Image.hpp:495-501 | Every channel byte comes from the pixel mirrored in all three axes; padding comes from the mirrored row and layer |
| Images.FlipRowsInvolution | Pic/Image.hpp:452-466 | Flipping rows twice restores the image |
| Images.FlipColumnsInvolution | Pic/Image.hpp:468-481 | Flipping columns twice restores the image |
| Images.FlipLayersInvolution | Pic/Image.hpp:483-493 | Flipping layers twice restores the image |
| Images.FlipInvolution | Pic/Image.hpp:495-501 | `flip(); flip();` restores the image |
| Images.FlipRowsColumnsCommute | Pic/Image.hpp:495-501 | Row and column flips commute |
| Images.FlipRowsLayersCommute | Pic/Image.hpp:495-501 | Row and layer flips commute |
| Images.FlipColumnsLayersCommute | Pic/Image.hpp:495-501 | Column and layer flips commute |
| Images.SwapChannels | Pic/Image.hpp:503-517 | In every pixel channels a and b are exchanged byte for byte. Other channels and all padding are unchanged |
| Images.SwapChannelsInvolution | Pic/Image.hpp:503-517 | Swapping the same two channels twice restores the image |
| Images.SwapChannelsSame | Pic/Image.hpp:503-517 | Swapping a channel with itself changes nothing |
| Images.SwapChannelsSymmetric | Pic/Image.hpp:503-517 | Swapping a with b is swapping b with a |
| Images.UpdatePixelsAsWritten | Pic/Image.hpp:395-414 | The written `updatePixels`. Each byte in the region comes from the source at the row stride the pointer arithmetic really uses, `width * bytesPerPixel * valueSize`; every byte outside the region, padding included, is unchanged |
| Images.UpdatePixels | Pic/Image.hpp:395-414 | `updatePixels` with a tightly packed source. Each byte in the region comes from the source in row-major order over rows, then layers; every byte outside the region, padding included, is unchanged |
| Images.UpdatePixels2AsWritten | Pic/Image.hpp:389-414 | The written two-dimensional `updatePixels` updates a region of layer 0 only, reading source row k at the written stride `width * bytesPerPixel * valueSize`, and changes nothing else |
| Images.UpdatePixels2 | Pic/Image.hpp:389-393 | The two-dimensional `updatePixels` over a packed source: it updates a region of layer 0 only and changes nothing else |
| Images.UpdatePixels2AgreeForBytes | Pic/Image.hpp:389-414 | With one-byte values the written two-dimensional update is exactly the packed one |
| Images.UpdateWholeIsLoad | Pic/Image.hpp:395-414 | Updating the whole of an unpadded image is loading the same source into it |
| Images.UpdateAsWrittenAgreesForBytes | Pic/Image.hpp:400-410 | With one-byte values the written update is exactly the packed update |
| Images.UpdateAsWrittenOverreaches | Pic/Image.hpp:400-410 | With values of two bytes or more and at least two rows, the written update reads past the end of a packed source |
| Images.UpdateAsWrittenGray16Example | Pic/Image.hpp:408-410 | For a 2 x 2 16-bit gray image, the packed source is 8 bytes. The written update reads row 1 from byte 8 and needs 12 bytes; the packed position is byte 4 |
| Images.UpdateExample | Tests/PicTests.cpp:104-114 | The 3 x 3 example, on the written update: after updating (1, 1, 2, 2) with 8, 7, 6, 5 the pixels read 0 1 2 / 3 8 7 / 6 6 5 |
| Images.FlipExample | Tests/PicTests.cpp:203-222 | The 2 x 2 example: a row flip gives 50 25 / 255 125, and a further column flip gives 25 50 / 125 255 |
| Images.SetPixel | Pic/Image.hpp:434-438 | Byte `ch * valueSize + b` of the value becomes byte b of channel ch of pixel (x, y, z); every other byte is unchanged |
| Images.SetPixel2 | Pic/Image.hpp:428-432 | The two-dimensional `setPixel` writes pixel (x, y) of layer 0 and nothing else |
| Images.PixelBytesAt | Pic/Image.hpp:537-541 | `pixel(x, y, z)` spans `bytesPerPixel` bytes, and its byte `ch * valueSize + b` is byte b of channel ch at that pixel |
| Images.GetPixel | Pic/Image.hpp:525-529 | `pixel(x, y, z)` read as a pixel: a valid pixel of the image's format whose channel ch holds the value bytes of channel ch at that position |
| Images.SetPixelThenRead | Pic/Image.hpp:434-438 | Reading a pixel just set gives the bytes written |
| Images.ReadThenSetPixel | Pic/Image.hpp:434-438 | Setting a pixel to its own bytes changes nothing |
| Images.SetPixelTwice | Pic/Image.hpp:434-438 | The second of two writes to one pixel wins |
| Images.SetPixelIsUnitUpdate | Pic/Image.hpp:428-438 | Setting a pixel is updating the 1 x 1 x 1 region at it |
| Images.SwapChannelsSwapsPixelChannels | Pic/Image.hpp:510-514 | After `swapChannels(a, b)`, channel a of every pixel holds what channel b held, and vice versa |
| PixelIterators.Increment | Pic/PixelIterator.hpp:63-78 | For a positive width, the column becomes `(x + n) % width`. The position advances by n pixels plus one row padding per row end crossed. A zero width adds pixel bytes only |
| PixelIterators.IncrementAdditive | Pic/PixelIterator.hpp:108-126 | From any state, moving by a and then by b is moving by a + b |
| PixelIterators.IncrementCanonical | Pic/PixelIterator.hpp:63-78 | From the iterator at pixel k, moving by n reaches the iterator at pixel k + n: row `k / width`, column `k % width`, position `row * bytesPerRow + column * bytesPerPixel` |
| PixelIterators.StepForward | Pic/PixelIterator.hpp:80-85 | `++it` applied m times; `PixelIterators.StepForwardCanonical` states that from pixel k it reaches pixel k + m |
| PixelIterators.StepForwardCanonical | Pic/PixelIterator.hpp:80-85 | m single `++` steps from pixel k reach pixel k + m |
| PixelIterators.Begin | Pic/Image.hpp:627-631 | `begin()`: position 0 in column 0; `PixelIterators.EndIsByteCount` and `PixelIterators.Traversal` state that `pixelCount()` steps from it reach `end()` and, on images at least two pixels wide, come back |
| PixelIterators.EndIsByteCount | Pic/Image.hpp:633-637 | `end()` is the iterator at pixel `pixelCount()`, column 0 and position `byteCount()` |
| PixelIterators.CanonicalAddressesPixel | Pic/PixelIterator.hpp:37-43 | Pixel (x, y, z) has an index below `pixelCount()`, and the iterator at that index stands on the offset of `pixel(x, y, z)` |
| PixelIterators.Deref | Pic/PixelIterator.hpp:154-164 | `*it` is the `bytesPerPixel` bytes starting at the iterator's position |
| PixelIterators.DerefCanonical | Pic/PixelIterator.hpp:154-164 | Dereferencing the iterator at pixel (x, y, z)'s index stays inside the buffer and reads the same bytes as `pixel(x, y, z)` |
| PixelIterators.ComparisonsFollowIndices | Pic/PixelIterator.hpp:134-152 | `==`, `!=`, `<` and `>` on iterators at pixels j and k agree with the same comparison of j and k |
| PixelIterators.Equal | Pic/PixelIterator.hpp:134-137 | `==` compares positions only; `PixelIterators.ComparisonsFollowIndices` states that on iterators at pixels j and k it holds exactly when j == k |
| PixelIterators.NotEqual | Pic/PixelIterator.hpp:139-142 | `!=` is the negation of `==`; `PixelIterators.ComparisonsFollowIndices` states that it holds exactly when j != k |
| PixelIterators.Less | Pic/PixelIterator.hpp:144-147 | `<` compares positions; `PixelIterators.ComparisonsFollowIndices` states that it holds exactly when j < k |
| PixelIterators.Greater | Pic/PixelIterator.hpp:149-152 | `>` compares positions; `PixelIterators.ComparisonsFollowIndices` states that it holds exactly when j > k |
| PixelIterators.DecrementAsWritten | Pic/PixelIterator.hpp:45-61 | The written decrement. Without crossing a row start it moves back n pixels. When crossing, it lands in a column from 1 to width, and subtracts one padding more than the number of whole widths in `n - x` |
| PixelIterators.Decrement | Pic/PixelIterator.hpp:45-61 | The corrected decrement. When crossing, it lands in a column below the width, with `n - x` plus the new column a whole number of rows, and subtracts one padding per row start crossed, the ceiling of `(n - x) / width` |
| PixelIterators.DecrementAsWrittenDiffers | Pic/PixelIterator.hpp:45-61 | The two decrements agree unless `n - x` is a positive multiple of the width. Then the written one stands one padding lower, in column `width` |
| PixelIterators.DecrementCanonical | Pic/PixelIterator.hpp:45-61 | The corrected decrement by n from pixel k reaches pixel k - n |
| PixelIterators.DecrementUndoesIncrement | Pic/PixelIterator.hpp:45-78 | Moving forward by n and back by n returns to the same pixel |
| PixelIterators.DecrementByOneExact | Pic/PixelIterator.hpp:94-99 | On images at least two pixels wide, the written `--it` from pixel k reaches pixel k - 1 |
| PixelIterators.DecrementOneWide | Pic/PixelIterator.hpp:94-99 | On images one pixel wide, every written `--it` lands one padding in front of the previous pixel, in column 1 |
| PixelIterators.StepBack | Pic/PixelIterator.hpp:94-99 | The written `--it` applied m times; `PixelIterators.StepBackCanonical` states that from pixel k it reaches pixel k - m on images at least two pixels wide |
| PixelIterators.StepBackCanonical | Pic/PixelIterator.hpp:94-99 | On images at least two pixels wide, m written `--` steps from pixel k reach pixel k - m |
| PixelIterators.Traversal | Tests/PicTests.cpp:296-352 | `pixelCount()` steps of `++` from `begin()` reach `end()`. On images at least two pixels wide, as many `--` steps return to `begin()`, padded or not |
| PixelIterators.PaddedIteratorExample | Tests/PicTests.cpp:354-357 | In the padded 3 x 3 image, `begin() + 7` is at byte 9 in column 1, and `- 6` takes it to byte 1, the pixel holding 2 |
| PixelIterators.PaddedRowStartExample | Pic/PixelIterator.hpp:115-120 | In the padded 3 x 3 image, `(begin() + 3) - 3` as written ends at byte -1 in column 3, while the corrected decrement returns to `begin()` |
| PixelIterators.PostIncrementAsWritten | Pic/PixelIterator.hpp:87-92 | Postfix `++` as written; `PixelIterators.PostfixYields` states that it moves like `++it` and yields the moved iterator |
| PixelIterators.PostIncrement | Pic/PixelIterator.hpp:87-92 | Postfix `++` returning a copy taken before the step; `PixelIterators.PostfixYields` states that it moves like `++it` and yields the original |
| PixelIterators.PostDecrementAsWritten | Pic/PixelIterator.hpp:101-106 | Postfix `--` as written; `PixelIterators.PostfixYields` states that it moves like the written `--it` and yields the moved iterator |
| PixelIterators.PostDecrement | Pic/PixelIterator.hpp:101-106 | Postfix `--` returning a copy taken before the step; `PixelIterators.PostfixYields` states that it yields the original |
| PixelIterators.PostfixYields | Pic/PixelIterator.hpp:87-106 | Both versions of postfix `++` and `--` move the iterator like the prefix forms. The written ones yield the moved iterator; the corrected ones yield the original |

## Left out

- File I/O is not part of this model: `decodeImage`, `loadImage`, `saveFile` in `Pic/Image.cpp` and the FreeImage glue. It depends on external decoders and encoders.
- Type identities (`channelLayoutTypeID`, `pixelTypeID`, `valueTypeID`) are runtime type registries. Layout identity is modelled as datatype equality instead.
- Floating-point channel values are treated as four opaque bytes, and no arithmetic is done on channel values.
  - The float `!=` in `Pic/Pixel.hpp:21` is modelled as bitwise equality of the bytes, so `Pixels.Equals` and `Pixels.ChannelwiseIsIdentity` are reflexive for `Float32`.
  - The source differs: a NaN channel makes a pixel unequal to itself, and +0 equals −0.
- Multi-byte channel values are never decoded, so byte order is not modelled. `Images.GetPixel` returns each channel as its `valueSize` bytes.
- Allocators, move construction and move assignment are left out. They produce the same value as a copy, which `Images.Clone` models.
- Raw pointers, `ptr()`, `bytePtr()` and the `reinterpret_cast`s are replaced by the byte sequence and explicit offsets.
  - The raw variants `loadRawPixels`, `updateRawPixels` and `setPixelRaw` are the typed operations applied to the same bytes, so they have no members of their own.
  - The const and non-const overloads of `pixel`, `begin` and `end` share one model.
- The constructors that load from a pixel pointer (`Pic/Image.hpp:278-297`) are `Images.LoadPixels` applied to `Images.Empty`.
- `printShit` has no effect on pixel data.
- Integers are unbounded, so overflow of `size_t` products is not modelled. The iterator's `size_t` column minus `n`, converted to a 64-bit signed value, is modelled as exact subtraction.
- Images.Resize: says nothing about the buffer's contents, only its dimensions and length, because the contents after `DynamicArray::resize` are not visible here. The model fills with zero.
- Images.Create: likewise gives no contract on the initial contents.
- Images.UpdatePixels and Images.UpdatePixelsAsWritten: require the region to lie inside the image (`RegionInside`), and the 2-D overloads `Images.UpdatePixels2` and `Images.UpdatePixels2AsWritten` inherit this. The source does not check it.
  - A region past the last row or layer overruns the buffer, which is undefined.
  - A region that overruns a row but stays inside the buffer writes that row's padding and the next row. That is defined, but the model does not cover it. For example, `updatePixels(2, 0, 0, 2, 1, 1, src)` on a 3 x 3 unpadded U8 image writes pixels (2, 0) and (0, 1).
- Images.UpdatePixelsAsWritten: requires the source to be long enough for the over-reach the written stride causes, because reading past the caller's buffer is undefined.
- Pixels.SetSingleAsWritten: the value read past the three-element array is a parameter, because it is whatever follows the array in memory.
- PixelIterators.Deref: requires the pixel to lie inside the buffer, because dereferencing `end()` or a position in front of the buffer is undefined.
- PixelIterators.DecrementAsWritten: requires a positive width when the step crosses a row start, because the source divides by the width there.
- The default-constructed iterator with no image is guarded only by debug assertions in `increment`, `decrement` and `*it`, and is not modelled.
- Comparing iterators of different images is not checked at all (the operators compare raw positions) and is not modelled.
- The template-arity mismatch between `PixelIteratorT<T>` and its use with two arguments in `ImageT` is not modelled; only the arithmetic is.

## Findings

| source | as written | input that shows it | evidently intended | confidence | as-written member | corrected member |
|---|---|---|---|---|---|---|
| Pic/Image.hpp:400-410 | The source pointer is a `const ValueType*`, advanced by `pixelOff`, which counts bytes. So source row k is read from byte `k * rowWidth * valueSize` | A whole-image update of a 2 x 2 16-bit gray image from an 8-byte source reads row 1 from bytes 8-11, past the end (`Images.UpdateAsWrittenGray16Example`, `Images.UpdateAsWrittenOverreaches`). The two-dimensional overload forwards to it (`Images.UpdatePixels2AsWritten`, corrected by `Images.UpdatePixels2`) | Row k is read from byte `k * rowWidth` of a tightly packed source | high; not executed | Images.UpdatePixelsAsWritten | Images.UpdatePixels |
| Pic/Pixel.hpp:293-297 | The four-channel `setValue(v)` declares `ValueType arr[3] = { v }` and copies four values from it | Any four-channel pixel built from one value: channel 3 is read from past the array (`Pixels.SingleValueOverread`); the one-value constructor `Pixel4T(v)` calls this setter (`Pixels.Construct`) | A four-element array, so channel 3 is zero like channels 1 and 2 | high; not executed | Pixels.SetSingleAsWritten | Pixels.SetSingle |
| Pic/PixelIterator.hpp:51-54 | When crossing a row start, the decrement moves back `anoff / width + 1` rows to column `width - anoff % width`, even when `anoff % width == 0` | In the 3 x 3 image with one padding byte per row, `(begin() + 3) - 3` ends at byte -1 in column 3 (`PixelIterators.PaddedRowStartExample`). On a one-pixel-wide padded image every `--it` is off (`PixelIterators.DecrementOneWide`) | Move back `anoff / width` rows to column 0 when `anoff` is a multiple of the width (`PixelIterators.DecrementCanonical`) | high; not executed | PixelIterators.DecrementAsWritten | PixelIterators.Decrement |
| Pic/PixelIterator.hpp:87-106 | Postfix `++` and `--` step `*this` and then return `*this`, so the expression yields the moved iterator | `it++` applied to `begin()` yields the iterator at pixel 1, not `begin()` (`PixelIterators.PostfixYields`) | Return a copy taken before the step. The same holds for `--`: `PixelIterators.PostDecrementAsWritten` is corrected by `PixelIterators.PostDecrement` | medium; not executed | PixelIterators.PostIncrementAsWritten | PixelIterators.PostIncrement |
