/** `cgimage_to_rgba` (app/crates/app/src/main.rs): a CoreGraphics window
    image, 32-bit BGRA with padded rows, turned into a packed RGBA image.
    `ToRgbaAsWritten` follows the code, panics included; `ToRgbaChecked`
    adds the checks it leaves out and is the conversion the capture loop
    uses. */
module CgImage {
  import opened Wrappers
  import opened Bytes
  import Raster

  /** The bytes of an image: a slice, so never more than `isize::MAX`. */
  type ImageData = d: seq<byte> | |d| <= ISIZE_MAX

  /** What the conversion reads of a `CGImage`; `width` and `height` are the
      `usize` values CoreGraphics reports. */
  datatype CgImage = CgImage(width: nat, height: nat, bytesPerRow: nat, bitsPerPixel: nat,
                             bitsPerComponent: nat, data: ImageData)

  /** How a run of the code ends: with its result, or in a panic. */
  datatype Outcome = Returned(image: Option<Raster.Image>) | Panicked

  /** The image as the code sees it once `width` and `height` are cast with
      `as u32`. */
  function Narrowed(img: CgImage): (n: CgImage)
    ensures n.width <= U32_MAX && n.height <= U32_MAX
    ensures img.width <= U32_MAX && img.height <= U32_MAX ==> n == img
  {
    img.(width := AsU32(img.width), height := AsU32(img.height))
  }

  /** The conversion's own guards, all of which must pass. */
  predicate Accepted(img: CgImage) {
    && img.width > 0 && img.height > 0
    && img.bitsPerPixel == 32 && img.bitsPerComponent == 8
    && |img.data| >= SaturatingMul(img.bytesPerRow, img.height)
  }

  /** The last pixel of the last row lies inside the data. */
  predicate RowsInData(img: CgImage) {
    img.height > 0 ==> (img.height - 1) * img.bytesPerRow + 4 * img.width <= |img.data|
  }

  /** The `u32` product `width * height * 4` does not overflow. */
  predicate FitsU32(img: CgImage) {
    4 * img.width * img.height <= U32_MAX
  }

  /** The checks the code leaves out: each row is long enough for its
      pixels, the rows end inside the data, and the output size fits in
      `u32`. */
  predicate Readable(img: CgImage) {
    img.bytesPerRow >= 4 * img.width && RowsInData(img) && FitsU32(img)
  }

  /** The bytes of row `y` that hold pixels. */
  function PixelRow(data: seq<byte>, width: nat, stride: nat, y: nat): seq<byte>
    requires y * stride + 4 * width <= |data|
  {
    data[y * stride..y * stride + 4 * width]
  }

  /** What the copy loop writes: row `y`'s `4 * width` bytes from offset
      `y * bytes_per_row`, packed, with red and blue exchanged. Rows shorter
      than their pixels overlap the next row. */
  function Gathered(img: CgImage): (px: seq<byte>)
    requires img.width > 0 && img.height > 0 && RowsInData(img) && FitsU32(img)
    ensures |px| == 4 * img.width * img.height
  {
    Shape(img.width, img.height);
    Raster.SwapRedBlue(Raster.Destride(img.data, 4 * img.width, img.height, img.bytesPerRow))
  }

  /** `cgimage_to_rgba` as written: the guards on the narrowed size, then the
      `u32` product (a panic in a debug build; in a release build it wraps,
      and the copy loop writes past the buffer it sized), then the copy
      loop, which panics at the first read past the data. */
  function ToRgbaAsWritten(img: CgImage): (r: Outcome)
    ensures r.Panicked? <==> Accepted(Narrowed(img)) && !(FitsU32(Narrowed(img)) && RowsInData(Narrowed(img)))
    ensures r == Returned(None) <==> !Accepted(Narrowed(img))
    ensures r.Returned? && r.image.Some? ==>
      var n := Narrowed(img);
      r.image.value.width == n.width && r.image.value.height == n.height
      && r.image.value.pixels == Gathered(n)
  {
    var n := Narrowed(img);
    if n.width == 0 || n.height == 0 then Returned(None)
    else if n.bitsPerPixel != 32 || n.bitsPerComponent != 8 then Returned(None)
    else if |n.data| < SaturatingMul(n.bytesPerRow, n.height) then Returned(None)
    else if !FitsU32(n) then Panicked
    else if !RowsInData(n) then Panicked
    else
      Shape(n.width, n.height);
      var made := Raster.FromRaw(n.width, n.height, Gathered(n));
      assert made.Some?;
      Returned(made)
  }

  /** The conversion with the missing checks added: `None` unless the code's
      guards pass and the image is readable; otherwise each row's pixels,
      padding dropped, with red and blue exchanged. */
  function ToRgbaChecked(img: CgImage): (r: Option<Raster.Image>)
    ensures r.Some? <==> Accepted(img) && Readable(img)
    ensures r.Some? ==> r.value.width == img.width && r.value.height == img.height
    ensures r.Some? ==> |r.value.pixels| == 4 * img.width * img.height
  {
    if !Accepted(img) || !Readable(img) then None
    else
      Shape(img.width, img.height);
      var made := Raster.FromRaw(img.width, img.height, Gathered(img));
      assert made.Some?;
      made
  }

  /** The two conversions agree wherever the code neither panics nor
      narrows the size and rows hold their pixels; and every image the code
      panics on is refused by the checked one. */
  lemma CheckedAgrees(img: CgImage)
    ensures ToRgbaAsWritten(img).Panicked? ==> ToRgbaChecked(img).None?
    ensures (&& img.width <= U32_MAX && img.height <= U32_MAX && img.bytesPerRow >= 4 * img.width
             && !ToRgbaAsWritten(img).Panicked?)
            ==> ToRgbaAsWritten(img) == Returned(ToRgbaChecked(img))
  {
    if ToRgbaChecked(img).Some? {
      Shape(img.width, img.height);
      assert Narrowed(img) == img;
    }
  }

  lemma Shape(w: nat, h: nat)
    requires w > 0 && h > 0 && 4 * w * h <= U32_MAX
    ensures w <= U32_MAX && h <= U32_MAX
    ensures 4 * w * h == h * (4 * w) && (h * (4 * w)) % 4 == 0
  {
    var m := w * h;
    assert 4 * w * h == 4 * m;
    assert h * (4 * w) == 4 * m;
    Raster.MulMonotone(1, h, w);
    Raster.MulMonotone(1, w, h);
  }

  /** Exchanging red and blue back in the result gives, row for row, the
      pixel bytes of the source: only the padding is gone. */
  lemma RowsRecovered(img: CgImage)
    requires Accepted(img) && Readable(img)
    ensures |ToRgbaChecked(img).value.pixels| % 4 == 0
    ensures forall y :: 0 <= y < img.height ==>
      Raster.RowCopied(Raster.SwapRedBlue(ToRgbaChecked(img).value.pixels), img.data, 4 * img.width, img.bytesPerRow, y)
  {
    var w, h, bpr := img.width, img.height, img.bytesPerRow;
    Shape(w, h);
    var packed := Raster.Destride(img.data, 4 * w, h, bpr);
    assert ToRgbaChecked(img).value.pixels == Gathered(img) == Raster.SwapRedBlue(packed);
    Raster.SwapRedBlueTwice(packed);
    Raster.DestrideRows(img.data, 4 * w, h, bpr);
  }

  /** Only the pixel bytes of each row reach the result: two images that
      differ only in their row padding convert alike. */
  lemma PaddingIgnored(img: CgImage, data2: ImageData)
    requires |data2| == |img.data|
    requires forall y :: 0 <= y < img.height ==>
      y * img.bytesPerRow + 4 * img.width <= |img.data| &&
      PixelRow(img.data, img.width, img.bytesPerRow, y) == PixelRow(data2, img.width, img.bytesPerRow, y)
    ensures ToRgbaChecked(img.(data := data2)) == ToRgbaChecked(img)
  {
    var img2 := img.(data := data2);
    if Accepted(img) && Readable(img) {
      assert Accepted(img2) && Readable(img2);
      SameRows(img.data, data2, img.width, img.height, img.bytesPerRow);
      assert Gathered(img2) == Gathered(img);
    }
  }

  lemma {:induction false} SameRows(d1: seq<byte>, d2: seq<byte>, width: nat, height: nat, stride: nat)
    requires |d1| == |d2|
    requires height == 0 || (height - 1) * stride + 4 * width <= |d1|
    requires forall y :: 0 <= y < height ==>
      y * stride + 4 * width <= |d1| && PixelRow(d1, width, stride, y) == PixelRow(d2, width, stride, y)
    ensures Raster.Destride(d1, 4 * width, height, stride) == Raster.Destride(d2, 4 * width, height, stride)
  {
    if height > 0 {
      var y := height - 1;
      assert PixelRow(d1, width, stride, y) == PixelRow(d2, width, stride, y);
      if y > 0 {
        Raster.MulMonotone(y - 1, y, stride);
      }
      SameRows(d1, d2, width, y, stride);
    }
  }

  /** An image whose rows are shorter than its pixels passes every guard
      the code makes: 2 pixels wide, 4 bytes per row and of data. The copy
      loop then reads past the data and panics; the checked conversion
      refuses the image. */
  lemma GuardsAdmitShortRows()
    ensures var img := CgImage(2, 1, 4, 32, 8, [1, 2, 3, 4]);
      Accepted(img) && !Readable(img)
      && ToRgbaAsWritten(img) == Panicked && ToRgbaChecked(img) == None
  {
    var img := CgImage(2, 1, 4, 32, 8, [1, 2, 3, 4]);
    assert Narrowed(img) == img;
  }

  /** Rows shorter than their pixels need not panic: 2 by 2 pixels, 4
      bytes per row and 12 bytes of data pass every guard, and the last
      row still ends inside the data. The code converts the image, and its
      rows overlap: the second pixel of the first row is the first pixel of
      the second. The checked conversion refuses it. */
  lemma ShortRowsOverlap()
    ensures var img := CgImage(2, 2, 4, 32, 8, [0, 1, 2, 3, 4, 5, 6, 7, 8, 9, 10, 11]);
      && Accepted(img) && !Readable(img)
      && ToRgbaAsWritten(img).Returned? && ToRgbaAsWritten(img).image.Some?
      && ToRgbaAsWritten(img).image.value.pixels[4..8] == ToRgbaAsWritten(img).image.value.pixels[8..12]
      && ToRgbaChecked(img) == None
  {
    var img := CgImage(2, 2, 4, 32, 8, [0, 1, 2, 3, 4, 5, 6, 7, 8, 9, 10, 11]);
    assert Narrowed(img) == img;
    OverlappingRows(img.data);
  }

  /** Two rows of 8 bytes taken 4 bytes apart share a pixel. */
  lemma OverlappingRows(data: seq<byte>)
    requires |data| == 12
    ensures var px := Raster.SwapRedBlue(Raster.Destride(data, 8, 2, 4));
      px[4..8] == px[8..12]
  {
    var packed := Raster.Destride(data, 8, 2, 4);
    RowsRepeat(data);
    SharedPixel(packed);
  }

  /** Packing two rows of 8 bytes taken 4 bytes apart repeats bytes 4 to 7. */
  lemma RowsRepeat(data: seq<byte>)
    requires |data| == 12
    ensures var packed := Raster.Destride(data, 8, 2, 4);
      |packed| == 16 && packed[4..8] == packed[8..12]
  {
    var first := Raster.Destride(data, 8, 1, 4);
    assert first == [] + data[0..8];
    var packed := first + data[4..12];
    assert Raster.Destride(data, 8, 2, 4) == packed;
    assert packed[4..8] == data[0..8][4..8] == data[4..8];
    assert packed[8..12] == data[4..12][0..4] == data[4..8];
  }

  /** Pixels 1 and 2 of a packed buffer that repeats its bytes 4 to 7 at 8
      to 11 are equal after the swap too. */
  lemma SharedPixel(packed: seq<byte>)
    requires |packed| == 16 && packed[4..8] == packed[8..12]
    ensures var px := Raster.SwapRedBlue(packed);
      px[4..8] == px[8..12]
  {
    var px := Raster.SwapRedBlue(packed);
    assert forall j :: 0 <= j < 4 ==> packed[4 + j] == packed[4..8][j] == packed[8..12][j] == packed[8 + j];
    assert px[4..8] == [px[4], px[5], px[6], px[7]];
    assert px[8..12] == [px[8], px[9], px[10], px[11]];
  }

  /** A size above `u32::MAX` is narrowed, not refused: an image 2^32 + 1
      pixels wide, with one row of 4 bytes, converts in the code as the
      1 by 1 image of its first pixel. The checked conversion refuses it. */
  lemma NarrowedWidthConverted()
    ensures var img := CgImage(U32_MAX + 2, 1, 4, 32, 8, [0, 1, 2, 3]);
      && ToRgbaAsWritten(img).Returned? && ToRgbaAsWritten(img).image.Some?
      && ToRgbaAsWritten(img).image.value.width == 1 && ToRgbaAsWritten(img).image.value.height == 1
      && ToRgbaChecked(img) == None
  {
    var img := CgImage(U32_MAX + 2, 1, 4, 32, 8, [0, 1, 2, 3]);
    assert AsU32(U32_MAX + 2) == 1;
    assert Narrowed(img) == CgImage(1, 1, 4, 32, 8, [0, 1, 2, 3]);
  }

  /** A 32768 by 32768 image with its rows packed passes every guard, but
      `width * height * 4` is 2^32 and overflows `u32`: the code panics
      (debug) or wraps the buffer to nothing and panics at its first write
      (release). The checked conversion refuses the image. */
  lemma U32ProductOverflows()
    ensures var img := CgImage(32768, 32768, 131072, 32, 8, seq(131072 * 32768, _ => 0));
      Accepted(img) && !FitsU32(img)
      && ToRgbaAsWritten(img) == Panicked && ToRgbaChecked(img) == None
  {
    var img := CgImage(32768, 32768, 131072, 32, 8, seq(131072 * 32768, _ => 0));
    assert Narrowed(img) == img;
  }
}
