/** Raster images as the capture code handles them: row-padded frames,
    tightly packed 4-byte pixels, and the `image` crate's `from_raw`. */
module Raster {
  import opened Wrappers
  import opened Bytes

  /** An `RgbaImage`: its dimensions and its packed pixel bytes. */
  datatype Image = Image(width: nat, height: nat, pixels: seq<byte>)

  /** `RgbaImage::from_raw(width, height, buf)`: an image when the buffer
      holds at least `4 * width * height` bytes, a length the crate computes
      with overflow checks in `usize`. */
  function FromRaw(width: nat, height: nat, buf: seq<byte>): (r: Option<Image>)
    requires width <= U32_MAX && height <= U32_MAX
    ensures r.Some? <==> 4 * width * height <= USIZE_MAX && 4 * width * height <= |buf|
    ensures r.Some? ==> r.value == Image(width, height, buf)
  {
    var needed := 4 * width * height;
    if needed <= USIZE_MAX && needed <= |buf| then Some(Image(width, height, buf)) else None
  }

  /** The first `height` rows of `frame`, each `rowBytes` long and starting
      every `stride` bytes, packed one after the other: row padding removed. */
  function Destride(frame: seq<byte>, rowBytes: nat, height: nat, stride: nat): (r: seq<byte>)
    requires height == 0 || (height - 1) * stride + rowBytes <= |frame|
    ensures |r| == height * rowBytes
    decreases height
  {
    if height == 0 then []
    else
      var y := height - 1;
      assert height - 1 == 0 || (height - 2) * stride <= y * stride;
      Destride(frame, rowBytes, y, stride) + frame[y * stride..y * stride + rowBytes]
  }

  lemma MulMonotone(a: nat, b: nat, c: nat)
    requires a <= b
    ensures a * c <= b * c
  {
  }

  lemma MulSucc(a: nat, c: nat)
    ensures (a + 1) * c == a * c + c
  {
  }

  /** A slice that ends inside the left operand of a concatenation. */
  lemma SliceOfLeft(a: seq<byte>, b: seq<byte>, i: nat, j: nat)
    requires i <= j <= |a|
    ensures (a + b)[i..j] == a[i..j]
  {
  }

  /** The right operand of a concatenation, sliced back out. */
  lemma SliceOfRight(a: seq<byte>, b: seq<byte>)
    ensures (a + b)[|a|..|a| + |b|] == b
  {
  }

  /** Row `y` of the packed result is row `y` of the frame, byte for byte. */
  lemma {:induction false} DestrideRow(frame: seq<byte>, rowBytes: nat, height: nat, stride: nat, y: nat)
    requires height == 0 || (height - 1) * stride + rowBytes <= |frame|
    requires y < height
    ensures y * stride + rowBytes <= |frame|
    ensures (y + 1) * rowBytes <= height * rowBytes
    ensures Destride(frame, rowBytes, height, stride)[y * rowBytes..(y + 1) * rowBytes]
         == frame[y * stride..y * stride + rowBytes]
  {
    var last := height - 1;
    MulMonotone(y, last, stride);
    MulSucc(y, rowBytes);
    MulSucc(last, rowBytes);
    MulMonotone(y + 1, height, rowBytes);
    if last > 0 {
      MulMonotone(last - 1, last, stride);
    }
    var prev := Destride(frame, rowBytes, last, stride);
    var lastRow := frame[last * stride..last * stride + rowBytes];
    assert Destride(frame, rowBytes, height, stride) == prev + lastRow;
    if y < last {
      MulMonotone(y + 1, last, rowBytes);
      DestrideRow(frame, rowBytes, last, stride, y);
      SliceOfLeft(prev, lastRow, y * rowBytes, (y + 1) * rowBytes);
    } else {
      SliceOfRight(prev, lastRow);
    }
  }

  /** Row `y` of `packed` (rows of `rowBytes` bytes, back to back) equals
      row `y` of `frame` (rows starting every `stride` bytes). */
  predicate RowCopied(packed: seq<byte>, frame: seq<byte>, rowBytes: nat, stride: nat, y: nat) {
    && y * stride + rowBytes <= |frame|
    && (y + 1) * rowBytes <= |packed|
    && y * rowBytes <= (y + 1) * rowBytes
    && packed[y * rowBytes..(y + 1) * rowBytes] == frame[y * stride..y * stride + rowBytes]
  }

  lemma DestrideRows(frame: seq<byte>, rowBytes: nat, height: nat, stride: nat)
    requires height == 0 || (height - 1) * stride + rowBytes <= |frame|
    ensures forall y :: 0 <= y < height ==> RowCopied(Destride(frame, rowBytes, height, stride), frame, rowBytes, stride, y)
  {
    forall y | 0 <= y < height
      ensures RowCopied(Destride(frame, rowBytes, height, stride), frame, rowBytes, stride, y)
    {
      DestrideRow(frame, rowBytes, height, stride, y);
    }
  }

  /** Exchanges bytes 0 and 2 of every 4-byte pixel (BGRA to RGBA). */
  function SwapRedBlue(px: seq<byte>): (r: seq<byte>)
    requires |px| % 4 == 0
    ensures |r| == |px|
    ensures forall i :: 0 <= i < |px| / 4 ==>
      r[4 * i] == px[4 * i + 2] && r[4 * i + 1] == px[4 * i + 1] &&
      r[4 * i + 2] == px[4 * i] && r[4 * i + 3] == px[4 * i + 3]
  {
    seq(|px|, k requires 0 <= k < |px| =>
      if k % 4 == 0 then px[k + 2] else if k % 4 == 2 then px[k - 2] else px[k])
  }

  /** Swapping twice restores the pixels. */
  lemma SwapRedBlueTwice(px: seq<byte>)
    requires |px| % 4 == 0
    ensures SwapRedBlue(SwapRedBlue(px)) == px
  {
  }
}
