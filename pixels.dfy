/**
 * PixelSampler: the mean colour of an RGBA pixel buffer.
 *
 * A canvas hands out pixel data as a flat byte buffer, four bytes per pixel
 * (red, green, blue, alpha), rows top to bottom. Both the grid indexer and
 * the uploaded-image averaging walk such a buffer in steps of four, add up
 * the first three bytes of each pixel and floor-divide by the pixel count.
 */
module PixelSampler {
  import opened Arith

  /** One element of a canvas pixel buffer (a clamped unsigned byte). */
  type Byte = b: int | 0 <= b < 256

  datatype RGB = RGB(r: int, g: int, b: int)

  /** The three colour channels, by their offset inside a 4-byte pixel. */
  datatype Channel = Red | Green | Blue {
    function Offset(): nat {
      match this
      case Red => 0
      case Green => 1
      case Blue => 2
    }
  }

  predicate InRange(c: RGB) {
    0 <= c.r <= 255 && 0 <= c.g <= 255 && 0 <= c.b <= 255
  }

  /** A decoded image: `width` × `height` pixels, row-major, RGBA bytes. */
  datatype Image = Image(width: nat, height: nat, data: seq<Byte>)

  predicate WellFormed(img: Image) {
    |img.data| == 4 * (img.width * img.height)
  }

  /** Sum of channel `c` over the first `n` pixels of `data`. */
  function ChannelSum(data: seq<Byte>, n: nat, c: Channel): int
    requires 4 * n <= |data|
  {
    if n == 0 then 0 else ChannelSum(data, n - 1, c) + data[4 * (n - 1) + c.Offset()]
  }

  /** A sum of n bytes lies between 0 and 255·n. */
  lemma {:induction false} ChannelSumBounds(data: seq<Byte>, n: nat, c: Channel)
    requires 4 * n <= |data|
    ensures 0 <= ChannelSum(data, n, c) <= 255 * n
  {
    if n > 0 {
      ChannelSumBounds(data, n - 1, c);
    }
  }

  /**
   * The per-channel mean of a non-empty buffer, each channel sum
   * floor-divided by the pixel count; the alpha byte plays no part.
   */
  function MeanColor(data: seq<Byte>): RGB
    requires |data| % 4 == 0 && 0 < |data|
  {
    var n := |data| / 4;
    RGB(ChannelSum(data, n, Red) / n, ChannelSum(data, n, Green) / n, ChannelSum(data, n, Blue) / n)
  }

  /** Every channel of the mean of a byte buffer is itself a byte value. */
  lemma MeanColorInRange(data: seq<Byte>)
    requires |data| % 4 == 0 && 0 < |data|
    ensures InRange(MeanColor(data))
  {
    var n := |data| / 4;
    ChannelMeanInRange(data, n, Red);
    ChannelMeanInRange(data, n, Green);
    ChannelMeanInRange(data, n, Blue);
  }

  lemma ChannelMeanInRange(data: seq<Byte>, n: nat, c: Channel)
    requires 0 < n && 4 * n <= |data|
    ensures 0 <= ChannelSum(data, n, c) / n <= 255
  {
    ChannelSumBounds(data, n, c);
    FloorDivBelow(256, ChannelSum(data, n, c), n);
  }

  /** Two buffers that differ only in alpha bytes have the same channel sums. */
  lemma {:induction false} ChannelSumIgnoresAlpha(d1: seq<Byte>, d2: seq<Byte>, n: nat, c: Channel)
    requires 4 * n <= |d1| == |d2|
    requires forall i :: 0 <= i < |d1| && i % 4 != 3 ==> d1[i] == d2[i]
    ensures ChannelSum(d1, n, c) == ChannelSum(d2, n, c)
  {
    if n > 0 {
      ChannelSumIgnoresAlpha(d1, d2, n - 1, c);
      var i := 4 * (n - 1) + c.Offset();
      assert i % 4 == c.Offset();
    }
  }

  /** The mean colour does not depend on the alpha channel. */
  lemma MeanColorIgnoresAlpha(d1: seq<Byte>, d2: seq<Byte>)
    requires |d1| % 4 == 0 && 0 < |d1| == |d2|
    requires forall i :: 0 <= i < |d1| && i % 4 != 3 ==> d1[i] == d2[i]
    ensures MeanColor(d1) == MeanColor(d2)
  {
    var n := |d1| / 4;
    ChannelSumIgnoresAlpha(d1, d2, n, Red);
    ChannelSumIgnoresAlpha(d1, d2, n, Green);
    ChannelSumIgnoresAlpha(d1, d2, n, Blue);
  }

  /**
   * The accumulation loop shared by the grid indexer and the upload
   * averaging: step over the buffer four bytes at a time, add the red,
   * green and blue bytes and count the pixels.
   */
  method SumChannels(data: seq<Byte>) returns (r: int, g: int, b: int, count: nat)
    requires |data| % 4 == 0
    ensures count == |data| / 4
    ensures r == ChannelSum(data, count, Red)
    ensures g == ChannelSum(data, count, Green)
    ensures b == ChannelSum(data, count, Blue)
  {
    r, g, b, count := 0, 0, 0, 0;
    var i := 0;
    while i < |data|
      invariant i == 4 * count <= |data|
      invariant r == ChannelSum(data, count, Red)
      invariant g == ChannelSum(data, count, Green)
      invariant b == ChannelSum(data, count, Blue)
    {
      r := r + data[i];
      g := g + data[i + 1];
      b := b + data[i + 2];
      count := count + 1;
      i := i + 4;
    }
  }

  /**
   * The mean colour of a whole uploaded image; the pixel count is the
   * buffer length divided by four.
   */
  method AverageColor(img: Image) returns (avg: RGB)
    requires WellFormed(img) && 0 < img.width && 0 < img.height
    ensures avg == MeanColor(img.data)
    ensures InRange(avg)
  {
    MulPositive(img.width, img.height);
    var r, g, b, _ := SumChannels(img.data);
    var count := |img.data| / 4;
    avg := RGB(r / count, g / count, b / count);
    MeanColorInRange(img.data);
  }
}
