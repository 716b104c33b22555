/** The 1-bit framebuffer of the printer driver: a packed, row-major, most
    significant bit first bitmap, and its `clear`, `head` and `blit_image`. */
module Framebuffer {
  import opened Base
  import Bits

  /** `Image`: `width` by `height` pixels, each row `Stride(width)` bytes. */
  datatype Image = Image(width: u16, height: u16, data: seq<bv8>)

  /** Bytes per row, `(width + 7) / 8`: room for every pixel of a row and fewer
      than eight bits of padding. */
  function Stride(width: nat): (s: nat)
    ensures width <= 8 * s < width + 8
  {
    (width + 7) / 8
  }

  /** The data holds exactly `height` rows of `Stride(width)` bytes. */
  predicate WellFormed(img: Image)
  {
    |img.data| == img.height * Stride(img.width)
  }

  /** A non-empty buffer has rows of at least one byte. */
  lemma PositiveStride(k: nat, h: nat, s: nat)
    requires k < h * s
    ensures s > 0
  {
  }

  /** Multiplying by a row stride keeps order; the row-bound lemmas here need it. */
  lemma MulMonotone(a: nat, b: nat, s: nat)
    requires a <= b
    ensures a * s <= b * s
  {
    assert b * s == a * s + (b - a) * s;
  }

  /** Row-major addressing never runs past the last row. */
  lemma RowMajorBound(y: nat, c: nat, s: nat, h: nat)
    requires y < h && c < s
    ensures y * s + c < h * s
  {
    MulMonotone(y + 1, h, s);
  }

  /** A row-major address determines its row and column byte. */
  lemma RowMajorSplit(y: nat, c: nat, s: nat)
    requires c < s
    ensures (y * s + c) / s == y && (y * s + c) % s == c
  {
    var k := y * s + c;
    var q := k / s;
    var r := k % s;
    assert k == q * s + r;
    if q < y {
      MulMonotone(q + 1, y, s);
      assert false;
    } else if q > y {
      MulMonotone(y + 1, q, s);
      assert false;
    }
  }

  /** The index of the byte holding pixel `(x, y)` in rows of `stride` bytes. */
  function Address(stride: nat, x: nat, y: nat): nat
  {
    y * stride + x / 8
  }

  /** Bit `x` of row `y`, counting the padding bits at the end of each row. */
  function RawBit(img: Image, x: nat, y: nat): bool
    requires WellFormed(img) && x < 8 * Stride(img.width) && y < img.height
  {
    RowMajorBound(y, x / 8, Stride(img.width), img.height);
    Bits.BitOf(img.data[Address(Stride(img.width), x, y)], x % 8)
  }

  /** Pixel `(x, y)`: set means black. */
  function Pixel(img: Image, x: nat, y: nat): bool
    requires WellFormed(img) && x < img.width && y < img.height
  {
    RawBit(img, x, y)
  }

  // ---------------------------------------------------------------------------
  // clear

  /** `clear`: every byte zero, the shape kept. */
  function Clear(img: Image): (r: Image)
    ensures r.width == img.width && r.height == img.height && |r.data| == |img.data|
    ensures forall k :: 0 <= k < |r.data| ==> r.data[k] == 0
  {
    img.(data := seq(|img.data|, _ => 0))
  }

  /** After `clear` every pixel, padding included, is off. */
  lemma ClearedIsBlank(img: Image, x: nat, y: nat)
    requires WellFormed(img) && x < 8 * Stride(img.width) && y < img.height
    ensures WellFormed(Clear(img)) && !RawBit(Clear(img), x, y)
  {
    RowMajorBound(y, x / 8, Stride(img.width), img.height);
    assert Clear(img).data[Address(Stride(img.width), x, y)] == 0;
  }

  // ---------------------------------------------------------------------------
  // head

  /** `head(rows)`: the same width, `rows` rows, and the first `rows * width / 8`
      bytes of the data. The slice panics when that runs past the data. */
  function Head(img: Image, rows: u16): (r: Image)
    requires rows * img.width / 8 <= |img.data|
    ensures r.width == img.width && r.height == rows
    ensures |r.data| == rows * img.width / 8 && r.data <= img.data
  {
    Image(img.width, rows, img.data[..rows * img.width / 8])
  }

  /** For a width that is a whole number of bytes, `head(rows)` is a well-formed
      image showing exactly the first `rows` rows. */
  lemma HeadKeepsTopRows(img: Image, rows: u16)
    requires WellFormed(img) && img.width % 8 == 0 && rows <= img.height
    ensures rows * img.width / 8 <= |img.data|
    ensures WellFormed(Head(img, rows))
    ensures forall x, y :: 0 <= x < 8 * Stride(img.width) && 0 <= y < rows ==>
              RawBit(Head(img, rows), x, y) == RawBit(img, x, y)
  {
    var s := Stride(img.width);
    assert img.width == 8 * s;
    assert rows * img.width == 8 * (rows * s);
    assert rows * img.width / 8 == rows * s;
    MulMonotone(rows, img.height, s);
    forall x, y | 0 <= x < 8 * s && 0 <= y < rows
      ensures RawBit(Head(img, rows), x, y) == RawBit(img, x, y)
    {
      RowMajorBound(y, x / 8, s, rows);
    }
  }

  // ---------------------------------------------------------------------------
  // blit_image

  /** What `blit_image` needs so that none of its `u16` sums overflows and every
      index it computes is inside its buffer. */
  predicate BlitArgs(dest: Image, src: Image, xo: u16, yo: u16)
  {
    && WellFormed(dest) && WellFormed(src)
    && dest.width + 7 < U16_LIMIT && src.width + 7 < U16_LIMIT
    && xo + src.width <= U16_LIMIT && yo + src.height <= U16_LIMIT
  }

  /** Destination pixel `(dx, dy)` lies under the source placed at `(xo, yo)` and
      has been written once source rows before `rows`, and the first `cols`
      pixels of row `rows`, have been copied. */
  predicate Copied(dest: Image, src: Image, xo: nat, yo: nat, rows: nat, cols: nat, dx: nat, dy: nat)
  {
    && dx < dest.width && dy < dest.height
    && xo <= dx < xo + src.width && yo <= dy < yo + src.height
    && (dy - yo < rows || (dy - yo == rows && dx - xo < cols))
  }

  /** Bit `j` of destination byte `k` part way through a blit. */
  function BlitBit(dest: Image, src: Image, xo: nat, yo: nat, rows: nat, cols: nat, k: nat, j: nat): bool
    requires WellFormed(dest) && WellFormed(src) && k < |dest.data| && j < 8
  {
    var s := Stride(dest.width);
    PositiveStride(k, dest.height, s);
    BitAt(dest, src, xo, yo, rows, cols, k, j, 8 * (k % s) + j, k / s)
  }

  /** Bit `j` of destination byte `k`, which holds pixel `(dx, dy)`: the source
      pixel once it has been copied, the destination's own before. */
  function BitAt(dest: Image, src: Image, xo: nat, yo: nat, rows: nat, cols: nat, k: nat, j: nat, dx: nat, dy: nat): bool
    requires WellFormed(dest) && WellFormed(src) && k < |dest.data| && j < 8
  {
    if Copied(dest, src, xo, yo, rows, cols, dx, dy) then RawBit(src, dx - xo, dy - yo)
    else Bits.BitOf(dest.data[k], j)
  }

  /** The destination once the pixels counted by `Copied` have been overwritten. */
  function PartialBlit(dest: Image, src: Image, xo: nat, yo: nat, rows: nat, cols: nat): (r: Image)
    requires WellFormed(dest) && WellFormed(src)
    ensures r.width == dest.width && r.height == dest.height && WellFormed(r)
  {
    dest.(data := seq(|dest.data|, k requires 0 <= k < |dest.data| =>
      Bits.ByteOf(seq(8, j requires 0 <= j < 8 => BlitBit(dest, src, xo, yo, rows, cols, k, j)))))
  }

  /** `blit_image(src, xo, yo)`: every source pixel that lands inside the
      destination overwrites the pixel under it; nothing else changes. */
  function Blit(dest: Image, src: Image, xo: u16, yo: u16): (r: Image)
    requires BlitArgs(dest, src, xo, yo)
    ensures WellFormed(r) && r.width == dest.width && r.height == dest.height
  {
    PartialBlit(dest, src, xo, yo, src.height, 0)
  }

  /** The bit at `(dx, dy)` part way through a blit: the source pixel if it has been
      copied there, otherwise the destination's own. */
  lemma PartialBlitAt(dest: Image, src: Image, xo: nat, yo: nat, rows: nat, cols: nat, dx: nat, dy: nat)
    requires WellFormed(dest) && WellFormed(src)
    requires dx < 8 * Stride(dest.width) && dy < dest.height
    ensures RawBit(PartialBlit(dest, src, xo, yo, rows, cols), dx, dy)
         == if Copied(dest, src, xo, yo, rows, cols, dx, dy) then RawBit(src, dx - xo, dy - yo)
            else RawBit(dest, dx, dy)
  {
    var s := Stride(dest.width);
    RowMajorBound(dy, dx / 8, s, dest.height);
    RowMajorSplit(dy, dx / 8, s);
    var k := dy * s + dx / 8;
    PartialBlitBit(dest, src, xo, yo, rows, cols, k, dx % 8);
    BlitBitAt(dest, src, xo, yo, rows, cols, dx, dy, k);
    assert RawBit(PartialBlit(dest, src, xo, yo, rows, cols), dx, dy)
        == Bits.BitOf(PartialBlit(dest, src, xo, yo, rows, cols).data[k], dx % 8);
  }

  /** The bit `BlitBit` computes for the byte and bit of pixel `(dx, dy)`. */
  lemma BlitBitAt(dest: Image, src: Image, xo: nat, yo: nat, rows: nat, cols: nat, dx: nat, dy: nat, k: nat)
    requires WellFormed(dest) && WellFormed(src)
    requires dx < 8 * Stride(dest.width) && dy < dest.height
    requires k == dy * Stride(dest.width) + dx / 8 && k < |dest.data|
    ensures BlitBit(dest, src, xo, yo, rows, cols, k, dx % 8)
         == if Copied(dest, src, xo, yo, rows, cols, dx, dy) then RawBit(src, dx - xo, dy - yo)
            else RawBit(dest, dx, dy)
  {
    var s := Stride(dest.width);
    RowMajorSplit(dy, dx / 8, s);
    assert k / s == dy && 8 * (k % s) + dx % 8 == dx;
  }

  /** Overwrite: each source pixel that lands inside the destination is copied,
      whatever was there before. */
  lemma BlitOverwrites(dest: Image, src: Image, xo: u16, yo: u16, x: nat, y: nat)
    requires BlitArgs(dest, src, xo, yo)
    requires x < src.width && y < src.height && xo + x < dest.width && yo + y < dest.height
    ensures Pixel(Blit(dest, src, xo, yo), xo + x, yo + y) == Pixel(src, x, y)
    ensures RawBit(Blit(dest, src, xo, yo), xo + x, yo + y) == Pixel(src, x, y)
  {
    PartialBlitAt(dest, src, xo, yo, src.height, 0, xo + x, yo + y);
  }

  /** Clipping and framing: a destination bit that no in-range source pixel lands
      on, including every padding bit, keeps its value. */
  lemma BlitKeepsUncovered(dest: Image, src: Image, xo: u16, yo: u16, dx: nat, dy: nat)
    requires BlitArgs(dest, src, xo, yo)
    requires dx < 8 * Stride(dest.width) && dy < dest.height
    requires dx >= dest.width || !(xo <= dx < xo + src.width && yo <= dy < yo + src.height)
    ensures RawBit(Blit(dest, src, xo, yo), dx, dy) == RawBit(dest, dx, dy)
  {
    PartialBlitAt(dest, src, xo, yo, src.height, 0, dx, dy);
  }

  /** Two stages of a blit that have copied the same pixels have the same data. */
  lemma SameCopiedSameImage(dest: Image, src: Image, xo: nat, yo: nat, r1: nat, c1: nat, r2: nat, c2: nat)
    requires WellFormed(dest) && WellFormed(src)
    requires forall dx, dy :: Copied(dest, src, xo, yo, r1, c1, dx, dy) == Copied(dest, src, xo, yo, r2, c2, dx, dy)
    ensures PartialBlit(dest, src, xo, yo, r1, c1) == PartialBlit(dest, src, xo, yo, r2, c2)
  {
    var a := PartialBlit(dest, src, xo, yo, r1, c1);
    var b := PartialBlit(dest, src, xo, yo, r2, c2);
    forall k | 0 <= k < |dest.data| ensures a.data[k] == b.data[k] {
      var ba := seq(8, j requires 0 <= j < 8 => BlitBit(dest, src, xo, yo, r1, c1, k, j));
      var bb := seq(8, j requires 0 <= j < 8 => BlitBit(dest, src, xo, yo, r2, c2, k, j));
      assert ba == bb;
    }
  }

  /** Before any pixel is copied the destination is untouched. */
  lemma PartialBlitStart(dest: Image, src: Image, xo: nat, yo: nat)
    requires WellFormed(dest) && WellFormed(src)
    ensures PartialBlit(dest, src, xo, yo, 0, 0) == dest
  {
    var a := PartialBlit(dest, src, xo, yo, 0, 0);
    forall k | 0 <= k < |dest.data| ensures a.data[k] == dest.data[k] {
      var bits := seq(8, j requires 0 <= j < 8 => BlitBit(dest, src, xo, yo, 0, 0, k, j));
      assert bits == Bits.BitsOf(dest.data[k]);
      Bits.ByteOfBitsOf(dest.data[k]);
    }
  }

  /** The bits of a partially blitted byte are the `BlitBit`s it was packed from. */
  lemma PartialBlitBit(dest: Image, src: Image, xo: nat, yo: nat, rows: nat, cols: nat, k: nat, j: nat)
    requires WellFormed(dest) && WellFormed(src) && k < |dest.data| && j < 8
    ensures Bits.BitOf(PartialBlit(dest, src, xo, yo, rows, cols).data[k], j)
         == BlitBit(dest, src, xo, yo, rows, cols, k, j)
  {
  }

  /** Byte `k`, bit `j` addresses pixel `(8 * (k % s) + j, k / s)`, and back. */
  lemma AddressRoundTrip(k: nat, s: nat, j: nat)
    requires s > 0 && j < 8
    ensures (8 * (k % s) + j) / 8 == k % s && (8 * (k % s) + j) % 8 == j
    ensures k == (k / s) * s + (8 * (k % s) + j) / 8
  {
  }

  /** Copying source pixel `(x, y)` changes only the bit of the pixel it lands on. */
  lemma BlitBitStep(dest: Image, src: Image, xo: nat, yo: nat, x: nat, y: nat, k: nat, j: nat)
    requires WellFormed(dest) && WellFormed(src)
    requires x < src.width && y < src.height && xo + x < dest.width && yo + y < dest.height
    requires k < |dest.data| && j < 8
    ensures var idx := Address(Stride(dest.width), xo + x, yo + y);
            BlitBit(dest, src, xo, yo, y, x + 1, k, j)
              == if k == idx && j == (xo + x) % 8 then RawBit(src, x, y)
                 else BlitBit(dest, src, xo, yo, y, x, k, j)
  {
    var s := Stride(dest.width);
    var dx0, dy0 := xo + x, yo + y;
    var idx := Address(s, dx0, dy0);
    var dy := k / s;
    var dx := 8 * (k % s) + j;
    AddressRoundTrip(k, s, j);
    if k == idx && j == dx0 % 8 {
      RowMajorSplit(dy0, dx0 / 8, s);
      assert dy == dy0 && dx == dx0;
    } else {
      assert dx != dx0 || dy != dy0;
    }
  }

  /** Bit `j` of byte `k` after copying source pixel `(x, y)`. */
  lemma PartialBlitStepBit(dest: Image, src: Image, xo: nat, yo: nat, x: nat, y: nat, k: nat, j: nat)
    requires WellFormed(dest) && WellFormed(src)
    requires x < src.width && y < src.height && xo + x < dest.width && yo + y < dest.height
    requires k < |dest.data| && j < 8
    ensures var idx := Address(Stride(dest.width), xo + x, yo + y);
            Bits.BitOf(PartialBlit(dest, src, xo, yo, y, x + 1).data[k], j)
              == if k == idx && j == (xo + x) % 8 then RawBit(src, x, y)
                 else Bits.BitOf(PartialBlit(dest, src, xo, yo, y, x).data[k], j)
  {
    PartialBlitBit(dest, src, xo, yo, y, x + 1, k, j);
    PartialBlitBit(dest, src, xo, yo, y, x, k, j);
    BlitBitStep(dest, src, xo, yo, x, y, k, j);
  }

  /** Byte `k` after copying source pixel `(x, y)`: the pixel's bit written into
      its own byte, every other byte as it was. */
  lemma PartialBlitStepByte(dest: Image, src: Image, xo: nat, yo: nat, x: nat, y: nat, k: nat)
    requires WellFormed(dest) && WellFormed(src)
    requires x < src.width && y < src.height && xo + x < dest.width && yo + y < dest.height
    requires k < |dest.data|
    ensures var idx := Address(Stride(dest.width), xo + x, yo + y);
            var before := PartialBlit(dest, src, xo, yo, y, x).data;
            var after := PartialBlit(dest, src, xo, yo, y, x + 1).data;
            after[k] == if k == idx then Bits.SetBit(before[k], (xo + x) % 8, RawBit(src, x, y)) else before[k]
  {
    var idx := Address(Stride(dest.width), xo + x, yo + y);
    var j0 := (xo + x) % 8;
    var b := PartialBlit(dest, src, xo, yo, y, x).data[k];
    var a := PartialBlit(dest, src, xo, yo, y, x + 1).data[k];
    var expected := if k == idx then Bits.SetBit(b, j0, RawBit(src, x, y)) else b;
    forall j | 0 <= j < 8 ensures Bits.BitOf(a, j) == Bits.BitOf(expected, j) {
      PartialBlitStepBit(dest, src, xo, yo, x, y, k, j);
    }
    Bits.BitsDetermineByte(a, expected);
  }

  /** Copying source pixel `(x, y)` changes exactly one bit of one byte. */
  lemma PartialBlitStep(dest: Image, src: Image, xo: nat, yo: nat, x: nat, y: nat)
    requires WellFormed(dest) && WellFormed(src)
    requires x < src.width && y < src.height && xo + x < dest.width && yo + y < dest.height
    ensures var idx := Address(Stride(dest.width), xo + x, yo + y);
            var before := PartialBlit(dest, src, xo, yo, y, x).data;
            idx < |before| &&
            PartialBlit(dest, src, xo, yo, y, x + 1).data
              == before[idx := Bits.SetBit(before[idx], (xo + x) % 8, RawBit(src, x, y))]
  {
    var s := Stride(dest.width);
    RowMajorBound(yo + y, (xo + x) / 8, s, dest.height);
    var idx := Address(s, xo + x, yo + y);
    var before := PartialBlit(dest, src, xo, yo, y, x).data;
    var after := PartialBlit(dest, src, xo, yo, y, x + 1).data;
    var expected := before[idx := Bits.SetBit(before[idx], (xo + x) % 8, RawBit(src, x, y))];
    forall k | 0 <= k < |after| ensures after[k] == expected[k] {
      PartialBlitStepByte(dest, src, xo, yo, x, y, k);
    }
  }

  /** A source pixel that lands right of the destination copies nothing. */
  lemma ClippedColumn(dest: Image, src: Image, xo: nat, yo: nat, x: nat, y: nat)
    requires WellFormed(dest) && WellFormed(src) && xo + x >= dest.width
    ensures PartialBlit(dest, src, xo, yo, y, x + 1) == PartialBlit(dest, src, xo, yo, y, x)
  {
    SameCopiedSameImage(dest, src, xo, yo, y, x + 1, y, x);
  }

  /** A source row that lands below the destination copies nothing. */
  lemma ClippedRow(dest: Image, src: Image, xo: nat, yo: nat, y: nat)
    requires WellFormed(dest) && WellFormed(src) && yo + y >= dest.height
    ensures PartialBlit(dest, src, xo, yo, y + 1, 0) == PartialBlit(dest, src, xo, yo, y, 0)
  {
    SameCopiedSameImage(dest, src, xo, yo, y + 1, 0, y, 0);
  }

  /** Finishing a row is starting the next one. */
  lemma RowFinished(dest: Image, src: Image, xo: nat, yo: nat, y: nat)
    requires WellFormed(dest) && WellFormed(src)
    ensures PartialBlit(dest, src, xo, yo, y + 1, 0) == PartialBlit(dest, src, xo, yo, y, src.width)
  {
    SameCopiedSameImage(dest, src, xo, yo, y + 1, 0, y, src.width);
  }

  /** Writing the copied bit into the partially blitted bytes is the next step of the copy. */
  lemma WrittenPixel(dest: Image, src: Image, xo: nat, yo: nat, x: nat, y: nat, data: seq<bv8>, idx: nat, written: bv8)
    requires WellFormed(dest) && WellFormed(src)
    requires x < src.width && y < src.height && xo + x < dest.width && yo + y < dest.height
    requires data == PartialBlit(dest, src, xo, yo, y, x).data
    requires idx == Address(Stride(dest.width), xo + x, yo + y)
    requires idx < |data| && written == Bits.SetBit(data[idx], (xo + x) % 8, RawBit(src, x, y))
    ensures data[idx := written] == PartialBlit(dest, src, xo, yo, y, x + 1).data
  {
    PartialBlitStep(dest, src, xo, yo, x, y);
  }

  /** The body of `blit_image`'s inner loop for one in-range source pixel: test
      the source bit, then set or clear the destination bit under it. */
  method CopyPixel(dest: Image, src: Image, xo: u16, yo: u16, x: nat, y: nat, data: seq<bv8>)
    returns (out: seq<bv8>)
    requires BlitArgs(dest, src, xo, yo)
    requires x < src.width && y < src.height && x + xo < dest.width && y + yo < dest.height
    requires data == PartialBlit(dest, src, xo, yo, y, x).data
    ensures out == PartialBlit(dest, src, xo, yo, y, x + 1).data
  {
    var srcStride := (src.width + 7) / 8;
    var destStride := (dest.width + 7) / 8;
    var dx, dy := x + xo, y + yo;
    RowMajorBound(y, x / 8, srcStride, src.height);
    RowMajorBound(dy, dx / 8, destStride, dest.height);
    var srcByte := src.data[Address(srcStride, x, y)];
    var destIdx := Address(destStride, dx, dy);
    var destByte := data[destIdx];
    var written := Bits.CopyBit(srcByte, x % 8, destByte, dx % 8);
    assert destIdx == Address(Stride(dest.width), xo + x, yo + y);
    assert srcByte == src.data[Address(Stride(src.width), x, y)];
    WrittenPixel(dest, src, xo, yo, x, y, data, destIdx, written);
    out := data[destIdx := written];
  }

  /** `blit_image`'s inner loop over one source row that lands inside the destination. */
  method BlitRow(dest: Image, src: Image, xo: u16, yo: u16, y: nat, data: seq<bv8>)
    returns (out: seq<bv8>)
    requires BlitArgs(dest, src, xo, yo)
    requires y < src.height && y + yo < dest.height
    requires data == PartialBlit(dest, src, xo, yo, y, 0).data
    ensures out == PartialBlit(dest, src, xo, yo, y + 1, 0).data
  {
    out := data;
    var x := 0;
    while x < src.width
      invariant 0 <= x <= src.width
      invariant out == PartialBlit(dest, src, xo, yo, y, x).data
    {
      var dx := x + xo;
      if dx < dest.width {
        out := CopyPixel(dest, src, xo, yo, x, y, out);
      } else {
        ClippedColumn(dest, src, xo, yo, x, y);
      }
      x := x + 1;
    }
    RowFinished(dest, src, xo, yo, y);
  }

  /** The imperative `blit_image`: the source's loop over rows, skipping those that
      land below the destination, on a local copy of the destination bytes. */
  method BlitImage(dest: Image, src: Image, xo: u16, yo: u16) returns (r: Image)
    requires BlitArgs(dest, src, xo, yo)
    ensures r == Blit(dest, src, xo, yo)
  {
    var data := dest.data;
    PartialBlitStart(dest, src, xo, yo);
    var y := 0;
    while y < src.height
      invariant 0 <= y <= src.height
      invariant data == PartialBlit(dest, src, xo, yo, y, 0).data
    {
      var dy := y + yo;
      if dy < dest.height {
        data := BlitRow(dest, src, xo, yo, y, data);
      } else {
        ClippedRow(dest, src, xo, yo, y);
      }
      y := y + 1;
    }
    r := dest.(data := data);
  }
}
