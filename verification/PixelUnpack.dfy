/** Unpacking a row-padded guest image into a tight one, against the row stride of OpenGL 1.5. */
module PixelUnpack {
  import opened GlFormats
  import opened HostTypes
  import opened IntegerLaws

  const MAX_UPLOAD_BYTES := 64 * 1024 * 1024

  /** Guest memory, one byte per address. */
  type Memory = uint32 -> byte

  function Alignment(requested: int): nat {
    if requested == 1 || requested == 2 || requested == 4 || requested == 8 then requested else 4
  }

  function PaddedRow(rowBytes: nat, alignment: nat): nat
    requires alignment > 0
  {
    (rowBytes + alignment - 1) / alignment * alignment
  }

  // ----- section 3.6.4 of the OpenGL 1.5 specification ----------------------

  /** The row length k, in elements of s bytes, for n elements per group, l groups and alignment a. */
  function RowElements(n: nat, l: nat, s: nat, a: nat): nat
    requires s > 0 && a > 0
  {
    if s >= a then n * l else a / s * CeilDiv(s * n * l, a)
  }

  lemma WholeMultiple(q: nat, a: nat)
    requires a > 0
    ensures PaddedRow(q * a, a) == q * a
  {
    assert q * a + a - 1 == q * a + (a - 1);
    Remainder(q, a - 1, a);
  }

  lemma WideElements(n: nat, l: nat, k: nat, a: nat)
    requires a > 0
    ensures PaddedRow(k * a * n * l, a) == k * a * (n * l)
  {
    assert k * a * n * l == k * n * l * a;
    WholeMultiple(k * n * l, a);
    assert k * a * (n * l) == k * a * n * l;
  }

  lemma NarrowElements(rows: nat, k: nat, s: nat)
    requires k > 0 && s > 0
    ensures k * s / s == k && rows * (k * s) == s * (k * rows)
  {
    Remainder(k, 0, s);
  }

  /** Rounding the row up to the alignment is the specification's stride in bytes, whether elements are smaller
      than the alignment or not: for the four alignments the one asked for, for any other request the initial 4. */
  lemma StrideMeetsSpecification(n: nat, l: nat, s: nat, requested: int)
    requires s == 1 || s == 2 || s == 4 || s == 8
    ensures requested in {1, 2, 4, 8} ==>
      PaddedRow(s * n * l, Alignment(requested)) == s * RowElements(n, l, s, requested)
    ensures requested !in {1, 2, 4, 8} ==> PaddedRow(s * n * l, Alignment(requested)) == s * RowElements(n, l, s, 4)
  {
    hide PaddedRow, CeilDiv;
    var a := Alignment(requested);
    if s >= a {
      WideElements(n, l, s / a, a);
      assert s == s / a * a;
    } else {
      assert a == a / s * s;
      PaddedIsCeil(s * n * l, a);
      NarrowElements(CeilDiv(s * n * l, a), a / s, s);
    }
  }

  /** A pixel's size is its element size times its number of elements: one 16-bit element in the packed types, and
      a byte for each component, of which there are 1, 3, 4, 1, 2 from ALPHA to LUMINANCE_ALPHA, otherwise. */
  lemma PixelSizeMeetsSpecification(format: uint32, pixelType: uint32)
    ensures pixelType in {0x8033, 0x8034, 0x8363} ==> PixelSize(format, pixelType) == 2 * 1
    ensures pixelType !in {0x8033, 0x8034, 0x8363} && 0x1906 <= format <= 0x190A ==>
      PixelSize(format, pixelType) == 1 * [1, 3, 4, 1, 2][format - 0x1906]
    ensures pixelType !in {0x8033, 0x8034, 0x8363} && !(0x1906 <= format <= 0x190A) ==>
      PixelSize(format, pixelType) == 1 * 4
  {
  }

  lemma PaddedIsCeil(rowBytes: nat, a: nat)
    requires a > 0
    ensures PaddedRow(rowBytes, a) == CeilDiv(rowBytes, a) * a
  {
  }

  // ----- the copy -------------------------------------------------------------

  function Row(memory: Memory, at: nat, n: nat): seq<byte>
    requires at + n <= TWO32
  {
    seq(n, i requires 0 <= i < n => memory(at + i))
  }

  /** The first `rows` rows, one after the other without padding. */
  function TightImage(memory: Memory, base: nat, stride: nat, rowBytes: nat, rows: nat): seq<byte>
    requires rowBytes <= stride && base + stride * rows <= TWO32
  {
    if rows == 0 then []
    else
      RowInside(base, stride, rowBytes, rows - 1, rows);
      TightImage(memory, base, stride, rowBytes, rows - 1) + Row(memory, base + stride * (rows - 1), rowBytes)
  }

  lemma RowInside(base: nat, stride: nat, rowBytes: nat, r: nat, rows: nat)
    requires rowBytes <= stride && r < rows
    ensures base + stride * r + rowBytes <= base + stride * rows
  {
    ProductOrder(rows, r + 1, stride);
    assert stride * rows == rows * stride && stride * r + stride == (r + 1) * stride;
  }

  /** Byte i of row r of the tight image is byte i of row r of the padded one. */
  lemma {:induction false} TightByte(memory: Memory, base: nat, stride: nat, rowBytes: nat, rows: nat, r: nat, i: nat)
    requires rowBytes <= stride && base + stride * rows <= TWO32 && r < rows && i < rowBytes
    ensures |TightImage(memory, base, stride, rowBytes, rows)| == rowBytes * rows
    ensures rowBytes * r + i < rowBytes * rows && base + stride * r + i < TWO32
    ensures TightImage(memory, base, stride, rowBytes, rows)[rowBytes * r + i] == memory(base + stride * r + i)
    decreases rows
  {
    hide TightImage, Row;
    TightLength(memory, base, stride, rowBytes, rows);
    RowInside(0, rowBytes, rowBytes, r, rows);
    RowInside(base, stride, rowBytes, r, rows);
    LastRow(memory, base, stride, rowBytes, rows);
    if r < rows - 1 {
      TightByte(memory, base, stride, rowBytes, rows - 1, r, i);
    } else {
      RowByte(memory, base + stride * r, rowBytes, i);
    }
  }

  lemma LastRow(memory: Memory, base: nat, stride: nat, rowBytes: nat, rows: nat)
    requires rowBytes <= stride && base + stride * rows <= TWO32 && rows > 0
    ensures base + stride * (rows - 1) + rowBytes <= TWO32
    ensures |TightImage(memory, base, stride, rowBytes, rows - 1)| == rowBytes * (rows - 1)
    ensures TightImage(memory, base, stride, rowBytes, rows)
         == TightImage(memory, base, stride, rowBytes, rows - 1) + Row(memory, base + stride * (rows - 1), rowBytes)
  {
    hide Row;
    RowInside(base, stride, rowBytes, rows - 1, rows);
    TightLength(memory, base, stride, rowBytes, rows - 1);
  }

  lemma RowByte(memory: Memory, at: nat, n: nat, i: nat)
    requires at + n <= TWO32 && i < n
    ensures |Row(memory, at, n)| == n && Row(memory, at, n)[i] == memory(at + i)
  {
  }

  lemma {:induction false} TightLength(memory: Memory, base: nat, stride: nat, rowBytes: nat, rows: nat)
    requires rowBytes <= stride && base + stride * rows <= TWO32
    ensures |TightImage(memory, base, stride, rowBytes, rows)| == rowBytes * rows
    decreases rows
  {
    if rows > 0 {
      RowInside(base, stride, 0, rows - 1, rows);
      TightLength(memory, base, stride, rowBytes, rows - 1);
      assert rowBytes * rows == rowBytes * (rows - 1) + rowBytes;
    }
  }

  lemma PaddedCoversRow(rowBytes: nat, alignment: nat)
    requires alignment > 0
    ensures rowBytes <= PaddedRow(rowBytes, alignment)
  {
    CeilDivBounds(rowBytes, alignment, CeilDiv(rowBytes, alignment));
  }

  method CopyRow(memory: Memory, src: nat, rowBytes: nat, out: array<byte>, dst: nat)
    requires src + rowBytes <= TWO32 && dst + rowBytes <= out.Length
    modifies out
    ensures out[..dst + rowBytes] == old(out[..dst]) + Row(memory, src, rowBytes)
  {
    for i := 0 to rowBytes
      invariant out[..dst] == old(out[..dst])
      invariant out[dst..dst + i] == Row(memory, src, i)
    {
      out[dst + i] := memory(src + i);
      assert out[dst..dst + i + 1] == out[dst..dst + i] + [out[dst + i]];
    }
  }

  /** Copies the rows into their tight places. */
  method CopyRows(memory: Memory, base: uint32, stride: nat, rowBytes: nat, height: nat) returns (out: array<byte>)
    requires rowBytes <= stride && base + stride * height <= TWO32
    ensures fresh(out) && out[..] == TightImage(memory, base, stride, rowBytes, height)
  {
    hide Row, TightImage;
    NoRows(memory, base, stride, rowBytes);
    out := new byte[rowBytes * height];
    for row := 0 to height
      invariant base + stride * row <= TWO32 && rowBytes * row <= rowBytes * height
      invariant out[..rowBytes * row] == TightImage(memory, base, stride, rowBytes, row)
    {
      NextRow(base, stride, row, height);
      NextRow(0, rowBytes, row, height);
      OneMoreRow(memory, base, stride, rowBytes, row);
      var dst := rowBytes * row;
      CopyRow(memory, base + stride * row, rowBytes, out, dst);
    }
    assert out[..] == out[..rowBytes * height];
  }

  lemma NoRows(memory: Memory, base: uint32, stride: nat, rowBytes: nat)
    requires rowBytes <= stride
    ensures stride * 0 == 0 && rowBytes * 0 == 0
    ensures TightImage(memory, base, stride, rowBytes, 0) == []
  {
  }

  lemma OneMoreRow(memory: Memory, base: nat, stride: nat, rowBytes: nat, rows: nat)
    requires rowBytes <= stride && base + stride * (rows + 1) <= TWO32
    ensures base + stride * rows + rowBytes <= TWO32
    ensures TightImage(memory, base, stride, rowBytes, rows + 1)
         == TightImage(memory, base, stride, rowBytes, rows) + Row(memory, base + stride * rows, rowBytes)
  {
    RowInside(base, stride, rowBytes, rows, rows + 1);
  }

  lemma NextRow(base: nat, stride: nat, row: nat, height: nat)
    requires row < height
    ensures stride * (row + 1) == stride * row + stride
    ensures base + stride * (row + 1) <= base + stride * height
  {
    ProductOrder(height, row + 1, stride);
    assert stride * height == height * stride && stride * (row + 1) == (row + 1) * stride;
  }

  /** The 64-bit sums below never wrap, so the model's unbounded ones are theirs. */
  lemma SizesFit(base: uint32, width: int32, height: int32, format: uint32, pixelType: uint32, requested: int)
    requires width > 0 && height > 0
    ensures var rowBytes := width * PixelSize(format, pixelType);
      && rowBytes * height < TWO64
      && base + PaddedRow(rowBytes, Alignment(requested)) * height < TWO64
  {
    var rowBytes := width * PixelSize(format, pixelType);
    var a := Alignment(requested);
    assert rowBytes <= 4 * width;
    BelowProduct(rowBytes + a - 1, 0x2_0000_0000 / a + 1, a);
    var padded := PaddedRow(rowBytes, a);
    assert padded <= 0x2_0000_0000;
    ProductOrder(0x2_0000_0000, padded, height);
    ProductOrder(0x2_0000_0000, rowBytes, height);
  }

  /** Succeeds exactly for a drawable size under the cap whose padded rows fit in memory, and then
      yields the tight image. */
  method CopyGuestPixels(memory: Memory, base: uint32, width: int32, height: int32, format: uint32, pixelType: uint32,
                         unpackAlignment: int)
    returns (ok: bool, out: array<byte>)
    ensures var rowBytes := width * PixelSize(format, pixelType);
      ok <==> width > 0 && height > 0 && rowBytes * height <= 64 * 1024 * 1024
              && base + PaddedRow(rowBytes, Alignment(unpackAlignment)) * height <= TWO32
    ensures fresh(out)
    ensures ok ==>
      var rowBytes := width * PixelSize(format, pixelType);
      var stride := PaddedRow(rowBytes, Alignment(unpackAlignment));
      && rowBytes <= stride && base + stride * height <= TWO32
      && out[..] == TightImage(memory, base, stride, rowBytes, height)
  {
    hide PaddedRow;
    ok, out := false, new byte[0];
    var pixelSize := PixelSize(format, pixelType);
    if pixelSize <= 0 || width <= 0 || height <= 0 {
      return;
    }
    var rowBytes := width * pixelSize;
    var stride := PaddedRow(rowBytes, Alignment(unpackAlignment));
    if rowBytes * height > MAX_UPLOAD_BYTES || base + stride * height > TWO32 {
      return;
    }
    PaddedCoversRow(rowBytes, Alignment(unpackAlignment));
    ok := true;
    out := CopyRows(memory, base, stride, rowBytes, height);
  }
}
