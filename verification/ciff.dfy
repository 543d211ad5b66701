/**
  The CIFF container decoder (`ciff.cifftopng` up to the hand-off to the PNG
  encoder). A CIFF buffer starts with a 36-byte header: a 4-byte magic and four
  8-byte fields (header size, content size, width, height) of which only the
  low four bytes are read, as a little-endian signed 32-bit integer. The
  content is the slice `[headerSize, headerSize + contentSize)`; it holds RGB
  triplets, row by row, which are rebuilt into RGBA pixels with alpha 255.
 */
module Ciff {
  import opened Bytes
  import opened Results

  const HeaderLength: nat := 36

  /** Offsets of the four 8-byte header fields. */
  const HeaderSizeAt: nat := 4
  const ContentSizeAt: nat := 12
  const WidthAt: nat := 20
  const HeightAt: nat := 28

  /** The header as the decoder reads it; `magic` is read but never compared. */
  datatype Header = Header(magic: seq<byte>, headerSize: int, contentSize: int, width: int, height: int)

  datatype Pixel = Pixel(r: byte, g: byte, b: byte, a: byte)

  /** A raster in row-major order: pixel (x, y) is `pixels[RowMajor(width, x, y)]`. */
  datatype Raster = Raster(width: int, height: int, pixels: seq<Pixel>)

  /** The exceptions `cifftopng` can raise before the encoder is reached, in the order it can raise them. */
  datatype DecodeError =
    | TruncatedHeader      // a header `Array.Copy` runs past the end of the buffer
    | NegativeContentSize  // `new byte[c_size]` with a negative size
    | ContentOutOfRange    // the content `Array.Copy` starts before 0 or ends past the buffer
    | PixelDataTooShort    // the pixel loop indexes past the end of the content

  /** The low word of the 8-byte field at `offset`; its high word is never read. */
  function FieldAt(bytes: seq<byte>, offset: nat): (v: int)
    requires offset + 8 <= |bytes|
    ensures IsInt32(v)
  {
    ToInt32(bytes[offset .. offset + 4])
  }

  function ParseHeader(bytes: seq<byte>): Header
    requires |bytes| >= HeaderLength
  {
    Header(bytes[..4], FieldAt(bytes, HeaderSizeAt), FieldAt(bytes, ContentSizeAt),
           FieldAt(bytes, WidthAt), FieldAt(bytes, HeightAt))
  }

  /** How many pixels the nested loops visit: none when either bound is not positive. */
  function PixelCount(width: int, height: int): nat
  {
    if width > 0 && height > 0 then width * height else 0
  }

  function RowMajor(width: int, x: int, y: int): int
  {
    y * width + x
  }

  lemma RowMajorInRange(width: int, height: int, x: int, y: int)
    requires 0 <= x < width && 0 <= y < height
    ensures 0 <= RowMajor(width, x, y) < PixelCount(width, height)
  {
    assert RowMajor(width, x, y) < (y + 1) * width;
    assert (y + 1) * width <= height * width;
  }

  /** The pixel rebuilt from the k-th RGB triplet of the content. */
  function PixelAt(content: seq<byte>, k: nat): Pixel
    requires 3 * k + 3 <= |content|
  {
    Pixel(content[3 * k], content[3 * k + 1], content[3 * k + 2], 255)
  }

  /** The pixels rebuilt from the first `n` triplets of the content. */
  function RgbPixels(content: seq<byte>, n: nat): (ps: seq<Pixel>)
    requires 3 * n <= |content|
    ensures |ps| == n
    ensures forall k :: 0 <= k < n ==> ps[k] == PixelAt(content, k)
  {
    if n == 0 then [] else RgbPixels(content, n - 1) + [PixelAt(content, n - 1)]
  }

  /** The conditions under which `cifftopng` reaches the encoder without raising. */
  predicate Decodable(bytes: seq<byte>)
  {
    && |bytes| >= HeaderLength
    && var h := ParseHeader(bytes);
    && 0 <= h.contentSize
    && 0 <= h.headerSize
    && h.headerSize + h.contentSize <= |bytes|
    && 3 * PixelCount(h.width, h.height) <= h.contentSize
  }

  /** Pixel (x, y) of `img` is the triplet at `base + 3 * (y * width + x)` of `bytes`, made opaque. */
  ghost predicate PixelsFrom(img: Raster, bytes: seq<byte>, base: int)
    requires |img.pixels| == PixelCount(img.width, img.height)
  {
    forall x, y :: 0 <= x < img.width && 0 <= y < img.height ==>
      var k, i := RowMajor(img.width, x, y), base + 3 * RowMajor(img.width, x, y);
      0 <= k < |img.pixels| && 0 <= i && i + 3 <= |bytes| &&
      img.pixels[k] == Pixel(bytes[i], bytes[i + 1], bytes[i + 2], 255)
  }

  function Decode(bytes: seq<byte>): (r: Result<Raster, DecodeError>)
    ensures r.Ok? <==> Decodable(bytes)
    ensures r == Err(TruncatedHeader) <==> |bytes| < HeaderLength
    ensures r == Err(NegativeContentSize) <==> |bytes| >= HeaderLength && ParseHeader(bytes).contentSize < 0
    ensures r == Err(ContentOutOfRange) <==>
      && |bytes| >= HeaderLength
      && var h := ParseHeader(bytes);
      && 0 <= h.contentSize
      && (h.headerSize < 0 || h.headerSize + h.contentSize > |bytes|)
    ensures r == Err(PixelDataTooShort) <==>
      && |bytes| >= HeaderLength
      && var h := ParseHeader(bytes);
      && 0 <= h.contentSize && 0 <= h.headerSize && h.headerSize + h.contentSize <= |bytes|
      && 3 * PixelCount(h.width, h.height) > h.contentSize
    ensures r.Ok? ==>
      var h := ParseHeader(bytes);
      && r.value.width == h.width && r.value.height == h.height
      && |r.value.pixels| == PixelCount(h.width, h.height)
      && (forall k :: 0 <= k < |r.value.pixels| ==> r.value.pixels[k].a == 255)
      && PixelsFrom(r.value, bytes, h.headerSize)
  {
    if |bytes| < HeaderLength then Err(TruncatedHeader)
    else
      var h := ParseHeader(bytes);
      if h.contentSize < 0 then Err(NegativeContentSize)
      else if h.headerSize < 0 || h.headerSize + h.contentSize > |bytes| then Err(ContentOutOfRange)
      else
        var content := bytes[h.headerSize .. h.headerSize + h.contentSize];
        var n := PixelCount(h.width, h.height);
        if 3 * n > |content| then Err(PixelDataTooShort)
        else
          RasterFromContent(bytes, h.headerSize, h.contentSize, h.width, h.height);
          Ok(Raster(h.width, h.height, RgbPixels(content, n)))
  }

  /** The raster rebuilt from a content slice takes pixel (x, y) from its triplet in the whole buffer. */
  lemma RasterFromContent(bytes: seq<byte>, base: nat, len: nat, width: int, height: int)
    requires base + len <= |bytes| && 3 * PixelCount(width, height) <= len
    ensures PixelsFrom(Raster(width, height, RgbPixels(bytes[base .. base + len], PixelCount(width, height))), bytes, base)
  {
    var content := bytes[base .. base + len];
    var img := Raster(width, height, RgbPixels(content, PixelCount(width, height)));
    forall x, y | 0 <= x < width && 0 <= y < height
      ensures var k, i := RowMajor(width, x, y), base + 3 * RowMajor(width, x, y);
        0 <= k < |img.pixels| && 0 <= i && i + 3 <= |bytes| &&
        img.pixels[k] == Pixel(bytes[i], bytes[i + 1], bytes[i + 2], 255)
    {
      RowMajorInRange(width, height, x, y);
    }
  }

  /** Three `content_bytes[index++]` reads: one pixel, or the exception of the first read past the end. */
  method ReadTriplet(content: seq<byte>, index: nat) returns (p: Result<Pixel, DecodeError>, next: nat)
    requires index <= |content|
    ensures p.Ok? <==> index + 3 <= |content|
    ensures p.Ok? ==> next == index + 3
    ensures p.Ok? ==> p.value == Pixel(content[index], content[index + 1], content[index + 2], 255)
    ensures p.Err? ==> p.error == PixelDataTooShort && next == |content|
  {
    next := index;
    var channels: seq<byte> := [];
    while |channels| < 3
      invariant |channels| <= 3
      invariant next == index + |channels| <= |content|
      invariant channels == content[index .. next]
    {
      if next >= |content| {
        return Err(PixelDataTooShort), next;
      }
      channels := channels + [content[next]];
      next := next + 1;
    }
    return Ok(Pixel(channels[0], channels[1], channels[2], 255)), next;
  }

  /**
    The inner loop of `cifftopng` for one row: `cols` triplets read from the
    running content index, which sits at pixel `k` when the row starts.
   */
  method RebuildRow(content: seq<byte>, cols: nat, pixels: seq<Pixel>, index: nat, k: nat)
    returns (r: Result<seq<Pixel>, DecodeError>, next: nat)
    requires index == 3 * k <= |content| && pixels == RgbPixels(content, k)
    ensures r.Ok? <==> 3 * (k + cols) <= |content|
    ensures r.Ok? ==> r.value == RgbPixels(content, k + cols) && next == 3 * (k + cols)
    ensures r.Err? ==> r.error == PixelDataTooShort && next == |content|
  {
    var row := pixels;
    next := index;
    var x := 0;
    while x < cols
      invariant 0 <= x <= cols
      invariant next == 3 * (k + x) <= |content|
      invariant row == RgbPixels(content, k + x)
    {
      var p;
      p, next := ReadTriplet(content, next);
      if p.Err? {
        return Err(PixelDataTooShort), next;
      }
      row := row + [p.value];
      x := x + 1;
    }
    return Ok(row), next;
  }

  /** Rows before `y + 1` hold no more pixels than the whole raster. */
  lemma RowsFit(cols: nat, rows: nat, y: nat)
    requires y < rows
    ensures RowMajor(cols, 0, y) + cols == RowMajor(cols, 0, y + 1) <= rows * cols
  {
    assert (y + 1) * cols <= rows * cols;
  }

  /**
    The nested pixel loop of `cifftopng`: y outer, x inner, one running content
    index with `index == 3 * (y * width + x)` at the head of every iteration.
    `consumed` is how many content bytes were read before the loop finished or
    the first read fell off the end.
   */
  method RebuildPixels(content: seq<byte>, width: int, height: int)
    returns (r: Result<seq<Pixel>, DecodeError>, consumed: nat)
    ensures r.Ok? <==> 3 * PixelCount(width, height) <= |content|
    ensures r.Ok? ==> r.value == RgbPixels(content, PixelCount(width, height))
    ensures r.Ok? ==> consumed == 3 * PixelCount(width, height)
    ensures r.Err? ==> r.error == PixelDataTooShort && consumed == |content|
  {
    var cols: nat := if width > 0 then width else 0;
    var rows: nat := if height > 0 then height else 0;
    ghost var n := PixelCount(width, height);
    assert n == rows * cols;
    var pixels: seq<Pixel> := [];
    var index := 0;
    var y := 0;
    while y < height
      invariant 0 <= y <= rows
      invariant index == 3 * RowMajor(cols, 0, y) <= |content|
      invariant pixels == RgbPixels(content, RowMajor(cols, 0, y))
    {
      RowsFit(cols, rows, y);
      var row;
      row, index := RebuildRow(content, cols, pixels, index, RowMajor(cols, 0, y));
      if row.Err? {
        return Err(PixelDataTooShort), index;
      }
      pixels := row.value;
      y := y + 1;
    }
    return Ok(pixels), index;
  }

  /** `cifftopng` from its byte buffer to the raster it hands to the encoder. */
  method Cifftopng(bytes: seq<byte>) returns (r: Result<Raster, DecodeError>)
    ensures r == Decode(bytes)
  {
    if |bytes| < HeaderLength {
      return Err(TruncatedHeader);
    }
    var h := ParseHeader(bytes);
    if h.contentSize < 0 {
      return Err(NegativeContentSize);
    }
    if h.headerSize < 0 || h.headerSize + h.contentSize > |bytes| {
      return Err(ContentOutOfRange);
    }
    var content := bytes[h.headerSize .. h.headerSize + h.contentSize];
    var pixels, _ := RebuildPixels(content, h.width, h.height);
    match pixels
    case Ok(ps) => return Ok(Raster(h.width, h.height, ps));
    case Err(e) => return Err(e);
  }

  /** Rasters a CIFF writer can express: 32-bit dimensions, a content size that fits a 32-bit field, opaque pixels. */
  predicate Encodable(img: Raster)
  {
    && IsInt32(img.width)
    && IsInt32(img.height)
    && |img.pixels| == PixelCount(img.width, img.height)
    && 3 * |img.pixels| < Two31
    && forall k :: 0 <= k < |img.pixels| ==> img.pixels[k].a == 255
  }

  /** The RGB triplets of the pixels, alpha dropped. */
  function RgbBytes(ps: seq<Pixel>): (s: seq<byte>)
    ensures |s| == 3 * |ps|
  {
    if |ps| == 0 then []
    else
      var last := ps[|ps| - 1];
      RgbBytes(ps[..|ps| - 1]) + [last.r, last.g, last.b]
  }

  /** An 8-byte header field holding `v` in its low word. */
  function Field(v: int): (s: seq<byte>)
    requires IsInt32(v)
    ensures |s| == 8
  {
    FromInt32(v) + [0, 0, 0, 0]
  }

  /** A CIFF buffer whose content follows the header directly. */
  function Encode(magic: seq<byte>, img: Raster): (bytes: seq<byte>)
    requires |magic| == 4 && Encodable(img)
    ensures |bytes| == HeaderLength + 3 * |img.pixels|
    ensures bytes[..4] == magic
  {
    magic + Field(HeaderLength) + Field(3 * |img.pixels|) + Field(img.width) + Field(img.height)
      + RgbBytes(img.pixels)
  }

  lemma {:induction false} RgbRoundTrip(ps: seq<Pixel>)
    requires forall k :: 0 <= k < |ps| ==> ps[k].a == 255
    ensures RgbPixels(RgbBytes(ps), |ps|) == ps
  {
    if |ps| > 0 {
      var init := ps[..|ps| - 1];
      RgbRoundTrip(init);
      var s := RgbBytes(ps);
      assert s[..3 * |init|] == RgbBytes(init);
      RgbPixelsPrefix(s, 3 * |init|, |init|);
    }
  }

  /** Pixels rebuilt from a prefix of the content are those rebuilt from the whole. */
  lemma RgbPixelsPrefix(content: seq<byte>, len: nat, n: nat)
    requires 3 * n <= len <= |content|
    ensures RgbPixels(content[..len], n) == RgbPixels(content, n)
  {
    var a, b := RgbPixels(content[..len], n), RgbPixels(content, n);
    assert forall k :: 0 <= k < n ==> a[k] == b[k];
  }

  /** Decoding inverts encoding: every expressible raster comes back unchanged. */
  lemma DecodeEncode(magic: seq<byte>, img: Raster)
    requires |magic| == 4 && Encodable(img)
    ensures Decode(Encode(magic, img)) == Ok(img)
  {
    EncodedHeader(magic, img);
    DecodeLayout(Encode(magic, img), img);
  }

  /** A buffer laid out as header then triplets decodes to the raster the triplets came from. */
  lemma DecodeLayout(bytes: seq<byte>, img: Raster)
    requires Encodable(img) && |bytes| == HeaderLength + 3 * |img.pixels|
    requires ParseHeader(bytes) == Header(bytes[..4], HeaderLength, 3 * |img.pixels|, img.width, img.height)
    requires bytes[HeaderLength..] == RgbBytes(img.pixels)
    ensures Decode(bytes) == Ok(img)
  {
    var n := |img.pixels|;
    assert Decodable(bytes);
    assert bytes[HeaderLength .. HeaderLength + 3 * n] == RgbBytes(img.pixels) by {
      assert bytes[HeaderLength .. HeaderLength + 3 * n] == bytes[HeaderLength..];
    }
    RgbRoundTrip(img.pixels);
    DecodeAccepts(bytes);
  }

  /** A decodable buffer decodes to the pixels rebuilt from its content slice. */
  lemma DecodeAccepts(bytes: seq<byte>)
    requires Decodable(bytes)
    ensures var h := ParseHeader(bytes);
      Decode(bytes) == Ok(Raster(h.width, h.height,
        RgbPixels(bytes[h.headerSize .. h.headerSize + h.contentSize], PixelCount(h.width, h.height))))
  {
  }

  /** The header of an encoded raster reads back as the values written into it. */
  lemma EncodedHeader(magic: seq<byte>, img: Raster)
    requires |magic| == 4 && Encodable(img)
    ensures ParseHeader(Encode(magic, img)) == Header(magic, HeaderLength, 3 * |img.pixels|, img.width, img.height)
    ensures Encode(magic, img)[HeaderLength..] == RgbBytes(img.pixels)
  {
    var f1, f2, f3, f4 := Field(HeaderLength), Field(3 * |img.pixels|), Field(img.width), Field(img.height);
    HeaderPieces(magic, f1, f2, f3, f4, RgbBytes(img.pixels));
    FieldReadsBack(HeaderLength);
    FieldReadsBack(3 * |img.pixels|);
    FieldReadsBack(img.width);
    FieldReadsBack(img.height);
  }

  /** The low word of a written field reads back as its value. */
  lemma FieldReadsBack(v: int)
    requires IsInt32(v)
    ensures ToInt32(Field(v)[..4]) == v
  {
    assert Field(v)[..4] == FromInt32(v);
    Int32RoundTrip(v);
  }

  /** Where the magic, the four fields and the content of a header-then-content buffer sit. */
  lemma HeaderPieces(m: seq<byte>, f1: seq<byte>, f2: seq<byte>, f3: seq<byte>, f4: seq<byte>, rest: seq<byte>)
    requires |m| == 4 && |f1| == 8 && |f2| == 8 && |f3| == 8 && |f4| == 8
    ensures var s := m + f1 + f2 + f3 + f4 + rest;
      && s[..4] == m
      && s[HeaderSizeAt .. HeaderSizeAt + 4] == f1[..4]
      && s[ContentSizeAt .. ContentSizeAt + 4] == f2[..4]
      && s[WidthAt .. WidthAt + 4] == f3[..4]
      && s[HeightAt .. HeightAt + 4] == f4[..4]
      && s[HeaderLength..] == rest
  {
    var s := m + f1 + f2 + f3 + f4 + rest;
    assert forall i :: 0 <= i < 4 ==> s[..4][i] == m[i];
    assert forall i :: 0 <= i < 4 ==> s[HeaderSizeAt .. HeaderSizeAt + 4][i] == f1[i];
    assert forall i :: 0 <= i < 4 ==> s[ContentSizeAt .. ContentSizeAt + 4][i] == f2[i];
    assert forall i :: 0 <= i < 4 ==> s[WidthAt .. WidthAt + 4][i] == f3[i];
    assert forall i :: 0 <= i < 4 ==> s[HeightAt .. HeightAt + 4][i] == f4[i];
    assert forall i :: 0 <= i < |rest| ==> s[HeaderLength..][i] == rest[i];
  }

  /** Every decoded raster can be written back, and the re-encoded buffer decodes to it again. */
  lemma DecodedReencodes(bytes: seq<byte>)
    requires Decode(bytes).Ok?
    ensures Encodable(Decode(bytes).value)
    ensures Decode(Encode(bytes[..4], Decode(bytes).value)) == Decode(bytes)
  {
    DecodeEncode(bytes[..4], Decode(bytes).value);
  }

  /** Content bytes past the last triplet the pixels use have no effect on the raster. */
  lemma ContentPastPixelsIgnored(a: seq<byte>, b: seq<byte>)
    requires Decodable(a) && Decodable(b)
    requires var ha, hb := ParseHeader(a), ParseHeader(b);
      ha.headerSize == hb.headerSize && ha.width == hb.width && ha.height == hb.height
    requires var h := ParseHeader(a);
      var end := h.headerSize + 3 * PixelCount(h.width, h.height);
      a[h.headerSize .. end] == b[h.headerSize .. end]
    ensures Decode(a) == Decode(b)
  {
    DecodeUsesPixelBytes(a);
    DecodeUsesPixelBytes(b);
  }

  /** A decodable buffer's raster is rebuilt from the triplets the pixels need, nothing more. */
  lemma DecodeUsesPixelBytes(bytes: seq<byte>)
    requires Decodable(bytes)
    ensures var h := ParseHeader(bytes);
      var n := PixelCount(h.width, h.height);
      Decode(bytes) == Ok(Raster(h.width, h.height, RgbPixels(bytes[h.headerSize .. h.headerSize + 3 * n], n)))
  {
    var h := ParseHeader(bytes);
    var n := PixelCount(h.width, h.height);
    var content := bytes[h.headerSize .. h.headerSize + h.contentSize];
    SliceOfSlice(bytes, h.headerSize, h.headerSize + h.contentSize, 3 * n);
    RgbPixelsPrefix(content, 3 * n, n);
    DecodeAccepts(bytes);
  }

  /**
    Only the low words of the four fields and the bytes after the header matter
    when the content lies past the header: the magic (bytes 0..3) and the high
    words (8..11, 16..19, 24..27, 32..35) have no effect.
   */
  lemma OnlyLowWordsMatter(a: seq<byte>, b: seq<byte>)
    requires |a| == |b| >= HeaderLength
    requires a[4..8] == b[4..8] && a[12..16] == b[12..16]
    requires a[20..24] == b[20..24] && a[28..32] == b[28..32]
    requires a[HeaderLength..] == b[HeaderLength..]
    requires FieldAt(a, HeaderSizeAt) >= HeaderLength
    ensures Decode(a) == Decode(b)
  {
    var ha, hb := ParseHeader(a), ParseHeader(b);
    assert ha.headerSize == hb.headerSize && ha.contentSize == hb.contentSize;
    assert ha.width == hb.width && ha.height == hb.height;
    if Decodable(a) {
      var lo, hi := ha.headerSize, ha.headerSize + ha.contentSize;
      SliceOfSuffix(a, HeaderLength, lo, hi);
      SliceOfSuffix(b, HeaderLength, lo, hi);
      DecodeAccepts(a);
      DecodeAccepts(b);
    }
  }
}
