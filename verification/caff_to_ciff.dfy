/**
  The CAFF to CIFF block extractor (`generateCiff` of the native transcoder,
  without its file streams). The stream is read as packed records: a 9-byte
  block preamble (1-byte type, 8-byte size) that is consumed unchecked, a
  20-byte header (4-byte magic, two 8-byte fields) whose magic must be "CAFF",
  then 9-byte block headers. Type-0x2 blocks are skipped, the payload of the
  first type-0x3 block (after an 8-byte skip) is written out and the scan
  stops; any other type, or a block header cut short by the end of the input,
  stops the scan with nothing written.
 */
module CaffToCiff {
  import opened Bytes
  import opened Results

  const BlockMetaLength: nat := 9    // packed `CaffBlock`: blockType, blockSize
  const CaffHeaderLength: nat := 20  // packed `CaffHeader`: magic, h_size, count
  const MagicOffset: nat := 9
  const ScanStart: nat := 29         // BlockMetaLength + CaffHeaderLength
  const AnimationSkip: nat := 8      // bytes skipped at the start of a 0x3 block

  const CredentialsBlock: byte := 0x2
  const AnimationBlock: byte := 0x3

  /** Why the extractor stopped without writing anything (its diagnostics on standard error). */
  datatype Halt =
    | HeaderUnreadable              // the preamble or the 20-byte header could not be read in full
    | WrongFormat                   // the header magic is not "CAFF"
    | MetadataUnreadable            // a block header could not be read: the end of the input was reached
    | InvalidBlockType(blockType: byte)

  /** What the extractor writes to the CIFF output. */
  datatype Extraction =
    | Emitted(ciff: seq<byte>)      // the payload of the first animation block, verbatim
    | NothingWritten(halt: Halt)
    | UndefinedRead                 // `copy_n` would read past the end of the input (or `blockSize - 8` wraps)

  /** A block header: type byte and the packed 64-bit size that follows it. */
  datatype BlockMeta = BlockMeta(blockType: byte, blockSize: nat)

  function MetaAt(bytes: seq<byte>, pos: nat): (m: BlockMeta)
    requires pos + BlockMetaLength <= |bytes|
    ensures m.blockSize < Two64
  {
    BlockMeta(bytes[pos], ToUInt64(bytes[pos + 1 .. pos + BlockMetaLength]))
  }

  /** `out` occurs in `bytes` starting at `p`. */
  predicate SliceAt(bytes: seq<byte>, p: int, out: seq<byte>)
  {
    0 <= p && p + |out| <= |bytes| && bytes[p .. p + |out|] == out
  }

  /**
    The 0x3 case: skip 8 bytes after the block header at `pos`, then copy
    `blockSize - 8` bytes. Copying past the end of the input, or a size below 8
    (whose `blockSize - 8` wraps around), is undefined in the source.
   */
  function CopyAnimation(bytes: seq<byte>, pos: nat, blockSize: nat): (r: Extraction)
    ensures r.Emitted? ==> |r.ciff| == blockSize - AnimationSkip
    ensures r.Emitted? && r.ciff != [] ==> SliceAt(bytes, pos + BlockMetaLength + AnimationSkip, r.ciff)
    ensures r.Emitted? || r.UndefinedRead?
    ensures r.UndefinedRead? <==>
      blockSize < AnimationSkip || (blockSize > AnimationSkip && pos + BlockMetaLength + blockSize > |bytes|)
  {
    var from := pos + BlockMetaLength + AnimationSkip;
    if blockSize < AnimationSkip then UndefinedRead
    else if blockSize == AnimationSkip then Emitted([])
    else if from + (blockSize - AnimationSkip) > |bytes| then UndefinedRead
    else Emitted(bytes[from .. from + (blockSize - AnimationSkip)])
  }

  /**
    The block loop, from the block header at `pos`, skipping type-0x2 blocks
    forward by their unsigned size. `ScanAsWritten` is the loop with the signed
    seek of the source; `AsWrittenAgrees` relates the two below 2^63.
   */
  function Scan(bytes: seq<byte>, pos: nat): (r: Extraction)
    ensures r.Emitted? && r.ciff != [] ==>
      exists p :: p >= pos + BlockMetaLength + AnimationSkip && SliceAt(bytes, p, r.ciff)
    ensures r.NothingWritten? ==> r.halt.MetadataUnreadable? || r.halt.InvalidBlockType?
    decreases |bytes| - pos
  {
    if pos + BlockMetaLength > |bytes| then NothingWritten(MetadataUnreadable)
    else
      var meta := MetaAt(bytes, pos);
      if meta.blockType == CredentialsBlock then
        var next := pos + BlockMetaLength + meta.blockSize;
        if next >= |bytes| then NothingWritten(MetadataUnreadable)
        else Scan(bytes, next)
      else if meta.blockType == AnimationBlock then CopyAnimation(bytes, pos, meta.blockSize)
      else NothingWritten(InvalidBlockType(meta.blockType))
  }

  /** `generateCiff` with the unsigned skip: what it writes to the CIFF output for the CAFF input `bytes`. */
  function Extract(bytes: seq<byte>): (r: Extraction)
    ensures r.Emitted? ==> |bytes| >= ScanStart && bytes[MagicOffset .. MagicOffset + 4] == CaffMagic
    ensures r.Emitted? && r.ciff != [] ==> exists p :: p >= ScanStart && SliceAt(bytes, p, r.ciff)
    ensures r == NothingWritten(HeaderUnreadable) <==> |bytes| < ScanStart
    ensures r == NothingWritten(WrongFormat) <==>
      |bytes| >= ScanStart && bytes[MagicOffset .. MagicOffset + 4] != CaffMagic
  {
    if |bytes| < ScanStart then NothingWritten(HeaderUnreadable)
    else if bytes[MagicOffset .. MagicOffset + 4] != CaffMagic then NothingWritten(WrongFormat)
    else Scan(bytes, ScanStart)
  }

  /** With the unsigned skip, scanning from `pos` looks at nothing before `start`. */
  lemma {:induction false} ScanReadsOnlyFrom(a: seq<byte>, b: seq<byte>, start: nat, pos: nat)
    requires |a| == |b| && start <= |a| && a[start..] == b[start..]
    requires start <= pos
    ensures Scan(a, pos) == Scan(b, pos)
    decreases |a| - pos
  {
    if pos + BlockMetaLength <= |a| {
      MetaReadsOnlyFrom(a, b, start, pos);
      var meta := MetaAt(a, pos);
      var next := pos + BlockMetaLength + meta.blockSize;
      if meta.blockType == CredentialsBlock && next < |a| {
        ScanReadsOnlyFrom(a, b, start, next);
        ScanSkipStep(a, pos);
        ScanSkipStep(b, pos);
      } else if meta.blockType == AnimationBlock {
        CopyReadsOnlyFrom(a, b, start, pos, meta.blockSize);
        ScanAnimationStep(a, pos);
        ScanAnimationStep(b, pos);
      }
    }
  }

  /** At a 0x3 block header the scan ends with the copy of its payload. */
  lemma ScanAnimationStep(bytes: seq<byte>, pos: nat)
    requires pos + BlockMetaLength <= |bytes| && MetaAt(bytes, pos).blockType == AnimationBlock
    ensures Scan(bytes, pos) == CopyAnimation(bytes, pos, MetaAt(bytes, pos).blockSize)
  {
  }

  /** A block header read at or after `start` looks at nothing before it. */
  lemma MetaReadsOnlyFrom(a: seq<byte>, b: seq<byte>, start: nat, pos: nat)
    requires |a| == |b| && start <= |a| && a[start..] == b[start..]
    requires start <= pos && pos + BlockMetaLength <= |a|
    ensures MetaAt(a, pos) == MetaAt(b, pos)
  {
    SliceOfSuffix(a, start, pos, pos + BlockMetaLength);
    SliceOfSuffix(b, start, pos, pos + BlockMetaLength);
    SliceOfSuffix(a, start, pos + 1, pos + BlockMetaLength);
    SliceOfSuffix(b, start, pos + 1, pos + BlockMetaLength);
  }

  /** Copying an animation payload whose header sits at or after `start` looks at nothing before it. */
  lemma CopyReadsOnlyFrom(a: seq<byte>, b: seq<byte>, start: nat, pos: nat, blockSize: nat)
    requires |a| == |b| && start <= |a| && a[start..] == b[start..]
    requires start <= pos
    ensures CopyAnimation(a, pos, blockSize) == CopyAnimation(b, pos, blockSize)
  {
    var from := pos + BlockMetaLength + AnimationSkip;
    if blockSize > AnimationSkip && from + (blockSize - AnimationSkip) <= |a| {
      var to := from + (blockSize - AnimationSkip);
      SliceOfSuffix(a, start, from, to);
      SliceOfSuffix(b, start, from, to);
    }
  }

  /**
    With the unsigned skip, the first block preamble (bytes 0..8) and the
    header's `h_size` and `count` (bytes 13..28) are never looked at: only the
    magic and what follows the header decide the output. The loop as written
    agrees only while every type-0x2 size stays below 2^63 (`AsWrittenAgrees`);
    `BackwardSeekEmitsHeader` shows a larger size reading the header.
   */
  lemma HeaderFieldsIgnored(a: seq<byte>, b: seq<byte>)
    requires |a| == |b| >= ScanStart
    requires a[MagicOffset .. MagicOffset + 4] == b[MagicOffset .. MagicOffset + 4]
    requires a[ScanStart..] == b[ScanStart..]
    ensures Extract(a) == Extract(b)
  {
    ScanReadsOnlyFrom(a, b, ScanStart, ScanStart);
  }

  /** A block as a writer lays it out: its declared size is the length of its body. */
  datatype Block = Block(blockType: byte, body: seq<byte>)

  predicate Writable(bs: seq<Block>)
  {
    forall i :: 0 <= i < |bs| ==> |bs[i].body| < Two64
  }

  predicate AllCredentials(bs: seq<Block>)
  {
    forall i :: 0 <= i < |bs| ==> bs[i].blockType == CredentialsBlock
  }

  function EncodeBlock(b: Block): (s: seq<byte>)
    requires |b.body| < Two64
    ensures |s| == BlockMetaLength + |b.body|
  {
    [b.blockType] + FromUInt64(|b.body|) + b.body
  }

  function EncodeBlocks(bs: seq<Block>): (s: seq<byte>)
    requires Writable(bs)
  {
    if |bs| == 0 then [] else EncodeBlock(bs[0]) + EncodeBlocks(bs[1..])
  }

  /** A CAFF stream: an unchecked 9-byte preamble, the 20-byte header, then the blocks. */
  function CaffStream(preamble: seq<byte>, headerSize: nat, count: nat, blocks: seq<Block>): (s: seq<byte>)
    requires |preamble| == BlockMetaLength && headerSize < Two64 && count < Two64 && Writable(blocks)
    ensures |s| >= ScanStart && s[MagicOffset .. MagicOffset + 4] == CaffMagic
  {
    var s := preamble + CaffMagic + FromUInt64(headerSize) + FromUInt64(count) + EncodeBlocks(blocks);
    assert s[MagicOffset .. MagicOffset + 4] == CaffMagic;
    s
  }

  lemma {:induction false} EncodeBlocksAppend(bs: seq<Block>, b: Block)
    requires Writable(bs) && |b.body| < Two64
    ensures Writable(bs + [b])
    ensures EncodeBlocks(bs + [b]) == EncodeBlocks(bs) + EncodeBlock(b)
  {
    if |bs| > 0 {
      assert (bs + [b])[1..] == bs[1..] + [b];
      EncodeBlocksAppend(bs[1..], b);
    }
  }

  /** A block header written by `EncodeBlock` reads back as its type and body length. */
  lemma MetaOfEncoded(bytes: seq<byte>, pos: nat, b: Block)
    requires |b.body| < Two64
    requires pos + |EncodeBlock(b)| <= |bytes|
    requires bytes[pos .. pos + |EncodeBlock(b)|] == EncodeBlock(b)
    ensures MetaAt(bytes, pos) == BlockMeta(b.blockType, |b.body|)
  {
    var enc := EncodeBlock(b);
    assert enc == [b.blockType] + FromUInt64(|b.body|) + b.body;
    SliceSplit(bytes, pos, [b.blockType] + FromUInt64(|b.body|), b.body);
    SliceSplit(bytes, pos, [b.blockType], FromUInt64(|b.body|));
    UInt64RoundTrip(|b.body|);
  }

  /**
    One credentials block, with the unsigned skip: the scan continues at the
    byte after its declared size. Landing at or past the end stops the scan just as a block header cut
    short there does.
   */
  lemma ScanSkipStep(bytes: seq<byte>, pos: nat)
    requires pos + BlockMetaLength <= |bytes| && MetaAt(bytes, pos).blockType == CredentialsBlock
    ensures Scan(bytes, pos) == Scan(bytes, pos + BlockMetaLength + MetaAt(bytes, pos).blockSize)
  {
  }

  /** From `pos` to `end` the input holds credentials block headers, each skipping exactly to the next. */
  predicate SkipChain(bytes: seq<byte>, pos: nat, end: nat)
    decreases end - pos
  {
    pos == end ||
    (pos + BlockMetaLength <= |bytes| && MetaAt(bytes, pos).blockType == CredentialsBlock
     && pos + BlockMetaLength + MetaAt(bytes, pos).blockSize <= end
     && SkipChain(bytes, pos + BlockMetaLength + MetaAt(bytes, pos).blockSize, end))
  }

  lemma {:induction false} ScanOverChain(bytes: seq<byte>, pos: nat, end: nat)
    requires SkipChain(bytes, pos, end)
    ensures Scan(bytes, pos) == Scan(bytes, end)
    decreases end - pos
  {
    if pos != end {
      ScanSkipStep(bytes, pos);
      ScanOverChain(bytes, pos + BlockMetaLength + MetaAt(bytes, pos).blockSize, end);
    }
  }

  /** A credentials block header in front of a skip chain extends it. */
  lemma ChainCons(bytes: seq<byte>, pos: nat, end: nat)
    requires pos + BlockMetaLength <= |bytes| && MetaAt(bytes, pos).blockType == CredentialsBlock
    requires pos + BlockMetaLength + MetaAt(bytes, pos).blockSize <= end
    requires SkipChain(bytes, pos + BlockMetaLength + MetaAt(bytes, pos).blockSize, end)
    ensures SkipChain(bytes, pos, end)
  {
  }

  /** Block headers announcing the blocks `bs`, one after another from `pos` on, each skipping its body. */
  predicate HeadersAt(bytes: seq<byte>, pos: nat, bs: seq<Block>)
    requires Writable(bs)
    decreases |bs|
  {
    |bs| == 0 ||
    (pos + BlockMetaLength <= |bytes| && MetaAt(bytes, pos) == BlockMeta(bs[0].blockType, |bs[0].body|)
     && HeadersAt(bytes, pos + BlockMetaLength + |bs[0].body|, bs[1..]))
  }

  /** Written blocks announce themselves: each header reads back as its block's type and length. */
  lemma {:induction false} HeadersOfEncoded(bytes: seq<byte>, pos: nat, bs: seq<Block>)
    requires Writable(bs)
    requires pos + |EncodeBlocks(bs)| <= |bytes|
    requires bytes[pos .. pos + |EncodeBlocks(bs)|] == EncodeBlocks(bs)
    ensures HeadersAt(bytes, pos, bs)
    decreases |bs|
  {
    if |bs| > 0 {
      var first, rest := EncodeBlock(bs[0]), EncodeBlocks(bs[1..]);
      assert EncodeBlocks(bs) == first + rest;
      SliceSplit(bytes, pos, first, rest);
      MetaOfEncoded(bytes, pos, bs[0]);
      HeadersOfEncoded(bytes, pos + |first|, bs[1..]);
    }
  }

  /** Where the blocks `bs` written from `pos` end, counted block by block. */
  function WrittenEnd(pos: nat, bs: seq<Block>): nat
    requires Writable(bs)
    decreases |bs|
  {
    if |bs| == 0 then pos else WrittenEnd(pos + BlockMetaLength + |bs[0].body|, bs[1..])
  }

  lemma {:induction false} WrittenEndIsLength(pos: nat, bs: seq<Block>)
    requires Writable(bs)
    ensures WrittenEnd(pos, bs) == pos + |EncodeBlocks(bs)|
    decreases |bs|
  {
    if |bs| > 0 {
      WrittenEndIsLength(pos + BlockMetaLength + |bs[0].body|, bs[1..]);
    }
  }

  /** Headers of credentials blocks form a skip chain up to the end of the last body. */
  lemma {:induction false} HeadersChain(bytes: seq<byte>, pos: nat, bs: seq<Block>)
    requires Writable(bs) && AllCredentials(bs)
    requires HeadersAt(bytes, pos, bs)
    ensures SkipChain(bytes, pos, WrittenEnd(pos, bs))
    decreases |bs|
  {
    if |bs| > 0 {
      HeadersChain(bytes, pos + BlockMetaLength + |bs[0].body|, bs[1..]);
      ChainCons(bytes, pos, WrittenEnd(pos, bs));
    }
  }

  /** Written credentials blocks form a skip chain over exactly their encoding. */
  lemma EncodedChain(bytes: seq<byte>, pos: nat, bs: seq<Block>)
    requires Writable(bs) && AllCredentials(bs)
    requires pos + |EncodeBlocks(bs)| <= |bytes|
    requires bytes[pos .. pos + |EncodeBlocks(bs)|] == EncodeBlocks(bs)
    ensures SkipChain(bytes, pos, pos + |EncodeBlocks(bs)|)
  {
    HeadersOfEncoded(bytes, pos, bs);
    HeadersChain(bytes, pos, bs);
    WrittenEndIsLength(pos, bs);
  }

  /** With the magic in place, the extraction is the scan from the end of a skip chain that starts the blocks. */
  lemma ExtractAfterChain(bytes: seq<byte>, pos: nat)
    requires |bytes| >= ScanStart && bytes[MagicOffset .. MagicOffset + 4] == CaffMagic
    requires SkipChain(bytes, ScanStart, pos)
    ensures Extract(bytes) == Scan(bytes, pos)
  {
    ScanOverChain(bytes, ScanStart, pos);
  }

  /** The blocks of a stream: its credentials blocks chain up to `pos`, where the final block is written. */
  lemma StreamLayout(preamble: seq<byte>, headerSize: nat, count: nat, credentials: seq<Block>, last: Block,
                     trailing: seq<byte>) returns (pos: nat)
    requires |preamble| == BlockMetaLength && headerSize < Two64 && count < Two64
    requires Writable(credentials) && AllCredentials(credentials) && |last.body| < Two64
    ensures Writable(credentials + [last])
    ensures var bytes := CaffStream(preamble, headerSize, count, credentials + [last]) + trailing;
      && |bytes| >= ScanStart && bytes[MagicOffset .. MagicOffset + 4] == CaffMagic
      && SkipChain(bytes, ScanStart, pos)
      && pos + |EncodeBlock(last)| <= |bytes| && bytes[pos .. pos + |EncodeBlock(last)|] == EncodeBlock(last)
  {
    EncodeBlocksAppend(credentials, last);
    var head := preamble + CaffMagic + FromUInt64(headerSize) + FromUInt64(count);
    var skipped, enc := EncodeBlocks(credentials), EncodeBlock(last);
    var stream := CaffStream(preamble, headerSize, count, credentials + [last]);
    assert stream == head + (skipped + enc);
    Pieces(head, skipped, enc, trailing);
    PrefixSlice(stream, trailing, MagicOffset, MagicOffset + 4);
    pos := |head| + |skipped|;
    EncodedChain(stream + trailing, ScanStart, credentials);
  }

  /** A stream of credentials blocks alone: they chain up to the end of the input. */
  lemma CredentialsLayout(preamble: seq<byte>, headerSize: nat, count: nat, credentials: seq<Block>)
    requires |preamble| == BlockMetaLength && headerSize < Two64 && count < Two64
    requires Writable(credentials) && AllCredentials(credentials)
    ensures var bytes := CaffStream(preamble, headerSize, count, credentials);
      SkipChain(bytes, ScanStart, |bytes|)
  {
    var bytes := CaffStream(preamble, headerSize, count, credentials);
    var skipped := EncodeBlocks(credentials);
    assert bytes[ScanStart ..] == skipped;
    EncodedChain(bytes, ScanStart, credentials);
  }

  /** A written animation block is copied out, minus its 8-byte prefix. */
  lemma ScanAnimationBlock(bytes: seq<byte>, pos: nat, duration: seq<byte>, ciff: seq<byte>)
    requires |duration| == AnimationSkip && AnimationSkip + |ciff| < Two64
    requires var enc := EncodeBlock(Block(AnimationBlock, duration + ciff));
      pos + |enc| <= |bytes| && bytes[pos .. pos + |enc|] == enc
    ensures Scan(bytes, pos) == Emitted(ciff)
  {
    var anim := Block(AnimationBlock, duration + ciff);
    MetaOfEncoded(bytes, pos, anim);
    var meta := [AnimationBlock] + FromUInt64(|anim.body|);
    assert EncodeBlock(anim) == meta + anim.body;
    SliceSplit(bytes, pos, meta, anim.body);
    SliceSplit(bytes, pos + |meta|, duration, ciff);
  }

  /** A written block of another type stops the scan. */
  lemma ScanOtherBlock(bytes: seq<byte>, pos: nat, other: Block)
    requires |other.body| < Two64
    requires other.blockType != CredentialsBlock && other.blockType != AnimationBlock
    requires pos + |EncodeBlock(other)| <= |bytes| && bytes[pos .. pos + |EncodeBlock(other)|] == EncodeBlock(other)
    ensures Scan(bytes, pos) == NothingWritten(InvalidBlockType(other.blockType))
  {
    MetaOfEncoded(bytes, pos, other);
  }

  /**
    The output is the payload of the first animation block after the leading
    credentials blocks, minus its 8-byte prefix; whatever follows it, further
    animation blocks included, is never read.
   */
  lemma ExtractEmitsFirstAnimation(preamble: seq<byte>, headerSize: nat, count: nat,
                                   credentials: seq<Block>, duration: seq<byte>, ciff: seq<byte>,
                                   trailing: seq<byte>)
    requires |preamble| == BlockMetaLength && headerSize < Two64 && count < Two64
    requires Writable(credentials) && AllCredentials(credentials)
    requires |duration| == AnimationSkip && AnimationSkip + |ciff| < Two64
    ensures Writable(credentials + [Block(AnimationBlock, duration + ciff)])
    ensures Extract(CaffStream(preamble, headerSize, count, credentials + [Block(AnimationBlock, duration + ciff)])
                    + trailing) == Emitted(ciff)
  {
    var anim := Block(AnimationBlock, duration + ciff);
    var pos := StreamLayout(preamble, headerSize, count, credentials, anim, trailing);
    var bytes := CaffStream(preamble, headerSize, count, credentials + [anim]) + trailing;
    ExtractAfterChain(bytes, pos);
    ScanAnimationBlock(bytes, pos, duration, ciff);
  }

  /** A block of any type other than 0x2 or 0x3 after the credentials stops the scan with nothing written. */
  lemma ExtractStopsOnUnknownType(preamble: seq<byte>, headerSize: nat, count: nat,
                                  credentials: seq<Block>, other: Block, trailing: seq<byte>)
    requires |preamble| == BlockMetaLength && headerSize < Two64 && count < Two64
    requires Writable(credentials) && AllCredentials(credentials) && |other.body| < Two64
    requires other.blockType != CredentialsBlock && other.blockType != AnimationBlock
    ensures Writable(credentials + [other])
    ensures Extract(CaffStream(preamble, headerSize, count, credentials + [other]) + trailing)
            == NothingWritten(InvalidBlockType(other.blockType))
  {
    var pos := StreamLayout(preamble, headerSize, count, credentials, other, trailing);
    var bytes := CaffStream(preamble, headerSize, count, credentials + [other]) + trailing;
    ExtractAfterChain(bytes, pos);
    ScanOtherBlock(bytes, pos, other);
  }

  /** A stream holding only credentials blocks runs out of input: nothing is written. */
  lemma ExtractWithoutAnimation(preamble: seq<byte>, headerSize: nat, count: nat, credentials: seq<Block>)
    requires |preamble| == BlockMetaLength && headerSize < Two64 && count < Two64
    requires Writable(credentials) && AllCredentials(credentials)
    ensures Extract(CaffStream(preamble, headerSize, count, credentials)) == NothingWritten(MetadataUnreadable)
  {
    var bytes := CaffStream(preamble, headerSize, count, credentials);
    CredentialsLayout(preamble, headerSize, count, credentials);
    ExtractAfterChain(bytes, |bytes|);
  }

  /** A stream whose header magic is not "CAFF" produces no output at all. */
  lemma ExtractNeedsMagic(bytes: seq<byte>)
    requires |bytes| >= ScanStart && bytes[MagicOffset .. MagicOffset + 4] != CaffMagic
    ensures Extract(bytes) == NothingWritten(WrongFormat)
  {
  }

  // The type-0x2 skip as written: `seekg(cf.blockSize, ios::cur)` takes a signed
  // `streamoff`, so a `uint64_t` size of 2^63 or more seeks backwards.

  const Two63: int := 0x8000_0000_0000_0000

  /** `blockSize` as the signed 64-bit offset `seekg` receives. */
  function AsStreamOffset(size: nat): (off: int)
    requires size < Two64
    ensures -Two63 <= off < Two63
    ensures off == size <==> size < Two63
  {
    if size < Two63 then size else size - Two64
  }

  /**
    The block loop as written, counting visited blocks with `fuel`: a skip
    moves by the signed offset, a seek before the start of the stream fails and
    so does the read after it. `None` means the fuel ran out.
   */
  function ScanAsWritten(bytes: seq<byte>, pos: nat, fuel: nat): (r: Option<Extraction>)
    ensures fuel == 0 ==> r == None
    ensures r.Some? && r.value.Emitted? && r.value.ciff != [] ==>
      exists p :: p >= BlockMetaLength + AnimationSkip && SliceAt(bytes, p, r.value.ciff)
    ensures r.Some? && r.value.NothingWritten? ==> r.value.halt.MetadataUnreadable? || r.value.halt.InvalidBlockType?
    decreases fuel
  {
    if fuel == 0 then None
    else if pos + BlockMetaLength > |bytes| then Some(NothingWritten(MetadataUnreadable))
    else
      var meta := MetaAt(bytes, pos);
      if meta.blockType == CredentialsBlock then
        var target := pos + BlockMetaLength + AsStreamOffset(meta.blockSize);
        if target < 0 then Some(NothingWritten(MetadataUnreadable))
        else ScanAsWritten(bytes, target, fuel - 1)
      else if meta.blockType == AnimationBlock then Some(CopyAnimation(bytes, pos, meta.blockSize))
      else Some(NothingWritten(InvalidBlockType(meta.blockType)))
  }

  /**
    `generateCiff` as written. Unlike `Extract`, its output may come from
    anywhere past offset 16: a backward skip can land in the header.
   */
  function ExtractAsWritten(bytes: seq<byte>, fuel: nat): (r: Option<Extraction>)
    ensures r.Some? && r.value.Emitted? ==> |bytes| >= ScanStart && bytes[MagicOffset .. MagicOffset + 4] == CaffMagic
    ensures r.Some? && r.value.Emitted? && r.value.ciff != [] ==>
      exists p :: p >= BlockMetaLength + AnimationSkip && SliceAt(bytes, p, r.value.ciff)
    ensures r == Some(NothingWritten(HeaderUnreadable)) <==> |bytes| < ScanStart
    ensures r == Some(NothingWritten(WrongFormat)) <==>
      |bytes| >= ScanStart && bytes[MagicOffset .. MagicOffset + 4] != CaffMagic
  {
    if |bytes| < ScanStart then Some(NothingWritten(HeaderUnreadable))
    else if bytes[MagicOffset .. MagicOffset + 4] != CaffMagic then Some(NothingWritten(WrongFormat))
    else ScanAsWritten(bytes, ScanStart, fuel)
  }

  /** More iterations change nothing once the loop as written has stopped. */
  lemma {:induction false} AsWrittenFuelMonotone(bytes: seq<byte>, pos: nat, fuel: nat)
    requires ScanAsWritten(bytes, pos, fuel).Some?
    ensures ScanAsWritten(bytes, pos, fuel + 1) == ScanAsWritten(bytes, pos, fuel)
    decreases fuel
  {
    if pos + BlockMetaLength <= |bytes| {
      var meta := MetaAt(bytes, pos);
      if meta.blockType == CredentialsBlock {
        var target := pos + BlockMetaLength + AsStreamOffset(meta.blockSize);
        if target >= 0 {
          AsWrittenFuelMonotone(bytes, target, fuel - 1);
        }
      }
    }
  }

  /**
    A stream whose one block skips 2^64 - 38 bytes: as written, the skip lands
    on offset 0, where the preamble (type 0x3, size 12) is read as a block.
   */
  const BackwardPreamble: seq<byte> := [AnimationBlock] + FromUInt64(12)
  const BackwardHeader: seq<byte> := CaffMagic + [0, 0, 0, 0, 0xAA, 0xBB, 0xCC, 0xDD] + FromUInt64(0)
  const BackwardBlock: seq<byte> := [CredentialsBlock] + FromUInt64(Two64 - 38)
  const BackwardSeekingCaff: seq<byte> := BackwardPreamble + BackwardHeader + BackwardBlock

  /**
    As written, header bytes 17..20 are written out; skipping forward by the
    unsigned size, the scan stops with nothing written.
   */
  lemma BackwardSeekEmitsHeader()
    ensures ExtractAsWritten(BackwardSeekingCaff, 2) == Some(Emitted([0xAA, 0xBB, 0xCC, 0xDD]))
    ensures Extract(BackwardSeekingCaff) == NothingWritten(MetadataUnreadable)
  {
    var bytes := BackwardSeekingCaff;
    BackwardSeekLayout();
    assert ScanAsWritten(bytes, 0, 1) == Some(CopyAnimation(bytes, 0, 12));
    assert AsStreamOffset(Two64 - 38) == -38;
    assert ScanAsWritten(bytes, ScanStart, 2) == ScanAsWritten(bytes, 0, 1);
    ScanSkipStep(bytes, ScanStart);
  }

  /** What the loop reads in that stream: the magic, the block at 29, the preamble at 0, bytes 17..20. */
  lemma BackwardSeekLayout()
    ensures var bytes := BackwardSeekingCaff;
      && |bytes| == ScanStart + BlockMetaLength
      && bytes[MagicOffset .. MagicOffset + 4] == CaffMagic
      && MetaAt(bytes, ScanStart) == BlockMeta(CredentialsBlock, Two64 - 38)
      && MetaAt(bytes, 0) == BlockMeta(AnimationBlock, 12)
      && bytes[17 .. 21] == [0xAA, 0xBB, 0xCC, 0xDD]
  {
    var bytes := BackwardSeekingCaff;
    BackwardPieces();
    SliceOfSlice(bytes, BlockMetaLength, ScanStart, 4);
    MetaOfBytes(bytes, 0, AnimationBlock, 12);
    MetaOfBytes(bytes, ScanStart, CredentialsBlock, Two64 - 38);
    BackwardPayload();
  }

  /** The stream's three parts: preamble at 0, header at 9, the skipping block at 29. */
  lemma BackwardPieces()
    ensures var bytes := BackwardSeekingCaff;
      && |bytes| == ScanStart + BlockMetaLength
      && bytes[..BlockMetaLength] == BackwardPreamble
      && bytes[BlockMetaLength .. ScanStart] == BackwardHeader
      && bytes[ScanStart ..] == BackwardBlock
      && bytes[ScanStart .. ScanStart + BlockMetaLength] == BackwardBlock
  {
    assert |BackwardPreamble| == BlockMetaLength && |BackwardHeader| == ScanStart - BlockMetaLength;
    ThreePieces(BackwardPreamble, BackwardHeader, BackwardBlock);
  }

  /** Header bytes 8..11, at offsets 17..20 of the stream, are the ones the backward seek writes. */
  lemma BackwardPayload()
    ensures |BackwardSeekingCaff| >= 21 && BackwardSeekingCaff[17 .. 21] == [0xAA, 0xBB, 0xCC, 0xDD]
  {
    var bytes := BackwardSeekingCaff;
    BackwardPieces();
    SliceOfSlice(bytes, BlockMetaLength, ScanStart, 12);
    assert bytes[17 .. 21] == BackwardHeader[8 .. 12];
  }

  /** Where the three parts of `a + b + c` sit. */
  lemma ThreePieces<T>(a: seq<T>, b: seq<T>, c: seq<T>)
    ensures (a + b + c)[..|a|] == a
    ensures (a + b + c)[|a| .. |a| + |b|] == b
    ensures (a + b + c)[|a| + |b| ..] == c
  {
    var s := a + b + c;
    assert forall i :: 0 <= i < |a| ==> s[..|a|][i] == a[i];
    assert forall i :: 0 <= i < |b| ==> s[|a| .. |a| + |b|][i] == b[i];
    assert forall i :: 0 <= i < |c| ==> s[|a| + |b| ..][i] == c[i];
  }

  /** A block header whose nine bytes are the type and the written size reads back as them. */
  lemma MetaOfBytes(bytes: seq<byte>, pos: nat, blockType: byte, size: nat)
    requires size < Two64
    requires pos + BlockMetaLength <= |bytes| && bytes[pos .. pos + BlockMetaLength] == [blockType] + FromUInt64(size)
    ensures MetaAt(bytes, pos) == BlockMeta(blockType, size)
  {
    SliceSplit(bytes, pos, [blockType], FromUInt64(size));
    UInt64RoundTrip(size);
  }

  /** Every credentials block met along the scan from `pos` declares a size below 2^63. */
  predicate ShortSkips(bytes: seq<byte>, pos: nat)
    decreases |bytes| - pos
  {
    if pos + BlockMetaLength > |bytes| then true
    else
      var meta := MetaAt(bytes, pos);
      var next := pos + BlockMetaLength + meta.blockSize;
      meta.blockType != CredentialsBlock || (meta.blockSize < Two63 && (next >= |bytes| || ShortSkips(bytes, next)))
  }

  /** With enough fuel and no skip of 2^63 bytes or more, the loop as written computes `Scan`. */
  lemma {:induction false} AsWrittenAgrees(bytes: seq<byte>, pos: nat, fuel: nat)
    requires fuel > 0 && fuel > |bytes| - pos
    requires ShortSkips(bytes, pos)
    ensures ScanAsWritten(bytes, pos, fuel) == Some(Scan(bytes, pos))
    decreases fuel
  {
    if pos + BlockMetaLength <= |bytes| {
      var meta := MetaAt(bytes, pos);
      var next := pos + BlockMetaLength + meta.blockSize;
      if meta.blockType == CredentialsBlock {
        if next >= |bytes| {
          assert ScanAsWritten(bytes, next, fuel - 1) == Some(NothingWritten(MetadataUnreadable));
        } else {
          AsWrittenAgrees(bytes, next, fuel - 1);
        }
      }
    }
  }

  /** A stream whose only block is a credentials block of size 2^64 - 9. */
  const SelfSeekingCaff: seq<byte> :=
    [0, 0, 0, 0, 0, 0, 0, 0, 0] + CaffMagic + FromUInt64(0) + FromUInt64(0)
    + [CredentialsBlock] + FromUInt64(Two64 - 9)

  /** As written, the skip of that block seeks back onto its own header: the loop never ends. */
  lemma SelfSeekNeverHalts(fuel: nat)
    ensures ExtractAsWritten(SelfSeekingCaff, fuel) == None
  {
    SelfSeekLoops(fuel);
  }

  lemma {:induction false} SelfSeekLoops(fuel: nat)
    ensures ScanAsWritten(SelfSeekingCaff, ScanStart, fuel) == None
  {
    if fuel > 0 {
      var bytes := SelfSeekingCaff;
      assert |bytes| == ScanStart + BlockMetaLength;
      assert bytes[ScanStart + 1 .. ScanStart + BlockMetaLength] == FromUInt64(Two64 - 9);
      UInt64RoundTrip(Two64 - 9);
      assert MetaAt(bytes, ScanStart) == BlockMeta(CredentialsBlock, Two64 - 9);
      SelfSeekLoops(fuel - 1);
    }
  }

  /** Skipping forward by the unsigned size, the same stream ends at once with nothing written. */
  lemma SelfSeekHalts()
    ensures Extract(SelfSeekingCaff) == NothingWritten(MetadataUnreadable)
  {
    var bytes := SelfSeekingCaff;
    assert bytes[MagicOffset .. MagicOffset + 4] == CaffMagic;
    assert bytes[ScanStart + 1 .. ScanStart + BlockMetaLength] == FromUInt64(Two64 - 9);
    UInt64RoundTrip(Two64 - 9);
  }
}
