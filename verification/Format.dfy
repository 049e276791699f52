/** Block handles, the footer, and reading a block back from a table file. */
module Format {
  import opened Bytes
  import opened Coding
  import opened BlockFormat

  const MAX_HANDLE_LENGTH := 20        // kMaxEncodedLength
  const FOOTER_LENGTH := 48            // kEncodedLength
  const MAGIC_LOW := 0x8b80fb57        // kTableMagicNumber & 0xffffffff
  const MAGIC_HIGH := 0xdb477524       // kTableMagicNumber >> 32
  const BLOCK_TRAILER_SIZE := 5
  const NO_COMPRESSION: byte := 0

  datatype BlockHandle = BlockHandle(offset: nat, size: nat)

  /** Both fields have been set: neither is the all-ones marker of the default constructor. */
  predicate IsSet(h: BlockHandle) {
    h.offset < UINT64_LIMIT - 1 && h.size < UINT64_LIMIT - 1
  }

  function HandleBytes(h: BlockHandle): bytes {
    Varint(h.offset) + Varint(h.size)
  }

  function DecodeHandle(s: bytes): Parse<BlockHandle> {
    match GetVarint64(s)
    case Bad => Bad
    case Good(offset, r1) =>
      match GetVarint64(r1)
      case Bad => Bad
      case Good(size, r2) => Good(BlockHandle(offset, size), r2)
  }

  lemma HandleRoundTrip(h: BlockHandle, t: bytes)
    requires IsSet(h)
    ensures DecodeHandle(HandleBytes(h) + t) == Good(h, t)
    ensures 2 <= |HandleBytes(h)| <= MAX_HANDLE_LENGTH
  {
    hide Varint, GetVarint64;
    assert HandleBytes(h) + t == Varint(h.offset) + (Varint(h.size) + t);
    Varint64RoundTrip(h.offset, Varint(h.size) + t);
    Varint64RoundTrip(h.size, t);
    Varint64Size(h.offset);
    Varint64Size(h.size);
  }

  /** `BlockHandle::EncodeTo`. */
  method EncodeHandle(dst: bytes, h: BlockHandle) returns (r: bytes)
    requires IsSet(h)
    ensures r == dst + HandleBytes(h)
  {
    r := PutVarint64(dst, h.offset);
    r := PutVarint64(r, h.size);
  }

  // ---------- footer ----------

  datatype Footer = Footer(metaindexHandle: BlockHandle, indexHandle: BlockHandle)

  /** `std::string::resize`: cuts, or pads with zero bytes. */
  function Resized(s: bytes, n: nat): (r: bytes)
    ensures |r| == n
  {
    if |s| >= n then s[..n] else s + seq(n - |s|, _ => 0)
  }

  function FooterBytes(f: Footer): bytes {
    Resized(HandleBytes(f.metaindexHandle) + HandleBytes(f.indexHandle), 2 * MAX_HANDLE_LENGTH)
    + Fixed32(MAGIC_LOW) + Fixed32(MAGIC_HIGH)
  }

  /** `Footer::EncodeTo`. The resize is to a fixed length, so the final length assertion holds only
      when the destination starts empty. */
  method EncodeFooter(dst: bytes, f: Footer) returns (r: bytes)
    requires dst == []
    requires IsSet(f.metaindexHandle) && IsSet(f.indexHandle)
    ensures r == FooterBytes(f) && |r| == |dst| + FOOTER_LENGTH
  {
    r := EncodeHandle(dst, f.metaindexHandle);
    r := EncodeHandle(r, f.indexHandle);
    assert r == HandleBytes(f.metaindexHandle) + HandleBytes(f.indexHandle);
    r := Resized(r, 2 * MAX_HANDLE_LENGTH);
    r := r + Fixed32(MAGIC_LOW);
    r := r + Fixed32(MAGIC_HIGH);
  }

  /** `Footer::DecodeFrom`: the magic number first, then the handles; the padding is skipped. */
  function DecodeFooter(s: bytes): Parse<Footer>
    requires |s| >= FOOTER_LENGTH
  {
    var magicLow := DecodeFixed32(s[FOOTER_LENGTH - 8..]);
    var magicHigh := DecodeFixed32(s[FOOTER_LENGTH - 4..]);
    if magicLow != MAGIC_LOW || magicHigh != MAGIC_HIGH then Bad else
    match DecodeHandle(s)
    case Bad => Bad
    case Good(metaindex, r1) =>
      match DecodeHandle(r1)
      case Bad => Bad
      case Good(index, r2) => Good(Footer(metaindex, index), s[FOOTER_LENGTH..])
  }

  lemma FooterRoundTrip(f: Footer, t: bytes)
    requires IsSet(f.metaindexHandle) && IsSet(f.indexHandle)
    ensures |FooterBytes(f)| == FOOTER_LENGTH
    ensures DecodeFooter(FooterBytes(f) + t) == Good(f, t)
  {
    hide Fixed32, DecodeFixed32, HandleBytes, DecodeHandle;
    var handles := HandleBytes(f.metaindexHandle) + HandleBytes(f.indexHandle);
    HandleRoundTrip(f.metaindexHandle, []);
    HandleRoundTrip(f.indexHandle, []);
    var padding: bytes := seq(2 * MAX_HANDLE_LENGTH - |handles|, _ => 0);
    var tail := padding + Fixed32(MAGIC_LOW) + Fixed32(MAGIC_HIGH) + t;
    var s := FooterBytes(f) + t;
    assert s == HandleBytes(f.metaindexHandle) + (HandleBytes(f.indexHandle) + tail);
    HandleRoundTrip(f.metaindexHandle, HandleBytes(f.indexHandle) + tail);
    HandleRoundTrip(f.indexHandle, tail);
    assert s[FOOTER_LENGTH - 8..] == Fixed32(MAGIC_LOW) + (Fixed32(MAGIC_HIGH) + t);
    Fixed32RoundTrip(MAGIC_LOW, Fixed32(MAGIC_HIGH) + t);
    assert s[FOOTER_LENGTH - 4..] == Fixed32(MAGIC_HIGH) + t;
    Fixed32RoundTrip(MAGIC_HIGH, t);
  }

  // ---------- blocks in a file ----------

  /** Block contents followed by the type byte and the (zero) checksum. */
  function RawBlock(contents: bytes): (r: bytes)
    ensures |r| == |contents| + BLOCK_TRAILER_SIZE
  {
    contents + [NO_COMPRESSION] + Fixed32(0)
  }

  /** `pread`: as many of the `n` bytes as the file has. */
  function ReadAt(file: bytes, offset: nat, n: nat): bytes {
    if offset >= |file| then []
    else if offset + n > |file| then file[offset..]
    else file[offset..offset + n]
  }

  /** `ReadBlock`: a short read or an unknown compression type is an error. */
  function ReadBlock(file: bytes, h: BlockHandle): Option<bytes> {
    var contents := ReadAt(file, h.offset, h.size + BLOCK_TRAILER_SIZE);
    if |contents| != h.size + BLOCK_TRAILER_SIZE then None
    else if contents[h.size] != NO_COMPRESSION then None
    else Some(contents[..h.size])
  }

  /** The file holds these contents under the handle, then type 0 and a checksum. */
  ghost predicate HoldsRaw(file: bytes, h: BlockHandle, contents: bytes, crc: bytes, after: bytes) {
    && |contents| == h.size && |crc| == BLOCK_TRAILER_SIZE - 1 && h.offset <= |file|
    && file == file[..h.offset] + (contents + ([NO_COMPRESSION] + crc)) + after
  }

  lemma HoldsRawReads(file: bytes, h: BlockHandle, contents: bytes, crc: bytes, after: bytes)
    requires HoldsRaw(file, h, contents, crc, after)
    ensures ReadBlock(file, h) == Some(contents)
  {
    var raw := contents + ([NO_COMPRESSION] + crc);
    assert |raw| == h.size + BLOCK_TRAILER_SIZE;
    assert file[h.offset..h.offset + |raw|] == raw;
    assert ReadAt(file, h.offset, |raw|) == raw;
    assert raw[..h.size] == contents && raw[h.size] == NO_COMPRESSION;
  }

  /** Exactly the blocks that lie whole in the file, with their trailer and under type 0, are read. */
  lemma ReadBlockExactly(file: bytes, h: BlockHandle, contents: bytes)
    ensures ReadBlock(file, h) == Some(contents) <==> exists crc, after :: HoldsRaw(file, h, contents, crc, after)
  {
    if ReadBlock(file, h) == Some(contents) {
      var n := h.size + BLOCK_TRAILER_SIZE;
      var raw := file[h.offset..h.offset + n];
      var crc, after := raw[h.size + 1..], file[h.offset + n..];
      assert raw == contents + ([NO_COMPRESSION] + crc);
      assert HoldsRaw(file, h, contents, crc, after);
    }
    if crc, after :| HoldsRaw(file, h, contents, crc, after) {
      HoldsRawReads(file, h, contents, crc, after);
    }
  }

  /** The entries of the block a handle points at. */
  function BlockAt(file: bytes, h: BlockHandle): Option<seq<Entry>> {
    match ReadBlock(file, h)
    case None => None
    case Some(contents) => DecodeBlock(contents)
  }

  lemma ReadBlockOfRaw(before: bytes, contents: bytes, after: bytes)
    ensures ReadBlock(before + RawBlock(contents) + after, BlockHandle(|before|, |contents|)) == Some(contents)
  {
    hide Fixed32;
    var file := before + RawBlock(contents) + after;
    assert file[..|before|] == before;
    assert HoldsRaw(file, BlockHandle(|before|, |contents|), contents, Fixed32(0), after) by {
      assert RawBlock(contents) == contents + ([NO_COMPRESSION] + Fixed32(0));
    }
    HoldsRawReads(file, BlockHandle(|before|, |contents|), contents, Fixed32(0), after);
  }

  lemma ReadBlockExtends(file: bytes, t: bytes, h: BlockHandle)
    requires ReadBlock(file, h).Some?
    ensures ReadBlock(file + t, h) == ReadBlock(file, h)
  {
    var n := h.size + BLOCK_TRAILER_SIZE;
    assert h.offset + n <= |file|;
    assert (file + t)[h.offset..h.offset + n] == file[h.offset..h.offset + n];
  }

  /** A raw block is found at the handle the writer recorded for it. */
  lemma BlockAtRawBlock(before: bytes, contents: bytes, after: bytes)
    ensures BlockAt(before + RawBlock(contents) + after, BlockHandle(|before|, |contents|)) == DecodeBlock(contents)
  {
    hide DecodeBlock;
    var file := before + RawBlock(contents) + after;
    var n := |contents| + BLOCK_TRAILER_SIZE;
    assert file[|before|..|before| + n] == RawBlock(contents);
    assert RawBlock(contents)[..|contents|] == contents;
  }

  /** Appending to a file leaves the blocks in it readable. */
  lemma BlockAtExtends(file: bytes, t: bytes, h: BlockHandle)
    requires BlockAt(file, h).Some?
    ensures BlockAt(file + t, h) == BlockAt(file, h)
  {
    hide DecodeBlock;
    var n := h.size + BLOCK_TRAILER_SIZE;
    assert h.offset + n <= |file|;
    assert (file + t)[h.offset..h.offset + n] == file[h.offset..h.offset + n];
  }

  /** The last bytes are those of a block trailer. */
  ghost predicate EndsInTrailer(file: bytes) {
    |file| >= BLOCK_TRAILER_SIZE && file[|file| - BLOCK_TRAILER_SIZE..] == [NO_COMPRESSION] + Fixed32(0)
  }

  lemma RawBlockEnds(before: bytes, contents: bytes)
    ensures EndsInTrailer(before + RawBlock(contents))
  {
    hide Fixed32;
    var file := before + RawBlock(contents);
    assert file == (before + contents) + ([NO_COMPRESSION] + Fixed32(0));
  }

  /** A zero checksum stands where a footer has its magic number. */
  lemma TrailerIsNoFooter(file: bytes)
    requires EndsInTrailer(file) && |file| >= FOOTER_LENGTH
    ensures DecodeFooter(file[|file| - FOOTER_LENGTH..]) == Bad
  {
    hide Fixed32, DecodeFixed32;
    var s := file[|file| - FOOTER_LENGTH..];
    assert s[FOOTER_LENGTH - 4..] == file[|file| - BLOCK_TRAILER_SIZE..][1..] == Fixed32(0) + [];
    Fixed32RoundTrip(0, []);
  }
}
