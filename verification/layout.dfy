/** The on-disk byte layout of `PakHeader` and `PakFileTableEntry` as a 64-bit MSVC
    build lays the structs out: little-endian integers, `size_t` = 8 bytes, `bool` = 1
    byte, the enum = 4 bytes, natural alignment. */
module Layout {
  import opened ByteSeq
  import opened PakTypes

  /** `sizeof(PakHeader)`: ID[4], Version u32, Salt[16] (or nothing), NumEntries u64. */
  function HeaderSize(withSalt: bool): nat {
    if withSalt then 32 else 16
  }

  /** `sizeof(PakFileTableEntry)`: FilePath[255] at 0, Compressed at 255, Encrypted at
      256, three padding bytes, CompressionType at 260, OriginalSize at 264, PackedSize
      at 272, Offset at 280. */
  const EntrySize: nat := 288

  function SaltSize(withSalt: bool): nat {
    if withSalt then SaltBytes else 0
  }

  /** Field lengths the fixed-size struct imposes. */
  predicate HeaderShaped(h: PakHeader, withSalt: bool) {
    |h.id| == 4 && |h.salt| == SaltSize(withSalt)
  }

  /** Integer fields within their C widths, so that writing them loses nothing. */
  predicate HeaderFits(h: PakHeader) {
    h.version < U32Modulus && h.numEntries < U64Modulus
  }

  predicate EntryFits(e: PakFileTableEntry) {
    && |e.filePath| == FilePathCapacity
    && e.compressionType < U32Modulus
    && e.originalSize < U64Modulus
    && e.packedSize < U64Modulus
    && e.offset < U64Modulus
  }

  function EncodeBool(b: bool): Byte {
    if b then 1 else 0
  }

  /** `x ‖ y` splits back into `x` and `y` at `|x|`. */
  lemma SplitConcat(x: Bytes, y: Bytes)
    ensures (x + y)[..|x|] == x
    ensures (x + y)[|x|..] == y
  {
  }

  function EncodeHeader(h: PakHeader, withSalt: bool): (r: Bytes)
    requires HeaderShaped(h, withSalt)
    ensures |r| == HeaderSize(withSalt)
  {
    h.id + (EncodeLE(h.version, 4) + (h.salt + EncodeLE(h.numEntries, 8)))
  }

  /** Reading a header back: any byte pattern yields some header of the right shape. */
  function DecodeHeader(b: Bytes, withSalt: bool): (h: PakHeader)
    requires |b| == HeaderSize(withSalt)
    ensures HeaderShaped(h, withSalt) && HeaderFits(h)
  {
    var s := SaltSize(withSalt);
    var afterId := b[4..];
    var afterVersion := afterId[4..];
    Pow256Values();
    PakHeader(b[..4], DecodeLE(afterId[..4]), afterVersion[..s], DecodeLE(afterVersion[s..]))
  }

  lemma HeaderRoundTrip(h: PakHeader, withSalt: bool)
    requires HeaderShaped(h, withSalt) && HeaderFits(h)
    ensures DecodeHeader(EncodeHeader(h, withSalt), withSalt) == h
  {
    var v, n := EncodeLE(h.version, 4), EncodeLE(h.numEntries, 8);
    SplitConcat(h.id, v + (h.salt + n));
    SplitConcat(v, h.salt + n);
    SplitConcat(h.salt, n);
    DecodeEncodeU32(h.version);
    DecodeEncodeU64(h.numEntries);
  }

  function EncodeEntry(e: PakFileTableEntry): (r: Bytes)
    requires |e.filePath| == FilePathCapacity
    ensures |r| == EntrySize
  {
    e.filePath + ([EncodeBool(e.compressed), EncodeBool(e.encrypted), 0, 0, 0] + SizeFields(e))
  }

  /** Reading an entry back; a bool byte other than 0 reads as true. */
  function DecodeEntry(b: Bytes): (e: PakFileTableEntry)
    requires |b| == EntrySize
    ensures EntryFits(e)
  {
    var flags := b[FilePathCapacity..];
    var sizes := flags[5..];
    var afterOriginal := sizes[12..];
    Pow256Values();
    PakFileTableEntry(
      b[..FilePathCapacity], flags[0] != 0, flags[1] != 0,
      DecodeLE(sizes[..4]), DecodeLE(sizes[4..12]),
      DecodeLE(afterOriginal[..8]), DecodeLE(afterOriginal[8..]))
  }

  /** The fields an encoded entry splits into, as its decoder reads them. */
  lemma EntryFields(e: PakFileTableEntry)
    requires |e.filePath| == FilePathCapacity
    ensures EncodeEntry(e)[..FilePathCapacity] == e.filePath
    ensures EncodeEntry(e)[FilePathCapacity] == EncodeBool(e.compressed)
    ensures EncodeEntry(e)[FilePathCapacity + 1] == EncodeBool(e.encrypted)
    ensures EncodeEntry(e)[FilePathCapacity..][5..][..4] == EncodeLE(e.compressionType, 4)
    ensures EncodeEntry(e)[FilePathCapacity..][5..][4..12] == EncodeLE(e.originalSize, 8)
    ensures EncodeEntry(e)[FilePathCapacity..][5..][12..][..8] == EncodeLE(e.packedSize, 8)
    ensures EncodeEntry(e)[FilePathCapacity..][5..][12..][8..] == EncodeLE(e.offset, 8)
  {
    var flags := [EncodeBool(e.compressed), EncodeBool(e.encrypted), 0, 0, 0];
    var sizes := SizeFields(e);
    SplitConcat(e.filePath, flags + sizes);
    SplitConcat(flags, sizes);
    SizeFieldsSplit(e);
  }

  /** The four integer fields of an encoded entry, after its path and flag bytes. */
  function SizeFields(e: PakFileTableEntry): (r: Bytes)
    ensures |r| == 28
  {
    EncodeLE(e.compressionType, 4)
      + (EncodeLE(e.originalSize, 8)
      + (EncodeLE(e.packedSize, 8)
      + EncodeLE(e.offset, 8)))
  }

  lemma SizeFieldsSplit(e: PakFileTableEntry)
    ensures SizeFields(e)[..4] == EncodeLE(e.compressionType, 4)
    ensures SizeFields(e)[4..12] == EncodeLE(e.originalSize, 8)
    ensures SizeFields(e)[12..][..8] == EncodeLE(e.packedSize, 8)
    ensures SizeFields(e)[12..][8..] == EncodeLE(e.offset, 8)
  {
    var t, o := EncodeLE(e.compressionType, 4), EncodeLE(e.originalSize, 8);
    var p, f := EncodeLE(e.packedSize, 8), EncodeLE(e.offset, 8);
    SplitConcat(t, o + (p + f));
    SplitConcat(o, p + f);
    SplitConcat(p, f);
  }

  lemma EntryRoundTrip(e: PakFileTableEntry)
    requires EntryFits(e)
    ensures DecodeEntry(EncodeEntry(e)) == e
  {
    EntryFields(e);
    DecodeEncodeU32(e.compressionType);
    DecodeEncodeU64(e.originalSize);
    DecodeEncodeU64(e.packedSize);
    DecodeEncodeU64(e.offset);
  }

  predicate TableShaped(es: seq<PakFileTableEntry>) {
    forall j :: 0 <= j < |es| ==> |es[j].filePath| == FilePathCapacity
  }

  predicate TableFits(es: seq<PakFileTableEntry>) {
    forall j :: 0 <= j < |es| ==> EntryFits(es[j])
  }

  /** `n * sizeof(PakFileTableEntry)`, spelled out so that proofs stay linear. */
  function TableSize(n: nat): nat {
    if n == 0 then 0 else TableSize(n - 1) + EntrySize
  }

  lemma {:induction false} TableSizeIsProduct(n: nat)
    ensures TableSize(n) == n * EntrySize
  {
    if n > 0 {
      TableSizeIsProduct(n - 1);
    }
  }

  /** The table: the entries' records back to back. */
  function EncodeTable(es: seq<PakFileTableEntry>): (r: Bytes)
    requires TableShaped(es)
    ensures |r| == TableSize(|es|)
  {
    if |es| == 0 then []
    else
      assert TableShaped(es[1..]);
      EncodeEntry(es[0]) + EncodeTable(es[1..])
  }

  /** `n` records read from the front of `b`, in file order. */
  function DecodeTable(b: Bytes, n: nat): (es: seq<PakFileTableEntry>)
    requires TableSize(n) <= |b|
    ensures |es| == n
  {
    if n == 0 then []
    else
      [DecodeEntry(b[..EntrySize])] + DecodeTable(b[EntrySize..], n - 1)
  }

  /** An encoded table followed by anything splits after its first record. */
  lemma TableSplit(es: seq<PakFileTableEntry>, rest: Bytes)
    requires TableShaped(es) && |es| > 0
    ensures TableShaped(es[1..])
    ensures (EncodeTable(es) + rest)[..EntrySize] == EncodeEntry(es[0])
    ensures (EncodeTable(es) + rest)[EntrySize..] == EncodeTable(es[1..]) + rest
  {
    assert TableShaped(es[1..]);
    var tail := EncodeTable(es[1..]) + rest;
    AppendAssoc(EncodeEntry(es[0]), EncodeTable(es[1..]), rest);
    SplitConcat(EncodeEntry(es[0]), tail);
  }

  lemma AppendAssoc(x: Bytes, y: Bytes, z: Bytes)
    ensures (x + y) + z == x + (y + z)
  {
  }

  lemma TableFitsTail(es: seq<PakFileTableEntry>)
    requires TableFits(es) && |es| > 0
    ensures TableFits(es[1..])
  {
    var more := es[1..];
    forall j | 0 <= j < |more|
      ensures EntryFits(more[j])
    {
      assert more[j] == es[j + 1];
    }
  }

  /** Decoding the records of an encoded table, whatever follows it, gives the table back. */
  lemma {:induction false} TableRoundTrip(es: seq<PakFileTableEntry>, rest: Bytes)
    requires TableFits(es)
    ensures TableShaped(es)
    ensures DecodeTable(EncodeTable(es) + rest, |es|) == es
  {
    assert TableShaped(es);
    if |es| > 0 {
      var b := EncodeTable(es) + rest;
      TableSplit(es, rest);
      TableFitsTail(es);
      TableRoundTrip(es[1..], rest);
      EntryRoundTrip(es[0]);
      DecodeTableCons(b, |es|, es[0], es[1..]);
      assert es == [es[0]] + es[1..];
    }
  }

  /** Decoding a table whose first record and remainder decode to `first` and `more`. */
  lemma DecodeTableCons(b: Bytes, n: nat, first: PakFileTableEntry, more: seq<PakFileTableEntry>)
    requires n > 0 && TableSize(n) <= |b|
    requires DecodeEntry(b[..EntrySize]) == first
    requires DecodeTable(b[EntrySize..], n - 1) == more
    ensures DecodeTable(b, n) == [first] + more
  {
  }
}
