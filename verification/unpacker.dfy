/** `Unpacker`: parsing a container and extracting one file from it. `build` says which
    optional parts (`USE_ENCRYPTION`, `USE_ZLIB`, `USE_LZ4`, `USE_ZSTD`) are compiled in. */
module Unpacker {
  import opened Results
  import opened ByteSeq
  import opened PakTypes
  import opened Layout
  import opened Primitives
  import opened Paths

  datatype UnpackError =
    | OpenFailed
    | ShortHeader
    | InvalidFormat
    | UnsupportedVersion
    | ShortTable
    | EncryptionNotSupported
    | KeyDerivationFailed
    | FileNotFound
    | ShortEnvelope
    | DecryptionFailed
    | CompressionNotSupported(algorithm: CompressionType)
    | UnknownCompressionType(tag: nat)
    | DecompressionFailed

  /** `Unpacker::ParsePakFile`: open, read the header, check magic and version, read
      `NumEntries` table records. The header is as large as the build's struct (with a
      salt only when encryption is compiled in). */
  function ParsePakFile(build: Build, fs: FileSystem, inputPath: string): (r: Result<PakFile, UnpackError>)
    ensures r.Ok? <==>
      && inputPath in fs
      && |fs[inputPath]| >= HeaderSize(build.encryption)
      && HasPakMagic(DecodeHeader(fs[inputPath][..HeaderSize(build.encryption)], build.encryption).id)
      && DecodeHeader(fs[inputPath][..HeaderSize(build.encryption)], build.encryption).version == PakFileVersion
      && |fs[inputPath]| >= HeaderSize(build.encryption)
                            + TableSize(DecodeHeader(fs[inputPath][..HeaderSize(build.encryption)], build.encryption).numEntries)
    ensures inputPath !in fs ==> r == Err(OpenFailed)
    ensures inputPath in fs && |fs[inputPath]| < HeaderSize(build.encryption) ==> r == Err(ShortHeader)
    ensures inputPath in fs && |fs[inputPath]| >= HeaderSize(build.encryption)
            && !HasPakMagic(DecodeHeader(fs[inputPath][..HeaderSize(build.encryption)], build.encryption).id)
            ==> r == Err(InvalidFormat)
    ensures inputPath in fs && |fs[inputPath]| >= HeaderSize(build.encryption)
            && HasPakMagic(DecodeHeader(fs[inputPath][..HeaderSize(build.encryption)], build.encryption).id)
            && DecodeHeader(fs[inputPath][..HeaderSize(build.encryption)], build.encryption).version != PakFileVersion
            ==> r == Err(UnsupportedVersion)
    ensures inputPath in fs && |fs[inputPath]| >= HeaderSize(build.encryption)
            && HasPakMagic(DecodeHeader(fs[inputPath][..HeaderSize(build.encryption)], build.encryption).id)
            && DecodeHeader(fs[inputPath][..HeaderSize(build.encryption)], build.encryption).version == PakFileVersion
            && |fs[inputPath]| < HeaderSize(build.encryption)
                                 + TableSize(DecodeHeader(fs[inputPath][..HeaderSize(build.encryption)], build.encryption).numEntries)
            ==> r == Err(ShortTable)
    ensures r.Err? && r.error == ShortTable ==>
            |fs[inputPath]| < HeaderSize(build.encryption)
                              + TableSize(DecodeHeader(fs[inputPath][..HeaderSize(build.encryption)], build.encryption).numEntries)
    ensures r.Ok? ==> var pak := r.value;
      && pak.file == fs[inputPath]
      && HeaderShaped(pak.header, build.encryption)
      && |pak.entries| == pak.header.numEntries
      && pak.header.version == PakFileVersion && HasPakMagic(pak.header.id)
    ensures r.Ok? ==> r.value.header == DecodeHeader(fs[inputPath][..HeaderSize(build.encryption)], build.encryption)
    ensures r.Ok? ==> r.value.entries == DecodeTable(fs[inputPath][HeaderSize(build.encryption)..], r.value.header.numEntries)
  {
    if inputPath !in fs then Err(OpenFailed)
    else
      var file := fs[inputPath];
      var size := HeaderSize(build.encryption);
      if |file| < size then Err(ShortHeader)
      else
        var header := DecodeHeader(file[..size], build.encryption);
        if !HasPakMagic(header.id) then Err(InvalidFormat)
        else if header.version != PakFileVersion then Err(UnsupportedVersion)
        else if |file| - size < TableSize(header.numEntries) then Err(ShortTable)
        else Ok(PakFile(header, DecodeTable(file[size..], header.numEntries), file))
  }

  /** `std::find_if` on `std::string(entry.FilePath) == filePath`: the first match. */
  function FindEntry(entries: seq<PakFileTableEntry>, filePath: string): (r: Option<nat>)
    ensures r.Some? ==> r.value < |entries| && PathOf(entries[r.value]) == filePath
    ensures r.Some? ==> forall k :: 0 <= k < r.value ==> PathOf(entries[k]) != filePath
    ensures r.None? <==> forall k :: 0 <= k < |entries| ==> PathOf(entries[k]) != filePath
  {
    if |entries| == 0 then None
    else if PathOf(entries[0]) == filePath then Some(0)
    else match FindEntry(entries[1..], filePath)
         case None =>
           assert forall k :: 1 <= k < |entries| ==> entries[k] == entries[1..][k - 1];
           None
         case Some(k) =>
           assert forall j :: 1 <= j <= k ==> entries[j] == entries[1..][j - 1];
           Some(k + 1)
  }

  /** `seekg(offset)` then `read` of `count` bytes into a zeroed vector: a short read is
      not checked, so whatever lies past the end of the file reads as zeros. */
  function ReadAt(file: Bytes, offset: nat, count: nat): (r: Bytes)
    ensures |r| == count
    ensures offset + count <= |file| ==> r == file[offset..offset + count]
    ensures forall k :: 0 <= k < count ==> r[k] == if offset + k < |file| then file[offset + k] else 0
  {
    if offset >= |file| then Zeros(count)
    else if offset + count <= |file| then file[offset..offset + count]
    else file[offset..] + Zeros(offset + count - |file|)
  }

  /** `Unpacker::Decrypt` with the length check the code lacks: an envelope shorter than
      nonce plus tag is refused. Otherwise the nonce is the first 24 bytes and the rest
      is opened; a tag that does not verify throws. */
  function Decrypt(p: Primitives, key: Bytes, buffer: Bytes): (r: Result<Bytes, UnpackError>)
    ensures |buffer| < NonceBytes + MacBytes ==> r == Err(ShortEnvelope)
    ensures |buffer| >= NonceBytes + MacBytes ==>
      (r.Ok? <==> p.open(key, buffer[..NonceBytes], buffer[NonceBytes..]).Some?)
    ensures r.Err? ==> r.error in {ShortEnvelope, DecryptionFailed}
    ensures AeadLaws(p) && r.Ok? ==> |r.value| == |buffer| - NonceBytes - MacBytes
    ensures r.Ok? ==> r.value == p.open(key, buffer[..NonceBytes], buffer[NonceBytes..]).value
  {
    if |buffer| < NonceBytes + MacBytes then Err(ShortEnvelope)
    else match p.open(key, buffer[..NonceBytes], buffer[NonceBytes..])
         case None => Err(DecryptionFailed)
         case Some(message) => Ok(message)
  }

  /** `message_len` as the code computes it: `size - 24 - 16` in `size_t`. */
  function MessageLengthAsWritten(size: nat): (r: nat)
    requires size < U64Modulus
  {
    (size + U64Modulus - NonceBytes - MacBytes) % U64Modulus
  }

  /** For an envelope shorter than 40 bytes the subtraction wraps: `Decrypt` then asks
      for a plaintext buffer of nearly 2^64 bytes (and for fewer than 24 bytes the
      nonce is copied from past the end of the buffer), instead of reporting a
      decryption failure. From 40 bytes on, the length is the intended one. */
  lemma MessageLengthWraps(size: nat)
    requires size < U64Modulus
    ensures size < NonceBytes + MacBytes ==> MessageLengthAsWritten(size) >= U64Modulus - NonceBytes - MacBytes
    ensures size < NonceBytes + MacBytes ==> MessageLengthAsWritten(size) > size
    ensures size >= NonceBytes + MacBytes ==> MessageLengthAsWritten(size) == size - NonceBytes - MacBytes
    ensures MessageLengthAsWritten(39) == U64Modulus - 1
  {
  }

  /** The corrected `Decrypt` refuses exactly the envelopes whose length would wrap. */
  lemma DecryptRefusesWrappingLengths(p: Primitives, key: Bytes, buffer: Bytes)
    requires |buffer| < U64Modulus
    ensures Decrypt(p, key, buffer) == Err(ShortEnvelope) <==> MessageLengthAsWritten(|buffer|) > |buffer|
  {
  }

  /** The bytes a decompressor writes into the zero-filled `OriginalSize` vector. */
  function Fill(written: Bytes, size: nat): (r: Bytes)
    ensures |r| == size
    ensures |written| <= size ==> r == written + Zeros(size - |written|)
  {
    if |written| <= size then written + Zeros(size - |written|) else written[..size]
  }

  /** `LZ4_decompress_safe`'s return value accepted as written (`decompressed_size <= 0`
      throws): a stream that decodes to nothing is refused. */
  predicate Lz4AcceptsAsWritten(written: Option<Bytes>) {
    written.Some? && |written.value| > 0
  }

  /** The intended acceptance: any non-negative return, i.e. any successful decode. */
  predicate Lz4Accepts(written: Option<Bytes>) {
    written.Some?
  }

  /** The source length `ExtractFileToMemory` hands to `mz_uncompress`, as written: the
      entry's `PackedSize`, even after decryption has shrunk the buffer. */
  function ZlibSourceLengthAsWritten(entry: PakFileTableEntry, dataBuffer: Bytes): nat {
    entry.packedSize
  }

  /** The intended source length: the buffer actually held, so the source range
      covers exactly the bytes the buffer holds. It is simply `|dataBuffer|`; it is
      named only as the contrast to `ZlibSourceLengthAsWritten`. */
  function ZlibSourceLength(entry: PakFileTableEntry, dataBuffer: Bytes): (r: nat)
    ensures r <= |dataBuffer| && dataBuffer[..r] == dataBuffer
  {
    |dataBuffer|
  }

  /** For an entry that is not encrypted the buffer read is `PackedSize` bytes long,
      so the length as written and the intended one agree: the overrun arises only
      after decryption has shrunk the buffer. */
  lemma ZlibSourceLengthsAgree(file: Bytes, entry: PakFileTableEntry)
    requires !entry.encrypted
    ensures var stored := ReadAt(file, entry.offset, entry.packedSize);
            ZlibSourceLengthAsWritten(entry, stored) == ZlibSourceLength(entry, stored) == |stored|
  {
  }

  /** For an encrypted entry that decrypts, the source range handed to `mz_uncompress`
      runs 40 bytes past the end of the decrypted buffer. */
  lemma ZlibSourceOverrun(p: Primitives, key: Bytes, file: Bytes, entry: PakFileTableEntry)
    requires AeadLaws(p)
    requires entry.encrypted
    requires Decrypt(p, key, ReadAt(file, entry.offset, entry.packedSize)).Ok?
    ensures var plain := Decrypt(p, key, ReadAt(file, entry.offset, entry.packedSize)).value;
            && ZlibSourceLengthAsWritten(entry, plain) == |plain| + NonceBytes + MacBytes
            && ZlibSourceLength(entry, plain) == |plain|
  {
  }

  /** The decompression step of `ExtractFileToMemory`: an unknown tag is an
      `invalid_argument`; a known one the build lacks is "not supported"; otherwise the
      back end fills an `OriginalSize` buffer (zlib given the whole decrypted buffer,
      LZ4 accepting an empty result). */
  function Inflate(p: Primitives, build: Build, entry: PakFileTableEntry, data: Bytes): (r: Result<Bytes, UnpackError>)
    ensures FromTag(entry.compressionType).None? ==> r == Err(UnknownCompressionType(entry.compressionType))
    ensures FromTag(entry.compressionType).Some? && !build.Supports(FromTag(entry.compressionType).value) ==>
              r == Err(CompressionNotSupported(FromTag(entry.compressionType).value))
    ensures r.Ok? ==> |r.value| == entry.originalSize
    ensures r.Ok? <==>
      && FromTag(entry.compressionType).Some?
      && build.Supports(FromTag(entry.compressionType).value)
      && p.decompress(FromTag(entry.compressionType).value, data, entry.originalSize).Some?
    ensures r.Ok? ==>
      r.value == Fill(p.decompress(FromTag(entry.compressionType).value, data, entry.originalSize).value, entry.originalSize)
  {
    match FromTag(entry.compressionType)
    case None => Err(UnknownCompressionType(entry.compressionType))
    case Some(t) =>
      if !build.Supports(t) then Err(CompressionNotSupported(t))
      else
        var source := data[..ZlibSourceLength(entry, data)];
        assert source == data;
        var written := p.decompress(t, source, entry.originalSize);
        var accepted := if t == LZ4 then Lz4Accepts(written) else written.Some?;
        if !accepted then Err(DecompressionFailed)
        else Ok(Fill(written.value, entry.originalSize))
  }

  /** The LZ4 branch as written: the same as `Inflate` except that an empty result is
      refused. */
  function InflateLz4AsWritten(p: Primitives, entry: PakFileTableEntry, data: Bytes): Result<Bytes, UnpackError> {
    var written := p.decompress(LZ4, data, entry.originalSize);
    if !Lz4AcceptsAsWritten(written) then Err(DecompressionFailed)
    else Ok(Fill(written.value, entry.originalSize))
  }

  /** An empty file packed with LZ4 cannot be extracted as written: its stream decodes
      to zero bytes, which `LZ4_decompress_safe` reports as 0 and the check `<= 0`
      refuses. The corrected `Inflate` returns the empty file. */
  lemma EmptyLz4FileRefusedAsWritten(p: Primitives, build: Build, entry: PakFileTableEntry)
    requires CodecLaws(p)
    requires p.compress(LZ4, []).Some?
    requires build.lz4 && entry.compressionType == LZ4.Tag() && entry.originalSize == 0
    ensures InflateLz4AsWritten(p, entry, p.compress(LZ4, []).value) == Err(DecompressionFailed)
    ensures Inflate(p, build, entry, p.compress(LZ4, []).value) == Ok([])
  {
    CompressionTags(LZ4);
  }

  /** `std::any_of(FileEntries, entry.Encrypted)`. */
  predicate AnyEncryptedEntry(entries: seq<PakFileTableEntry>) {
    exists k :: 0 <= k < |entries| && entries[k].encrypted
  }

  /** The key `ExtractFileToMemory` works with: derived from the header's salt when
      some entry is encrypted, refused outright by a build without encryption. Without
      encrypted entries it is never used. */
  function ExtractionKey(p: Primitives, build: Build, session: Session, pak: PakFile): (r: Result<Bytes, UnpackError>)
    ensures AnyEncryptedEntry(pak.entries) && !build.encryption ==> r == Err(EncryptionNotSupported)
    ensures AnyEncryptedEntry(pak.entries) && build.encryption ==>
              (r.Ok? <==> DeriveKey(p, session, pak.header.salt).Some?)
    ensures !AnyEncryptedEntry(pak.entries) ==> r.Ok?
    ensures r.Ok? && AnyEncryptedEntry(pak.entries) ==> r.value == DeriveKey(p, session, pak.header.salt).value
  {
    if !AnyEncryptedEntry(pak.entries) then Ok([])
    else if !build.encryption then Err(EncryptionNotSupported)
    else match DeriveKey(p, session, pak.header.salt)
         case None => Err(KeyDerivationFailed)
         case Some(key) => Ok(key)
  }

  /** An entry's stored bytes turned back into the file: decrypted first if encrypted,
      then decompressed if compressed. */
  function UnpackPayload(p: Primitives, build: Build, key: Bytes, entry: PakFileTableEntry,
                         stored: Bytes): (r: Result<Bytes, UnpackError>)
    ensures !entry.compressed && !entry.encrypted ==> r == Ok(stored)
    ensures entry.compressed && r.Ok? ==> |r.value| == entry.originalSize
    ensures entry.encrypted && Decrypt(p, key, stored).Err? ==> r == Decrypt(p, key, stored)
    ensures entry.encrypted && !entry.compressed ==> r == Decrypt(p, key, stored)
    ensures entry.compressed && !entry.encrypted ==> r == Inflate(p, build, entry, stored)
    ensures entry.compressed && entry.encrypted && Decrypt(p, key, stored).Ok? ==>
              r == Inflate(p, build, entry, Decrypt(p, key, stored).value)
  {
    var plain :- if entry.encrypted then Decrypt(p, key, stored) else Ok(stored);
    if entry.compressed then Inflate(p, build, entry, plain) else Ok(plain)
  }

  /** `Unpacker::ExtractFileToMemory`: key first, then the first entry named
      `filePath`, its `PackedSize` bytes at `Offset`, decrypted if encrypted,
      decompressed if compressed. */
  function ExtractFileToMemory(p: Primitives, build: Build, session: Session, pak: PakFile,
                               filePath: string): (r: Result<Bytes, UnpackError>)
    ensures ExtractionKey(p, build, session, pak).Err? ==> r == ExtractionKey(p, build, session, pak)
    ensures ExtractionKey(p, build, session, pak).Ok? && FindEntry(pak.entries, filePath).None? ==> r == Err(FileNotFound)
    ensures r.Ok? ==> FindEntry(pak.entries, filePath).Some?
    ensures r.Ok? && pak.entries[FindEntry(pak.entries, filePath).value].compressed ==>
              |r.value| == pak.entries[FindEntry(pak.entries, filePath).value].originalSize
    ensures FindEntry(pak.entries, filePath).Some? && ExtractionKey(p, build, session, pak).Ok? ==>
              var e := pak.entries[FindEntry(pak.entries, filePath).value];
              !e.compressed && !e.encrypted ==> r == Ok(ReadAt(pak.file, e.offset, e.packedSize))
  {
    var key :- ExtractionKey(p, build, session, pak);
    match FindEntry(pak.entries, filePath)
    case None => Err(FileNotFound)
    case Some(k) =>
      var entry := pak.entries[k];
      UnpackPayload(p, build, key, entry, ReadAt(pak.file, entry.offset, entry.packedSize))
  }

  /** Where `ExtractFileToDisk` writes: `outputPath / filename(filePath)`. */
  function ExtractTargetPath(outputPath: string, filePath: string): (r: string)
    ensures FileName(r) == FileName(filePath)
    ensures outputPath <= r
    ensures |outputPath| + |FileName(filePath)| <= |r| <= |outputPath| + 1 + |FileName(filePath)|
    ensures var sep := r[|outputPath|..|r| - |FileName(filePath)|];
            && r == outputPath + sep + FileName(filePath)
            && |sep| <= 1
            && (|sep| == 1 ==> IsSlash(sep[0]) && |outputPath| > 0)
  {
    FileNameSpec(filePath);
    JoinPathFileName(outputPath, FileName(filePath));
    JoinPathParts(outputPath, FileName(filePath));
    JoinPath(outputPath, FileName(filePath))
  }

  /** Writing `bytes` to `path`: that file replaced or created, every other file kept. */
  function WriteFile(fs: FileSystem, path: string, bytes: Bytes): (r: FileSystem)
    ensures r.Keys == fs.Keys + {path}
    ensures r[path] == bytes
    ensures forall other :: other in fs && other != path ==> r[other] == fs[other]
  {
    fs[path := bytes]
  }

  /** `Unpacker::ExtractFileToDisk`: the extracted bytes written to the target path. A
      failed extraction throws before anything is written. */
  function ExtractFileToDisk(p: Primitives, build: Build, session: Session, pak: PakFile, fs: FileSystem,
                             outputPath: string, filePath: string): (r: Result<FileSystem, UnpackError>)
    ensures var bytes := ExtractFileToMemory(p, build, session, pak, filePath);
            && (r.Err? <==> bytes.Err?)
            && (r.Ok? ==> r.value == WriteFile(fs, ExtractTargetPath(outputPath, filePath), bytes.value))
  {
    match ExtractFileToMemory(p, build, session, pak, filePath)
    case Err(e) => Err(e)
    case Ok(bytes) => Ok(WriteFile(fs, ExtractTargetPath(outputPath, filePath), bytes))
  }
}
