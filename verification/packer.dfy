/** `Packer::CreatePakFile` and its helpers: every source that opens becomes one table
    entry and one payload, payloads are concatenated in item order, and the file is
    written as header ‖ table ‖ payloads. */
module Packer {
  import opened Results
  import opened ByteSeq
  import opened PakTypes
  import opened Layout
  import opened Primitives

  datatype PackError =
    | KeyDerivationFailed
    | UnknownCompressionType(tag: nat)
    | CompressionFailed(algorithm: CompressionType)

  /** `Packer::Encrypt`: a fresh nonce followed by the secretbox of the message. */
  function Encrypt(p: Primitives, key: Bytes, nonce: Bytes, message: Bytes): Bytes {
    nonce + p.seal(key, nonce, message)
  }

  /** The envelope is nonce ‖ ciphertext ‖ tag: 40 bytes longer than the message, the
      nonce first. */
  lemma EncryptShape(p: Primitives, key: Bytes, nonce: Bytes, message: Bytes)
    requires AeadLaws(p)
    requires |nonce| == NonceBytes
    ensures |Encrypt(p, key, nonce, message)| == |message| + NonceBytes + MacBytes
    ensures Encrypt(p, key, nonce, message)[..NonceBytes] == nonce
  {
  }

  /** A vector resized to `n` after its first bytes were written: zero-filled behind
      `b`. `mz_compress2` never writes past the bound it was given, so the other
      branch does not arise. */
  function ZeroExtend(b: Bytes, n: nat): (r: Bytes)
    ensures b <= r
    ensures |b| <= n ==> |r| == n
  {
    if |b| <= n then b + Zeros(n - |b|) else b
  }

  /** An entry's stored bytes and the entry describing them (offset still 0). */
  datatype Packed = Packed(entry: PakFileTableEntry, payload: Bytes)

  /** One pass of the loop body of `CreatePakFile` for a source that opened. The size is
      cast to `unsigned int` before the source is read, so only that many bytes are
      packed. Compressed items use the selected algorithm; encrypted ones are sealed
      after compression. For an encrypted ZLIB item the whole `compressBound`-sized
      vector is sealed, since that branch does not shrink it to the compressed size. */
  function PackItem(p: Primitives, key: Bytes, nonce: Bytes, item: PakFileItem, source: Bytes,
                    compressionType: nat): (r: Result<Packed, PackError>)
    requires ValidPackedPath(item.packedPath)
    ensures r.Ok? ==>
      var e := r.value.entry;
      && |e.filePath| == FilePathCapacity
      && PathOf(e) == item.packedPath
      && e.compressed == item.compressed
      && e.encrypted == item.encrypted
      && e.compressionType == (if item.compressed then compressionType else 0)
      && e.originalSize == U32(|source|)
      && e.packedSize == U32(|r.value.payload|)
      && e.offset == 0
    ensures r.Ok? ==> r.value.entry.compressionType < CompressionCount
    ensures r.Err? <==>
      && item.compressed
      && (|| FromTag(compressionType).None?
          || p.compress(FromTag(compressionType).value, source[..U32(|source|)]).None?)
    ensures r.Err? && FromTag(compressionType).None? ==> r.error == UnknownCompressionType(compressionType)
  {
    var size := U32(|source|);
    var data := source[..size];
    PathBufferRoundTrip(PakFileTableEntry(PathBuffer(item.packedPath), false, false, 0, 0, 0, 0), item.packedPath);
    var entry := PakFileTableEntry(PathBuffer(item.packedPath), item.compressed, false,
                                   if item.compressed then compressionType else 0, size, 0, 0);
    if item.compressed then
      match FromTag(compressionType)
      case None => Err(UnknownCompressionType(compressionType))
      case Some(t) =>
        match p.compress(t, data)
        case None => Err(CompressionFailed(t))
        case Some(compressed) =>
          if item.encrypted then
            var buffer := if t == ZLIB then ZeroExtend(compressed, p.compressBound(t, size)) else compressed;
            var sealed := Encrypt(p, key, nonce, buffer);
            Ok(Packed(entry.(encrypted := true, packedSize := U32(|sealed|)), sealed))
          else
            Ok(Packed(entry.(packedSize := U32(|compressed|)), compressed))
    else if item.encrypted then
      var sealed := Encrypt(p, key, nonce, data);
      Ok(Packed(entry.(encrypted := true, packedSize := U32(|sealed|)), sealed))
    else
      Ok(Packed(entry.(packedSize := size), data))
  }

  /** An uncompressed, unencrypted item is stored verbatim, with PackedSize equal to
      OriginalSize. */
  lemma PlainItemStoredVerbatim(p: Primitives, key: Bytes, nonce: Bytes, item: PakFileItem,
                                source: Bytes, compressionType: nat)
    requires ValidPackedPath(item.packedPath)
    requires !item.compressed && !item.encrypted
    requires |source| < U32Modulus
    ensures PackItem(p, key, nonce, item, source, compressionType).Ok?
    ensures PackItem(p, key, nonce, item, source, compressionType).value.payload == source
    ensures PackItem(p, key, nonce, item, source, compressionType).value.entry.packedSize
         == PackItem(p, key, nonce, item, source, compressionType).value.entry.originalSize
         == |source|
  {
  }

  /** Every source that opens needs a packed path the 255-byte buffer can hold. */
  ghost predicate PackablePaths(items: seq<PakFileItem>, fs: FileSystem) {
    forall i :: 0 <= i < |items| && items[i].path in fs ==> ValidPackedPath(items[i].packedPath)
  }

  lemma PackablePrefix(items: seq<PakFileItem>, fs: FileSystem, n: nat)
    requires PackablePaths(items, fs) && n <= |items|
    ensures PackablePaths(items[..n], fs)
  {
    forall i | 0 <= i < n && items[..n][i].path in fs
      ensures ValidPackedPath(items[..n][i].packedPath)
    {
      assert items[..n][i] == items[i];
    }
  }

  /** The packed paths of the items whose sources open, in item order. */
  function OpenedPaths(items: seq<PakFileItem>, fs: FileSystem): seq<string> {
    if |items| == 0 then []
    else
      var last := items[|items| - 1];
      OpenedPaths(items[..|items| - 1], fs) + (if last.path in fs then [last.packedPath] else [])
  }

  /** What the `unsigned int` casts guarantee about a fresh entry. */
  predicate EntryBounded(e: PakFileTableEntry) {
    && e.compressionType < CompressionCount
    && e.originalSize < U32Modulus && e.packedSize < U32Modulus && e.offset < U32Modulus
  }

  /** The entries gathered so far and the data buffer they index. */
  datatype Table = Table(entries: seq<PakFileTableEntry>, data: Bytes)

  /** The loop of `CreatePakFile` over `items` (nonce `i` is the one drawn for item `i`).
      A source that does not open is skipped; each other item's entry records the
      buffer's size before its payload is appended. The first error ends the loop. */
  function CollectEntries(p: Primitives, key: Bytes, items: seq<PakFileItem>, fs: FileSystem,
                          compressionType: nat, nonces: seq<Bytes>): (r: Result<Table, PackError>)
    requires |nonces| >= |items|
    requires PackablePaths(items, fs)
    ensures r.Ok? ==> |r.value.entries| == |OpenedPaths(items, fs)|
    ensures r.Ok? ==> TableShaped(r.value.entries)
    ensures r.Ok? ==> forall k :: 0 <= k < |r.value.entries| ==> EntryBounded(r.value.entries[k])
    decreases |items|
  {
    if |items| == 0 then Ok(Table([], []))
    else
      var last := |items| - 1;
      PackablePrefix(items, fs, last);
      var t :- CollectEntries(p, key, items[..last], fs, compressionType, nonces);
      var item := items[last];
      if item.path !in fs then Ok(t)
      else
        var packed :- PackItem(p, key, nonces[last], item, fs[item.path], compressionType);
        var entry := packed.entry.(offset := U32(|t.data|));
        Ok(Table(t.entries + [entry], t.data + packed.payload))
  }

  /** Some item whose source opens asks for compression, and either the selected tag
      names no algorithm or the back end refuses the bytes read from that source. */
  predicate SomeItemFails(p: Primitives, items: seq<PakFileItem>, fs: FileSystem, compressionType: nat) {
    exists i :: 0 <= i < |items| && items[i].path in fs && items[i].compressed
      && (|| FromTag(compressionType).None?
          || p.compress(FromTag(compressionType).value, fs[items[i].path][..U32(|fs[items[i].path]|)]).None?)
  }

  /** The loop stops with an error exactly when some opened item cannot be packed. */
  lemma {:induction false} CollectFails(p: Primitives, key: Bytes, items: seq<PakFileItem>, fs: FileSystem,
                                        compressionType: nat, nonces: seq<Bytes>)
    requires |nonces| >= |items| && PackablePaths(items, fs)
    ensures CollectEntries(p, key, items, fs, compressionType, nonces).Err?
        <==> SomeItemFails(p, items, fs, compressionType)
    decreases |items|
  {
    if |items| > 0 {
      var last := |items| - 1;
      PackablePrefix(items, fs, last);
      CollectFails(p, key, items[..last], fs, compressionType, nonces);
      forall i | 0 <= i < last
        ensures items[..last][i] == items[i]
      {
      }
    }
  }

  /** `std::any_of(files, item.encrypted)`. */
  predicate AnyEncrypted(items: seq<PakFileItem>) {
    exists i :: 0 <= i < |items| && items[i].encrypted
  }

  /** `baseOffset`: header plus table, computed in `size_t` from an `unsigned int` entry
      count and stored in an `unsigned int`. */
  function BaseOffset(n: nat): (r: nat)
    ensures HeaderSize(true) + TableSize(n) < U32Modulus ==> r == HeaderSize(true) + TableSize(n)
  {
    TableSizeIsProduct(n);
    U32(HeaderSize(true) + U32(n) * EntrySize)
  }

  /** `e.Offset += baseOffset` for every entry, in `size_t`. */
  function Rebase(es: seq<PakFileTableEntry>, base: nat): (r: seq<PakFileTableEntry>)
    ensures |r| == |es|
    ensures forall k :: 0 <= k < |es| ==> r[k].(offset := 0) == es[k].(offset := 0)
    ensures forall k :: 0 <= k < |es| ==> r[k].offset < U64Modulus && (r[k].offset - es[k].offset - base) % U64Modulus == 0
    ensures forall k :: 0 <= k < |es| && es[k].offset + base < U64Modulus ==> r[k].offset == es[k].offset + base
  {
    seq(|es|, k requires 0 <= k < |es| => es[k].(offset := (es[k].offset + base) % U64Modulus))
  }

  /** What `CreatePakFile` writes, before serialisation. */
  datatype Container = Container(header: PakHeader, entries: seq<PakFileTableEntry>, data: Bytes)

  /** The key `CreatePakFile` encrypts with: derived from the session password and a
      fresh salt when any item asks for encryption (even one whose source will not
      open), otherwise never used. */
  function PackKey(p: Primitives, session: Session, items: seq<PakFileItem>, salt: Bytes): (r: Result<Bytes, PackError>)
    ensures AnyEncrypted(items) ==> (r.Ok? <==> DeriveKey(p, session, salt).Some?)
    ensures AnyEncrypted(items) && r.Ok? ==> r.value == DeriveKey(p, session, salt).value
    ensures !AnyEncrypted(items) ==> r.Ok?
    ensures r.Err? ==> r.error == KeyDerivationFailed
  {
    if !AnyEncrypted(items) then Ok([])
    else match DeriveKey(p, session, salt)
         case None => Err(KeyDerivationFailed)
         case Some(k) => Ok(k)
  }

  /** Everything `CreatePakFile` computes before opening the output: the key, the
      entries and data, the header (salt filled only when encrypting) and the rebased
      offsets. */
  function AssembleContainer(p: Primitives, session: Session, items: seq<PakFileItem>, fs: FileSystem,
                             compressionType: nat, salt: Bytes, nonces: seq<Bytes>): (r: Result<Container, PackError>)
    requires |salt| == SaltBytes && |nonces| == |items|
    requires PackablePaths(items, fs)
    ensures r.Ok? ==> r.value.header.id == PakId && r.value.header.version == PakFileVersion
    ensures r.Ok? ==> r.value.header.salt == (if AnyEncrypted(items) then salt else Zeros(SaltBytes))
    ensures r.Ok? ==> r.value.header.numEntries == |r.value.entries| == |OpenedPaths(items, fs)|
    ensures r.Ok? ==> HeaderShaped(r.value.header, true) && TableShaped(r.value.entries)
    ensures AnyEncrypted(items) && DeriveKey(p, session, salt).None? ==> r == Err(KeyDerivationFailed)
  {
    var key :- PackKey(p, session, items, salt);
    var t :- CollectEntries(p, key, items, fs, compressionType, nonces);
    var header := PakHeader(PakId, PakFileVersion, if AnyEncrypted(items) then salt else Zeros(SaltBytes), |t.entries|);
    var entries := Rebase(t.entries, BaseOffset(|t.entries|));
    assert TableShaped(entries);
    Ok(Container(header, entries, t.data))
  }

  /** The output stream's contents: header, then table, then data. */
  function Serialize(c: Container): (r: Bytes)
    requires HeaderShaped(c.header, true) && TableShaped(c.entries)
    ensures |r| == HeaderSize(true) + TableSize(|c.entries|) + |c.data|
  {
    EncodeHeader(c.header, true) + EncodeTable(c.entries) + c.data
  }

  function PakBytes(p: Primitives, session: Session, items: seq<PakFileItem>, fs: FileSystem,
                    compressionType: nat, salt: Bytes, nonces: seq<Bytes>): Result<Bytes, PackError>
    requires |salt| == SaltBytes && |nonces| == |items|
    requires PackablePaths(items, fs)
  {
    var c :- AssembleContainer(p, session, items, fs, compressionType, salt, nonces);
    Ok(Serialize(c))
  }

  /** Once the key is in hand, serialisation fails exactly when the loop does. */
  lemma PakBytesFails(p: Primitives, session: Session, items: seq<PakFileItem>, fs: FileSystem,
                      compressionType: nat, salt: Bytes, nonces: seq<Bytes>)
    requires |salt| == SaltBytes && |nonces| == |items|
    requires PackablePaths(items, fs)
    ensures PackKey(p, session, items, salt).Ok? ==>
      (PakBytes(p, session, items, fs, compressionType, salt, nonces).Err? <==> SomeItemFails(p, items, fs, compressionType))
  {
    if PackKey(p, session, items, salt).Ok? {
      CollectFails(p, PackKey(p, session, items, salt).value, items, fs, compressionType, nonces);
    }
  }

  /** `Packer::CreatePakFile`. When an item asks for encryption and key derivation
      fails, `GenerateEncryptionKey` throws before any item is read: that is the
      `Err(KeyDerivationFailed)` outcome, not a return value. Otherwise the call returns:
      `false` with the file system untouched when packing an item fails (the output is
      opened only after the loop), `true` with the container written to `targetPath`
      otherwise. `salt` and `nonces` are the random bytes drawn. */
  function CreatePakFile(p: Primitives, session: Session, items: seq<PakFileItem>, fs: FileSystem,
                         targetPath: string, compressionType: nat, salt: Bytes,
                         nonces: seq<Bytes>): (r: Result<(bool, FileSystem), PackError>)
    requires |salt| == SaltBytes && |nonces| == |items|
    requires PackablePaths(items, fs)
    ensures r.Err? <==> AnyEncrypted(items) && DeriveKey(p, session, salt).None?
    ensures r.Err? ==> r.error == KeyDerivationFailed
    ensures r.Ok? ==> (!r.value.0 <==> PakBytes(p, session, items, fs, compressionType, salt, nonces).Err?)
    ensures r.Ok? ==> (!r.value.0 <==> SomeItemFails(p, items, fs, compressionType))
    ensures r.Ok? && !r.value.0 ==> r.value.1 == fs
    ensures r.Ok? && r.value.0 ==> r.value.1.Keys == fs.Keys + {targetPath}
    ensures r.Ok? && r.value.0 ==> r.value.1[targetPath] == PakBytes(p, session, items, fs, compressionType, salt, nonces).value
    ensures r.Ok? ==> forall path :: path in fs && path != targetPath ==> path in r.value.1 && r.value.1[path] == fs[path]
  {
    PakBytesFails(p, session, items, fs, compressionType, salt, nonces);
    match PackKey(p, session, items, salt)
    case Err(e) => Err(e)
    case Ok(_) =>
      match PakBytes(p, session, items, fs, compressionType, salt, nonces)
      case Err(_) => Ok((false, fs))
      case Ok(bytes) => Ok((true, fs[targetPath := bytes]))
  }

  /** `Packer::CompressionTypeToString`. */
  function CompressionTypeToString(tag: nat): string {
    match FromTag(tag)
    case Some(LZ4) => "LZ4"
    case Some(ZLIB) => "Zlib"
    case Some(ZSTD) => "Zstd"
    case None => "Unknown"
  }

  /** The three algorithms have distinct names, and every other value reads "Unknown". */
  lemma CompressionNames(tag: nat)
    ensures CompressionTypeToString(LZ4.Tag()) == "LZ4"
    ensures CompressionTypeToString(ZLIB.Tag()) == "Zlib"
    ensures CompressionTypeToString(ZSTD.Tag()) == "Zstd"
    ensures CompressionTypeToString(tag) == "Unknown" <==> tag >= CompressionCount
  {
  }
}
