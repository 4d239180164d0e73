/** Packing then parsing then extracting gives every packed file back: the envelope,
    the codecs, the table layout and the offsets all line up. */
module RoundTrip {
  import opened Results
  import opened ByteSeq
  import opened PakTypes
  import opened Layout
  import opened Primitives
  import opened Packer
  import opened PackerProps
  import opened Unpacker

  /** `Unpacker::Decrypt` undoes `Packer::Encrypt` under the same key. */
  lemma DecryptEncrypt(p: Primitives, key: Bytes, nonce: Bytes, message: Bytes)
    requires AeadLaws(p) && |nonce| == NonceBytes
    ensures Decrypt(p, key, Encrypt(p, key, nonce, message)) == Ok(message)
  {
    var envelope := Encrypt(p, key, nonce, message);
    EncryptShape(p, key, nonce, message);
    assert envelope[NonceBytes..] == p.seal(key, nonce, message);
  }

  /** An entry that is not encrypted unpacks the same whatever the key. */
  lemma UnpackIgnoresKey(p: Primitives, build: Build, key: Bytes, other: Bytes, entry: PakFileTableEntry, stored: Bytes)
    requires !entry.encrypted
    ensures UnpackPayload(p, build, key, entry, stored) == UnpackPayload(p, build, other, entry, stored)
  {
  }

  /** The bytes `PackItem` read from a source: at most 2^32 - 1 of them. */
  function PackedSource(source: Bytes): (r: Bytes)
    ensures |source| < U32Modulus ==> r == source
  {
    source[..U32(|source|)]
  }

  /** Decompressing what was compressed (and, for zlib, zero-extended) gives the
      source back, in an `OriginalSize` buffer. */
  lemma InflateCompressed(p: Primitives, build: Build, entry: PakFileTableEntry, t: CompressionType,
                          data: Bytes, stored: Bytes)
    requires CodecLaws(p) && ZlibIgnoresTrailingBytes(p)
    requires build.Supports(t) && FromTag(entry.compressionType) == Some(t)
    requires entry.originalSize == |data| && p.compress(t, data).Some?
    requires stored == p.compress(t, data).value || (t == ZLIB && p.compress(t, data).value <= stored)
    ensures Inflate(p, build, entry, stored) == Ok(data)
  {
    assert p.decompress(t, stored, |data|) == Some(data) by {
      if stored != p.compress(t, data).value {
        assert t == ZLIB;
      }
    }
    assert stored[..ZlibSourceLength(entry, stored)] == stored;
    assert Fill(data, |data|) == data;
  }

  /** Every combination of the compressed and encrypted flags: unpacking what
      `PackItem` stored gives back the bytes it read. */
  lemma PayloadRoundTrip(p: Primitives, build: Build, key: Bytes, nonce: Bytes, item: PakFileItem,
                         source: Bytes, compressionType: nat, offset: nat)
    requires Lawful(p) && |nonce| == NonceBytes
    requires ValidPackedPath(item.packedPath)
    requires PackItem(p, key, nonce, item, source, compressionType).Ok?
    requires item.compressed ==> build.Supports(FromTag(compressionType).value)
    ensures var packed := PackItem(p, key, nonce, item, source, compressionType).value;
            UnpackPayload(p, build, key, packed.entry.(offset := offset), packed.payload) == Ok(PackedSource(source))
  {
    var packed := PackItem(p, key, nonce, item, source, compressionType).value;
    var entry := packed.entry.(offset := offset);
    var data := PackedSource(source);
    if item.compressed {
      var t := FromTag(compressionType).value;
      var compressed := p.compress(t, data).value;
      var buffer := if t == ZLIB then ZeroExtend(compressed, p.compressBound(t, |data|)) else compressed;
      if item.encrypted {
        assert packed.payload == Encrypt(p, key, nonce, buffer);
        DecryptEncrypt(p, key, nonce, buffer);
        InflateCompressed(p, build, entry, t, data, buffer);
      } else {
        assert packed.payload == compressed;
        InflateCompressed(p, build, entry, t, data, compressed);
      }
    } else if item.encrypted {
      DecryptEncrypt(p, key, nonce, data);
    }
  }

  /** The steps `AssembleContainer` takes on success. */
  lemma AssembleSteps(p: Primitives, session: Session, items: seq<PakFileItem>, fs: FileSystem,
                      ct: nat, salt: Bytes, nonces: seq<Bytes>)
    requires |salt| == SaltBytes && |nonces| == |items| && PackablePaths(items, fs)
    requires AssembleContainer(p, session, items, fs, ct, salt, nonces).Ok?
    ensures PackKey(p, session, items, salt).Ok?
    ensures CollectEntries(p, PackKey(p, session, items, salt).value, items, fs, ct, nonces).Ok?
    ensures var t := CollectEntries(p, PackKey(p, session, items, salt).value, items, fs, ct, nonces).value;
            var c := AssembleContainer(p, session, items, fs, ct, salt, nonces).value;
            && c.entries == Rebase(t.entries, BaseOffset(|t.entries|))
            && c.data == t.data
  {
  }

  function SumPackedAgree(es: seq<PakFileTableEntry>, fs2: seq<PakFileTableEntry>): bool {
    |es| == |fs2| && forall k :: 0 <= k < |es| ==> es[k].packedSize == fs2[k].packedSize
  }

  lemma {:induction false} SumPackedOfSameSizes(es: seq<PakFileTableEntry>, other: seq<PakFileTableEntry>)
    requires SumPackedAgree(es, other)
    ensures SumPacked(es) == SumPacked(other)
    decreases |es|
  {
    if |es| > 0 {
      var last := |es| - 1;
      SumPackedOfSameSizes(es[..last], other[..last]);
    }
  }

  /** Rebasing offsets that are running sums of the packed sizes. */
  lemma RebasedOffsets(es: seq<PakFileTableEntry>, base: nat)
    requires forall k :: 0 <= k < |es| ==> es[k].offset == SumPacked(es[..k]) && es[k].offset < U32Modulus
    requires base < U32Modulus
    ensures SumPacked(Rebase(es, base)) == SumPacked(es)
    ensures forall k :: 0 <= k < |es| ==> Rebase(es, base)[k].offset == base + SumPacked(Rebase(es, base)[..k])
  {
    RebasedPrefixSizes(es, base, |es|);
    assert es[..|es|] == es;
    assert Rebase(es, base)[..|es|] == Rebase(es, base);
    forall k | 0 <= k < |es|
      ensures Rebase(es, base)[k].offset == base + SumPacked(Rebase(es, base)[..k])
    {
      RebasedOffsetAt(es, base, k);
    }
  }

  lemma RebasedOffsetAt(es: seq<PakFileTableEntry>, base: nat, k: nat)
    requires k < |es|
    requires es[k].offset == SumPacked(es[..k]) && es[k].offset < U32Modulus && base < U32Modulus
    ensures Rebase(es, base)[k].offset == base + SumPacked(Rebase(es, base)[..k])
  {
    RebasedPrefixSizes(es, base, k);
  }

  lemma RebasedPrefixSizes(es: seq<PakFileTableEntry>, base: nat, k: nat)
    requires k <= |es|
    ensures SumPacked(Rebase(es, base)[..k]) == SumPacked(es[..k])
  {
    var rebased := Rebase(es, base);
    assert SumPackedAgree(rebased[..k], es[..k]) by {
      forall j | 0 <= j < k
        ensures rebased[..k][j].packedSize == es[..k][j].packedSize
      {
        assert rebased[..k][j] == rebased[j];
      }
    }
    SumPackedOfSameSizes(rebased[..k], es[..k]);
  }

  /** The file a container serialises to stays under 4 GiB, the range of the
      `unsigned int` offsets. */
  predicate Under4GiB(c: Container) {
    HeaderSize(true) + TableSize(|c.entries|) + |c.data| < U32Modulus
  }

  /** The stored offsets: header size, plus the table, plus the sizes of the entries
      before. Requires the whole file to stay under 4 GiB, so that neither the
      `unsigned int` offsets nor the base wrap. */
  lemma ContainerOffsets(p: Primitives, session: Session, items: seq<PakFileItem>, fs: FileSystem,
                         ct: nat, salt: Bytes, nonces: seq<Bytes>)
    requires |salt| == SaltBytes && |nonces| == |items| && PackablePaths(items, fs)
    requires AssembleContainer(p, session, items, fs, ct, salt, nonces).Ok?
    requires Under4GiB(AssembleContainer(p, session, items, fs, ct, salt, nonces).value)
    ensures var c := AssembleContainer(p, session, items, fs, ct, salt, nonces).value;
            && SumPacked(c.entries) == |c.data|
            && forall k :: 0 <= k < |c.entries| ==>
                 c.entries[k].offset == HeaderSize(true) + TableSize(|c.entries|) + SumPacked(c.entries[..k])
  {
    var c := AssembleContainer(p, session, items, fs, ct, salt, nonces).value;
    AssembleSteps(p, session, items, fs, ct, salt, nonces);
    var key := PackKey(p, session, items, salt).value;
    var t := CollectEntries(p, key, items, fs, ct, nonces).value;
    CollectOffsets(p, key, items, fs, ct, nonces);
    RebasedOffsets(t.entries, BaseOffset(|t.entries|));
  }

  /** The container `CreatePakFile` assembles is within the C field widths once the
      file stays under 4 GiB. */
  lemma ContainerFits(p: Primitives, session: Session, items: seq<PakFileItem>, fs: FileSystem,
                      ct: nat, salt: Bytes, nonces: seq<Bytes>)
    requires |salt| == SaltBytes && |nonces| == |items| && PackablePaths(items, fs)
    requires AssembleContainer(p, session, items, fs, ct, salt, nonces).Ok?
    requires Under4GiB(AssembleContainer(p, session, items, fs, ct, salt, nonces).value)
    ensures var c := AssembleContainer(p, session, items, fs, ct, salt, nonces).value;
            HeaderFits(c.header) && TableFits(c.entries)
  {
    var c := AssembleContainer(p, session, items, fs, ct, salt, nonces).value;
    AssembleSteps(p, session, items, fs, ct, salt, nonces);
    TableSizeIsProduct(|c.entries|);
    var t := CollectEntries(p, PackKey(p, session, items, salt).value, items, fs, ct, nonces).value;
    forall k | 0 <= k < |c.entries|
      ensures EntryFits(c.entries[k])
    {
      assert EntryBounded(t.entries[k]);
    }
  }

  /** Parsing the bytes `CreatePakFile` wrote gives back its header and table, for a
      reader built with encryption support (the same header layout). */
  lemma ParseSerialized(build: Build, fs: FileSystem, target: string, c: Container)
    requires build.encryption
    requires HeaderShaped(c.header, true) && HeaderFits(c.header) && TableFits(c.entries)
    requires c.header.id == PakId && c.header.version == PakFileVersion && c.header.numEntries == |c.entries|
    ensures TableShaped(c.entries)
    ensures ParsePakFile(build, fs[target := Serialize(c)], target) == Ok(PakFile(c.header, c.entries, Serialize(c)))
  {
    TableRoundTrip(c.entries, c.data);
    SerializedParts(c);
    HeaderRoundTrip(c.header, true);
    DefaultHeaderIsAccepted(true);
    var file := Serialize(c);
    var size := HeaderSize(true);
    assert DecodeHeader(file[..size], true) == c.header;
    assert DecodeTable(file[size..], c.header.numEntries) == c.entries;
  }

  /** A serialised container splits into its encoded header and the rest. */
  lemma SerializedParts(c: Container)
    requires HeaderShaped(c.header, true) && TableShaped(c.entries)
    ensures Serialize(c)[..HeaderSize(true)] == EncodeHeader(c.header, true)
    ensures Serialize(c)[HeaderSize(true)..] == EncodeTable(c.entries) + c.data
  {
    var head, table := EncodeHeader(c.header, true), EncodeTable(c.entries);
    AppendAssoc(head, table, c.data);
    SplitConcat(head, table + c.data);
  }

  /** Reading `n` bytes of a file made of `front` then `back`, at `start` bytes past
      the end of `front`, reads those bytes of `back`. */
  lemma ReadAtOfParts(file: Bytes, front: Bytes, back: Bytes, offset: nat, start: nat, n: nat)
    requires file == front + back
    requires offset == |front| + start && start + n <= |back|
    ensures ReadAt(file, offset, n) == back[start..start + n]
  {
    assert file[offset..offset + n] == back[start..start + n];
  }

  /** Where item `i` ends up in the container: entry `|OpenedPaths(items[..i])|` is
      the entry `PackItem` made for it, pointing at its payload, which lies at data
      offset `start`. */
  lemma ContainerPlaces(p: Primitives, session: Session, items: seq<PakFileItem>, fs: FileSystem,
                        ct: nat, salt: Bytes, nonces: seq<Bytes>, i: nat) returns (start: nat)
    requires |salt| == SaltBytes && |nonces| == |items| && PackablePaths(items, fs)
    requires AssembleContainer(p, session, items, fs, ct, salt, nonces).Ok?
    requires Under4GiB(AssembleContainer(p, session, items, fs, ct, salt, nonces).value)
    requires i < |items| && items[i].path in fs
    ensures PackKey(p, session, items, salt).Ok?
    ensures var c := AssembleContainer(p, session, items, fs, ct, salt, nonces).value;
            var packed := PackItem(p, PackKey(p, session, items, salt).value, nonces[i], items[i], fs[items[i].path], ct);
            var k := |OpenedPaths(items[..i], fs)|;
            && packed.Ok?
            && k < |c.entries|
            && start + |packed.value.payload| <= |c.data|
            && c.data[start..start + |packed.value.payload|] == packed.value.payload
            && c.entries[k] == packed.value.entry.(offset := HeaderSize(true) + TableSize(|c.entries|) + start)
            && c.entries[k].packedSize == |packed.value.payload|
  {
    var c := AssembleContainer(p, session, items, fs, ct, salt, nonces).value;
    AssembleSteps(p, session, items, fs, ct, salt, nonces);
    var key := PackKey(p, session, items, salt).value;
    var t := CollectEntries(p, key, items, fs, ct, nonces).value;
    CollectPlaces(p, key, items, fs, ct, nonces, i);
    start := |CollectEntries(p, key, items[..i], fs, ct, nonces).value.data|;
    var packed := PackItem(p, key, nonces[i], items[i], fs[items[i].path], ct).value;
    var k := |OpenedPaths(items[..i], fs)|;
    var base := BaseOffset(|t.entries|);
    assert base == HeaderSize(true) + TableSize(|c.entries|);
    RebasedEntry(t.entries, base, k, packed.entry, start);
  }

  /** Rebasing an entry whose offset and base are both below 2^32 adds them. */
  lemma RebasedEntry(es: seq<PakFileTableEntry>, base: nat, k: nat, e: PakFileTableEntry, start: nat)
    requires k < |es| && es[k] == e.(offset := U32(start))
    requires start < U32Modulus && base < U32Modulus
    ensures Rebase(es, base)[k] == e.(offset := base + start)
  {
  }

  /** Looking up a packed path finds the entry of the first opened item carrying it. */
  lemma FindsItsEntry(p: Primitives, session: Session, items: seq<PakFileItem>, fs: FileSystem,
                      ct: nat, salt: Bytes, nonces: seq<Bytes>, i: nat)
    requires |salt| == SaltBytes && |nonces| == |items| && PackablePaths(items, fs)
    requires AssembleContainer(p, session, items, fs, ct, salt, nonces).Ok?
    requires i < |items| && items[i].path in fs
    requires items[i].packedPath !in OpenedPaths(items[..i], fs)
    ensures FindEntry(AssembleContainer(p, session, items, fs, ct, salt, nonces).value.entries, items[i].packedPath)
         == Some(|OpenedPaths(items[..i], fs)|)
  {
    var c := AssembleContainer(p, session, items, fs, ct, salt, nonces).value;
    ContainerPaths(p, session, items, fs, ct, salt, nonces);
    OpenedPathAt(items, fs, i);
    OpenedPathsPrefix(items, fs, i);
    var before := OpenedPaths(items[..i], fs);
    var k := |before|;
    var path := items[i].packedPath;
    forall j | 0 <= j < k
      ensures PathOf(c.entries[j]) != path
    {
      assert OpenedPaths(items, fs)[j] == before[j];
    }
    assert PathOf(c.entries[k]) == path;
    var found := FindEntry(c.entries, path);
    assert found.Some?;
    assert found.value == k;
  }

  /** The table names the opened items' packed paths, in item order. */
  lemma ContainerPaths(p: Primitives, session: Session, items: seq<PakFileItem>, fs: FileSystem,
                       ct: nat, salt: Bytes, nonces: seq<Bytes>)
    requires |salt| == SaltBytes && |nonces| == |items| && PackablePaths(items, fs)
    requires AssembleContainer(p, session, items, fs, ct, salt, nonces).Ok?
    ensures var c := AssembleContainer(p, session, items, fs, ct, salt, nonces).value;
            forall j :: 0 <= j < |c.entries| ==> PathOf(c.entries[j]) == OpenedPaths(items, fs)[j]
  {
    var c := AssembleContainer(p, session, items, fs, ct, salt, nonces).value;
    AssembleSteps(p, session, items, fs, ct, salt, nonces);
    var key := PackKey(p, session, items, salt).value;
    var t := CollectEntries(p, key, items, fs, ct, nonces).value;
    CollectPaths(p, key, items, fs, ct, nonces);
    forall j | 0 <= j < |c.entries|
      ensures PathOf(c.entries[j]) == OpenedPaths(items, fs)[j]
    {
      assert c.entries[j].filePath == t.entries[j].filePath;
    }
  }

  /** A packed path that no opened item carries, such as that of an item whose source
      was skipped, is not found in the written file. */
  lemma SkippedPathNotFound(p: Primitives, build: Build, session: Session, items: seq<PakFileItem>,
                            fs: FileSystem, ct: nat, salt: Bytes, nonces: seq<Bytes>, path: string)
    requires build.encryption
    requires |salt| == SaltBytes && |nonces| == |items| && PackablePaths(items, fs)
    requires AssembleContainer(p, session, items, fs, ct, salt, nonces).Ok?
    requires path !in OpenedPaths(items, fs)
    ensures var c := AssembleContainer(p, session, items, fs, ct, salt, nonces).value;
            ExtractFileToMemory(p, build, session, PakFile(c.header, c.entries, Serialize(c)), path)
            == Err(FileNotFound)
  {
    var c := AssembleContainer(p, session, items, fs, ct, salt, nonces).value;
    ContainerPaths(p, session, items, fs, ct, salt, nonces);
    ExtractionKeyMatches(p, build, session, items, fs, ct, salt, nonces, Serialize(c));
    forall j | 0 <= j < |c.entries| ensures PathOf(c.entries[j]) != path {
      assert OpenedPaths(items, fs)[j] in OpenedPaths(items, fs);
    }
  }

  /** The key `ExtractFileToMemory` derives from the written header is the one the
      packer encrypted with, whenever some entry is encrypted. */
  lemma ExtractionKeyMatches(p: Primitives, build: Build, session: Session, items: seq<PakFileItem>,
                             fs: FileSystem, ct: nat, salt: Bytes, nonces: seq<Bytes>, file: Bytes)
    requires build.encryption
    requires |salt| == SaltBytes && |nonces| == |items| && PackablePaths(items, fs)
    requires AssembleContainer(p, session, items, fs, ct, salt, nonces).Ok?
    ensures var c := AssembleContainer(p, session, items, fs, ct, salt, nonces).value;
            var key := ExtractionKey(p, build, session, PakFile(c.header, c.entries, file));
            && key.Ok?
            && (AnyEncryptedEntry(c.entries) ==> key.value == PackKey(p, session, items, salt).value)
  {
    var c := AssembleContainer(p, session, items, fs, ct, salt, nonces).value;
    AssembleSteps(p, session, items, fs, ct, salt, nonces);
    var key := PackKey(p, session, items, salt).value;
    var t := CollectEntries(p, key, items, fs, ct, nonces).value;
    if AnyEncryptedEntry(c.entries) {
      var k :| 0 <= k < |c.entries| && c.entries[k].encrypted;
      assert t.entries[k].encrypted;
      CollectEncryption(p, key, items, fs, ct, nonces);
    }
  }

  /** Extraction of an entry that lookup finds, in terms of its stored bytes. */
  lemma ExtractFound(p: Primitives, build: Build, session: Session, pak: PakFile, filePath: string,
                     k: nat, stored: Bytes)
    requires ExtractionKey(p, build, session, pak).Ok?
    requires FindEntry(pak.entries, filePath) == Some(k)
    requires ReadAt(pak.file, pak.entries[k].offset, pak.entries[k].packedSize) == stored
    ensures ExtractFileToMemory(p, build, session, pak, filePath)
         == UnpackPayload(p, build, ExtractionKey(p, build, session, pak).value, pak.entries[k], stored)
  {
  }

  /** What `CreatePakFile` wrote parses back to its container. */
  lemma ParsesWritten(p: Primitives, build: Build, session: Session, items: seq<PakFileItem>, fs: FileSystem,
                      target: string, ct: nat, salt: Bytes, nonces: seq<Bytes>)
    requires build.encryption
    requires |salt| == SaltBytes && |nonces| == |items| && PackablePaths(items, fs)
    requires CreatePakFile(p, session, items, fs, target, ct, salt, nonces).Ok?
    requires CreatePakFile(p, session, items, fs, target, ct, salt, nonces).value.0
    requires |CreatePakFile(p, session, items, fs, target, ct, salt, nonces).value.1[target]| < U32Modulus
    ensures AssembleContainer(p, session, items, fs, ct, salt, nonces).Ok?
    ensures var c := AssembleContainer(p, session, items, fs, ct, salt, nonces).value;
            && |Serialize(c)| < U32Modulus
            && ParsePakFile(build, CreatePakFile(p, session, items, fs, target, ct, salt, nonces).value.1, target)
               == Ok(PakFile(c.header, c.entries, Serialize(c)))
  {
    var c := AssembleContainer(p, session, items, fs, ct, salt, nonces).value;
    assert CreatePakFile(p, session, items, fs, target, ct, salt, nonces).value.1 == fs[target := Serialize(c)];
    ContainerFits(p, session, items, fs, ct, salt, nonces);
    ParseSerialized(build, fs, target, c);
  }

  /** Extracting item `i`'s packed path from the assembled container gives back the
      bytes read from its source. */
  lemma ExtractFromContainer(p: Primitives, build: Build, session: Session, items: seq<PakFileItem>,
                             fs: FileSystem, ct: nat, salt: Bytes, nonces: seq<Bytes>, i: nat)
    requires Lawful(p) && build.encryption
    requires |salt| == SaltBytes && |nonces| == |items| && PackablePaths(items, fs)
    requires forall j :: 0 <= j < |nonces| ==> |nonces[j]| == NonceBytes
    requires AssembleContainer(p, session, items, fs, ct, salt, nonces).Ok?
    requires Under4GiB(AssembleContainer(p, session, items, fs, ct, salt, nonces).value)
    requires i < |items| && items[i].path in fs
    requires items[i].packedPath !in OpenedPaths(items[..i], fs)
    requires items[i].compressed ==> FromTag(ct).Some? && build.Supports(FromTag(ct).value)
    ensures var c := AssembleContainer(p, session, items, fs, ct, salt, nonces).value;
            ExtractFileToMemory(p, build, session, PakFile(c.header, c.entries, Serialize(c)), items[i].packedPath)
            == Ok(PackedSource(fs[items[i].path]))
  {
    var c := AssembleContainer(p, session, items, fs, ct, salt, nonces).value;
    var pak := PakFile(c.header, c.entries, Serialize(c));
    ExtractionKeyMatches(p, build, session, items, fs, ct, salt, nonces, Serialize(c));
    var k, start, payload := ItemPlaced(p, session, items, fs, ct, salt, nonces, i);
    ItemUnpacks(p, build, session, items, fs, ct, salt, nonces, i);
    ExtractPlaced(p, build, session, c, items[i].packedPath, k, start, payload);
    SameKeyWhereUsed(p, build, PackKey(p, session, items, salt).value, ExtractionKey(p, build, session, pak).value,
                     c.entries, k, payload);
  }

  /** Item `i`'s packed path looks up entry `k`, the one made for the item, which
      points at the payload packed for it, lying at data offset `start`. */
  lemma ItemPlaced(p: Primitives, session: Session, items: seq<PakFileItem>,
                   fs: FileSystem, ct: nat, salt: Bytes, nonces: seq<Bytes>, i: nat)
    returns (k: nat, start: nat, payload: Bytes)
    requires |salt| == SaltBytes && |nonces| == |items| && PackablePaths(items, fs)
    requires AssembleContainer(p, session, items, fs, ct, salt, nonces).Ok?
    requires Under4GiB(AssembleContainer(p, session, items, fs, ct, salt, nonces).value)
    requires i < |items| && items[i].path in fs
    requires items[i].packedPath !in OpenedPaths(items[..i], fs)
    ensures PackKey(p, session, items, salt).Ok?
    ensures PackItem(p, PackKey(p, session, items, salt).value, nonces[i], items[i], fs[items[i].path], ct).Ok?
    ensures k == |OpenedPaths(items[..i], fs)|
    ensures payload == PackItem(p, PackKey(p, session, items, salt).value, nonces[i], items[i], fs[items[i].path], ct).value.payload
    ensures var c := AssembleContainer(p, session, items, fs, ct, salt, nonces).value;
            && FindEntry(c.entries, items[i].packedPath) == Some(k)
            && k < |c.entries|
            && start + |payload| <= |c.data| && c.data[start..start + |payload|] == payload
            && c.entries[k].offset == HeaderSize(true) + TableSize(|c.entries|) + start
            && c.entries[k].packedSize == |payload|
  {
    start := ContainerPlaces(p, session, items, fs, ct, salt, nonces, i);
    k := |OpenedPaths(items[..i], fs)|;
    FindsItsEntry(p, session, items, fs, ct, salt, nonces, i);
    var key := PackKey(p, session, items, salt).value;
    payload := PackItem(p, key, nonces[i], items[i], fs[items[i].path], ct).value.payload;
  }

  /** Under the packing key, the entry made for item `i` unpacks the payload packed
      for it to the bytes read from the item's source. */
  lemma ItemUnpacks(p: Primitives, build: Build, session: Session, items: seq<PakFileItem>,
                    fs: FileSystem, ct: nat, salt: Bytes, nonces: seq<Bytes>, i: nat)
    requires Lawful(p)
    requires |salt| == SaltBytes && |nonces| == |items| && PackablePaths(items, fs)
    requires forall j :: 0 <= j < |nonces| ==> |nonces[j]| == NonceBytes
    requires AssembleContainer(p, session, items, fs, ct, salt, nonces).Ok?
    requires Under4GiB(AssembleContainer(p, session, items, fs, ct, salt, nonces).value)
    requires i < |items| && items[i].path in fs
    requires items[i].compressed ==> FromTag(ct).Some? && build.Supports(FromTag(ct).value)
    ensures PackKey(p, session, items, salt).Ok?
    ensures var c := AssembleContainer(p, session, items, fs, ct, salt, nonces).value;
            var key := PackKey(p, session, items, salt).value;
            var packed := PackItem(p, key, nonces[i], items[i], fs[items[i].path], ct);
            var k := |OpenedPaths(items[..i], fs)|;
            && packed.Ok?
            && k < |c.entries|
            && UnpackPayload(p, build, key, c.entries[k], packed.value.payload) == Ok(PackedSource(fs[items[i].path]))
  {
    var c := AssembleContainer(p, session, items, fs, ct, salt, nonces).value;
    var start := ContainerPlaces(p, session, items, fs, ct, salt, nonces, i);
    var k := |OpenedPaths(items[..i], fs)|;
    var key := PackKey(p, session, items, salt).value;
    PackablePathAt(items, fs, i);
    PlacedEntryUnpacks(p, build, key, nonces[i], items[i], fs[items[i].path], ct,
                       HeaderSize(true) + TableSize(|c.entries|) + start, c.entries[k]);
  }

  /** The entry `PackItem` made, wherever its payload was placed, unpacks that payload
      to the source bytes. */
  lemma PlacedEntryUnpacks(p: Primitives, build: Build, key: Bytes, nonce: Bytes, item: PakFileItem,
                           source: Bytes, compressionType: nat, offset: nat, entry: PakFileTableEntry)
    requires Lawful(p) && |nonce| == NonceBytes
    requires ValidPackedPath(item.packedPath)
    requires PackItem(p, key, nonce, item, source, compressionType).Ok?
    requires item.compressed ==> build.Supports(FromTag(compressionType).value)
    requires entry == PackItem(p, key, nonce, item, source, compressionType).value.entry.(offset := offset)
    ensures UnpackPayload(p, build, key, entry, PackItem(p, key, nonce, item, source, compressionType).value.payload)
         == Ok(PackedSource(source))
  {
    PayloadRoundTrip(p, build, key, nonce, item, source, compressionType, offset);
  }

  /** Extracting a path that lookup finds at entry `k`, whose offset points at data
      offset `start` where `payload` lies, unpacks `payload`. */
  lemma ExtractPlaced(p: Primitives, build: Build, session: Session, c: Container, path: string,
                      k: nat, start: nat, payload: Bytes)
    requires HeaderShaped(c.header, true) && TableShaped(c.entries)
    requires ExtractionKey(p, build, session, PakFile(c.header, c.entries, Serialize(c))).Ok?
    requires FindEntry(c.entries, path) == Some(k)
    requires start + |payload| <= |c.data| && c.data[start..start + |payload|] == payload
    requires c.entries[k].offset == HeaderSize(true) + TableSize(|c.entries|) + start
    requires c.entries[k].packedSize == |payload|
    ensures var pak := PakFile(c.header, c.entries, Serialize(c));
            ExtractFileToMemory(p, build, session, pak, path)
            == UnpackPayload(p, build, ExtractionKey(p, build, session, pak).value, c.entries[k], payload)
  {
    var pak := PakFile(c.header, c.entries, Serialize(c));
    ReadsPlacedPayload(c, k, start, payload);
    ExtractFound(p, build, session, pak, path, k, payload);
  }

  /** An entry pointing at data offset `start`, where `payload` lies, reads back `payload`. */
  lemma ReadsPlacedPayload(c: Container, k: nat, start: nat, payload: Bytes)
    requires HeaderShaped(c.header, true) && TableShaped(c.entries)
    requires k < |c.entries|
    requires start + |payload| <= |c.data| && c.data[start..start + |payload|] == payload
    requires c.entries[k].offset == HeaderSize(true) + TableSize(|c.entries|) + start
    requires c.entries[k].packedSize == |payload|
    ensures ReadAt(Serialize(c), c.entries[k].offset, c.entries[k].packedSize) == payload
  {
    ReadAtOfParts(Serialize(c), EncodeHeader(c.header, true) + EncodeTable(c.entries), c.data,
                  c.entries[k].offset, start, c.entries[k].packedSize);
  }

  /** Two keys that agree whenever some entry is encrypted unpack entry `k` alike. */
  lemma SameKeyWhereUsed(p: Primitives, build: Build, key: Bytes, other: Bytes,
                         entries: seq<PakFileTableEntry>, k: nat, stored: Bytes)
    requires k < |entries|
    requires AnyEncryptedEntry(entries) ==> other == key
    ensures UnpackPayload(p, build, other, entries[k], stored) == UnpackPayload(p, build, key, entries[k], stored)
  {
    if entries[k].encrypted {
      assert AnyEncryptedEntry(entries);
    } else {
      UnpackIgnoresKey(p, build, key, other, entries[k], stored);
    }
  }

  /** Pack, then parse, then extract: every item whose source opened comes back as the
      bytes that were read from it, for every mix of the compressed and encrypted
      flags. The reader is built with encryption (as the header layout demands) and
      with the algorithm used when the item is compressed; the item's packed path is
      not taken by an earlier item; the container stays under 4 GiB. */
  lemma PackThenExtract(p: Primitives, build: Build, session: Session, items: seq<PakFileItem>, fs: FileSystem,
                        target: string, ct: nat, salt: Bytes, nonces: seq<Bytes>, i: nat)
    requires Lawful(p) && build.encryption
    requires |salt| == SaltBytes && |nonces| == |items| && PackablePaths(items, fs)
    requires forall j :: 0 <= j < |nonces| ==> |nonces[j]| == NonceBytes
    requires CreatePakFile(p, session, items, fs, target, ct, salt, nonces).Ok?
    requires CreatePakFile(p, session, items, fs, target, ct, salt, nonces).value.0
    requires |CreatePakFile(p, session, items, fs, target, ct, salt, nonces).value.1[target]| < U32Modulus
    requires i < |items| && items[i].path in fs
    requires items[i].packedPath !in OpenedPaths(items[..i], fs)
    requires items[i].compressed ==> FromTag(ct).Some? && build.Supports(FromTag(ct).value)
    ensures var written := CreatePakFile(p, session, items, fs, target, ct, salt, nonces).value.1;
            && ParsePakFile(build, written, target).Ok?
            && ExtractFileToMemory(p, build, session, ParsePakFile(build, written, target).value, items[i].packedPath)
               == Ok(PackedSource(fs[items[i].path]))
  {
    ParsesWritten(p, build, session, items, fs, target, ct, salt, nonces);
    ExtractFromContainer(p, build, session, items, fs, ct, salt, nonces, i);
  }

  /** Extracting a packed item to disk writes its source bytes to `outputPath`
      joined with the packed path's file name, and leaves every other file alone. */
  lemma PackThenExtractToDisk(p: Primitives, build: Build, session: Session, items: seq<PakFileItem>,
                              fs: FileSystem, target: string, ct: nat, salt: Bytes, nonces: seq<Bytes>,
                              i: nat, disk: FileSystem, outputPath: string)
    requires Lawful(p) && build.encryption
    requires |salt| == SaltBytes && |nonces| == |items| && PackablePaths(items, fs)
    requires forall j :: 0 <= j < |nonces| ==> |nonces[j]| == NonceBytes
    requires CreatePakFile(p, session, items, fs, target, ct, salt, nonces).Ok?
    requires CreatePakFile(p, session, items, fs, target, ct, salt, nonces).value.0
    requires |CreatePakFile(p, session, items, fs, target, ct, salt, nonces).value.1[target]| < U32Modulus
    requires i < |items| && items[i].path in fs
    requires items[i].packedPath !in OpenedPaths(items[..i], fs)
    requires items[i].compressed ==> FromTag(ct).Some? && build.Supports(FromTag(ct).value)
    ensures var written := CreatePakFile(p, session, items, fs, target, ct, salt, nonces).value.1;
            && ParsePakFile(build, written, target).Ok?
            && var out := ExtractFileToDisk(p, build, session, ParsePakFile(build, written, target).value, disk,
                                            outputPath, items[i].packedPath);
               var dest := ExtractTargetPath(outputPath, items[i].packedPath);
               && out.Ok?
               && dest in out.value && out.value[dest] == PackedSource(fs[items[i].path])
               && (forall other :: other in disk && other != dest ==> other in out.value && out.value[other] == disk[other])
  {
    PackThenExtract(p, build, session, items, fs, target, ct, salt, nonces, i);
  }

  lemma PackablePathAt(items: seq<PakFileItem>, fs: FileSystem, i: nat)
    requires PackablePaths(items, fs) && i < |items| && items[i].path in fs
    ensures ValidPackedPath(items[i].packedPath)
  {
  }
}
