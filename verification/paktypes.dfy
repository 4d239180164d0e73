/** The container's data model: header, file-table entry, parsed handle and pack item. */
module PakTypes {
  import opened Results
  import opened ByteSeq

  const PakFileVersion: nat := 1
  /** Number of compression algorithms the format defines. */
  const CompressionCount: nat := 3

  /** Sizes fixed by libsodium: `crypto_pwhash_SALTBYTES`, and the XChaCha20-Poly1305
      secretbox nonce, authentication tag and key. */
  const SaltBytes: nat := 16
  const NonceBytes: nat := 24
  const MacBytes: nat := 16
  const KeyBytes: nat := 32

  /** Capacity of an entry's NUL-terminated `FilePath` buffer. */
  const FilePathCapacity: nat := 255

  /** The magic as a C string ("PAK"), and the 4-byte `ID` field holding it. */
  const PakMagic: Bytes := [0x50, 0x41, 0x4B]
  const PakId: Bytes := PakMagic + [0]

  datatype CompressionType = ZLIB | LZ4 | ZSTD {
    /** The enumerator's integer value as stored in a table entry. */
    function Tag(): nat {
      match this
      case ZLIB => 0
      case LZ4 => 1
      case ZSTD => 2
    }
  }

  /** The enumerator a stored integer denotes, if any. */
  function FromTag(tag: nat): (r: Option<CompressionType>)
    ensures r.Some? <==> tag < CompressionCount
    ensures r.Some? ==> r.value.Tag() == tag
  {
    if tag == 0 then Some(ZLIB)
    else if tag == 1 then Some(LZ4)
    else if tag == 2 then Some(ZSTD)
    else None
  }

  /** The three enumerators are ZLIB=0, LZ4=1, ZSTD=2: distinct, exactly
      `CompressionCount` of them, and recovered from their tags. */
  lemma CompressionTags(t: CompressionType)
    ensures FromTag(t.Tag()) == Some(t)
    ensures t.Tag() < CompressionCount
    ensures ZLIB.Tag() == 0 && LZ4.Tag() == 1 && ZSTD.Tag() == 2
    ensures |{ZLIB.Tag(), LZ4.Tag(), ZSTD.Tag()}| == CompressionCount
  {
  }

  /** Which optional parts a binary was built with (`USE_ENCRYPTION`, `USE_ZLIB`,
      `USE_LZ4`, `USE_ZSTD`). */
  datatype Build = Build(encryption: bool, zlib: bool, lz4: bool, zstd: bool) {
    predicate Supports(t: CompressionType) {
      match t
      case ZLIB => zlib
      case LZ4 => lz4
      case ZSTD => zstd
    }
  }

  /** `salt` is empty when the build has no encryption support (`Salt[0]`). */
  datatype PakHeader = PakHeader(id: Bytes, version: nat, salt: Bytes, numEntries: nat)

  /** `filePath` is the raw 255-byte buffer; `compressionType` the stored enum value. */
  datatype PakFileTableEntry = PakFileTableEntry(
    filePath: Bytes,
    compressed: bool,
    encrypted: bool,
    compressionType: nat,
    originalSize: nat,
    packedSize: nat,
    offset: nat)

  /** A parsed container; `file` stands for the open stream (the whole file's bytes). */
  datatype PakFile = PakFile(header: PakHeader, entries: seq<PakFileTableEntry>, file: Bytes)

  datatype PakFileItem = PakFileItem(
    name: string,
    path: string,
    packedPath: string,
    size: nat,
    compressed: bool,
    encrypted: bool)

  /** Files on disk by path; a path that is absent cannot be opened. */
  type FileSystem = map<string, Bytes>

  /** `PakHeader{}`: the member initialisers, with the salt zero-filled when present. */
  function DefaultHeader(withSalt: bool): PakHeader {
    PakHeader(PakId, PakFileVersion, if withSalt then Zeros(SaltBytes) else [], 0)
  }

  /** `PakFileTableEntry{}`: everything zero. */
  function DefaultEntry(): PakFileTableEntry {
    PakFileTableEntry(Zeros(FilePathCapacity), false, false, 0, 0, 0, 0)
  }

  /** The check `std::string(header.ID) == "PAK"`. */
  predicate HasPakMagic(id: Bytes) {
    CString(id) == PakMagic
  }

  /** A `std::string` whose characters all fit in one byte. */
  predicate IsNarrow(s: string) {
    forall i :: 0 <= i < |s| ==> s[i] as int < 256
  }

  function StringToBytes(s: string): (r: Bytes)
    requires IsNarrow(s)
    ensures |r| == |s|
    ensures forall i :: 0 <= i < |s| ==> r[i] as int == s[i] as int
  {
    seq(|s|, i requires 0 <= i < |s| => s[i] as int as Byte)
  }

  function BytesToString(b: Bytes): (r: string)
    ensures |r| == |b|
    ensures IsNarrow(r)
    ensures forall i :: 0 <= i < |b| ==> r[i] as int == b[i] as int
  {
    seq(|b|, i requires 0 <= i < |b| => b[i] as int as char)
  }

  lemma StringBytesRoundTrip(s: string)
    requires IsNarrow(s)
    ensures BytesToString(StringToBytes(s)) == s
  {
  }

  /** A packed path the 255-byte buffer can hold with its terminator, and that has
      no embedded NUL the terminator search would stop at. */
  predicate ValidPackedPath(s: string) {
    && |s| < FilePathCapacity
    && forall i :: 0 <= i < |s| ==> 0 < s[i] as int < 256
  }

  /** The buffer `memcpy(FilePath, s.c_str(), s.length() + 1)` leaves in a zeroed entry. */
  function PathBuffer(s: string): (r: Bytes)
    requires ValidPackedPath(s)
    ensures |r| == FilePathCapacity
    ensures CString(r) == StringToBytes(s)
  {
    var b := StringToBytes(s);
    var r := b + Zeros(FilePathCapacity - |s|);
    CStringOfTerminated(b, Zeros(FilePathCapacity - |s|));
    r
  }

  lemma {:induction false} CStringOfTerminated(b: Bytes, tail: Bytes)
    requires forall i :: 0 <= i < |b| ==> b[i] != 0
    requires |tail| > 0 && tail[0] == 0
    ensures CString(b + tail) == b
    decreases |b|
  {
    if |b| > 0 {
      assert (b + tail)[1..] == b[1..] + tail;
      CStringOfTerminated(b[1..], tail);
      assert b == [b[0]] + b[1..];
    }
  }

  /** The path `std::string(entry.FilePath)` that lookups compare against. */
  function PathOf(e: PakFileTableEntry): string {
    BytesToString(CString(e.filePath))
  }

  /** A path copied into an entry's buffer is read back unchanged. */
  lemma PathBufferRoundTrip(e: PakFileTableEntry, s: string)
    requires ValidPackedPath(s)
    requires e.filePath == PathBuffer(s)
    ensures PathOf(e) == s
  {
    StringBytesRoundTrip(s);
  }

  /** A default header passes the parser's magic and version checks, carries a salt
      field exactly when encryption is built in, and announces no entries. */
  lemma DefaultHeaderIsAccepted(withSalt: bool)
    ensures HasPakMagic(DefaultHeader(withSalt).id)
    ensures |DefaultHeader(withSalt).id| == 4
    ensures DefaultHeader(withSalt).version == PakFileVersion == 1
    ensures |DefaultHeader(withSalt).salt| == (if withSalt then SaltBytes else 0)
    ensures DefaultHeader(withSalt).numEntries == 0
  {
    assert CString(PakId) == PakMagic by {
      CStringOfTerminated(PakMagic, [0]);
    }
  }

  /** A default entry is plain, empty, at offset 0, and its path is the empty string. */
  lemma DefaultEntryIsEmpty()
    ensures PathOf(DefaultEntry()) == ""
    ensures |DefaultEntry().filePath| == FilePathCapacity
    ensures forall i :: 0 <= i < FilePathCapacity ==> DefaultEntry().filePath[i] == 0
    ensures !DefaultEntry().compressed && !DefaultEntry().encrypted
    ensures FromTag(DefaultEntry().compressionType) == Some(ZLIB)
    ensures DefaultEntry().originalSize == DefaultEntry().packedSize == DefaultEntry().offset == 0
  {
  }
}
