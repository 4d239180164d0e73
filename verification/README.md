# res_packer pak container engine in Dafny

This project models the core of res_packer, a tool that packs files into a single
`.pak` container and reads them back. The container is a fixed-size header, then
one fixed-size table entry per packed file, then the packed files' bytes in table
order. Each file may be compressed (zlib, LZ4 or zstd), sealed with an XChaCha20-Poly1305
secretbox under a key derived from a password with Argon2id, or both. The model
also covers the pure string helpers the tool relies on: path manipulation,
build-date formatting and the extension normalisation of the save dialogs.

Modules, in dependency order:

- `Results` (`results.dfy`): `Option` and `Result`. They stand in for the exceptions the
  code throws.
- `ByteSeq` (`byteseq.dfy`): bytes, `unsigned int` truncation, little-endian
  integers and NUL-terminated strings.
- `PakTypes` (`paktypes.dfy`): the data model of `PakTypes.h`, the compression
  tags and the default values.
- `Layout` (`layout.dfy`): the byte layout of the header and of a table entry, with
  encode/decode pairs. It uses the MSVC x64 layout: a 32-byte header (16 bytes
  without the salt) and a 288-byte entry, little-endian.
- `Primitives` (`primitives.dfy`): the compression back ends, the AEAD and the KDF
  as function-valued parameters. Their laws are hypotheses (`Lawful`).
- `Packer` and `PackerProps` (`packer.dfy`, `packer_props.dfy`): `CreatePakFile`,
  `Encrypt`, `CompressionTypeToString`, and the invariants of the packing loop.
- `Unpacker` (`unpacker.dfy`): `ParsePakFile`, `ExtractFileToMemory`,
  `ExtractFileToDisk` and `Decrypt`.
- `RoundTrip` (`roundtrip.dfy`): what the packer writes, the unpacker reads back.
- `Paths`, `Utils`, `Gui` (`paths.dfy`, `utils.dfy`, `gui.dfy`): the string helpers.

Inputs and outputs the code gets from the world are parameters:

- the file system is a `map<string, Bytes>`;
- the random salt and nonces are explicit arguments;
- the compiled-in features (`USE_ENCRYPTION`, `USE_ZLIB`, `USE_LZ4`, `USE_ZSTD`)
  are a `Build` value.

The packer is modelled as built with encryption, so its header is the 32-byte
one. The headline result is `RoundTrip.PackThenExtract`. Every item whose source
opened is extracted from the written file as the bytes that were read from it,
for every combination of the compressed and encrypted flags. That result is about
the reader with its three defects corrected (see "## Findings"): as written, an empty
source packed with LZ4 is refused on extraction (Unpacker.cpp:72).

Behaviour of the code worth noting:

- An unknown compression type fails only when the first compressed item whose
  source opens is reached (Packer.cpp:99-102). It is not a check made before any
  item is processed, and a request with no compressed item never reports it.
- `ExtractFileToMemory` derives the key whenever any entry is encrypted, before it
  looks the path up (Unpacker.cpp:20-32). A key-derivation failure therefore also
  blocks the extraction of unencrypted entries.
- `CreatePakFile` returns `true` once packing has succeeded. Failures to write the
  output are not checked (Packer.cpp:131-147).
- `CreatePakFile` returns `false` only when packing an item fails. A key-derivation
  failure is not a `false` return: `GenerateEncryptionKey` throws
  (Packer.cpp:154-158), and the exception leaves `CreatePakFile`. The GUI calls it on
  a detached thread with no handler (Gui.cpp:129, 696-706), so no "Failed to create
  PAK file" message is shown. The model returns that case as `Err(KeyDerivationFailed)`.
- `CreatePakFile` itself does not check the password. The GUI refuses an empty
  password when an item is encrypted (Gui.cpp:117-123). Key derivation is an opaque
  parameter that may fail.
- The stored offsets and sizes pass through `unsigned int` (Packer.cpp:43,45,135).
  The model truncates them modulo 2^32, and the layout results assume a container
  under 4 GiB.

## Model

| member | source | states |
|---|---|---|
| PakTypes.CompressionTags | PakTypes.h:16-22 | the tags are ZLIB=0, LZ4=1, ZSTD=2; each tag maps back to its algorithm; `CompressionCount` (3) is the number of distinct tags |
| PakTypes.FromTag | PakTypes.h:18-22 | a number names an algorithm exactly when it is below `CompressionCount`, and then it is that algorithm's tag |
| PakTypes.DefaultHeaderIsAccepted | PakTypes.h:24-33 | a default header carries the "PAK" magic in 4 bytes, version 1 = `PAK_FILE_VERSION`, no entries, and a 16-byte salt only when encryption is compiled in |
| PakTypes.DefaultEntryIsEmpty | PakTypes.h:35-43 | a default entry has an all-zero 255-byte path (the empty name), is neither compressed nor encrypted, has tag 0, and has zero sizes and offset |
| PakTypes.PathBuffer | Packer.cpp:44 | copying a packed path with its NUL into the zeroed 255-byte field gives a buffer whose C string is the path |
| PakTypes.PathBufferRoundTrip | Unpacker.cpp:36 | the name read back from an entry's path field as a C string is the packed path that was written |
| PakTypes.StringBytesRoundTrip | Packer.cpp:44 | a narrow string converted to bytes and back is unchanged |
| ByteSeq.U32 | Packer.cpp:43-45 | the `unsigned int` cast gives a value below 2^32, no larger than its input and congruent to it modulo 2^32, so values below 2^32 are unchanged |
| ByteSeq.DecodeEncodeLE | PakTypes.h:24-43 | an integer below 256^n, written in n little-endian bytes, reads back unchanged |
| ByteSeq.CString | Unpacker.cpp:36 | `std::string(char*)` is the longest NUL-free prefix of the buffer, and the byte after it is the NUL |
| Layout.HeaderRoundTrip | PakTypes.h:24-33 | a header whose fields fit their widths survives being written as its struct and read back |
| Layout.EntryFields | PakTypes.h:35-43 | the entry bytes are the path, the two bools, padding, the 4-byte tag and three 8-byte integers, at their struct offsets |
| Layout.EntryRoundTrip | PakTypes.h:35-43 | an entry whose fields fit their widths survives being written and read back |
| Layout.TableRoundTrip | Unpacker.cpp:129-131 | reading `NumEntries` records back from a written table returns exactly the entries, in order, whatever follows the table |
| Packer.EncryptShape | Packer.cpp:162-183 | the envelope is the nonce followed by the secretbox output: 40 bytes longer than the message, with the nonce in the first 24 bytes |
| Packer.PackItem | Packer.cpp:41-123 | the entry records the packed path, the flags, the tag only when compressed, `OriginalSize` cast to 32 bits and `PackedSize` as the payload's length; it fails exactly for a compressed item with an unknown tag or a failing back end |
| Packer.PlainItemStoredVerbatim | Packer.cpp:111-122 | an item that is neither compressed nor encrypted is stored unchanged, with `PackedSize == OriginalSize` |
| Packer.CollectEntries | Packer.cpp:33-127 | the loop makes one entry per opened source, with a 255-byte path, a tag below 3 and every size and offset below 2^32 |
| Packer.PackKey | Packer.cpp:23-31 | a key is derived from the salt exactly when some item asks for encryption; a derivation failure is the only error |
| Packer.BaseOffset | Packer.cpp:135-136 | the base offset is the header size plus the table size, whenever that sum fits 32 bits |
| Packer.Rebase | Packer.cpp:138-141 | every field but the offset is kept; the new offset is below 2^64 and congruent to the old offset plus the base, and equals that sum whenever it does not overflow |
| Packer.AssembleContainer | Packer.cpp:16-31 | the header has the PAK magic and version 1; it holds the salt only when some item is encrypted (zeros otherwise); `NumEntries` is the number of opened items |
| RoundTrip.SerializedParts | Packer.cpp:133-143 | the written file is the encoded header, then the encoded table, then the data |
| Packer.CreatePakFile | Packer.cpp:12-158 | a key-derivation failure for an encrypting request is thrown, not returned; otherwise it returns `false` exactly when some opened item asks for compression and the type is unknown or the back end refuses its bytes, leaving the file system untouched because the output is opened only after the loop; on `true` the target holds the container and every other file is unchanged |
| Packer.CollectFails | Packer.cpp:33-127 | the packing loop stops with an error exactly when some item whose source opens asks for compression and either the type names no algorithm or the back end refuses the bytes read |
| PackerProps.UncompressedRequestPacks | Packer.cpp:58-102 | with no compressed item among the opened sources, the compression type is never consulted and packing succeeds, even for an unknown type |
| Packer.CompressionNames | Packer.cpp:185-196 | LZ4 reads "LZ4", ZLIB "Zlib", ZSTD "Zstd", and a value reads "Unknown" exactly when it is not a tag |
| PackerProps.CollectPaths | Packer.cpp:125 | entry k carries the packed path of the k-th item whose source opened: skipped items leave no entry, and input order is kept |
| PackerProps.CollectEncryption | Packer.cpp:107 | an entry is encrypted only if some item asked for encryption |
| PackerProps.CollectOffsets | Packer.cpp:45 | before rebasing, each entry's offset is the sum of the earlier entries' `PackedSize`s, and the data buffer is as long as all of them together |
| PackerProps.CollectPrefix | Packer.cpp:33-127 | stopping the loop after a prefix of the items yields a prefix of the entries and of the data |
| PackerProps.CollectPlaces | Packer.cpp:45-122 | an opened item's entry sits at its position among the opened items, and its payload sits in the data at that entry's offset |
| RoundTrip.ContainerOffsets | Packer.cpp:133-143 | a stored offset is the header size, plus the table size, plus the sum of the earlier entries' `PackedSize`s, and the data is exactly as long as all payloads |
| RoundTrip.DecryptEncrypt | Unpacker.cpp:151-172 | `Decrypt` undoes `Encrypt` under the same key |
| RoundTrip.PayloadRoundTrip | Unpacker.cpp:47-91 | for all four combinations of the flags, unpacking what `PackItem` stored gives back the bytes read from the source |
| RoundTrip.ParseSerialized | Unpacker.cpp:110-138 | parsing a written container yields its header and its entries, and keeps the file bytes |
| RoundTrip.ContainerPaths | Packer.cpp:125-129 | the written table names the opened items' packed paths, in item order |
| RoundTrip.FindsItsEntry | Unpacker.cpp:34-39 | looking up an opened item's packed path, when no earlier opened item used it, finds that item's entry |
| RoundTrip.SkippedPathNotFound | Unpacker.cpp:94-95 | a packed path that no opened item carries, such as a skipped item's, gives "file not found" |
| RoundTrip.ExtractionKeyMatches | Unpacker.cpp:20-32 | the key the reader derives from the written salt is the key the packer encrypted with, whenever some entry is encrypted |
| RoundTrip.ReadsPlacedPayload | Unpacker.cpp:42-45 | reading `PackedSize` bytes at an entry's `Offset` in the written file gives back the payload placed at that data offset |
| RoundTrip.ItemPlaced | Packer.cpp:125-143 | an opened item's packed path looks up the item's own entry, whose `Offset` and `PackedSize` frame exactly the payload packed for it |
| RoundTrip.ItemUnpacks | Unpacker.cpp:47-91 | under the packing key, the entry written for an opened item unpacks its payload to the bytes read from the item's source |
| RoundTrip.ExtractFromContainer | Unpacker.cpp:19-97 | extracting an opened item's packed path from the written container returns the bytes read from its source |
| RoundTrip.PackThenExtract | Unpacker.cpp:19-97 | pack, then parse, then extract returns the source bytes for every opened item and every mix of the flags |
| Unpacker.ParsePakFile | Unpacker.cpp:110-138 | the parse succeeds exactly when the file opens, the header is complete, the magic is "PAK", the version is 1 and the whole table is present; the error names the first failing check, a missing table included; a success returns the header decoded from the file's first bytes and the `NumEntries` records that follow it, in file order |
| Unpacker.FindEntry | Unpacker.cpp:34-39 | it returns the first entry whose C-string path equals the requested path, and nothing exactly when no entry matches |
| Unpacker.ReadAt | Unpacker.cpp:42-45 | the read is `PackedSize` bytes long: the file's bytes from the offset where they exist, and the zeros of the fresh vector past the end |
| Unpacker.Decrypt | Unpacker.cpp:151-172 | an envelope shorter than 40 bytes is refused; otherwise the first 24 bytes are the nonce, decryption succeeds exactly when the box opens, and the plaintext is what it opened to, 40 bytes shorter than the envelope |
| Unpacker.MessageLengthWraps | Unpacker.cpp:155 | as written, `message_len` wraps to nearly 2^64 for envelopes under 40 bytes and is correct from 40 bytes on |
| Unpacker.DecryptRefusesWrappingLengths | Unpacker.cpp:155 | the corrected `Decrypt` refuses exactly the envelopes whose length computation would wrap |
| Unpacker.Inflate | Unpacker.cpp:53-88 | an unknown tag is `invalid_argument`; an algorithm the build lacks is "not supported"; success means the back end decoded, and the result is its output zero-filled to `OriginalSize` bytes |
| Unpacker.ZlibSourceLengthsAgree | Unpacker.cpp:44-62 | for an entry that is not encrypted, the source length as written (`PackedSize`) equals the length of the buffer read, so the overrun needs decryption |
| Unpacker.ZlibSourceOverrun | Unpacker.cpp:60-62 | as written, for an encrypted entry the zlib source length is 40 bytes more than the decrypted buffer |
| Unpacker.EmptyLz4FileRefusedAsWritten | Unpacker.cpp:68-73 | an empty file packed with LZ4 is refused by the `<= 0` check as written, and is returned empty by the corrected check |
| Unpacker.ExtractionKey | Unpacker.cpp:20-32 | with an encrypted entry, a build without encryption refuses, and a build with it derives the key from the header's salt; without one no key is needed |
| Unpacker.UnpackPayload | Unpacker.cpp:47-91 | a plain entry's bytes are returned unchanged; an encrypted entry is decrypted before it is decompressed, and a decryption failure stops extraction; an encrypted-only entry yields the plaintext, a compressed-only one the inflated bytes, and one that is both yields the inflated plaintext, `OriginalSize` long |
| Unpacker.ExtractFileToMemory | Unpacker.cpp:19-97 | key errors come first; a missing path is "file not found"; a plain entry yields exactly the `PackedSize` bytes at its offset; a compressed one yields `OriginalSize` bytes |
| Unpacker.ExtractTargetPath | Unpacker.cpp:102-104 | the target is `outputPath`, then at most one separator (only after a non-empty `outputPath`), then the packed path's file name, so it lies under `outputPath` and keeps the basename |
| Unpacker.ExtractFileToDisk | Unpacker.cpp:100-108 | it fails exactly when extraction fails; otherwise only the target `outputPath / filename` is written, with the extracted bytes |
| RoundTrip.PackThenExtractToDisk | Unpacker.cpp:100-108 | extracting a packed item to disk writes the bytes read from its source at `outputPath / filename` and leaves every other file as it was |
| Paths.ReplaceSlashes | Paths.h:75-78 | no backslash is left, the length is kept, and every other character is unchanged |
| Paths.ReplaceSlashesIdempotent | Paths.h:75-78 | replacing slashes twice is the same as once |
| Paths.ReplaceSlashesKeepsSeparators | Paths.h:11-16 | `IsSlash` holds at the same positions before and after the replacement |
| Paths.LastWhereSpec | Paths.h:31 | `find_last_of` finds the last matching position, and nothing exactly when no character matches |
| Paths.FileNameSpec | Paths.h:18-21 | the file name is the suffix after the last separator and contains none |
| Paths.ExtensionSpec | Paths.h:43-46 | the extension is empty or starts with a dot that is not the name's first character, and contains no other dot |
| Paths.ExtensionSuffix | Paths.h:43-46 | the extension is a suffix of the file name, which is a suffix of the path |
| Paths.FileNameAppend | Paths.h:18-21 | appending text without separators extends the file name by that text |
| Paths.FileNameAfterDirectory | Paths.h:18-21 | after a part that is empty or ends in a separator, separator-free text is the whole file name |
| Paths.FileNameWithoutExtensionSpec | Paths.h:28-36 | without a dot the whole file name is returned; otherwise the part before the last dot |
| Paths.ReplaceFileExtensionSpec | Paths.h:48-56 | a path without a dot is unchanged; otherwise the text from the last dot on is replaced by the new extension |
| Paths.FindFirst | Paths.h:82 | `find` returns the first occurrence at or after the start, and nothing exactly when there is none |
| Paths.StripPathFound | Paths.h:80-83 | when the parent occurs with a character after it, the result is the text after the first occurrence and one separator |
| Paths.StripPathNotFound | Paths.h:80-83 | when the parent does not occur, `npos + length + 1` wraps to the parent's length and the result is the path from there |
| Paths.JoinPathFileName | Unpacker.cpp:104 | the file name of `dir / name` is `name` |
| Paths.JoinPathParts | Unpacker.cpp:104 | `dir / name` is `dir`, then at most one separator (added only after a non-empty `dir` not ending in one), then `name` |
| Utils.MonthTable | Utils.h:71-82 | the n-th month abbreviation becomes n in two digits |
| Utils.UnknownMonthKept | Utils.h:71-82 | any other month text is passed through unchanged |
| Utils.RemoveSpaces | Utils.h:84 | the result has no spaces and keeps every other character, with its count |
| Utils.RemoveSpacesConcat | Utils.h:84 | removing spaces from a joined text is removing them from each part and joining the results, so the kept characters stay in order |
| Utils.PadDay | Utils.h:86-88 | the day is kept as the suffix and only '0's are put before it; a one- or two-character day comes out as two characters, and any other length is left as it is |
| Utils.FormatBuildDate | Utils.h:64-91 | the result is missing exactly when the text is shorter than 7 characters, where `substr(7, 4)` throws |
| Utils.DayFieldNormalized | Utils.h:84-88 | a space-padded or two-digit day becomes two digits |
| Utils.FormatsDateMacro | Utils.h:64-91 | every `__DATE__` text becomes year/month/day with two-digit month and day: 10 characters, with '/' at indices 4 and 7 |
| Gui.NormalizeExtensionCases | Gui.cpp:732-738 | no extension: `.pak` is appended; `.pak`: unchanged; any other extension: replaced, so that the extension becomes `.pak` |
| Gui.NormalizeExtensionSpec | Gui.cpp:732-738 | the result keeps everything before the old extension and ends in the new one, which is then the name's extension |
| Gui.SavePakFileIdempotent | Gui.cpp:732-738 | saving a pak name twice gives the same name |
| Gui.SaveProjectFileIdempotent | Gui.cpp:724-730 | saving a project name twice gives the same name |
| Gui.SaveHeaderFileIdempotent | Gui.cpp:740-746 | saving a header name twice gives the same name |
| Gui.DirectoryNotIdempotent | Gui.cpp:724-746 | a name that is empty or ends in a separator gets the extension appended, and a second call appends it again, because a leading dot starts no extension |
| Gui.EmptyNameNotIdempotent | Gui.cpp:732-738 | for such a name `SavePakFile` appends ".pak" and, called again, ".pak" once more |

## Left out

- File and stream I/O are not modelled. Streams, sticky fail bits, seeking and the `ofstream` writes become a map from paths to bytes. Failures to write are not modelled, since the code does not check them.
- Allocation failures are not modelled, such as `bad_alloc` for a huge `NumEntries` or `PackedSize`.
- The compression back ends, the secretbox and `crypto_pwhash` are not modelled internally. They are parameters, and their laws are hypotheses.
  - Tamper detection and wrong-password failures depend on the cipher's internals, so they are stated only as "the box does not open".
  - Compression levels are not modelled.
- Randomness is not modelled. The salt and nonces are arguments; nonce freshness is not modelled.
- Logging to `std::cout` is not modelled.
- Struct layout: only the MSVC x64 layout is modelled. A `FilePath` field with no NUL in its 255 bytes is read as the whole field, not past its end.
- The packer is modelled only as built with encryption. The reader's header size follows its own build, so a container written by one build and read by another is outside `PackThenExtract`.
- The "Encryption failed" exception of `Packer::Encrypt` (Packer.cpp:170-173) is not modelled: `seal` is total. The secretbox fails only above its maximum message size, which no buffer the packing loop builds reaches.
- `GenerateEncryptionKey` exists only as `DeriveKey`, a failing or succeeding call on the session's password and cost settings.
- Pack.cpp, Packer-stream.cpp and Pack.h are not part of this model. They are superseded variants of the packer.
- The GUI rendering and the rest of Gui.cpp, Gui.h, Theme.h, Widgets.h, main.cpp and main-dx11.cpp are not part of this model.
- `FormatBytes` (floating point) and the Win32 dialogs in Utils.h are not part of this model.
- The `std::filesystem`-backed helpers of Paths.h are approximated: `GetFileSize`, `CreateDirectories`, `getFiles`, `GetDirectory`, `GetDirectoryPath` and `GetPathWithoutFilename` are not modelled. `GetFileName`, `GetFileExtension` and `operator/` are modelled on Windows separators ('/' and '\\'). Root names such as "C:" are left out. As in `std::filesystem`, the names "." and ".." have no extension.
- `IsSlash`, `IsDot` and the other predicates need no row of their own; their meaning shows in the lemmas above.
- Paths.StripPathFound: requires the path to be shorter than 2^64 - 1, so that `npos` cannot be a real position.
- Gui.SavePakFileIdempotent: requires a non-empty file name, because the empty name is not idempotent (`Gui.EmptyNameNotIdempotent`). The same holds for Gui.SaveProjectFileIdempotent and Gui.SaveHeaderFileIdempotent.
- RoundTrip.PackThenExtract: requires the written file to stay under 4 GiB. It also requires that no earlier opened item used the same packed path (otherwise lookup finds the earlier one), and that the reader is built with encryption and with the algorithm used. Only the first `OriginalSize mod 2^32` bytes of a source are packed (`RoundTrip.PackedSource`). It is proved for the corrected reader (`Unpacker.Inflate`, `Unpacker.Decrypt`): as written, an empty source packed with LZ4 is refused at Unpacker.cpp:72 (`Unpacker.EmptyLz4FileRefusedAsWritten`), so for LZ4 the code as written meets the promise only for non-empty sources.
- RoundTrip.ContainerOffsets: requires the written file to stay under 4 GiB. Above that, the `unsigned int` offsets wrap.
- PackerProps.CollectOffsets: requires the data buffer to stay under 4 GiB, for the same reason.
- Packer.PackItem: requires (through `PackablePaths`) a packed path shorter than 255 characters, each a single non-NUL byte (`std::string` holds bytes), and the same holds for `CollectEntries`, `CreatePakFile` and `PackThenExtract`. The code copies `length() + 1` bytes into the 255-byte `FilePath` without a check (Packer.cpp:44): a longer path overruns the field into the entry's other members, which is undefined behaviour the model does not follow. A path with an inner NUL is stored but read back cut at that NUL, so lookup by the full path does not find it.

## Findings

| source | as written | input that shows it | evidently intended | confidence | as-written member | corrected member |
|---|---|---|---|---|---|---|
| Unpacker.cpp:155 | `message_len = size - 24 - 16` in `size_t` with no length check | a stored envelope of 39 bytes: `message_len` becomes 2^64 - 1 and `new[]` is asked for that much | refuse envelopes shorter than nonce plus tag as a decryption failure | not executed | Unpacker.MessageLengthWraps | Unpacker.Decrypt |
| Unpacker.cpp:72 | `if (decompressed_size <= 0)` throws | an empty source file packed with LZ4: its stream decodes to 0 bytes and `LZ4_decompress_safe` returns 0 | only a negative return is a failure | not executed | Unpacker.EmptyLz4FileRefusedAsWritten | Unpacker.Inflate |
| Unpacker.cpp:62 | `mz_uncompress` is given `entry.PackedSize` as the source length | an encrypted zlib entry: after `Decrypt` the buffer holds `PackedSize - 40` bytes, but 40 more are declared | pass `dataBuffer.size()` | not executed | Unpacker.ZlibSourceOverrun | Unpacker.Inflate |
