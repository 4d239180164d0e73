/** The code the engine calls but does not contain: the three compression back ends
    (miniz, LZ4 HC, zstd), libsodium's XChaCha20-Poly1305 secretbox and its password
    hash (Argon2id). Each is a parameter; `Lawful` lists what the engine relies on. */
module Primitives {
  import opened Results
  import opened ByteSeq
  import opened PakTypes

  datatype Primitives = Primitives(
    /** The back end's worst-case output size for an input of the given length
        (`mz_compressBound`, `LZ4_compressBound`, `ZSTD_compressBound`). */
    compressBound: (CompressionType, nat) -> nat,
    /** One-shot compression at the configured level; `None` is a back-end error. */
    compress: (CompressionType, Bytes) -> Option<Bytes>,
    /** Decompression into a buffer of the given capacity: the bytes written, or
        `None` for a back-end error. */
    decompress: (CompressionType, Bytes, nat) -> Option<Bytes>,
    /** `crypto_secretbox_xchacha20poly1305_easy(key, nonce, m)`: ciphertext ‖ tag. */
    seal: (Bytes, Bytes, Bytes) -> Bytes,
    /** `crypto_secretbox_xchacha20poly1305_open_easy(key, nonce, c)`; `None` when the
        tag does not verify. */
    open: (Bytes, Bytes, Bytes) -> Option<Bytes>,
    /** `crypto_pwhash(password, salt, opslimit, memlimit)`; `None` when it fails. */
    deriveKey: (string, Bytes, nat, nat) -> Option<Bytes>)

  /** The password and cost settings a `Packer` or `Unpacker` holds. */
  datatype Session = Session(password: string, opsLimit: nat, memLimit: nat)

  function DeriveKey(p: Primitives, s: Session, salt: Bytes): Option<Bytes> {
    p.deriveKey(s.password, salt, s.opsLimit, s.memLimit)
  }

  /** Compression output fits the advertised bound and decompresses back, given the
      original length as capacity. */
  ghost predicate CodecLaws(p: Primitives) {
    && (forall t, x :: p.compress(t, x).Some? ==> |p.compress(t, x).value| <= p.compressBound(t, |x|))
    && (forall t, x :: p.compress(t, x).Some? ==> p.decompress(t, p.compress(t, x).value, |x|) == Some(x))
    && (forall t, y, n :: p.decompress(t, y, n).Some? ==> |p.decompress(t, y, n).value| <= n)
  }

  /** zlib's inflate stops at the end of the stream and ignores whatever follows it. */
  ghost predicate ZlibIgnoresTrailingBytes(p: Primitives) {
    forall x, z :: p.compress(ZLIB, x).Some? && p.compress(ZLIB, x).value <= z ==>
      p.decompress(ZLIB, z, |x|) == Some(x)
  }

  /** The secretbox adds exactly a tag, and opening with the same key and nonce
      recovers the message; a successful open returns a message one tag shorter. */
  ghost predicate AeadLaws(p: Primitives) {
    && (forall k, n, m :: |p.seal(k, n, m)| == |m| + MacBytes)
    && (forall k, n, m :: p.open(k, n, p.seal(k, n, m)) == Some(m))
    && (forall k, n, c :: p.open(k, n, c).Some? ==> |p.open(k, n, c).value| + MacBytes == |c|)
  }

  ghost predicate Lawful(p: Primitives) {
    CodecLaws(p) && ZlibIgnoresTrailingBytes(p) && AeadLaws(p)
  }
}
