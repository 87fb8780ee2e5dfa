/**
 * The primitives the codec calls but does not implement: Web Crypto's
 * SHA-256 and AES-GCM, the Keccak-256 hash behind the EIP-55 checksum,
 * UTF-8 `TextEncoder`/`TextDecoder`, and `crypto.getRandomValues`. They are
 * parameters of the model; the facts about them that a proof needs are
 * named predicates that the lemmas take as hypotheses.
 */
module Platform {
  import opened Js

  /** A 32-byte digest: the output of SHA-256 and of Keccak-256, and the raw material of an AES-256 key. */
  type Digest = s: seq<byte> | |s| == 32 witness seq(32, _ => 0)

  /** Bytes of the authentication tag AES-GCM appends (Web Crypto's default `tagLength` of 128 bits). */
  const TagLength: nat := 16

  /** AES-GCM output: the ciphertext followed by the tag, so never shorter than the tag. */
  type Sealed = s: seq<byte> | |s| >= TagLength witness seq(TagLength, _ => 0)

  datatype Primitives = Primitives(
    /** `crypto.subtle.digest('SHA-256', data)` */
    sha256: seq<byte> -> Digest,
    /** ethers `keccak256(data)` */
    keccak256: seq<byte> -> Digest,
    /** `crypto.subtle.encrypt({ name: 'AES-GCM', iv }, key, data)` under the raw key material: ciphertext followed by the tag */
    aesGcmEncrypt: (Digest, seq<byte>, seq<byte>) -> Sealed,
    /** `crypto.subtle.decrypt({ name: 'AES-GCM', iv }, key, data)`; `None` when it rejects with OperationError */
    aesGcmDecrypt: (Digest, seq<byte>, seq<byte>) -> Option<seq<byte>>,
    /** `new TextEncoder().encode(s)` */
    utf8Encode: string -> seq<byte>,
    /** `new TextDecoder().decode(bytes)` (replacement characters, never an exception) */
    utf8Decode: seq<byte> -> string
  )

  /** Hypothesis: AES-GCM decryption under the key and nonce used to encrypt returns the plaintext. */
  ghost predicate AesGcmRoundTrips(p: Primitives) {
    forall key: Digest, iv: seq<byte>, m: seq<byte> | |iv| == 12 ::
      p.aesGcmDecrypt(key, iv, p.aesGcmEncrypt(key, iv, m)) == Some(m)
  }

  /**
   * Hypothesis about one string: decoding its UTF-8 encoding gives it back.
   * It does not hold of every string: a default `TextDecoder` drops a
   * leading U+FEFF as a byte-order mark.
   */
  ghost predicate Utf8RoundTrips(p: Primitives, s: string) {
    p.utf8Decode(p.utf8Encode(s)) == s
  }

  /** `crypto.getRandomValues` as a source of bytes: a call that fills `n` bytes takes the first `n`. */
  type RandomSource = nat -> byte

  function RandomBytes(rng: RandomSource, n: nat): (r: seq<byte>)
    ensures |r| == n && forall i :: 0 <= i < n ==> r[i] == rng(i)
  {
    seq(n, i requires 0 <= i < n => rng(i))
  }
}
