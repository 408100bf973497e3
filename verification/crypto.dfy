/** The cryptographic calls of one transfer, under one fixed file key, as an abstract suite.
    Nothing is assumed of them but the laws the transfer depends on. */
module Crypto {
  import opened Bytes
  import opened Text

  const NONCE_LEN := 12
  const TAG_LEN := 16
  const CHECKSUM_LEN := 64

  type Nonce = n: seq<byte> | |n| == NONCE_LEN witness [0, 0, 0, 0, 0, 0, 0, 0, 0, 0, 0, 0]

  /** seal: AESGCM.encrypt, ciphertext with the tag appended.
      open: AESGCM.decrypt, None when authentication fails.
      sha:  hashlib.sha256(...).hexdigest(), as ASCII bytes. */
  datatype Functions = Functions(
    seal: (Nonce, seq<byte>) -> seq<byte>,
    open: (Nonce, seq<byte>) -> Option<seq<byte>>,
    sha: seq<byte> -> seq<byte>)

  predicate IsHexByte(b: byte) {
    48 <= b <= 57 || 97 <= b <= 102
  }

  predicate IsHexDigest(s: seq<byte>) {
    |s| == CHECKSUM_LEN && forall i :: 0 <= i < |s| ==> IsHexByte(s[i])
  }

  ghost predicate Lawful(f: Functions) {
    && (forall n: Nonce, p: seq<byte> :: |f.seal(n, p)| == |p| + TAG_LEN)
    && (forall n: Nonce, p: seq<byte> :: f.open(n, f.seal(n, p)) == Some(p))
    && (forall n: Nonce, s: seq<byte> :: f.open(n, s).Some? ==> |s| == |f.open(n, s).value| + TAG_LEN)
    && (forall p: seq<byte> :: IsHexDigest(f.sha(p)))
  }

  /** A suite that meets the laws: no secrecy, a zero tag, a constant digest. */
  function Clear(): Functions {
    Functions(
      (n: Nonce, p: seq<byte>) => p + seq(TAG_LEN, _ => 0),
      (n: Nonce, s: seq<byte>) => if |s| < TAG_LEN then None else Some(s[..|s| - TAG_LEN]),
      (p: seq<byte>) => seq(CHECKSUM_LEN, _ => 48))
  }

  type Suite = f: Functions | Lawful(f) ghost witness Clear()

  /** encrypt_chunk, then `payload = nonce + tag + ciphertext`. */
  function SealChunk(f: Suite, nonce: Nonce, plaintext: seq<byte>): (payload: seq<byte>)
    ensures |payload| == NONCE_LEN + TAG_LEN + |plaintext|
  {
    var sealed := f.seal(nonce, plaintext);
    var cut := |sealed| - TAG_LEN;
    nonce + sealed[cut..] + sealed[..cut]
  }

  /** The receiver's split of a payload, then decrypt_chunk; None is its ValueError. */
  function OpenChunk(f: Suite, payload: seq<byte>): Option<seq<byte>> {
    if |payload| < NONCE_LEN + TAG_LEN then None
    else
      var nonce := payload[..NONCE_LEN];
      var tag := payload[NONCE_LEN..NONCE_LEN + TAG_LEN];
      var ciphertext := payload[NONCE_LEN + TAG_LEN..];
      f.open(nonce, ciphertext + tag)
  }

  lemma OpenedSize(f: Suite, payload: seq<byte>)
    requires OpenChunk(f, payload).Some?
    ensures |payload| == NONCE_LEN + TAG_LEN + |OpenChunk(f, payload).value|
  {
  }

  /** A payload is opened again; it is the 12 bytes of the nonce, the 16 of the tag, and the rest
      of the ciphertext. */
  lemma OpenSealed(f: Suite, nonce: Nonce, plaintext: seq<byte>)
    ensures OpenChunk(f, SealChunk(f, nonce, plaintext)) == Some(plaintext)
    ensures |SealChunk(f, nonce, plaintext)| == 28 + |plaintext| && SealChunk(f, nonce, plaintext)[..12] == nonce
    ensures SealChunk(f, nonce, plaintext)[28..] + SealChunk(f, nonce, plaintext)[12..28] == f.seal(nonce, plaintext)
  {
    var sealed := f.seal(nonce, plaintext);
    var cut := |sealed| - TAG_LEN;
    var payload := SealChunk(f, nonce, plaintext);
    assert payload[..NONCE_LEN] == nonce;
    assert payload[NONCE_LEN..NONCE_LEN + TAG_LEN] == sealed[cut..];
    assert payload[NONCE_LEN + TAG_LEN..] == sealed[..cut];
    assert sealed[..cut] + sealed[cut..] == sealed;
  }
}
