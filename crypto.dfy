/** The cryptographic primitives, kept uninterpreted.

    HMAC-SHA256 is an arbitrary function from (key, message) to a 32-byte
    digest.  AES-128-GCM is modelled through its structure in NIST SP 800-38D:
    encryption is GCTR, i.e. byte j of the ciphertext is byte j of the
    plaintext XOR byte j of a keystream that depends only on the key and the
    IV (section 6.5), and the tag is a function of key, IV and ciphertext
    (section 7.1, no additional authenticated data).  The block cipher and
    GHASH themselves are not modelled. */
module Crypto {
  import opened Bytes

  const DigestSize := 32
  const BlockSize := 16

  type Digest = s: Bytes | |s| == 32 witness seq(32, _ => 0)
  type Block = s: Bytes | |s| == 16 witness seq(16, _ => 0)

  datatype Primitives = Primitives(
    hmacSha256: (Bytes, Bytes) -> Digest,  // (key, message)
    gctrKeystream: (Bytes, Block, nat) -> byte,  // (key, iv, byte position)
    gcmTag: (Bytes, Block, Bytes) -> Block)  // (key, iv, ciphertext)

  function Hmac(p: Primitives, key: Bytes, msg: Bytes): (d: Digest)
  {
    p.hmacSha256(key, msg)
  }

  lemma BvRoundTrip(b: bv8)
    ensures (b as int) as bv8 == b
  {
  }

  lemma ByteRoundTrip(x: byte)
    ensures (x as bv8) as int == x
  {
    assert x as bv16 < 0x100;
    assert (x as bv16) as bv8 == x as bv8;
  }

  /** Bytewise exclusive or, as the C code and GCTR compute it. */
  function Xor(a: byte, b: byte): byte
  {
    ((a as bv8) ^ (b as bv8)) as int
  }

  lemma XorCancel(a: byte, k: byte)
    ensures Xor(Xor(a, k), k) == a
  {
    var x := (a as bv8) ^ (k as bv8);
    BvRoundTrip(x);
    assert (x ^ (k as bv8)) ^ (k as bv8) == x ^ ((k as bv8) ^ (k as bv8));
    ByteRoundTrip(a);
  }

  /** GCTR over `input` starting at counter block 0: encryption and decryption are the same map. */
  function Gctr(p: Primitives, key: Bytes, iv: Block, input: Bytes): (out: Bytes)
    ensures |out| == |input|
  {
    seq<byte>(|input|, j requires 0 <= j < |input| => Xor(input[j], p.gctrKeystream(key, iv, j)))
  }

  /** Byte `j` of the output is byte `j` of the input XOR keystream byte `j`. */
  lemma GctrAt(p: Primitives, key: Bytes, iv: Block, input: Bytes, j: nat)
    requires j < |input|
    ensures Gctr(p, key, iv, input)[j] == Xor(input[j], p.gctrKeystream(key, iv, j))
  {
  }

  /** `encrypt_and_digest`: ciphertext of the same length as the plaintext, and the tag over it. */
  function GcmEncrypt(p: Primitives, key: Bytes, iv: Block, plaintext: Bytes): (sealed: (Bytes, Block))
    ensures |sealed.0| == |plaintext|
  {
    var ct := Gctr(p, key, iv, plaintext);
    (ct, p.gcmTag(key, iv, ct))
  }

  lemma {:induction false} GctrInverse(p: Primitives, key: Bytes, iv: Block, plaintext: Bytes)
    ensures Gctr(p, key, iv, Gctr(p, key, iv, plaintext)) == plaintext
  {
    var ct := Gctr(p, key, iv, plaintext);
    var back := Gctr(p, key, iv, ct);
    forall j | 0 <= j < |plaintext|
      ensures back[j] == plaintext[j]
    {
      GctrAt(p, key, iv, plaintext, j);
      GctrAt(p, key, iv, ct, j);
      XorCancel(plaintext[j], p.gctrKeystream(key, iv, j));
    }
  }
}
