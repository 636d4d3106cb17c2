// The cryptographic libraries the core calls (crypto/aes, crypto/cipher,
// crypto/hmac with crypto/sha512). The AES block function and HMAC-SHA512 are
// foreign: they enter the model as function-valued parameters of these types.
// CFB mode (NIST SP 800-38A, section 6.3) is written out over an arbitrary
// block function, as Go's cipher.NewCFBEncrypter / NewCFBDecrypter run it:
// full-block feedback, the last block possibly partial.
module CryptoPrimitives {
  import opened Bytes

  const BlockSize: nat := 16   // aes.BlockSize, also the IV length
  const TagSize: nat := 64     // output length of HMAC over SHA-512

  type Block = s: seq<byte> | |s| == BlockSize witness seq(16, _ => 0)
  type Tag = s: seq<byte> | |s| == TagSize witness seq(64, _ => 0)

  /** AES encryption of one block under a key (aes.NewCipher(key).Encrypt). */
  type BlockCipher = (seq<byte>, Block) -> Block

  /** HMAC-SHA512 of a message under a key (hmac.New(sha512.New, key)). */
  type Mac = (seq<byte>, seq<byte>) -> Tag

  /** The key lengths aes.NewCipher accepts: AES-128, AES-192, AES-256. */
  predicate ValidKeyLength(n: nat) {
    n == 16 || n == 24 || n == 32
  }

  /** CFB encryption: each key-stream block is the cipher of the previous
      ciphertext block, the first one the cipher of the IV. */
  function CfbEncrypt(e: BlockCipher, key: seq<byte>, iv: Block, p: seq<byte>): (c: seq<byte>)
    ensures |c| == |p|
    decreases |p|
  {
    var stream := e(key, iv);
    if |p| <= BlockSize then Xor(p, stream)
    else
      var c0: Block := Xor(p[..BlockSize], stream);
      c0 + CfbEncrypt(e, key, c0, p[BlockSize..])
  }

  /** CFB decryption: the feedback is the incoming ciphertext block. */
  function CfbDecrypt(e: BlockCipher, key: seq<byte>, iv: Block, c: seq<byte>): (p: seq<byte>)
    ensures |p| == |c|
    decreases |c|
  {
    var stream := e(key, iv);
    if |c| <= BlockSize then Xor(c, stream)
    else Xor(c[..BlockSize], stream) + CfbDecrypt(e, key, c[..BlockSize], c[BlockSize..])
  }

  /** Decrypting with the same key and IV recovers the plaintext, for every
      block function: CFB only ever runs the cipher forwards. */
  lemma {:induction false} CfbRoundTrip(e: BlockCipher, key: seq<byte>, iv: Block, p: seq<byte>)
    ensures CfbDecrypt(e, key, iv, CfbEncrypt(e, key, iv, p)) == p
    decreases |p|
  {
    var stream := e(key, iv);
    var c := CfbEncrypt(e, key, iv, p);
    if |p| <= BlockSize {
      XorTwice(p, stream);
    } else {
      var c0: Block := Xor(p[..BlockSize], stream);
      var rest := CfbEncrypt(e, key, c0, p[BlockSize..]);
      assert c == c0 + rest;
      assert c[..BlockSize] == c0 && c[BlockSize..] == rest;
      XorTwice(p[..BlockSize], stream);
      CfbRoundTrip(e, key, c0, p[BlockSize..]);
      assert p == p[..BlockSize] + p[BlockSize..];
    }
  }
}
