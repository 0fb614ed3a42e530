/** `encrypt_str` and `decrypt_str` of rsa.rs: the text codec composed with the per-block
    cipher. */
module RsaText {
  import opened Bits
  import opened Wrappers
  import opened Codec
  import opened RsaKeys

  /** Every block of `blocks` raised to e modulo n. */
  function EncryptedBlocks(blocks: seq<nat>, key: PublicKey): (c: seq<nat>)
    requires key.modulus > 0
    ensures |c| == |blocks| && forall i :: 0 <= i < |c| ==> c[i] < key.modulus
  {
    seq(|blocks|, i requires 0 <= i < |blocks| => ModPow(blocks[i], key.exponent, key.modulus))
  }

  /** The cipher text of a message: its packed blocks, each encrypted. */
  function Encrypted(msg: string, key: PublicKey): (c: seq<nat>)
    requires key.modulus > 0
    ensures |c| == NumBlocks(|msg|)
  {
    EncryptedBlocks(Packed(msg), key)
  }

  /** The plain text recovered from a cipher text, or None when some block decrypts to a
      value that does not fit in a `u32`. */
  function Decrypted(cipher: seq<nat>, privkey: nat, modulus: nat): Option<string>
    requires modulus > 0
  {
    var blocks := seq(|cipher|, i requires 0 <= i < |cipher| => ModPow(cipher[i], privkey, modulus));
    if forall i :: 0 <= i < |blocks| ==> blocks[i] < WordModulus then Some(Unpacked(blocks))
    else None
  }

  /** `encrypt_str`: pack, then encrypt every block. */
  method EncryptStr(msg: string, pubkey: PublicKey) returns (cipher: seq<nat>)
    requires pubkey.modulus > 0
    ensures cipher == EncryptedBlocks(PackRun(msg, |msg|), pubkey)
    ensures IsAscii(msg) ==> cipher == Encrypted(msg, pubkey)
  {
    var packed := PackString(msg);
    cipher := EncryptBytes(packed, pubkey);
  }

  /** `decrypt_str`: decrypt every block, then unpack. The abort of `_decrypt_bytes` on a
      block of 32 bits or more is `None`. */
  method DecryptStr(cipher: seq<nat>, privkey: nat, modulus: nat) returns (r: Option<string>)
    requires modulus > 0
    ensures r == Decrypted(cipher, privkey, modulus)
  {
    var decBlocks := DecryptBytes(cipher, privkey, modulus);
    if decBlocks.None? {
      ghost var i :| 0 <= i < |cipher| && ModPow(cipher[i], privkey, modulus) >= WordModulus;
      ghost var blocks := seq(|cipher|, i requires 0 <= i < |cipher| => ModPow(cipher[i], privkey, modulus));
      assert blocks[i] >= WordModulus;
      return None;
    }
    var text := UnpackString(decBlocks.value);
    assert decBlocks.value == seq(|cipher|, i requires 0 <= i < |cipher| => ModPow(cipher[i], privkey, modulus));
    return Some(text);
  }

  /** Decryption undoes encryption block by block whenever the key pair inverts every
      block: decrypting the cipher text of a NUL-free ASCII message gives back the message,
      followed by one NUL when its length is not a multiple of four. */
  lemma TextRoundTrip(msg: string, pubkey: PublicKey, privkey: nat)
    requires IsAscii(msg) && NoGroupStartsWithNul(msg) && pubkey.modulus > 0
    requires forall b: nat :: b < WordModulus ==>
      ModPow(ModPow(b, pubkey.exponent, pubkey.modulus), privkey, pubkey.modulus) == b
    ensures Decrypted(Encrypted(msg, pubkey), privkey, pubkey.modulus) == Some(Padded(msg))
    ensures Decrypted(Encrypted(msg, pubkey), privkey, pubkey.modulus) == Some(msg)
      <==> |msg| % BlockSize == 0
  {
    var packed := Packed(msg);
    var cipher := Encrypted(msg, pubkey);
    PackedFits(msg);
    var blocks := seq(|cipher|, i requires 0 <= i < |cipher| => ModPow(cipher[i], privkey, pubkey.modulus));
    assert blocks == packed by {
      forall i | 0 <= i < |cipher|
        ensures blocks[i] == packed[i]
      {
        assert packed[i] < WordModulus;
      }
    }
    UnpackPack(msg);
  }
}
