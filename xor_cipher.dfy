/**
 * The two in-place XOR layers of the obfuscation pipeline (enclib.h:265-281).
 *
 * Byte i of the data is combined with key byte i mod |key|. The key is a
 * signed `char`, so `data[i] ^= key[j]` works on the sign-extended value;
 * only its low eight bits reach the `unsigned char`, which are the key's
 * own byte. `~key[j]` likewise leaves 255 - byte in the low eight bits.
 */
module XorCipher {
  import opened CText

  function Pow2(n: nat): (p: nat)
    ensures p >= 1
  {
    if n == 0 then 1 else 2 * Pow2(n - 1)
  }

  /** Bitwise exclusive or of the low `width` bits of a and b. */
  function BitXor(a: nat, b: nat, width: nat): (r: nat)
    ensures r < Pow2(width)
  {
    if width == 0 then 0
    else (a % 2 + b % 2) % 2 + 2 * BitXor(a / 2, b / 2, width - 1)
  }

  /** `^` on two bytes. */
  function XorByte(a: byte, b: byte): byte {
    assert Pow2(8) == 256;
    BitXor(a, b, 8)
  }

  /** XOR-ing twice with the same bits gives back the original bits. */
  lemma {:induction false} BitXorTwice(a: nat, k: nat, width: nat)
    requires a < Pow2(width)
    ensures BitXor(BitXor(a, k, width), k, width) == a
  {
    if width > 0 {
      var r := BitXor(a, k, width);
      var rest := BitXor(a / 2, k / 2, width - 1);
      BitXorTwice(a / 2, k / 2, width - 1);
      Halves(r, (a % 2 + k % 2) % 2, rest);
      Halves(a, a % 2, a / 2);
    }
  }

  /** The low bit and the rest of bit + 2 * rest. */
  lemma Halves(x: nat, bit: nat, rest: nat)
    requires x == bit + 2 * rest && bit < 2
    ensures x / 2 == rest && x % 2 == bit
  {
  }

  lemma XorByteTwice(a: byte, k: byte)
    ensures XorByte(XorByte(a, k), k) == a
  {
    assert Pow2(8) == 256;
    BitXorTwice(a, k, 8);
  }

  /** The low byte of `~c` for a `char` c holding byte b. */
  function Complement(b: byte): (r: byte)
    ensures r + b == 255
  {
    255 - b
  }

  /** What `xor_with_key` makes of byte i of the data: unchanged for an empty key. */
  function Masked(b: byte, key: CStr, i: nat): byte {
    if |key| == 0 then b else XorByte(b, key[i % |key|])
  }

  /** What `xor_with_inverse_key` makes of byte i of the data. */
  function InverseMasked(b: byte, key: CStr, i: nat): byte {
    if |key| == 0 then b else XorByte(b, Complement(key[i % |key|]))
  }

  /** xor_with_key applied to a whole byte string. */
  function Xored(data: seq<byte>, key: CStr): (r: seq<byte>)
    ensures |r| == |data|
  {
    seq(|data|, i requires 0 <= i < |data| => Masked(data[i], key, i))
  }

  /** xor_with_inverse_key applied to a whole byte string. */
  function InverseXored(data: seq<byte>, key: CStr): (r: seq<byte>)
    ensures |r| == |data|
  {
    seq(|data|, i requires 0 <= i < |data| => InverseMasked(data[i], key, i))
  }

  /** xor_with_key undoes itself. */
  lemma XoredTwice(data: seq<byte>, key: CStr)
    ensures Xored(Xored(data, key), key) == data
  {
    forall i | 0 <= i < |data|
      ensures Xored(Xored(data, key), key)[i] == data[i]
    {
      if |key| > 0 {
        XorByteTwice(data[i], key[i % |key|]);
      }
    }
  }

  /** xor_with_inverse_key undoes itself. */
  lemma InverseXoredTwice(data: seq<byte>, key: CStr)
    ensures InverseXored(InverseXored(data, key), key) == data
  {
    forall i | 0 <= i < |data|
      ensures InverseXored(InverseXored(data, key), key)[i] == data[i]
    {
      if |key| > 0 {
        XorByteTwice(data[i], Complement(key[i % |key|]));
      }
    }
  }

  /** An empty key leaves the data as it is. */
  lemma EmptyKeyKeepsData(data: seq<byte>, key: CStr)
    requires |key| == 0
    ensures Xored(data, key) == data && InverseXored(data, key) == data
  {
  }

  /**
   * xor_with_key (enclib.h:265-272): the first dataLen bytes of data are
   * XOR-ed with the repeating key; nothing at or past dataLen changes.
   */
  method XorWithKey(data: array<byte>, dataLen: nat, key: CStr)
    requires dataLen <= data.Length
    modifies data
    ensures data[..dataLen] == Xored(old(data[..dataLen]), key)
    ensures data[dataLen..] == old(data[dataLen..])
  {
    var keyLen := |key|;
    if keyLen == 0 {
      return;
    }
    for i := 0 to dataLen
      invariant forall m | 0 <= m < i :: data[m] == Masked(old(data[m]), key, m)
      invariant forall m | i <= m < data.Length :: data[m] == old(data[m])
    {
      data[i] := XorByte(data[i], key[i % keyLen]);
    }
  }

  /**
   * xor_with_inverse_key (enclib.h:274-281): as XorWithKey, with the
   * complement of each key byte.
   */
  method XorWithInverseKey(data: array<byte>, dataLen: nat, key: CStr)
    requires dataLen <= data.Length
    modifies data
    ensures data[..dataLen] == InverseXored(old(data[..dataLen]), key)
    ensures data[dataLen..] == old(data[dataLen..])
  {
    var keyLen := |key|;
    if keyLen == 0 {
      return;
    }
    for i := 0 to dataLen
      invariant forall m | 0 <= m < i :: data[m] == InverseMasked(old(data[m]), key, m)
      invariant forall m | i <= m < data.Length :: data[m] == old(data[m])
    {
      data[i] := XorByte(data[i], Complement(key[i % keyLen]));
    }
  }
}
