/**
 * encrypt_string and decrypt_string (enclib.h:283-367): the four layers in
 * a row, and their inverses in the opposite order.
 *
 *   encrypt: XOR with the key, Base85, XOR with the complemented key, Base64
 *   decrypt: Base64 decode, XOR with the complemented key, Base85 decode, XOR with the key
 *
 * The progress messages printed along the way are not modelled.
 */
module Obfuscation {
  import opened Wrappers
  import opened CText
  import opened XorCipher
  import Base64
  import Base85

  /** The text encrypt_string returns for a plaintext and a key. */
  function Encrypted(input: CStr, key: CStr): string {
    if |input| == 0 then ""
    else Base64.Encoded(InverseXored(Base85.Encoded(Xored(input, key)), key))
  }

  /**
   * The bytes decrypt_string returns, None for NULL, when the Base64 layer
   * determines every byte of its buffer.
   */
  function Decrypted(input: string, key: CStr): Option<seq<byte>> {
    if |input| == 0 then Some([])
    else match Base64.Decoded(input)
      case None => None
      case Some(packed) =>
        match Base85.Decoded(InverseXored(packed, key))
        case None => None
        case Some(plain) => Some(Xored(plain, key))
  }

  /**
   * base64_decode writes every byte of the buffer it returns: no quad but
   * the last is cut short by a character outside the alphabet.
   */
  predicate FullyDecoded(input: string) {
    |input| > 0 && Base64.Decoded(input).Some?
    && |Base64.Decoded(input).value| == Base64.DeclaredLength(input)
  }

  /** A copy of s in a fresh buffer, as `malloc` + `memcpy`. */
  method Copy(s: seq<byte>) returns (buffer: array<byte>)
    ensures fresh(buffer) && buffer[..] == s
  {
    buffer := new byte[|s|](i requires 0 <= i < |s| => s[i]);
  }

  /** `xor_with_key` run over a fresh copy of s. */
  method KeyXored(s: seq<byte>, key: CStr) returns (r: seq<byte>)
    ensures r == Xored(s, key)
  {
    var buffer := Copy(s);
    XorWithKey(buffer, |s|, key);
    r := buffer[..];
  }

  /** `xor_with_inverse_key` run over a fresh copy of s. */
  method InverseKeyXored(s: seq<byte>, key: CStr) returns (r: seq<byte>)
    ensures r == InverseXored(s, key)
  {
    var buffer := Copy(s);
    XorWithInverseKey(buffer, |s|, key);
    r := buffer[..];
  }

  /** encrypt_string (enclib.h:283-318): "" for "", otherwise the four layers in turn. */
  method Encrypt(input: CStr, key: CStr) returns (output: string)
    ensures output == Encrypted(input, key)
  {
    if |input| == 0 {
      return "";
    }
    var step1 := KeyXored(input, key);
    var step2, step2Length := Base85.Encode(step1);
    var step3 := InverseKeyXored(step2, key);
    var step4, step4Length := Base64.Encode(step3);
    output := step4;
  }

  /**
   * decrypt_string (enclib.h:320-367): "" for "", NULL when either decoder
   * fails, and otherwise the plaintext bytes. The result is Decrypted(input,
   * key) whenever the Base64 layer fills its whole buffer.
   */
  method Decrypt(input: CString, key: CStr) returns (output: Option<seq<byte>>)
    ensures |input| == 0 ==> output == Some([])
    ensures |input| > 0 && Base64.Decoded(input).None? ==> output.None?
    ensures FullyDecoded(input) ==> output == Decrypted(input, key)
  {
    if |input| == 0 {
      return Some([]);
    }
    var step1 := Base64.Decode(input);
    if step1.None? {
      return None;
    }
    var packed := InverseKeyXored(step1.value, key);
    var step2 := Base85.Decode(packed);
    if FullyDecoded(input) {
      WholeBuffer(step1.value, Base64.Decoded(input).value);
      DecryptedLayers(input, key, step1.value, step2);
    }
    if step2.None? {
      return None;
    }
    var plain := KeyXored(step2.value, key);
    var result := Terminated(plain);
    output := Some(result);
  }

  /** The final `malloc(step2_len + 1)`, `memcpy` and NUL terminator: the bytes before the NUL are s. */
  method Terminated(s: seq<byte>) returns (r: seq<byte>)
    ensures r == s
  {
    var result := new byte[|s| + 1];
    forall k | 0 <= k < |s| {
      result[k] := s[k];
    }
    result[|s|] := 0;
    r := result[..|s|];
  }

  /** Decrypted in terms of the results of the two decoders. */
  lemma DecryptedLayers(input: string, key: CStr, packed: seq<byte>, plain: Option<seq<byte>>)
    requires |input| > 0 && Base64.Decoded(input) == Some(packed)
    requires Base85.Decoded(InverseXored(packed, key)) == plain
    ensures plain.None? ==> Decrypted(input, key) == None
    ensures plain.Some? ==> Decrypted(input, key) == Some(Xored(plain.value, key))
  {
  }

  /** Two byte strings of one length that agree everywhere are equal. */
  lemma WholeBuffer(buffer: seq<byte>, decoded: seq<byte>)
    requires |buffer| == |decoded|
    requires forall k | 0 <= k < |decoded| :: buffer[k] == decoded[k]
    ensures buffer == decoded
  {
  }

  /** The Base85 text of a non-empty input is not empty. */
  lemma Base85NotEmpty(data: seq<byte>)
    requires |data| > 0
    ensures |Base85.Encoded(data)| > 0
  {
    Base85.EncodedLength(data);
  }

  /**
   * Decrypting encrypted text undoes the outer layers exactly; the Base85
   * layer gives back the XOR-ed plaintext zero-padded to whole groups, or
   * fails when one of its groups is all zero.
   */
  lemma DecryptEncryptedPadded(s: CStr, key: CStr)
    requires |s| > 0
    ensures FullyDecoded(Encrypted(s, key))
    ensures Decrypted(Encrypted(s, key), key)
      == if Base85.ZeroGroups(Xored(s, key)) == 0
         then Some(Xored(Base85.ZeroPadded(Xored(s, key)), key))
         else None
  {
    var step1 := Xored(s, key);
    var step2 := Base85.Encoded(step1);
    Base85NotEmpty(step1);
    var packed := InverseXored(step2, key);
    Base64.RoundTrip(packed);
    InverseXoredTwice(step2, key);
    Base85.RoundTripPadded(step1);
  }

  /**
   * decrypt(encrypt(s, k), k) == s when |s| is a multiple of 4 and no
   * 4-byte group of s XOR k is all zero.
   */
  lemma DecryptEncrypted(s: CStr, key: CStr)
    requires |s| % 4 == 0 && Base85.ZeroGroups(Xored(s, key)) == 0
    ensures Decrypted(Encrypted(s, key), key) == Some(s)
  {
    if |s| > 0 {
      DecryptEncryptedPadded(s, key);
      Base85.WholeGroupsNeedNoPadding(Xored(s, key));
      XoredTwice(s, key);
    }
  }
}
