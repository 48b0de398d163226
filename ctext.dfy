/**
 * The C character classes the program relies on (the "C" locale of <ctype.h>)
 * the byte type used for `unsigned char` buffers, and the big-endian byte
 * split that the codecs use.
 */
module CText {
  import opened Wrappers

  /** One `unsigned char`, as its value 0..255. */
  type byte = b: int | 0 <= b < 256

  /** The content of a NUL-terminated C string: every byte before the terminator. */
  type CStr = s: seq<byte> | forall i | 0 <= i < |s| :: s[i] != 0

  /**
   * The characters of a NUL-terminated C `char` string, terminator excluded.
   * Each character stands for one C `char`, one byte: text with multi-byte
   * characters is given one character per byte.
   */
  type CString = s: string | forall i | 0 <= i < |s| :: s[i] != '\0'

  /** isspace: space, \t, \n, \v, \f, \r. */
  predicate IsSpace(c: char) {
    c == ' ' || 9 <= c as int <= 13
  }

  /** isprint: the printable ASCII range, space included. */
  predicate IsPrint(c: char) {
    32 <= c as int <= 126
  }

  predicate IsDigit(c: char) {
    '0' <= c <= '9'
  }

  /** isspace applied to a byte, as `isspace((unsigned char)c)`. */
  predicate ByteIsSpace(b: byte) {
    b == 32 || (9 <= b && b <= 13)
  }

  /** isprint applied to a byte. */
  predicate ByteIsPrint(b: byte) {
    32 <= b && b <= 126
  }

  /** The byte a C `char` holds. */
  function ByteOf(c: char): byte {
    (c as int) % 256
  }

  /** `(int)c` for a signed `char` holding byte b (x86-64: char is signed). */
  function SignedChar(b: byte): (v: int)
    ensures -128 <= v < 128
    ensures v % 256 == b
  {
    if b < 128 then b else b - 256
  }

  /** The last n bytes of t, most significant first. */
  function Octets(t: int, n: nat): (r: seq<byte>)
    requires 0 <= t
    ensures |r| == n
  {
    if n == 0 then [] else Octets(t / 256, n - 1) + [t % 256]
  }

  /** The characters of s from i up to j: a part of a C string is one. */
  function Substring(s: CString, i: nat, j: nat): (r: CString)
    requires i <= j <= |s|
    ensures |r| == j - i && forall k | 0 <= k < j - i :: r[k] == s[i + k]
  {
    var t := s[i..j];
    assert forall k | 0 <= k < |t| :: t[k] == s[i + k];
    t
  }

  /** The needle sits in the haystack at index i. */
  predicate OccursAt(hay: string, needle: string, i: nat) {
    i + |needle| <= |hay| && hay[i..i + |needle|] == needle
  }

  /** The first index at or after i where the needle occurs. */
  function StrstrFrom(hay: string, needle: string, i: nat): (r: Option<nat>)
    requires i <= |hay|
    ensures r.Some? ==> i <= r.value && OccursAt(hay, needle, r.value)
    ensures r.Some? ==> forall j | i <= j < r.value :: !OccursAt(hay, needle, j)
    ensures r.None? ==> forall j | i <= j <= |hay| :: !OccursAt(hay, needle, j)
    decreases |hay| - i
  {
    if OccursAt(hay, needle, i) then Some(i)
    else if i == |hay| then None
    else StrstrFrom(hay, needle, i + 1)
  }

  /** strstr: the index of the first occurrence of needle in hay, None for NULL. */
  function Strstr(hay: string, needle: string): Option<nat> {
    StrstrFrom(hay, needle, 0)
  }
}
