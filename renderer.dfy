/**
 * display_return_value (malcrepl.c:660-724): how the REPL shows the value a
 * call left in its result buffer, read back through the libffi type of the
 * call. Multi-byte values are read from memory in x86-64 (little-endian,
 * two's complement) order; a returned pointer is read through `memory`, the
 * bytes of the process after the call.
 */
module Renderer {
  import opened Wrappers
  import opened CText
  import opened FfiTypes

  /** What one `printf` of display_return_value shows. */
  datatype Shown =
    | Nothing                         // void, or no result buffer
    | Printable(c: char, code: int)   // → 'c' (code)
    | NonPrintable(code: int)         // → code (non-printable)
    | IntShown(value: int)            // → %d
    | LongShown(value: int)           // → %ld
    | FloatShown(bytes: seq<byte>)    // → %f; the formatting is not modelled
    | DoubleShown(bytes: seq<byte>)   // → %lf; the formatting is not modelled
    | Null                            // → NULL
    | Quoted(text: CString)           // → "text"
    | Address(address: nat)           // → %p

  // ---------------------------------------------------------------------------
  // Reading integers out of memory
  // ---------------------------------------------------------------------------

  function Pow256(n: nat): (r: nat)
    ensures r > 0
  {
    if n == 0 then 1 else 256 * Pow256(n - 1)
  }

  /** The unsigned value of bytes stored least significant first. */
  function Unsigned(bs: seq<byte>): (r: nat)
    ensures r < Pow256(|bs|)
  {
    if |bs| == 0 then 0
    else
      var rest := Unsigned(bs[1..]);
      assert 256 * rest <= 256 * (Pow256(|bs| - 1) - 1);
      bs[0] + 256 * rest
  }

  /** The two's complement value of bytes stored least significant first. */
  function Signed(bs: seq<byte>): (r: int)
    requires |bs| > 0
    ensures -128 * Pow256(|bs| - 1) <= r < 128 * Pow256(|bs| - 1)
    ensures r == Unsigned(bs) || r == Unsigned(bs) - Pow256(|bs|)
  {
    var u := Unsigned(bs);
    var half := 128 * Pow256(|bs| - 1);
    assert Pow256(|bs|) == 2 * half;
    if u < half then u else u - Pow256(|bs|)
  }

  /** How a value v sits in n bytes of memory: v modulo 256^n, least significant byte first. */
  function LittleEndian(v: int, n: nat): (r: seq<byte>)
    ensures |r| == n
    decreases n
  {
    if n == 0 then [] else [v % 256] + LittleEndian(v / 256, n - 1)
  }

  /** Reading back the bytes of a value that fits gives the value. */
  lemma {:induction false} UnsignedLittleEndian(v: int, n: nat)
    requires 0 <= v < Pow256(n)
    ensures Unsigned(LittleEndian(v, n)) == v
    decreases n
  {
    if n > 0 {
      UnsignedLittleEndian(v / 256, n - 1);
      assert LittleEndian(v, n)[1..] == LittleEndian(v / 256, n - 1);
    }
  }

  /** Storing v and v + 256^n writes the same bytes. */
  lemma {:induction false} LittleEndianWraps(v: int, n: nat)
    ensures LittleEndian(v + Pow256(n), n) == LittleEndian(v, n)
    decreases n
  {
    if n > 0 {
      var p := Pow256(n - 1);
      assert (v + 256 * p) % 256 == v % 256;
      assert (v + 256 * p) / 256 == v / 256 + p;
      LittleEndianWraps(v / 256, n - 1);
    }
  }

  /**
   * Storing v in a wider slot writes the narrow bytes first: the low k
   * bytes of a k + e byte store are the k byte store.
   */
  lemma {:induction false} LittleEndianPrefix(v: int, k: nat, e: nat)
    ensures LittleEndian(v, k + e)[..k] == LittleEndian(v, k)
    decreases k
  {
    if k > 0 {
      LittleEndianPrefix(v / 256, k - 1, e);
      assert LittleEndian(v, k + e)[1..] == LittleEndian(v / 256, k - 1 + e);
      assert LittleEndian(v, k + e)[..k] == [v % 256] + LittleEndian(v, k + e)[1..][..k - 1];
    }
  }

  /** Reading back the bytes of a signed value that fits gives the value. */
  lemma SignedLittleEndian(v: int, n: nat)
    requires n > 0 && -128 * Pow256(n - 1) <= v < 128 * Pow256(n - 1)
    ensures Signed(LittleEndian(v, n)) == v
  {
    if v >= 0 {
      UnsignedLittleEndian(v, n);
    } else {
      LittleEndianWraps(v, n);
      UnsignedLittleEndian(v + Pow256(n), n);
    }
  }

  /** The widths the REPL reads: 4 bytes for int, 8 for long and pointers. */
  lemma Pow256Widths()
    ensures 128 * Pow256(3) == 0x8000_0000
    ensures 128 * Pow256(7) == 0x8000_0000_0000_0000
  {
    assert Pow256(1) == 0x100;
    assert Pow256(2) == 0x1_0000;
    assert Pow256(3) == 0x100_0000;
    assert Pow256(4) == 0x1_0000_0000;
    assert Pow256(5) == 0x100_0000_0000;
    assert Pow256(6) == 0x1_0000_0000_0000;
  }

  // ---------------------------------------------------------------------------
  // The string test on a returned pointer
  // ---------------------------------------------------------------------------

  /** A byte the string test accepts: isprint or isspace. */
  predicate IsTextByte(b: byte) {
    ByteIsPrint(b) || ByteIsSpace(b)
  }

  /**
   * Where the scan of `str[len]` for len < 256 stops: at 256, at the NUL or
   * at the first byte that is neither printable nor whitespace.
   */
  function TextEnd(str: nat -> byte, len: nat): (r: nat)
    requires len <= 256
    ensures len <= r <= 256
    ensures forall k | len <= k < r :: str(k) != 0 && IsTextByte(str(k))
    ensures r < 256 ==> str(r) == 0 || !IsTextByte(str(r))
    decreases 256 - len
  {
    if len == 256 || str(len) == 0 || !IsTextByte(str(len)) then len
    else TextEnd(str, len + 1)
  }

  /** The first n characters of str, none of them NUL. */
  function Chars(str: nat -> byte, n: nat): (s: CString)
    requires forall k | 0 <= k < n :: str(k) != 0
    ensures |s| == n && forall k | 0 <= k < n :: s[k] as int == str(k)
  {
    if n == 0 then []
    else
      var s := Chars(str, n - 1) + [str(n - 1) as char];
      assert forall k | 0 <= k < n :: s[k] as int == str(k);
      s
  }

  /**
   * The pointer shows as a string of n characters: 0 < n < 256, a NUL at
   * n, and only printable or whitespace bytes before it.
   */
  predicate IsShownString(str: nat -> byte, n: nat) {
    0 < n < 256 && str(n) == 0
    && forall k | 0 <= k < n :: str(k) != 0 && IsTextByte(str(k))
  }

  /** The pointer branch: `str` is what the non-NULL pointer points at. */
  function PointerShown(address: nat, str: nat -> byte): Shown {
    if address == 0 then Null
    else
      var n := TextEnd(str, 0);
      if 0 < n < 256 && str(n) == 0 then Quoted(Chars(str, n))
      else Address(address)
  }

  /** The bytes of memory from the address on. */
  function From(memory: nat -> byte, address: nat): nat -> byte {
    k => memory(address + k)
  }

  // ---------------------------------------------------------------------------
  // display_return_value
  // ---------------------------------------------------------------------------

  /**
   * What display_return_value shows for a call of type tag whose result
   * buffer holds `result` (None for a NULL buffer).
   */
  function Rendered(tag: TypeTag, result: Option<seq<byte>>, memory: nat -> byte): Shown
    requires result.Some? ==> |result.value| >= Size(tag)
  {
    if result.None? then Nothing
    else
      var r := result.value;
      match tag
      case Void => Nothing
      case SChar =>
        if ByteIsPrint(r[0]) then Printable(r[0] as char, SignedChar(r[0])) else NonPrintable(SignedChar(r[0]))
      case SInt => IntShown(Signed(r[..4]))
      case SInt32 => IntShown(Signed(r[..4]))
      case SLong => LongShown(Signed(r[..8]))
      case Float => FloatShown(r[..4])
      case Double => DoubleShown(r[..8])
      case Pointer => PointerShown(Unsigned(r[..8]), From(memory, Unsigned(r[..8])))
  }

  /** display_return_value, with the string test as the source's loop. */
  method Display(tag: TypeTag, result: Option<seq<byte>>, memory: nat -> byte) returns (shown: Shown)
    requires result.Some? ==> |result.value| >= Size(tag)
    ensures shown == Rendered(tag, result, memory)
  {
    if result.None? || tag == Void {
      return Nothing;
    }
    var r := result.value;
    if tag != Pointer {
      return Rendered(tag, result, memory);
    }
    var address := Unsigned(r[..8]);
    shown := ShowPointer(address, From(memory, address));
  }

  /** The pointer branch: NULL, or the string test over at most 256 bytes. */
  method ShowPointer(address: nat, str: nat -> byte) returns (shown: Shown)
    ensures shown == PointerShown(address, str)
  {
    if address == 0 {
      return Null;
    }
    var len: nat := 0;
    while len < 256 && str(len) != 0
      invariant len <= 256 && TextEnd(str, len) == TextEnd(str, 0)
    {
      if !IsTextByte(str(len)) {
        return Address(address);
      }
      len := len + 1;
    }
    if len > 0 && len < 256 {
      shown := Quoted(Chars(str, len));
    } else {
      shown := Address(address);
    }
  }

  // ---------------------------------------------------------------------------
  // Properties
  // ---------------------------------------------------------------------------

  /** An int the function returned shows as itself, for both int tags. */
  lemma IntShownAsReturned(tag: TypeTag, v: int, memory: nat -> byte)
    requires tag == SInt || tag == SInt32
    requires -0x8000_0000 <= v < 0x8000_0000
    ensures Rendered(tag, Some(LittleEndian(v, 4)), memory) == IntShown(v)
  {
    Pow256Widths();
    SignedLittleEndian(v, 4);
    assert LittleEndian(v, 4)[..4] == LittleEndian(v, 4);
  }

  /** A long the function returned shows as itself. */
  lemma LongShownAsReturned(v: Long, memory: nat -> byte)
    ensures Rendered(SLong, Some(LittleEndian(v, 8)), memory) == LongShown(v)
  {
    Pow256Widths();
    SignedLittleEndian(v, 8);
    assert LittleEndian(v, 8)[..8] == LittleEndian(v, 8);
  }

  /**
   * A char shows with its glyph exactly when it is printable, and always
   * with its signed value.
   */
  lemma CharShown(r: seq<byte>, memory: nat -> byte)
    requires |r| >= 1
    ensures Rendered(SChar, Some(r), memory).Printable? <==> ByteIsPrint(r[0])
    ensures Rendered(SChar, Some(r), memory).Printable? ==> Rendered(SChar, Some(r), memory).code == r[0]
    ensures !Rendered(SChar, Some(r), memory).Printable? ==> Rendered(SChar, Some(r), memory) == NonPrintable(SignedChar(r[0]))
  {
  }

  /**
   * A returned pointer shows as a string exactly when it is not NULL and
   * points at 1..255 printable or whitespace characters followed by a NUL;
   * the string shown is those characters. NULL shows as NULL, anything else
   * as its address.
   */
  lemma PointerShownAsString(address: nat, str: nat -> byte)
    ensures PointerShown(address, str) == Null <==> address == 0
    ensures PointerShown(address, str).Quoted? <==> address != 0 && exists n: nat :: IsShownString(str, n)
    ensures PointerShown(address, str).Quoted? ==>
      var t := PointerShown(address, str).text;
      IsShownString(str, |t|) && forall k | 0 <= k < |t| :: t[k] as int == str(k)
    ensures address != 0 && !PointerShown(address, str).Quoted? ==> PointerShown(address, str) == Address(address)
  {
    if address != 0 {
      var e := TextEnd(str, 0);
      if exists n: nat :: IsShownString(str, n) {
        var n: nat :| IsShownString(str, n);
        TextEndAtNul(str, n, 0);
      } else if 0 < e < 256 && str(e) == 0 {
        assert IsShownString(str, e);
      }
    }
  }

  /** A scan from len that meets only accepted bytes before a NUL at n stops at n. */
  lemma {:induction false} TextEndAtNul(str: nat -> byte, n: nat, len: nat)
    requires len <= n < 256 && str(n) == 0
    requires forall k | len <= k < n :: str(k) != 0 && IsTextByte(str(k))
    ensures TextEnd(str, len) == n
    decreases n - len
  {
    if len < n {
      TextEndAtNul(str, n, len + 1);
    }
  }
}
