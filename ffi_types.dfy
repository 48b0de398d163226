/**
 * The libffi type descriptors the REPL passes around, as tags, with the
 * sizes libffi gives them on x86-64 (LP64), and the C integer conversions
 * applied to lexer numbers.
 */
module FfiTypes {
  import opened CText

  /** `&ffi_type_void`, `&ffi_type_schar`, ... */
  datatype TypeTag = Void | SChar | SInt | SInt32 | SLong | Float | Double | Pointer

  /** `ffi_type->size`: libffi gives `void` a size of 1 as well. */
  function Size(t: TypeTag): nat {
    match t
    case Void => 1
    case SChar => 1
    case SInt => 4
    case SInt32 => 4
    case SLong => 8
    case Float => 4
    case Double => 8
    case Pointer => 8
  }

  /** A C `long` (64 bits), the type of the lexer's `int_number`. */
  type Long = x: int | -0x8000_0000_0000_0000 <= x < 0x8000_0000_0000_0000

  /** `(int)v`: the 32-bit two's complement value congruent to v. */
  function Int32Of(v: int): (r: int)
    ensures -0x8000_0000 <= r < 0x8000_0000 && (v - r) % 0x1_0000_0000 == 0
  {
    var m := v % 0x1_0000_0000;
    if m < 0x8000_0000 then m else m - 0x1_0000_0000
  }

  /** `(char)v` for the signed 8-bit `char` of x86-64. */
  function Int8Of(v: int): (r: int)
    ensures -128 <= r < 128 && (v - r) % 256 == 0
  {
    SignedChar(v % 256)
  }
}
