/**
 * The Base64 layer of the obfuscation pipeline (enclib.h): the alphabet of
 * section 4 of RFC 4648 with '=' padding, an encoder that fills a buffer group
 * by group and then writes the padding, and a decoder that validates only the
 * first two characters of each quad.
 */
module Base64 {
  import opened Wrappers
  import opened CText

  // ---------------------------------------------------------------------------
  // Alphabet
  // ---------------------------------------------------------------------------

  /** The alphabet entry for a 6-bit value: 'A'..'Z', 'a'..'z', '0'..'9', '+', '/'. */
  function Digit(v: int): (c: char)
    requires 0 <= v < 64
    ensures c != '='
  {
    if v < 26 then ('A' as int + v) as char
    else if v < 52 then ('a' as int + v - 26) as char
    else if v < 62 then ('0' as int + v - 52) as char
    else if v == 62 then '+'
    else '/'
  }

  /** base64_char_value: the 6-bit value of an alphabet character, -1 for any other character. */
  function CharValue(c: char): (v: int)
    ensures -1 <= v < 64
  {
    if 'A' <= c <= 'Z' then c as int - 'A' as int
    else if 'a' <= c <= 'z' then c as int - 'a' as int + 26
    else if '0' <= c <= '9' then c as int - '0' as int + 52
    else if c == '+' then 62
    else if c == '/' then 63
    else -1
  }

  /** CharValue undoes Digit on the 64 sextet values. */
  lemma CharValueOfDigit(v: int)
    requires 0 <= v < 64
    ensures CharValue(Digit(v)) == v
  {
  }

  /** Digit undoes CharValue on the 64 alphabet characters. */
  lemma DigitOfCharValue(c: char)
    requires CharValue(c) != -1
    ensures Digit(CharValue(c)) == c
  {
  }

  // ---------------------------------------------------------------------------
  // Packing of one group
  //
  // The C code shifts and masks 32-bit words; every word here stays below
  // 2^24 and its fields do not overlap, so `x >> k` is division by 2^k,
  // `& 0x3F` and `& 0xFF` are remainders and `|` of shifted fields is `+`.
  // ---------------------------------------------------------------------------

  /** `x >> shift` for the shifts the codec uses. */
  function Shifted(x: int, shift: nat): int
    requires shift == 0 || shift == 6 || shift == 8 || shift == 12 || shift == 16 || shift == 18
  {
    if shift == 18 then x / 0x4_0000
    else if shift == 16 then x / 0x1_0000
    else if shift == 12 then x / 0x1000
    else if shift == 8 then x / 0x100
    else if shift == 6 then x / 0x40
    else x
  }

  /** `(octet_a << 16) | (octet_b << 8) | octet_c` */
  function Triple(a: byte, b: byte, c: byte): (t: int)
    ensures 0 <= t < 0x100_0000
  {
    a * 0x1_0000 + b * 0x100 + c
  }

  /** `(triple >> shift) & 0x3F`, the index into the alphabet. */
  function Sextet(t: int, shift: nat): (s: int)
    requires shift == 0 || shift == 6 || shift == 12 || shift == 18
    ensures 0 <= s < 64
  {
    Shifted(t, shift) % 64
  }

  /** `(triple >> shift) & 0xFF` */
  function ByteAt(t: int, shift: nat): byte
    requires shift == 0 || shift == 8 || shift == 16
  {
    Shifted(t, shift) % 256
  }

  /** The decoder's triple: a and b always, c and d only when they are alphabet characters. */
  function Rejoin(a: int, b: int, c: int, d: int): int
    requires 0 <= a < 64 && 0 <= b < 64 && -1 <= c < 64 && -1 <= d < 64
  {
    a * 0x4_0000 + b * 0x1000 + (if c != -1 then c * 0x40 else 0) + (if d != -1 then d else 0)
  }

  /** The three octets of a group are the three bytes of its triple. */
  lemma TripleBytes(a: byte, b: byte, c: byte)
    ensures ByteAt(Triple(a, b, c), 16) == a && ByteAt(Triple(a, b, c), 8) == b && ByteAt(Triple(a, b, c), 0) == c
  {
    var t := Triple(a, b, c);
    assert t / 0x1_0000 == a;
    assert t / 0x100 == a * 0x100 + b;
    assert (a * 0x100 + b) % 256 == b;
    assert t % 256 == c;
  }

  /** Splitting a 24-bit word into sextets and rejoining them gives the word back. */
  lemma SextetsRejoin(t: int)
    requires 0 <= t < 0x100_0000
    ensures Rejoin(Sextet(t, 18), Sextet(t, 12), Sextet(t, 6), Sextet(t, 0)) == t
  {
    var s0, s1, s2, s3 := t / 0x4_0000, (t / 0x1000) % 64, (t / 0x40) % 64, t % 64;
    assert t / 0x4_0000 < 64;
    assert t / 0x1000 == s0 * 64 + s1;
    assert t / 0x40 == (t / 0x1000) * 64 + s2;
    assert t == (t / 0x40) * 64 + s3;
  }

  /** A group of one octet leaves the low twelve bits zero, a group of two the low six. */
  lemma ShortGroupSextets(a: byte, b: byte)
    ensures Sextet(Triple(a, 0, 0), 6) == 0 && Sextet(Triple(a, 0, 0), 0) == 0
    ensures Sextet(Triple(a, b, 0), 0) == 0
  {
    assert Triple(a, 0, 0) / 0x40 == a * 0x400;
    assert Triple(a, b, 0) == (a * 0x400 + b * 4) * 64;
  }

  // ---------------------------------------------------------------------------
  // Encoding
  // ---------------------------------------------------------------------------

  /** The last n base64 digits of t, most significant first. */
  function Letters(t: int, n: nat): (r: string)
    requires 0 <= t
    ensures |r| == n
  {
    if n == 0 then [] else Letters(t / 64, n - 1) + [Digit(t % 64)]
  }

  /** The four alphabet characters of one 24-bit group. */
  function Quad(a: byte, b: byte, c: byte): (q: string)
    ensures |q| == 4
  {
    Letters(Triple(a, b, c), 4)
  }

  /** The quad is the four sextets of the triple, most significant first, as the encoding loop writes them. */
  lemma QuadSextets(a: byte, b: byte, c: byte)
    ensures var t := Triple(a, b, c);
      Quad(a, b, c) == [Digit(Sextet(t, 18)), Digit(Sextet(t, 12)), Digit(Sextet(t, 6)), Digit(Sextet(t, 0))]
  {
    var t := Triple(a, b, c);
    assert t / 64 / 64 == t / 0x1000;
    assert t / 0x1000 / 64 == t / 0x4_0000;
    assert Letters(t, 4) == Letters(t / 64, 3) + [Digit(Sextet(t, 0))];
    assert Letters(t / 64, 3) == Letters(t / 0x1000, 2) + [Digit(Sextet(t, 6))];
    assert Letters(t / 0x1000, 2) == Letters(t / 0x4_0000, 1) + [Digit(Sextet(t, 12))];
    assert Letters(t / 0x4_0000, 1) == [Digit(Sextet(t, 18))];
  }

  /** The octet at index k, or 0 past the end of the data (`i < input_length ? data[i++] : 0`). */
  function OctetAt(data: seq<byte>, k: nat): byte {
    if k < |data| then data[k] else 0
  }

  /** The quad of group g: octets 3g, 3g+1 and 3g+2, zero-filled past the end. */
  function GroupQuad(data: seq<byte>, g: nat): (q: string)
    ensures |q| == 4
  {
    Quad(OctetAt(data, 3 * g), OctetAt(data, 3 * g + 1), OctetAt(data, 3 * g + 2))
  }

  /** The number of groups of n octets, counted three at a time (see GroupCountIsQuotient). */
  function GroupCount(n: nat): (g: nat)
    ensures n > 0 ==> g > 0
  {
    if n == 0 then 0 else if n <= 3 then 1 else 1 + GroupCount(n - 3)
  }

  /** The first g quads the encoding loop writes, before any padding. */
  function Groups(data: seq<byte>, g: nat): (r: string)
    ensures |r| == 4 * g
  {
    if g == 0 then [] else Groups(data, g - 1) + GroupQuad(data, g - 1)
  }

  /**
   * The Base64 text of data (RFC 4648 section 4): one quad per full group; a
   * last group of one byte gives two characters and "==", of two bytes three
   * characters and "=".
   */
  function Encoded(data: seq<byte>): string
    decreases |data|
  {
    if |data| == 0 then ""
    else if |data| == 1 then Quad(data[0], 0, 0)[..2] + "=="
    else if |data| == 2 then Quad(data[0], data[1], 0)[..3] + "="
    else Quad(data[0], data[1], data[2]) + Encoded(data[3..])
  }

  /** The group count is `(input_length + 2) / 3`, as base64_encode computes it. */
  lemma {:induction false} GroupCountIsQuotient(n: nat)
    ensures GroupCount(n) == (n + 2) / 3
  {
    if n > 3 {
      GroupCountIsQuotient(n - 3);
    }
  }

  /** A length between 3g - 2 and 3g has g groups. */
  lemma {:induction false} GroupCountOf(n: nat, g: nat)
    requires n <= 3 * g < n + 3
    ensures GroupCount(n) == g
  {
    if n > 3 {
      GroupCountOf(n - 3, g - 1);
    }
  }

  /** More than 3g octets make more than g groups. */
  lemma {:induction false} GroupCountAbove(n: nat, g: nat)
    requires 3 * g < n
    ensures g < GroupCount(n)
  {
    if g > 0 {
      GroupCountAbove(n - 3, g - 1);
    }
  }

  /** The padding depends on `input_length % 3` as in base64_encode's switch. */
  lemma {:induction false} PadCountIsRemainder(n: nat)
    ensures PadCount(n) == if n % 3 == 1 then 2 else if n % 3 == 2 then 1 else 0
  {
    if n >= 3 {
      PadCountIsRemainder(n - 3);
      assert (n - 3) % 3 == n % 3;
    }
  }

  /** The number of '=' characters the encoder writes. */
  function PadCount(n: nat): (p: nat)
    ensures p <= 2 && (p > 0 ==> n > 0)
  {
    if n >= 3 then PadCount(n - 3) else if n == 1 then 2 else if n == 2 then 1 else 0
  }

  /** u with its last p characters overwritten by '='. */
  function Padded(u: string, p: nat): (r: string)
    requires p <= |u|
    ensures |r| == |u|
  {
    u[..|u| - p] + seq(p, _ => '=')
  }

  /** Dropping the first group: the quads of data are its first quad followed by the quads of the rest. */
  lemma {:induction false} GroupsFront(data: seq<byte>, g: nat)
    requires 1 <= g && 3 <= |data|
    ensures Groups(data, g) == GroupQuad(data, 0) + Groups(data[3..], g - 1)
  {
    if g > 1 {
      GroupsFront(data, g - 1);
      var k := 3 * (g - 2);
      assert OctetAt(data[3..], k) == OctetAt(data, k + 3);
      assert OctetAt(data[3..], k + 1) == OctetAt(data, k + 4);
      assert OctetAt(data[3..], k + 2) == OctetAt(data, k + 5);
      assert GroupQuad(data[3..], g - 2) == GroupQuad(data, g - 1);
    }
  }

  /** Overwriting the tail of q + r with '=' leaves q alone. */
  lemma PaddedAfterPrefix(q: string, r: string, p: nat)
    requires p <= |r|
    ensures Padded(q + r, p) == q + Padded(r, p)
  {
    assert (q + r)[..|q + r| - p] == q + r[..|r| - p];
  }

  /** Three octets fewer: one group fewer, and the same padding. */
  lemma GroupCountLessThree(n: nat)
    requires n >= 3
    ensures GroupCount(n) - 1 == GroupCount(n - 3) && PadCount(n) == PadCount(n - 3)
  {
  }

  /** Padding the groups the loop writes gives the Base64 text (enclib.h:84-93). */
  lemma {:induction false} PaddingGivesEncoded(data: seq<byte>)
    ensures PadCount(|data|) <= 4 * GroupCount(|data|)
    ensures Encoded(data) == Padded(Groups(data, GroupCount(|data|)), PadCount(|data|))
    decreases |data|
  {
    var n := |data|;
    if n >= 3 {
      PaddingGivesEncoded(data[3..]);
      PaddingAfterFirstGroup(data);
    } else if n > 0 {
      PaddingOfLastGroup(data);
    } else {
      assert seq(0, _ => '=') == "";
    }
  }

  /** Padding commutes with putting the quad of the first group in front. */
  lemma PaddingAfterFirstGroup(data: seq<byte>)
    requires |data| >= 3
    requires PadCount(|data| - 3) <= 4 * GroupCount(|data| - 3)
    requires Encoded(data[3..]) == Padded(Groups(data[3..], GroupCount(|data| - 3)), PadCount(|data| - 3))
    ensures PadCount(|data|) <= |Groups(data, GroupCount(|data|))|
    ensures Encoded(data) == Padded(Groups(data, GroupCount(|data|)), PadCount(|data|))
  {
    GroupCountLessThree(|data|);
    GroupsFront(data, GroupCount(|data|));
    EncodedFront(data);
    SameGroups(data[3..], GroupCount(|data|) - 1, GroupCount(|data| - 3));
    PaddedFront(Encoded(data), Encoded(data[3..]), GroupQuad(data, 0), Groups(data, GroupCount(|data|)),
      Groups(data[3..], GroupCount(|data| - 3)), PadCount(|data| - 3));
  }

  /** Groups at equal counts are equal. */
  lemma SameGroups(data: seq<byte>, g: nat, h: nat)
    requires g == h
    ensures Groups(data, g) == Groups(data, h)
  {
  }

  /** e = head + er with er padded from gr gives e padded from head + gr. */
  lemma PaddedFront(e: string, er: string, head: string, gs: string, gr: string, p: nat)
    requires p <= |gr| && e == head + er && er == Padded(gr, p) && gs == head + gr
    ensures e == Padded(gs, p)
  {
    PaddedAfterPrefix(head, gr, p);
  }

  /** The text of data is the quad of its first three octets followed by the text of the rest. */
  lemma EncodedFront(data: seq<byte>)
    requires |data| >= 3
    ensures Encoded(data) == GroupQuad(data, 0) + Encoded(data[3..])
  {
  }

  /** The text of one or two octets is their quad with the last two or one characters overwritten. */
  lemma PaddingOfLastGroup(data: seq<byte>)
    requires 1 <= |data| <= 2
    ensures Encoded(data) == Padded(Groups(data, 1), PadCount(|data|))
  {
    assert Groups(data, 1) == GroupQuad(data, 0);
    if |data| == 2 {
      assert seq(1, _ => '=') == "=";
    } else {
      assert seq(2, _ => '=') == "==";
    }
  }

  /** The Base64 text has 4*((n+2)/3) characters, the length base64_encode reports. */
  lemma EncodedLength(data: seq<byte>)
    ensures |Encoded(data)| == 4 * GroupCount(|data|)
  {
    PaddingGivesEncoded(data);
  }

  /** The last character is '=' exactly when n mod 3 is 1 or 2, the one before it exactly when n mod 3 is 1. */
  lemma EncodedPadding(data: seq<byte>)
    requires |data| > 0
    ensures |Encoded(data)| >= 4
    ensures Encoded(data)[|Encoded(data)| - 1] == '=' <==> |data| % 3 != 0
    ensures Encoded(data)[|Encoded(data)| - 2] == '=' <==> |data| % 3 == 1
  {
    GroupCountAbove(|data|, 0);
    PadCountIsRemainder(|data|);
    var g := GroupCount(|data|);
    var u := Groups(data, g);
    PaddingGivesEncoded(data);
    var last := GroupQuad(data, g - 1);
    assert u == Groups(data, g - 1) + last;
    QuadSextets(OctetAt(data, 3 * (g - 1)), OctetAt(data, 3 * (g - 1) + 1), OctetAt(data, 3 * (g - 1) + 2));
    assert u[|u| - 1] == last[3] != '=' && u[|u| - 2] == last[2] != '=';
  }

  /**
   * base64_encode (enclib.h:65-97): each round reads up to three octets
   * (zero past the end), writes the four characters of their sextets, and
   * afterwards the last one or two characters are overwritten by '='. The
   * result is the Base64 text of the input and has the reported length.
   */
  method Encode(data: seq<byte>) returns (encoded: string, outputLength: nat)
    ensures outputLength == |encoded| == 4 * ((|data| + 2) / 3)
    ensures encoded == Encoded(data)
  {
    outputLength := 4 * ((|data| + 2) / 3);
    GroupCountIsQuotient(|data|);
    var buffer := new char[outputLength];
    var i, j := 0, 0;
    ghost var g := 0;
    while i < |data|
      invariant 0 <= i <= |data|
      invariant i == 3 * g || (i == |data| && g == GroupCount(|data|))
      invariant j == 4 * g <= outputLength
      invariant buffer[..j] == Groups(data, g)
    {
      assert i == 3 * g;
      GroupCountAbove(|data|, g);
      var octetA := OctetAt(data, i);
      var octetB := OctetAt(data, i + 1);
      var octetC := OctetAt(data, i + 2);
      if i + 3 <= |data| {
        i := i + 3;
      } else {
        i := |data|;
        GroupCountOf(|data|, g + 1);
      }
      var triple := Triple(octetA, octetB, octetC);
      var letters := Letters(triple, 4);
      assert letters == GroupQuad(data, g);
      WriteQuad(buffer, j, letters);
      g := g + 1;
      j := j + 4;
    }
    assert buffer[..] == Groups(data, GroupCount(|data|)) by {
      if i == 3 * g {
        GroupCountOf(i, g);
      }
    }
    PaddingGivesEncoded(data);
    AddPadding(buffer, |data|);
    encoded := buffer[..];
  }

  /** The four `encoded_data[j++] = ...` stores of one round. */
  method WriteQuad(buffer: array<char>, j: nat, letters: string)
    requires |letters| == 4 && j + 4 <= buffer.Length
    modifies buffer
    ensures buffer[..j + 4] == old(buffer[..j]) + letters
  {
    buffer[j], buffer[j + 1], buffer[j + 2], buffer[j + 3] := letters[0], letters[1], letters[2], letters[3];
    assert buffer[..j + 4] == old(buffer[..j]) + letters;
  }

  /** The padding switch of base64_encode: the last one or two characters become '='. */
  method AddPadding(buffer: array<char>, inputLength: nat)
    requires buffer.Length == 4 * GroupCount(inputLength)
    modifies buffer
    ensures buffer[..] == Padded(old(buffer[..]), PadCount(inputLength))
  {
    ghost var unpadded := buffer[..];
    PadCountIsRemainder(inputLength);
    if inputLength % 3 != 0 {
      GroupCountAbove(inputLength, 0);
    }
    var n := buffer.Length;
    if inputLength % 3 == 1 {
      buffer[n - 1] := '=';
      buffer[n - 2] := '=';
    } else if inputLength % 3 == 2 {
      buffer[n - 1] := '=';
    }
    assert buffer[..] == Padded(unpadded, PadCount(inputLength));
  }

  // ---------------------------------------------------------------------------
  // Decoding
  // ---------------------------------------------------------------------------

  /** The three bytes of a triple, as the decoding loop extracts them. */
  lemma OctetsOfTriple(t: int)
    requires 0 <= t
    ensures Octets(t, 3) == [ByteAt(t, 16), ByteAt(t, 8), ByteAt(t, 0)]
  {
    assert t / 256 / 256 == t / 0x1_0000;
    assert Octets(t / 0x1_0000, 1) == [ByteAt(t, 16)];
  }

  /**
   * The bytes one quad contributes: the high byte always, the middle byte
   * only if the third character is in the alphabet, the low byte only if the
   * fourth is.
   */
  function QuadBytes(a: int, b: int, c: int, d: int): (r: seq<byte>)
    requires 0 <= a < 64 && 0 <= b < 64 && -1 <= c < 64 && -1 <= d < 64
    ensures |r| == 1 + (if c != -1 then 1 else 0) + (if d != -1 then 1 else 0)
  {
    var o := Octets(Rejoin(a, b, c, d), 3);
    [o[0]] + (if c != -1 then [o[1]] else []) + (if d != -1 then [o[2]] else [])
  }

  /** The bytes quad q of data contributes, None when its first or second character is not in the alphabet. */
  function QuadAt(data: string, q: nat): Option<seq<byte>>
    requires 4 * q + 4 <= |data|
  {
    var a, b := CharValue(data[4 * q]), CharValue(data[4 * q + 1]);
    if a == -1 || b == -1 then None
    else Some(QuadBytes(a, b, CharValue(data[4 * q + 2]), CharValue(data[4 * q + 3])))
  }

  /** x followed by y, None when either is None. */
  function Join(x: Option<seq<byte>>, y: Option<seq<byte>>): (r: Option<seq<byte>>)
    ensures r.Some? <==> x.Some? && y.Some?
  {
    match x
    case None => None
    case Some(v) => match y
      case None => None
      case Some(w) => Some(v + w)
  }

  /** Joining is associative, as concatenation is. */
  lemma JoinAssociative(x: Option<seq<byte>>, y: Option<seq<byte>>, z: Option<seq<byte>>)
    ensures Join(Join(x, y), z) == Join(x, Join(y, z))
  {
    if x.Some? && y.Some? && z.Some? {
      assert (x.value + y.value) + z.value == x.value + (y.value + z.value);
    }
  }

  /** All bytes the first q quads contribute, None as soon as one of them is rejected. */
  function Contributions(data: string, q: nat): Option<seq<byte>>
    requires 4 * q <= |data|
  {
    if q == 0 then Some([]) else Join(Contributions(data, q - 1), QuadAt(data, q - 1))
  }

  /** `input_length / 4 * 3`, less one for each '=' among the last two characters. */
  function DeclaredLength(data: string): (n: nat)
    requires |data| >= 4
  {
    |data| / 4 * 3 - (if data[|data| - 1] == '=' then 1 else 0) - (if data[|data| - 2] == '=' then 1 else 0)
  }

  /** The first n elements of w, or all of w when it is shorter. */
  function Capped(w: seq<byte>, n: nat): (r: seq<byte>)
    ensures |r| == if |w| <= n then |w| else n
  {
    if |w| <= n then w else w[..n]
  }

  /**
   * The bytes base64_decode writes into its buffer: the contributions, cut at
   * the declared length; None for a length that is not a multiple of 4 or a
   * rejected quad.
   */
  function Decoded(data: string): (r: Option<seq<byte>>)
    requires |data| > 0
    ensures r.Some? ==> |data| % 4 == 0 && |r.value| <= DeclaredLength(data)
  {
    if |data| % 4 != 0 then None
    else match Contributions(data, |data| / 4)
      case None => None
      case Some(w) => Some(Capped(w, DeclaredLength(data)))
  }

  /** Quad q has a first or second character outside the alphabet, so base64_decode gives up on it. */
  predicate QuadRejected(data: string, q: nat)
    requires 4 * q + 4 <= |data|
  {
    CharValue(data[4 * q]) == -1 || CharValue(data[4 * q + 1]) == -1
  }

  /** The first n quads contribute nothing exactly when one of them is rejected. */
  lemma {:induction false} ContributionsRejected(data: string, n: nat)
    requires 4 * n <= |data|
    ensures Contributions(data, n).None? <==> exists q | 0 <= q < n :: QuadRejected(data, q)
  {
    if n > 0 {
      ContributionsRejected(data, n - 1);
      if QuadRejected(data, n - 1) {
        assert QuadAt(data, n - 1).None?;
      } else {
        assert QuadAt(data, n - 1).Some?;
      }
    }
  }

  /**
   * base64_decode returns NULL exactly when the length is not a multiple of
   * 4 or some quad has a first or second character outside the alphabet;
   * a bad third or fourth character, '=' included, never rejects.
   */
  lemma DecodedRejects(data: string)
    requires |data| > 0
    ensures Decoded(data).None? <==> |data| % 4 != 0 || exists q | 0 <= q < |data| / 4 :: QuadRejected(data, q)
  {
    if |data| % 4 == 0 {
      ContributionsRejected(data, |data| / 4);
    }
  }

  /** Decoded in terms of the contributions of all quads. */
  lemma DecodedOfContributions(data: string)
    requires |data| > 0 && |data| % 4 == 0
    ensures Decoded(data) == match Contributions(data, |data| / 4)
      case None => None
      case Some(w) => Some(Capped(w, DeclaredLength(data)))
  {
  }

  /** One more accepted quad extends the contributions by its bytes. */
  lemma ContributionsStep(data: string, q: nat, w: seq<byte>, a: int, b: int, c: int, d: int)
    requires 4 * q + 4 <= |data| && Contributions(data, q) == Some(w)
    requires a == CharValue(data[4 * q]) && b == CharValue(data[4 * q + 1])
    requires c == CharValue(data[4 * q + 2]) && d == CharValue(data[4 * q + 3])
    requires a != -1 && b != -1
    ensures Contributions(data, q + 1) == Some(w + QuadBytes(a, b, c, d))
  {
  }

  /** Once a quad is rejected, every longer run of quads is rejected. */
  lemma {:induction false} NoneStaysNone(data: string, q: nat, r: nat)
    requires q <= r && 4 * r <= |data|
    requires Contributions(data, q).None?
    ensures Contributions(data, r).None?
    decreases r - q
  {
    if q < r {
      NoneStaysNone(data, q, r - 1);
    }
  }

  /**
   * base64_decode (enclib.h:108-144), for a non-empty input. The buffer it
   * returns has the declared length; the loop writes the first |Decoded(data)|
   * bytes of it, and bytes it never writes are left unconstrained, as the C
   * code leaves them uninitialised.
   */
  method Decode(data: string) returns (decoded: Option<seq<byte>>)
    requires |data| > 0
    ensures decoded.None? <==> Decoded(data).None?
    ensures decoded.Some? ==>
      |decoded.value| == DeclaredLength(data)
      && forall k | 0 <= k < |Decoded(data).value| :: decoded.value[k] == Decoded(data).value[k]
  {
    if |data| % 4 != 0 {
      return None;
    }
    var outputLength := DeclaredLength(data);
    var buffer := new byte[outputLength];
    var i, j := 0, 0;
    ghost var q, written := 0, [];
    ghost var quads := |data| / 4;
    assert |data| == 4 * quads;
    while i < |data|
      invariant i == 4 * q && q <= quads
      invariant Contributions(data, q) == Some(written)
      invariant j == (if |written| <= outputLength then |written| else outputLength)
      invariant forall k | 0 <= k < j :: buffer[k] == written[k]
    {
      var sextetA := CharValue(data[i]);
      var sextetB := CharValue(data[i + 1]);
      var sextetC := CharValue(data[i + 2]);
      var sextetD := CharValue(data[i + 3]);
      i := i + 4;
      if sextetA == -1 || sextetB == -1 {
        NoneStaysNone(data, q + 1, quads);
        DecodedOfContributions(data);
        return None;
      }
      ContributionsStep(data, q, written, sextetA, sextetB, sextetC, sextetD);
      ghost var v := QuadBytes(sextetA, sextetB, sextetC, sextetD);
      j := StoreQuad(buffer, j, sextetA, sextetB, sextetC, sextetD);
      q, written := q + 1, written + v;
    }
    decoded := Some(buffer[..]);
    DecodedOfContributions(data);
  }

  /**
   * One round of base64_decode once the first two sextets are accepted:
   * rejoin the sextets and store the bytes of the quad from j on, each store
   * guarded by `j < *output_length`.
   */
  method StoreQuad(buffer: array<byte>, j: nat, a: int, b: int, c: int, d: int) returns (next: nat)
    requires 0 <= a < 64 && 0 <= b < 64 && -1 <= c < 64 && -1 <= d < 64 && j <= buffer.Length
    modifies buffer
    ensures next == if j + |QuadBytes(a, b, c, d)| <= buffer.Length then j + |QuadBytes(a, b, c, d)| else buffer.Length
    ensures forall k | 0 <= k < j :: buffer[k] == old(buffer[k])
    ensures forall k | j <= k < next :: buffer[k] == QuadBytes(a, b, c, d)[k - j]
  {
    var triple := Rejoin(a, b, c, d);
    var octets := Octets(triple, 3);
    next := j;
    if next < buffer.Length {
      buffer[next] := octets[0];
      next := next + 1;
    }
    if next < buffer.Length && c != -1 {
      buffer[next] := octets[1];
      next := next + 1;
    }
    if next < buffer.Length && d != -1 {
      buffer[next] := octets[2];
      next := next + 1;
    }
  }

  // ---------------------------------------------------------------------------
  // Round trip
  // ---------------------------------------------------------------------------

  /** Quad k of data[4..] is quad k + 1 of data. */
  lemma QuadAtAfterFirst(data: string, k: nat)
    requires 4 * k + 8 <= |data|
    ensures QuadAt(data[4..], k) == QuadAt(data, k + 1)
  {
    var i := 4 * k;
    assert data[4..][i] == data[i + 4] && data[4..][i + 1] == data[i + 5];
    assert data[4..][i + 2] == data[i + 6] && data[4..][i + 3] == data[i + 7];
  }

  /** Dropping the first quad: the contributions of data are those of its first quad followed by the rest's. */
  lemma {:induction false} ContributionsFront(data: string, q: nat)
    requires 1 <= q && 4 * q <= |data|
    ensures Contributions(data, q) == Join(QuadAt(data, 0), Contributions(data[4..], q - 1))
  {
    if q == 1 {
      assert Contributions(data[4..], 0) == Some([]);
      assert Contributions(data, 0) == Some([]);
      if QuadAt(data, 0).Some? {
        var v := QuadAt(data, 0).value;
        assert [] + v == v + [];
      }
    } else {
      ContributionsFront(data, q - 1);
      QuadAtAfterFirst(data, q - 2);
      JoinAssociative(QuadAt(data, 0), Contributions(data[4..], q - 2), QuadAt(data, q - 1));
    }
  }

  /** The quad of a character string holding sextets s0..s3 (-1 for a character outside the alphabet). */
  lemma QuadAtFirst(q: string, s0: int, s1: int, s2: int, s3: int)
    requires |q| == 4
    requires CharValue(q[0]) == s0 && CharValue(q[1]) == s1 && CharValue(q[2]) == s2 && CharValue(q[3]) == s3
    requires s0 != -1 && s1 != -1
    ensures QuadAt(q, 0) == Some(QuadBytes(s0, s1, s2, s3))
  {
  }

  /** A full quad decodes to its three octets. */
  lemma QuadBytesOfQuad(a: byte, b: byte, c: byte)
    ensures QuadAt(Quad(a, b, c), 0) == Some([a, b, c])
  {
    var t := Triple(a, b, c);
    var s0, s1, s2, s3 := Sextet(t, 18), Sextet(t, 12), Sextet(t, 6), Sextet(t, 0);
    var q := Quad(a, b, c);
    QuadSextets(a, b, c);
    CharValueOfDigit(s0);
    CharValueOfDigit(s1);
    CharValueOfDigit(s2);
    CharValueOfDigit(s3);
    QuadAtFirst(q, s0, s1, s2, s3);
    SextetsRejoin(t);
    OctetsOfTriple(t);
    TripleBytes(a, b, c);
    assert QuadBytes(s0, s1, s2, s3) == Octets(t, 3);
  }

  /** Three characters and one '=' decode to two octets. */
  lemma QuadBytesOfPair(a: byte, b: byte)
    ensures QuadAt(Quad(a, b, 0)[..3] + "=", 0) == Some([a, b])
  {
    var t := Triple(a, b, 0);
    var s0, s1, s2 := Sextet(t, 18), Sextet(t, 12), Sextet(t, 6);
    var q := Quad(a, b, 0)[..3] + "=";
    QuadSextets(a, b, 0);
    CharValueOfDigit(s0);
    CharValueOfDigit(s1);
    CharValueOfDigit(s2);
    assert q[3] == '=';
    QuadAtFirst(q, s0, s1, s2, -1);
    ShortGroupSextets(a, b);
    SextetsRejoin(t);
    assert Rejoin(s0, s1, s2, -1) == t;
    OctetsOfTriple(t);
    TripleBytes(a, b, 0);
    var o := Octets(t, 3);
    assert o == [a, b, 0];
    assert QuadBytes(s0, s1, s2, -1) == [o[0], o[1]];
  }

  /** Two characters and "==" decode to one octet. */
  lemma QuadBytesOfSingle(a: byte)
    ensures QuadAt(Quad(a, 0, 0)[..2] + "==", 0) == Some([a])
  {
    var t := Triple(a, 0, 0);
    var s0, s1 := Sextet(t, 18), Sextet(t, 12);
    var q := Quad(a, 0, 0)[..2] + "==";
    QuadSextets(a, 0, 0);
    CharValueOfDigit(s0);
    CharValueOfDigit(s1);
    assert q[2] == '=' && q[3] == '=';
    QuadAtFirst(q, s0, s1, -1, -1);
    ShortGroupSextets(a, 0);
    SextetsRejoin(t);
    assert Rejoin(s0, s1, -1, -1) == t;
    OctetsOfTriple(t);
    TripleBytes(a, 0, 0);
    var o := Octets(t, 3);
    assert o == [a, 0, 0];
    assert QuadBytes(s0, s1, -1, -1) == [o[0]];
  }

  /** A text of one quad contributes that quad's bytes. */
  lemma ContributionsOfOne(q: string, w: seq<byte>)
    requires |q| == 4 && QuadAt(q, 0) == Some(w)
    ensures Contributions(q, 1) == Some(w)
  {
    assert Contributions(q, 0) == Some([]);
    assert [] + w == w;
  }

  /** The text of a final group of one or two octets contributes those octets. */
  lemma ContributionsOfShort(data: seq<byte>)
    requires 1 <= |data| <= 2
    ensures |Encoded(data)| == 4
    ensures Contributions(Encoded(data), 1) == Some(data)
  {
    if |data| == 1 {
      var e := Quad(data[0], 0, 0)[..2] + "==";
      assert Encoded(data) == e;
      QuadBytesOfSingle(data[0]);
      assert [data[0]] == data;
      ContributionsOfOne(e, data);
    } else {
      var e := Quad(data[0], data[1], 0)[..3] + "=";
      assert Encoded(data) == e;
      QuadBytesOfPair(data[0], data[1]);
      assert [data[0], data[1]] == data;
      ContributionsOfOne(e, data);
    }
  }

  /** The quads of the Base64 text of data contribute exactly data. */
  lemma {:induction false} ContributionsOfEncoded(data: seq<byte>)
    ensures |Encoded(data)| == 4 * GroupCount(|data|)
    ensures Contributions(Encoded(data), GroupCount(|data|)) == Some(data)
    decreases |data|
  {
    EncodedLength(data);
    if |data| == 0 {
      assert Encoded(data) == "";
    } else if |data| <= 2 {
      assert GroupCount(|data|) == 1;
      ContributionsOfShort(data);
    } else {
      var head, q, g := [data[0], data[1], data[2]], Quad(data[0], data[1], data[2]), GroupCount(|data| - 3);
      assert data == head + data[3..];
      assert Encoded(data) == q + Encoded(data[3..]);
      assert GroupCount(|data|) == g + 1;
      ContributionsOfEncoded(data[3..]);
      QuadBytesOfQuad(data[0], data[1], data[2]);
      ContributionsAfterQuad(q, Encoded(data[3..]), g, head, data[3..]);
    }
  }

  /** A quad in front of a text of n quads: its bytes come first. */
  lemma ContributionsAfterQuad(q: string, rest: string, n: nat, v: seq<byte>, w: seq<byte>)
    requires |q| == 4 && QuadAt(q, 0) == Some(v)
    requires |rest| == 4 * n && Contributions(rest, n) == Some(w)
    ensures Contributions(q + rest, n + 1) == Some(v + w)
  {
    var e := q + rest;
    assert e[4..] == rest;
    assert QuadAt(e, 0) == QuadAt(q, 0) by {
      assert e[0] == q[0] && e[1] == q[1] && e[2] == q[2] && e[3] == q[3];
    }
    ContributionsFront(e, n + 1);
  }

  /** Four times g is a multiple of four with quotient g. */
  lemma QuotientOfFour(g: nat)
    ensures (4 * g) % 4 == 0 && (4 * g) / 4 == g
  {
  }

  /** Three bytes per group, less one for each '=' the encoder writes, is the input length. */
  lemma GroupsLessPadding(n: nat)
    requires n > 0
    ensures 3 * GroupCount(n) - (if n % 3 != 0 then 1 else 0) - (if n % 3 == 1 then 1 else 0) == n
  {
  }

  /** A text of n bytes' worth of quads, padded as the encoder pads n bytes, decodes to exactly those bytes. */
  lemma DecodedOfPadded(e: string, data: seq<byte>)
    requires |data| > 0 && |e| == 4 * GroupCount(|data|)
    requires Contributions(e, GroupCount(|data|)) == Some(data)
    requires e[|e| - 1] == '=' <==> |data| % 3 != 0
    requires e[|e| - 2] == '=' <==> |data| % 3 == 1
    ensures DeclaredLength(e) == |data|
    ensures Decoded(e) == Some(data)
  {
    QuotientOfFour(GroupCount(|data|));
    GroupsLessPadding(|data|);
    DecodedOfContributions(e);
    assert Capped(data, |data|) == data;
  }

  /** Decoding the encoder's output gives back the input, with its exact length (enclib.h:65-144). */
  lemma RoundTrip(data: seq<byte>)
    requires |data| > 0
    ensures |Encoded(data)| > 0
    ensures Decoded(Encoded(data)) == Some(data)
    ensures DeclaredLength(Encoded(data)) == |data|
  {
    var e := Encoded(data);
    EncodedPadding(data);
    assert e[|e| - 1] == '=' <==> |data| % 3 != 0;
    assert e[|e| - 2] == '=' <==> |data| % 3 == 1;
    ContributionsOfEncoded(data);
    DecodedOfPadded(e, data);
  }
}
