/**
 * The Ascii85-style layer of the obfuscation pipeline (enclib.h:146-263).
 *
 * The encoder cuts its input into big-endian 4-byte groups, zero-padding the
 * last one, and writes 'z' for a group whose value is 0 and five digits
 * '!'..'u' otherwise. The decoder reads 'z' as four zero bytes and a run of
 * up to five digits as one group, a final d-digit group giving d-1 bytes, and
 * refuses to produce more than (4L+4)/5 bytes for an input of L characters.
 * Everything is on bytes: the C `char`s here are the byte values they hold.
 */
module Base85 {
  import opened Wrappers
  import opened CText

  /** 'z', the shortcut for a group of four zero bytes. */
  const ZeroMark: byte := 122
  /** '!', the character of digit 0. */
  const DigitBase: byte := 33
  /** 'u', the character of digit 84. */
  const LastDigitChar: byte := 117

  /** 2^32: `uint32_t` arithmetic wraps modulo this. */
  const Word32: int := 0x1_0000_0000

  // ---------------------------------------------------------------------------
  // Groups of the input
  // ---------------------------------------------------------------------------

  /** How many input bytes one round consumes from a remainder of n bytes. */
  function Step(n: nat): (k: nat)
    ensures k <= n && k <= 4 && (n > 0 ==> k > 0)
  {
    if n < 4 then n else 4
  }

  /** The number of rounds for n input bytes. */
  function GroupCount(n: nat): (g: nat)
    ensures n > 0 ==> g > 0
  {
    if n == 0 then 0 else 1 + GroupCount(n - Step(n))
  }

  /** GroupCount is ceil(n/4), the `(input_length + 3) / 4` of base85_encode. */
  lemma {:induction false} GroupCountIsQuotient(n: nat)
    ensures GroupCount(n) == (n + 3) / 4
  {
    if n > 4 {
      GroupCountIsQuotient(n - 4);
    }
  }

  /** Byte k of s, or 0 past its end: `i < input_length ? data[i++] : 0`. */
  function ByteOrZero(s: seq<byte>, k: nat): byte {
    if k < |s| then s[k] else 0
  }

  /** The first k bytes of s zero-padded, as the rounds of the read loop see them. */
  function Group(s: seq<byte>, k: nat): (r: seq<byte>)
    ensures |r| == k
  {
    if k == 0 then [] else Group(s, k - 1) + [ByteOrZero(s, k - 1)]
  }

  /** The value after k rounds of `value = (value << 8) | byte`. */
  function WordPrefix(s: seq<byte>, k: nat): (w: nat)
    ensures k <= 1 ==> w < 0x100
    ensures k <= 2 ==> w < 0x1_0000
    ensures k <= 3 ==> w < 0x100_0000
    ensures k <= 4 ==> w < Word32
  {
    if k == 0 then 0 else WordPrefix(s, k - 1) * 256 + ByteOrZero(s, k - 1)
  }

  /** The big-endian 32-bit value of the first group of s. */
  function Word(s: seq<byte>): (w: nat)
    ensures w < Word32
  {
    WordPrefix(s, 4)
  }

  /** The bytes of a group are the big-endian bytes of its value. */
  lemma {:induction false} OctetsOfWordPrefix(s: seq<byte>, k: nat)
    requires k <= 4
    ensures Octets(WordPrefix(s, k), k) == Group(s, k)
  {
    if k > 0 {
      OctetsOfWordPrefix(s, k - 1);
      var w := WordPrefix(s, k);
      assert w / 256 == WordPrefix(s, k - 1) && w % 256 == ByteOrZero(s, k - 1);
    }
  }

  // ---------------------------------------------------------------------------
  // Encoding
  // ---------------------------------------------------------------------------

  /** The characters the encoder writes: 'z' and the digits '!'..'u'. */
  predicate IsEncodedChar(b: byte) {
    b == ZeroMark || (DigitBase <= b && b <= LastDigitChar)
  }

  /** The n base-85 digits of v, most significant first, each written as digit + 33. */
  function DigitText(v: nat, n: nat): (r: seq<byte>)
    ensures |r| == n
    ensures forall k | 0 <= k < n :: DigitBase <= r[k] <= LastDigitChar
  {
    if n == 0 then [] else DigitText(v / 85, n - 1) + [v % 85 + 33]
  }

  /** What one round writes for a group of value w: 'z' for 0, five digits otherwise. */
  function GroupText(w: nat): (t: seq<byte>) {
    if w == 0 then [ZeroMark] else DigitText(w, 5)
  }

  /** The text base85_encode produces for s. */
  function Encoded(s: seq<byte>): (r: seq<byte>)
    ensures forall k | 0 <= k < |r| :: IsEncodedChar(r[k])
    decreases |s|
  {
    if |s| == 0 then [] else GroupText(Word(s)) + Encoded(s[Step(|s|)..])
  }

  /** The number of groups of s whose value is 0. */
  function ZeroGroups(s: seq<byte>): (z: nat)
    decreases |s|
  {
    if |s| == 0 then 0 else (if Word(s) == 0 then 1 else 0) + ZeroGroups(s[Step(|s|)..])
  }

  /** Five characters per group, except one for each all-zero group. */
  lemma {:induction false} EncodedLength(s: seq<byte>)
    ensures ZeroGroups(s) <= GroupCount(|s|)
    ensures |Encoded(s)| == 5 * GroupCount(|s|) - 4 * ZeroGroups(s)
    decreases |s|
  {
    if |s| > 0 {
      EncodedLength(s[Step(|s|)..]);
    }
  }

  /** The output never exceeds the `((input_length + 3) / 4) * 5` bytes allocated for it. */
  lemma EncodedFits(s: seq<byte>)
    ensures |Encoded(s)| <= ((|s| + 3) / 4) * 5
  {
    EncodedLength(s);
    GroupCountIsQuotient(|s|);
  }

  /** The output holds 'z' exactly when some group of the input is all zero. */
  lemma {:induction false} ZeroMarkMeansZeroGroup(s: seq<byte>)
    ensures ZeroMark in Encoded(s) <==> ZeroGroups(s) > 0
    decreases |s|
  {
    if |s| > 0 {
      var t := GroupText(Word(s));
      var rest := Encoded(s[Step(|s|)..]);
      ZeroMarkMeansZeroGroup(s[Step(|s|)..]);
      assert Encoded(s) == t + rest;
      assert ZeroMark in t <==> Word(s) == 0 by {
        if Word(s) != 0 {
          assert forall k | 0 <= k < |t| :: t[k] <= LastDigitChar;
        }
      }
      assert ZeroMark in Encoded(s) <==> ZeroMark in t || ZeroMark in rest;
    }
  }

  /**
   * base85_encode (enclib.h:147-193): "" for empty input; otherwise one
   * round per group, and the reported length is the number of characters
   * written before the terminating NUL.
   */
  method Encode(data: seq<byte>) returns (encoded: seq<byte>, outputLength: nat)
    ensures encoded == Encoded(data)
    ensures outputLength == |encoded|
  {
    if |data| == 0 {
      return [], 0;
    }
    outputLength := ((|data| + 3) / 4) * 5;
    EncodedFits(data);
    var buffer := new byte[outputLength + 1];
    var i, j := 0, 0;
    ghost var written := [];
    assert data[0..] == data;
    while i < |data|
      invariant i <= |data| && j == |written|
      invariant Encoded(data) == written + Encoded(data[i..])
      invariant j + |Encoded(data[i..])| <= outputLength
      invariant forall k | 0 <= k < j :: buffer[k] == written[k]
    {
      var next, after, text := EncodeGroup(buffer, data, i, j, written);
      Regroup(written, text, Encoded(data[next..]));
      i, j, written := next, after, written + text;
    }
    buffer[j] := 0;
    outputLength := j;
    encoded := buffer[..j];
    assert encoded == written;
  }

  lemma Regroup(a: seq<byte>, b: seq<byte>, c: seq<byte>)
    ensures a + (b + c) == (a + b) + c
  {
  }

  /**
   * One round of the main loop of base85_encode: read a group from data[i..]
   * and write its text from buffer[j] on.
   */
  method EncodeGroup(buffer: array<byte>, data: seq<byte>, i: nat, j: nat, ghost written: seq<byte>)
      returns (next: nat, after: nat, ghost text: seq<byte>)
    requires i < |data| && j + |Encoded(data[i..])| <= buffer.Length
    requires |written| == j && forall k | 0 <= k < j :: buffer[k] == written[k]
    modifies buffer
    ensures i < next <= |data| && after == j + |text|
    ensures Encoded(data[i..]) == text + Encoded(data[next..])
    ensures forall k | 0 <= k < after :: buffer[k] == (written + text)[k]
  {
    var value, bytes;
    value, next, bytes := ReadWord(data, i);
    text := GroupText(value);
    assert data[i..][Step(|data| - i)..] == data[next..];
    if bytes == 4 && value == 0 {
      buffer[j] := ZeroMark;
      after := j + 1;
    } else {
      after := EmitDigits(buffer, j, value);
    }
  }

  /**
   * The `for (k = 0; k < 4; k++)` loop of base85_encode: four shifts of the
   * next byte (0 past the end) into a `uint32_t`. The counter `bytes` is
   * bumped whenever `i <= input_length`, which always holds, so it ends at 4
   * even for a short final group.
   */
  method ReadWord(data: seq<byte>, i: nat) returns (value: nat, next: nat, bytes: nat)
    requires i < |data|
    ensures value == Word(data[i..])
    ensures next == i + Step(|data| - i)
    ensures bytes == 4
  {
    value, next, bytes := 0, i, 0;
    for k := 0 to 4
      invariant next == i + (if k < |data| - i then k else |data| - i)
      invariant value == WordPrefix(data[i..], k)
      invariant bytes == k
    {
      var octet: byte := 0;
      if next < |data| {
        octet := data[next];
        next := next + 1;
      }
      // the shifted value has its low byte clear, so `|` adds the new byte
      assert value * 256 < Word32;
      value := (value * 256) % Word32 + octet;
      if next <= |data| {
        bytes := bytes + 1;
      }
    }
  }

  /**
   * The two digit loops of base85_encode: split the value into five base-85
   * digits from the last one backwards, then store each as digit + 33.
   */
  method EmitDigits(buffer: array<byte>, j: nat, value: nat) returns (next: nat)
    requires j + 5 <= buffer.Length
    modifies buffer
    ensures next == j + 5
    ensures forall m | 0 <= m < j :: buffer[m] == old(buffer[m])
    ensures forall m | 0 <= m < 5 :: buffer[j + m] == DigitText(value, 5)[m]
  {
    var digits := new int[5];
    var v := value;
    var k := 4;
    while k >= 0
      modifies digits
      invariant -1 <= k <= 4
      invariant DigitText(v, k + 1) == DigitText(value, 5)[..k + 1]
      invariant forall m | k < m < 5 :: digits[m] + 33 == DigitText(value, 5)[m]
    {
      assert DigitText(v, k + 1) == DigitText(v / 85, k) + [v % 85 + 33];
      assert DigitText(value, 5)[..k + 1][..k] == DigitText(value, 5)[..k];
      digits[k] := v % 85;
      v := v / 85;
      k := k - 1;
    }
    next := j;
    for m := 0 to 5
      invariant next == j + m
      invariant forall p | 0 <= p < j :: buffer[p] == old(buffer[p])
      invariant forall p | 0 <= p < m :: buffer[j + p] == DigitText(value, 5)[p]
      invariant forall p | 0 <= p < 5 :: digits[p] + 33 == DigitText(value, 5)[p]
    {
      buffer[next] := digits[m] + 33;
      next := next + 1;
    }
  }

  // ---------------------------------------------------------------------------
  // Decoding
  // ---------------------------------------------------------------------------

  /** A character the digit loop accepts: not 'z', and `(char)c` within 33..117. */
  predicate IsDigitChar(b: byte) {
    b != ZeroMark && !(SignedChar(b) < 33 || SignedChar(b) > 117)
  }

  /** The first d characters of s are all digits. */
  predicate AllDigits(s: seq<byte>, d: nat)
    requires d <= |s|
  {
    forall m | 0 <= m < d :: IsDigitChar(s[m])
  }

  /** The `uint32_t` value of a digit run, `value = value * 85 + (c - 33)` with wrap-around. */
  function Value(s: seq<byte>): (v: nat)
    ensures v < Word32
  {
    if |s| == 0 then 0 else (Value(s[..|s| - 1]) * 85 + (s[|s| - 1] as int - 33)) % Word32
  }

  /** The number of characters the digit loop reads from a remainder of n. */
  function GroupLength(n: nat): (d: nat)
    ensures d <= n && d <= 5 && (n > 0 ==> d > 0)
  {
    if n < 5 then n else 5
  }

  /** The bytes a group of d digits yields: 4 for a full group, d - 1 for a short one. */
  function ByteCount(d: nat): (b: nat)
    requires 0 < d <= 5
    ensures b <= 4
  {
    if d == 5 then 4 else d - 1
  }

  /** r with p in front, None staying None. */
  function Prefixed(p: seq<byte>, r: Option<seq<byte>>): (q: Option<seq<byte>>)
    ensures q.Some? <==> r.Some?
  {
    match r
    case None => None
    case Some(v) => Some(p + v)
  }

  lemma PrefixedNothing(r: Option<seq<byte>>)
    ensures Prefixed([], r) == r
  {
    if r.Some? {
      assert [] + r.value == r.value;
    }
  }

  lemma PrefixedTwice(p: seq<byte>, q: seq<byte>, r: Option<seq<byte>>)
    ensures Prefixed(p, Prefixed(q, r)) == Prefixed(p + q, r)
  {
    if r.Some? {
      assert p + (q + r.value) == (p + q) + r.value;
    }
  }

  /**
   * The bytes base85_decode produces from the remaining text s when at most
   * room more bytes fit in its buffer, or None where it returns NULL.
   */
  function GroupsFrom(s: seq<byte>, room: nat): (r: Option<seq<byte>>)
    ensures r.Some? ==> |r.value| <= room
    decreases |s|
  {
    if |s| == 0 then Some([])
    else if s[0] == ZeroMark then
      if room < 4 then None else Prefixed([0, 0, 0, 0], GroupsFrom(s[1..], room - 4))
    else if !AllDigits(s, GroupLength(|s|)) then None
    else if room < ByteCount(GroupLength(|s|)) then None
    else
      var d := GroupLength(|s|);
      Prefixed(Octets(Value(s[..d]), 4)[4 - ByteCount(d)..], GroupsFrom(s[d..], room - ByteCount(d)))
  }

  /** The result of base85_decode for the whole text, None for NULL. */
  function Decoded(s: seq<byte>): (r: Option<seq<byte>>)
    ensures r.Some? ==> |r.value| <= (|s| * 4 + 4) / 5
  {
    if |s| == 0 then Some([]) else GroupsFrom(s, (|s| * 4 + 4) / 5)
  }

  /**
   * base85_decode (enclib.h:195-263): the result is Decoded(data), the bytes
   * written into the `(4L+4)/5`-byte buffer, or None where the C code frees
   * the buffer and returns NULL.
   */
  method Decode(data: seq<byte>) returns (decoded: Option<seq<byte>>)
    ensures decoded == Decoded(data)
  {
    if |data| == 0 {
      return Some([]);
    }
    var outputLength := (|data| * 4 + 4) / 5;
    var buffer := new byte[outputLength];
    var i, j := 0, 0;
    ghost var written := [];
    assert data[0..] == data;
    PrefixedNothing(GroupsFrom(data, outputLength));
    while i < |data|
      invariant i <= |data| && j <= outputLength && j == |written|
      invariant forall k | 0 <= k < j :: buffer[k] == written[k]
      invariant Decoded(data) == Prefixed(written, GroupsFrom(data[i..], outputLength - j))
    {
      var ok, next, after, out := DecodeGroup(buffer, data, i, j, written);
      if !ok {
        return None;
      }
      PrefixedTwice(written, out, GroupsFrom(data[next..], outputLength - after));
      i, j, written := next, after, written + out;
    }
    assert GroupsFrom(data[i..], outputLength - j) == Some([]);
    assert written + [] == written;
    decoded := Some(buffer[..j]);
    assert buffer[..j] == written;
  }

  /**
   * One round of the main loop of base85_decode, from input position i and
   * output position j: a 'z' or a run of digits. It fails (the C code's
   * NULL) exactly where GroupsFrom does, and otherwise appends `out` to the
   * buffer and moves on.
   */
  method DecodeGroup(buffer: array<byte>, data: seq<byte>, i: nat, j: nat, ghost written: seq<byte>)
      returns (ok: bool, next: nat, after: nat, ghost out: seq<byte>)
    requires i < |data| && j <= buffer.Length
    requires |written| == j && forall k | 0 <= k < j :: buffer[k] == written[k]
    modifies buffer
    ensures !ok ==> GroupsFrom(data[i..], buffer.Length - j) == None
    ensures ok ==> i < next <= |data| && after == j + |out| <= buffer.Length
    ensures ok ==>
      GroupsFrom(data[i..], buffer.Length - j) == Prefixed(out, GroupsFrom(data[next..], buffer.Length - after))
    ensures ok ==> forall k | 0 <= k < after :: buffer[k] == (written + out)[k]
  {
    next, after, out := i, j, [];
    if data[i] == ZeroMark {
      ZeroMarkStep(data[i..], buffer.Length - j);
      if j + 4 > buffer.Length {
        return false, next, after, out;
      }
      assert data[i..][1..] == data[i + 1..];
      after := StoreZeros(buffer, j, written);
      return true, i + 1, after, [0, 0, 0, 0];
    }
    ok, next, after, out := DecodeDigits(buffer, data, i, j, written);
  }

  /** The digit-run branch of one round: data[i] is not 'z'. */
  method DecodeDigits(buffer: array<byte>, data: seq<byte>, i: nat, j: nat, ghost written: seq<byte>)
      returns (ok: bool, next: nat, after: nat, ghost out: seq<byte>)
    requires i < |data| && data[i] != ZeroMark && j <= buffer.Length
    requires |written| == j && forall k | 0 <= k < j :: buffer[k] == written[k]
    modifies buffer
    ensures !ok ==> GroupsFrom(data[i..], buffer.Length - j) == None
    ensures ok ==> i < next <= |data| && after == j + |out| <= buffer.Length
    ensures ok ==>
      GroupsFrom(data[i..], buffer.Length - j) == Prefixed(out, GroupsFrom(data[next..], buffer.Length - after))
    ensures ok ==> forall k | 0 <= k < after :: buffer[k] == (written + out)[k]
  {
    next, after, out := i, j, [];
    var valid, value, digits, end := ReadGroup(data, i);
    DigitGroupStep(data[i..], buffer.Length - j);
    if !valid {
      return false, next, after, out;
    }
    if digits != 5 && end < |data| {
      // a short group only ever ends the input
      assert false;
      return false, next, after, out;
    }
    var bytes := if digits == 5 then 4 else digits - 1;
    var stored;
    stored, after := StoreWord(buffer, j, value, bytes, written);
    if !stored {
      return false, next, after, out;
    }
    out := Octets(value, 4)[4 - bytes..];
    assert data[i..][..digits] == data[i..end];
    assert data[i..][digits..] == data[end..];
    return true, end, after, out;
  }

  /** How the decoder continues at a 'z'. */
  lemma ZeroMarkStep(s: seq<byte>, room: nat)
    requires |s| > 0 && s[0] == ZeroMark
    ensures room < 4 ==> GroupsFrom(s, room) == None
    ensures room >= 4 ==> GroupsFrom(s, room) == Prefixed([0, 0, 0, 0], GroupsFrom(s[1..], room - 4))
  {
  }

  /** How the decoder continues at a digit run. */
  lemma DigitGroupStep(s: seq<byte>, room: nat)
    requires |s| > 0 && s[0] != ZeroMark
    ensures !AllDigits(s, GroupLength(|s|)) ==> GroupsFrom(s, room) == None
    ensures room < ByteCount(GroupLength(|s|)) ==> GroupsFrom(s, room) == None
    ensures AllDigits(s, GroupLength(|s|)) && room >= ByteCount(GroupLength(|s|)) ==>
      GroupsFrom(s, room) == Prefixed(Octets(Value(s[..GroupLength(|s|)]), 4)[4 - ByteCount(GroupLength(|s|))..],
                                      GroupsFrom(s[GroupLength(|s|)..], room - ByteCount(GroupLength(|s|))))
  {
  }

  /** The four zero stores of the 'z' branch of base85_decode. */
  method StoreZeros(buffer: array<byte>, j: nat, ghost written: seq<byte>) returns (next: nat)
    requires j + 4 <= buffer.Length
    requires |written| == j && forall m | 0 <= m < j :: buffer[m] == written[m]
    modifies buffer
    ensures next == j + 4
    ensures forall m | 0 <= m < next :: buffer[m] == (written + [0, 0, 0, 0])[m]
  {
    buffer[j], buffer[j + 1], buffer[j + 2], buffer[j + 3] := 0, 0, 0, 0;
    next := j + 4;
  }

  /**
   * The digit loop of base85_decode: read up to five characters of a group,
   * failing on 'z' or on a character outside '!'..'u'.
   */
  method ReadGroup(data: seq<byte>, i: nat) returns (ok: bool, value: nat, digits: nat, next: nat)
    requires i < |data|
    ensures ok <==> AllDigits(data[i..], GroupLength(|data| - i))
    ensures ok ==> digits == GroupLength(|data| - i) && next == i + digits
    ensures ok ==> value == Value(data[i..next])
  {
    value, digits, next := 0, 0, i;
    var k := 0;
    while k < 5 && next < |data|
      invariant 0 <= k <= 5 && next == i + k <= |data|
      invariant k <= GroupLength(|data| - i)
      invariant digits == k
      invariant AllDigits(data[i..], k)
      invariant value == Value(data[i..next])
    {
      if data[next] == ZeroMark || SignedChar(data[next]) < 33 || SignedChar(data[next]) > 117 {
        return false, value, digits, next;
      }
      assert data[i..next + 1][..k] == data[i..next];
      value := (value * 85 + (data[next] as int - 33)) % Word32;
      digits := digits + 1;
      k, next := k + 1, next + 1;
    }
    ok := true;
  }

  /**
   * The byte loop of base85_decode: for k = 3 down to 0, when k < bytes,
   * store byte k of value (counting from the least significant), failing
   * once the buffer is full.
   */
  method StoreWord(buffer: array<byte>, j: nat, value: nat, bytes: nat, ghost written: seq<byte>)
      returns (ok: bool, next: nat)
    requires j <= buffer.Length && bytes <= 4
    requires |written| == j && forall m | 0 <= m < j :: buffer[m] == written[m]
    modifies buffer
    ensures ok <==> j + bytes <= buffer.Length
    ensures ok ==> next == j + bytes
    ensures ok ==> forall m | 0 <= m < next :: buffer[m] == (written + Octets(value, 4)[4 - bytes..])[m]
  {
    var octets := Octets(value, 4);
    ghost var out := octets[4 - bytes..];
    next := j;
    var k := 3;
    while k >= 0
      invariant -1 <= k <= 3
      invariant next == j + (if k < bytes then bytes - 1 - k else 0)
      invariant next <= buffer.Length
      invariant forall m | 0 <= m < next :: buffer[m] == (written + out)[m]
    {
      if k < bytes {
        if next >= buffer.Length {
          return false, next;
        }
        buffer[next] := octets[3 - k];
        next := next + 1;
      }
      k := k - 1;
    }
    ok := true;
  }

  // ---------------------------------------------------------------------------
  // Properties of the pair
  // ---------------------------------------------------------------------------

  /** The input zero-padded to whole groups. */
  function ZeroPadded(s: seq<byte>): (r: seq<byte>)
    decreases |s|
  {
    if |s| == 0 then [] else Group(s, 4) + ZeroPadded(s[Step(|s|)..])
  }

  /** ZeroPadded(s) is s followed by zeros up to a multiple of four. */
  lemma {:induction false} ZeroPaddedShape(s: seq<byte>)
    ensures |ZeroPadded(s)| == 4 * GroupCount(|s|)
    ensures forall k | 0 <= k < |ZeroPadded(s)| :: ZeroPadded(s)[k] == ByteOrZero(s, k)
    decreases |s|
  {
    if |s| > 0 {
      var rest := s[Step(|s|)..];
      ZeroPaddedShape(rest);
      GroupIsPrefix(s, 4);
      forall k | 4 <= k < |ZeroPadded(s)|
        ensures ZeroPadded(s)[k] == ByteOrZero(s, k)
      {
        assert ZeroPadded(s)[k] == ByteOrZero(rest, k - 4);
      }
    }
  }

  lemma {:induction false} GroupIsPrefix(s: seq<byte>, k: nat)
    ensures forall m | 0 <= m < k :: Group(s, k)[m] == ByteOrZero(s, m)
  {
    if k > 0 {
      GroupIsPrefix(s, k - 1);
    }
  }

  /** Reading back the digits of a value below 85^n and below 2^32 gives the value. */
  lemma {:induction false} ValueOfDigits(v: nat, n: nat)
    requires v < Pow85(n) && v < Word32
    ensures Value(DigitText(v, n)) == v
  {
    if n > 0 {
      ValueOfDigits(v / 85, n - 1);
      var t := DigitText(v, n);
      assert t[..n - 1] == DigitText(v / 85, n - 1);
      assert t[n - 1] as int - 33 == v % 85;
      assert (v / 85) * 85 + v % 85 == v;
    }
  }

  function Pow85(n: nat): (p: nat)
    ensures p > 0
  {
    if n == 0 then 1 else 85 * Pow85(n - 1)
  }

  /** How the decoder reads one encoder round followed by more text. */
  lemma GroupsOfGroupText(w: nat, rest: seq<byte>, room: nat)
    requires w < Word32
    ensures GroupsFrom(GroupText(w) + rest, room)
      == if room < 4 then None else Prefixed(Octets(w, 4), GroupsFrom(rest, room - 4))
  {
    var e := GroupText(w) + rest;
    if w == 0 {
      assert e[1..] == rest;
      assert Octets(0, 4) == [0, 0, 0, 0];
    } else {
      var t := DigitText(w, 5);
      assert Pow85(5) == 4437053125;
      ValueOfDigits(w, 5);
      assert e[..5] == t && e[5..] == rest;
      assert forall m | 0 <= m < 5 :: e[m] == t[m];
      assert AllDigits(e, 5);
      assert Octets(w, 4)[0..] == Octets(w, 4);
    }
  }

  /**
   * Every round of the encoder decodes to its four zero-padded bytes, as
   * long as the buffer has room for four bytes per round.
   */
  lemma {:induction false} GroupsOfEncoded(s: seq<byte>, room: nat)
    ensures GroupsFrom(Encoded(s), room)
      == if 4 * GroupCount(|s|) <= room then Some(ZeroPadded(s)) else None
    decreases |s|
  {
    if |s| > 0 {
      var rest := s[Step(|s|)..];
      GroupsOfGroupText(Word(s), Encoded(rest), room);
      OctetsOfWordPrefix(s, 4);
      if room >= 4 {
        GroupsOfEncoded(rest, room - 4);
      }
    }
  }

  /**
   * Decoding the encoder's output gives the input zero-padded to whole
   * groups when no group is all zero, and fails otherwise: each 'z' takes
   * one character but needs four bytes, more than the (4L+4)/5 bound leaves.
   */
  lemma RoundTripPadded(data: seq<byte>)
    ensures Decoded(Encoded(data)) == if ZeroGroups(data) == 0 then Some(ZeroPadded(data)) else None
  {
    EncodedLength(data);
    GroupsOfEncoded(data, (|Encoded(data)| * 4 + 4) / 5);
  }

  /** Encoder output that contains 'z' never decodes. */
  lemma ZeroMarkFailsToDecode(data: seq<byte>)
    requires ZeroMark in Encoded(data)
    ensures Decoded(Encoded(data)) == None
  {
    ZeroMarkMeansZeroGroup(data);
    RoundTripPadded(data);
  }

  /** For whole groups, none of them zero, decoding gives back exactly the input. */
  lemma RoundTrip(data: seq<byte>)
    requires |data| % 4 == 0 && ZeroGroups(data) == 0
    ensures Decoded(Encoded(data)) == Some(data)
  {
    RoundTripPadded(data);
    WholeGroupsNeedNoPadding(data);
  }

  lemma WholeGroupsNeedNoPadding(data: seq<byte>)
    requires |data| % 4 == 0
    ensures ZeroPadded(data) == data
  {
    ZeroPaddedShape(data);
    GroupCountIsQuotient(|data|);
    assert |ZeroPadded(data)| == |data|;
    assert forall k | 0 <= k < |data| :: ZeroPadded(data)[k] == data[k];
  }
}
