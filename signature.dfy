/**
 * extract_function_signature (malcrepl.c:742-811): the declaration text of
 * a function as `:list` prints it, from the start of its declaration through
 * the ')' that closes its parameter list, with every whitespace run turned
 * into one space.
 */
module Signature {
  import opened Wrappers
  import opened CText
  import opened ReturnType

  /** The characters a C identifier may start with in the scanners. */
  predicate IsIdentStart(c: char) {
    ('a' <= c <= 'z') || ('A' <= c <= 'Z') || c == '_'
  }

  predicate IsIdentChar(c: char) {
    IsIdentStart(c) || ('0' <= c <= '9')
  }

  predicate IsIdentifier(s: string) {
    |s| > 0 && IsIdentStart(s[0]) && forall k | 0 < k < |s| :: IsIdentChar(s[k])
  }

  // ---------------------------------------------------------------------------
  // Parenthesis matching
  // ---------------------------------------------------------------------------

  /** The depth after one character: '(' opens, ')' closes. */
  function Step(depth: int, c: char): int {
    if c == '(' then depth + 1 else if c == ')' then depth - 1 else depth
  }

  /** The depth after the characters code[p..q], starting from depth. */
  function DepthAt(code: string, p: nat, q: nat, depth: int): int
    requires p <= q <= |code|
    decreases q
  {
    if q == p then depth else Step(DepthAt(code, p, q - 1, depth), code[q - 1])
  }

  /**
   * Where `while (*sig_end && paren_depth > 0)` leaves sig_end: just past
   * the ')' that brings the depth to 0, or the end of the text.
   */
  function ParenEnd(code: string, p: nat, depth: nat): (e: nat)
    requires p <= |code|
    ensures p <= e <= |code|
    decreases |code| - p
  {
    if p == |code| || depth == 0 then p
    else ParenEnd(code, p + 1, Step(depth, code[p]))
  }

  lemma {:induction false} DepthAtShift(code: string, p: nat, q: nat, depth: int)
    requires p < q <= |code|
    ensures DepthAt(code, p, q, depth) == DepthAt(code, p + 1, q, Step(depth, code[p]))
    decreases q
  {
    if q > p + 1 {
      DepthAtShift(code, p, q - 1, depth);
    }
  }

  /**
   * The scan stops exactly when the parentheses opened so far are all
   * closed, and not before: up to the stop the depth stays positive, and at
   * the stop it is 0 (the last character read being that ')') unless the
   * text ran out first.
   */
  lemma {:induction false} ParenEndCloses(code: string, p: nat, depth: nat)
    requires p <= |code| && depth > 0
    ensures var e := ParenEnd(code, p, depth);
      (forall q | p <= q < e :: DepthAt(code, p, q, depth) > 0)
      && (DepthAt(code, p, e, depth) == 0 || (e == |code| && DepthAt(code, p, e, depth) > 0))
      && (DepthAt(code, p, e, depth) == 0 ==> p < e && code[e - 1] == ')')
    decreases |code| - p
  {
    if p < |code| {
      var d := Step(depth, code[p]);
      var e := ParenEnd(code, p, depth);
      assert e == ParenEnd(code, p + 1, d);
      if d > 0 {
        ParenEndCloses(code, p + 1, d);
        forall q | p < q <= e
          ensures DepthAt(code, p, q, depth) == DepthAt(code, p + 1, q, d)
        {
          DepthAtShift(code, p, q, depth);
        }
      } else {
        assert e == p + 1;
        DepthAtShift(code, p, p + 1, depth);
      }
    }
  }

  /** The paren scan as the source's loop. */
  method ScanParens(code: CString, p0: nat) returns (p: nat)
    requires p0 <= |code|
    ensures p == ParenEnd(code, p0, 1)
  {
    p := p0;
    var depth: nat := 1;
    while p < |code| && depth > 0
      invariant p0 <= p <= |code| && ParenEnd(code, p, depth) == ParenEnd(code, p0, 1)
      decreases |code| - p
    {
      if code[p] == '(' {
        depth := depth + 1;
      }
      if code[p] == ')' {
        depth := depth - 1;
      }
      p := p + 1;
    }
  }

  // ---------------------------------------------------------------------------
  // Whitespace compaction
  // ---------------------------------------------------------------------------

  /**
   * The text the dst/src loop leaves: non-whitespace characters copied,
   * each whitespace run written as one ' ', except at the very start.
   */
  function Squeeze(s: string): (r: string)
    ensures |r| <= |s|
  {
    if |s| == 0 then []
    else
      var prev := Squeeze(s[..|s| - 1]);
      var c := s[|s| - 1];
      if !IsSpace(c) then prev + [c]
      else if (|s| >= 2 && IsSpace(s[|s| - 2])) || |prev| == 0 then prev
      else prev + [' ']
  }

  /** Compaction brings in no NUL: the text stays a C string. */
  lemma {:induction false} SqueezeNoNul(s: CString)
    ensures forall k | 0 <= k < |Squeeze(s)| :: Squeeze(s)[k] != '\0'
    decreases |s|
  {
    if |s| > 0 {
      SqueezeNoNul(s[..|s| - 1]);
    }
  }

  /** Squeeze on one more character, stated on prefixes of s. */
  lemma SqueezePrefix(s: string, i: nat)
    requires i < |s|
    ensures Squeeze(s[..i + 1]) ==
      if !IsSpace(s[i]) then Squeeze(s[..i]) + [s[i]]
      else if (i > 0 && IsSpace(s[i - 1])) || |Squeeze(s[..i])| == 0 then Squeeze(s[..i])
      else Squeeze(s[..i]) + [' ']
  {
    assert s[..i + 1][..i] == s[..i];
  }

  /** Whitespace is what Squeeze turns into single spaces. */
  predicate IsSqueezed(r: string) {
    forall k | 0 <= k < |r| :: IsSpace(r[k]) ==> r[k] == ' ' && k > 0 && !IsSpace(r[k - 1])
  }

  /** The characters of s that are not whitespace, in order. */
  function Words(s: string): string {
    if |s| == 0 then []
    else if IsSpace(s[|s| - 1]) then Words(s[..|s| - 1])
    else Words(s[..|s| - 1]) + [s[|s| - 1]]
  }

  /**
   * After compaction the text has no leading whitespace, its only
   * whitespace is single ' ' characters, and its other characters are those
   * of s in order. SqueezeJoin says where the single spaces go: one for
   * each whitespace run between two words.
   */
  lemma {:induction false} SqueezeShape(s: string)
    ensures IsSqueezed(Squeeze(s))
    ensures Words(Squeeze(s)) == Words(s)
    ensures |Squeeze(s)| > 0 ==> !IsSpace(Squeeze(s)[|Squeeze(s)| - 1]) || (|s| > 0 && IsSpace(s[|s| - 1]))
    decreases |s|
  {
    if |s| > 0 {
      var t := s[..|s| - 1];
      var prev := Squeeze(t);
      SqueezeShape(t);
      var r := Squeeze(s);
      if r != prev {
        assert r[..|prev|] == prev;
        assert r[..|r| - 1] == prev;
      }
    }
  }

  /** Text that starts with a non-space character compacts to something non-empty. */
  lemma {:induction false} SqueezeStartsNonEmpty(b: string)
    requires |b| > 0 && !IsSpace(b[0])
    ensures |Squeeze(b)| > 0
    decreases |b|
  {
    if |b| > 1 {
      SqueezeStartsNonEmpty(b[..|b| - 1]);
    }
  }

  /**
   * A whitespace run after a non-space character becomes exactly one ' ',
   * however long the run.
   */
  lemma {:induction false} SqueezeRun(a: string, ws: string)
    requires |a| > 0 && !IsSpace(a[|a| - 1])
    requires |ws| > 0 && forall k | 0 <= k < |ws| :: IsSpace(ws[k])
    ensures Squeeze(a + ws) == Squeeze(a) + [' ']
    decreases |ws|
  {
    var s := a + ws;
    assert s[..|s| - 1] == a + ws[..|ws| - 1];
    if |ws| > 1 {
      SqueezeRun(a, ws[..|ws| - 1]);
    } else {
      assert s[..|s| - 1] == a;
    }
  }

  /**
   * Compaction restarts at a non-space character: what precedes it does
   * not change how the rest is compacted.
   */
  lemma {:induction false} SqueezeAfter(p: string, b: string)
    requires |b| > 0 && !IsSpace(b[0])
    ensures Squeeze(p + b) == Squeeze(p) + Squeeze(b)
    decreases |b|
  {
    var s := p + b;
    var b' := b[..|b| - 1];
    assert s[..|s| - 1] == p + b';
    if |b| == 1 {
      assert p + b' == p;
      assert b[..0] == [];
    } else {
      SqueezeAfter(p, b');
      SqueezeStartsNonEmpty(b');
      assert s[|s| - 2] == b[|b| - 2];
      assert (Squeeze(p) + Squeeze(b')) + [b[|b| - 1]] == Squeeze(p) + (Squeeze(b') + [b[|b| - 1]]);
      assert (Squeeze(p) + Squeeze(b')) + [' '] == Squeeze(p) + (Squeeze(b') + [' ']);
    }
  }

  /**
   * Between two words, a whitespace run of any length becomes one ' ', and
   * the text on either side is compacted on its own.
   */
  lemma SqueezeJoin(a: string, ws: string, b: string)
    requires |a| > 0 && !IsSpace(a[|a| - 1])
    requires |ws| > 0 && forall k | 0 <= k < |ws| :: IsSpace(ws[k])
    requires |b| > 0 && !IsSpace(b[0])
    ensures Squeeze(a + ws + b) == Squeeze(a) + [' '] + Squeeze(b)
  {
    SqueezeAfter(a + ws, b);
    SqueezeRun(a, ws);
  }

  /** Compacting compacted text changes nothing. */
  lemma {:induction false} SqueezeSqueezed(r: string)
    requires IsSqueezed(r)
    ensures Squeeze(r) == r
    decreases |r|
  {
    if |r| > 0 {
      var t := r[..|r| - 1];
      assert IsSqueezed(t);
      SqueezeSqueezed(t);
      if IsSpace(r[|r| - 1]) {
        assert r == t + [' '];
      } else {
        assert r == t + [r[|r| - 1]];
      }
    }
  }

  /** Compaction is idempotent. */
  lemma SqueezeTwice(s: string)
    ensures Squeeze(Squeeze(s)) == Squeeze(s)
  {
    SqueezeShape(s);
    SqueezeSqueezed(Squeeze(s));
  }

  /**
   * The dst/src loop of extract_function_signature, in place over the
   * NUL-terminated text buf[..n].
   */
  method Compact(buf: array<char>, n: nat)
    requires n < buf.Length && buf[n] == '\0' && forall k | 0 <= k < n :: buf[k] != '\0'
    modifies buf
    ensures var t := Squeeze(old(buf[..n])); |t| <= n && buf[..|t|] == t && buf[|t|] == '\0'
  {
    ghost var s := buf[..n];
    var dst: nat := 0;
    var src: nat := 0;
    var lastWasSpace := false;
    while buf[src] != '\0'
      invariant dst <= src <= n && buf[n] == '\0'
      invariant forall k | src <= k < n :: buf[k] == s[k]
      invariant buf[..dst] == Squeeze(s[..src])
      invariant lastWasSpace == (src > 0 && IsSpace(s[src - 1]))
      decreases n - src
    {
      dst, lastWasSpace := CompactOne(buf, s, src, dst, lastWasSpace);
      src := src + 1;
    }
    assert s[..src] == s;
    buf[dst] := '\0';
  }

  /** One pass of the dst/src loop: the character at src is kept, turned into ' ' or dropped. */
  method CompactOne(buf: array<char>, ghost s: string, src: nat, dst: nat, lastWasSpace: bool)
    returns (dst': nat, lastWasSpace': bool)
    requires dst <= src < |s| < buf.Length && buf[src] == s[src]
    requires buf[..dst] == Squeeze(s[..src])
    requires lastWasSpace == (src > 0 && IsSpace(s[src - 1]))
    modifies buf
    ensures dst' <= src + 1 && buf[..dst'] == Squeeze(s[..src + 1])
    ensures lastWasSpace' == IsSpace(s[src])
    ensures forall k | src < k < buf.Length :: buf[k] == old(buf[k])
  {
    SqueezePrefix(s, src);
    dst' := dst;
    var c := buf[src];
    if IsSpace(c) {
      if !lastWasSpace && dst != 0 {
        buf[dst] := ' ';
        dst' := dst + 1;
      }
      lastWasSpace' := true;
    } else {
      buf[dst] := c;
      dst' := dst + 1;
      lastWasSpace' := false;
    }
  }

  // ---------------------------------------------------------------------------
  // extract_function_signature
  // ---------------------------------------------------------------------------

  function Min(a: nat, b: nat): nat {
    if a <= b then a else b
  }

  /**
   * The text copied into the buffer for a match of `name(` at `at`: from
   * the start of the declaration, past leading whitespace, through the
   * closing ')', cut to size - 1 characters.
   */
  function Copied(code: CString, name: CString, at: nat, size: nat): (t: CString)
    requires IsIdentifier(name) && size > 0
    requires OccursAt(code, Pattern(name), at)
    ensures |t| < size
  {
    var start := SignatureStart(code, name, at);
    var end := ParenEnd(code, Min(at + |name| + 1, |code|), 1);
    var len := if end - start >= size then size - 1 else end - start;
    Substring(code, start, start + len)
  }

  /** sig_start after the walk back and the whitespace skip: never past the name. */
  function SignatureStart(code: CString, name: CString, at: nat): (start: nat)
    requires IsIdentifier(name) && OccursAt(code, Pattern(name), at)
    ensures start <= at < |code|
  {
    assert code[at] == Pattern(name)[0] == name[0];
    SpaceForward(code, DeclarationStart(code, at), |code|)
  }

  /** What extract_function_signature leaves in `signature`, or None when it returns false. */
  function SignatureText(code: CString, name: CString, size: nat): Option<string>
    requires IsIdentifier(name)
  {
    if size == 0 then None
    else match Strstr(code, Pattern(name))
      case None => None
      case Some(at) => Some(Squeeze(Copied(code, name, at, size)))
  }

  /** A signature holds no NUL before its terminator. */
  lemma SignatureHasNoNul(code: CString, name: CString, size: nat)
    requires IsIdentifier(name) && SignatureText(code, name, size).Some?
    ensures forall k | 0 <= k < |SignatureText(code, name, size).value| :: SignatureText(code, name, size).value[k] != '\0'
  {
    var at := Strstr(code, Pattern(name)).value;
    SqueezeNoNul(Copied(code, name, at, size));
  }

  /**
   * extract_function_signature (malcrepl.c:742-811) on a buffer of
   * signature.Length characters. Its one caller passes identifiers.
   */
  method ExtractFunctionSignature(code: CString, name: CString, signature: array<char>) returns (ok: bool)
    requires IsIdentifier(name)
    modifies signature
    ensures ok <==> SignatureText(code, name, signature.Length).Some?
    ensures ok ==> var t := SignatureText(code, name, signature.Length).value;
      |t| < signature.Length && signature[..|t|] == t && signature[|t|] == '\0'
  {
    if signature.Length == 0 {
      return false;
    }
    var found := Strstr(code, Pattern(name));
    if found.None? {
      return false;
    }
    var at := found.value;
    SignatureAt(code, name, at, signature);
    ok := true;
  }

  /** The copy and the compaction once `name(` was found at `at`. */
  method SignatureAt(code: CString, name: CString, at: nat, signature: array<char>)
    requires IsIdentifier(name) && OccursAt(code, Pattern(name), at) && signature.Length > 0
    modifies signature
    ensures var t := Squeeze(Copied(code, name, at, signature.Length));
      |t| < signature.Length && signature[..|t|] == t && signature[|t|] == '\0'
  {
    var start := FindReturnTypeStart(code, at);
    start := SkipSpaceForward(code, start, |code|);
    assert start == SignatureStart(code, name, at);
    var end := ScanParens(code, Min(at + |name| + 1, |code|));
    var len := end - start;
    if len >= signature.Length {
      len := signature.Length - 1;
    }
    ghost var copied := Copied(code, name, at, signature.Length);
    assert copied == Substring(code, start, start + len);
    CopyInto(signature, code, start, len);
    Compact(signature, len);
  }

  /** memcpy of len characters from code[start..] and the terminator after them. */
  method CopyInto(buf: array<char>, code: CString, start: nat, len: nat)
    requires len < buf.Length && start + len <= |code|
    modifies buf
    ensures buf[..len] == Substring(code, start, start + len) && buf[len] == '\0'
    ensures forall k | 0 <= k < len :: buf[k] != '\0'
  {
    forall k | 0 <= k < len {
      buf[k] := code[start + k];
    }
    buf[len] := '\0';
  }

  /**
   * A signature is compacted text no longer than the buffer allows, and
   * its words are those of the declaration text it was cut from.
   */
  lemma SignatureShape(code: CString, name: CString, size: nat)
    requires IsIdentifier(name) && SignatureText(code, name, size).Some?
    ensures var t := SignatureText(code, name, size).value;
      var at := Strstr(code, Pattern(name)).value;
      |t| < size && IsSqueezed(t) && Words(t) == Words(Copied(code, name, at, size))
  {
    var at := Strstr(code, Pattern(name)).value;
    SqueezeShape(Copied(code, name, at, size));
  }
}
