/**
 * String_View (malcrepl.c:150-172): a window of `count` characters that
 * starts at the `data` pointer. The pointer is modelled as an offset into
 * the text it points into, so that trimming moves the window and keeps the
 * text.
 */
module StringView {
  import opened CText

  datatype View = View(base: string, offset: nat, count: nat)

  /** The window lies inside its text. */
  predicate Valid(v: View) {
    v.offset + v.count <= |v.base|
  }

  /** The characters the view covers. */
  function Text(v: View): string
    requires Valid(v)
  {
    v.base[v.offset..v.offset + v.count]
  }

  /** sv_from_cstr (malcrepl.c:155-157): the whole of a C string. */
  function FromCString(s: CString): (v: View)
    ensures Valid(v) && Text(v) == s
  {
    View(s, 0, |s|)
  }

  // ---------------------------------------------------------------------------
  // sv_trim
  // ---------------------------------------------------------------------------

  /** s without its leading whitespace. */
  function TrimStart(s: string): (r: string)
    ensures |r| <= |s|
  {
    if |s| > 0 && IsSpace(s[0]) then TrimStart(s[1..]) else s
  }

  /** s without its trailing whitespace. */
  function TrimEnd(s: string): (r: string)
    ensures |r| <= |s|
  {
    if |s| > 0 && IsSpace(s[|s| - 1]) then TrimEnd(s[..|s| - 1]) else s
  }

  /** s without leading and trailing whitespace. */
  function Trimmed(s: string): string {
    TrimEnd(TrimStart(s))
  }

  lemma {:induction false} TrimStartEdge(s: string)
    ensures TrimStart(s) == s[|s| - |TrimStart(s)|..]
    ensures |TrimStart(s)| > 0 ==> !IsSpace(TrimStart(s)[0])
    ensures forall k | 0 <= k < |s| - |TrimStart(s)| :: IsSpace(s[k])
    decreases |s|
  {
    if |s| > 0 && IsSpace(s[0]) {
      TrimStartEdge(s[1..]);
      forall k | 0 <= k < |s| - |TrimStart(s)|
        ensures IsSpace(s[k])
      {
        if k > 0 {
          assert s[k] == s[1..][k - 1];
        }
      }
    }
  }

  lemma {:induction false} TrimEndEdge(s: string)
    ensures TrimEnd(s) == s[..|TrimEnd(s)|]
    ensures |TrimEnd(s)| > 0 ==> !IsSpace(TrimEnd(s)[|TrimEnd(s)| - 1])
    ensures forall k | |TrimEnd(s)| <= k < |s| :: IsSpace(s[k])
    ensures |s| > 0 && !IsSpace(s[0]) ==> |TrimEnd(s)| > 0
    decreases |s|
  {
    if |s| > 0 && IsSpace(s[|s| - 1]) {
      TrimEndEdge(s[..|s| - 1]);
    }
  }

  /**
   * sv_trim removes exactly the whitespace runs at both ends: the result is
   * the part of s between them, and it neither starts nor ends with
   * whitespace.
   */
  lemma TrimmedIsCore(s: string)
    ensures var i := |s| - |TrimStart(s)|;
      i + |Trimmed(s)| <= |s| && Trimmed(s) == s[i..i + |Trimmed(s)|]
      && (forall k | 0 <= k < i :: IsSpace(s[k]))
      && (forall k | i + |Trimmed(s)| <= k < |s| :: IsSpace(s[k]))
  {
    var t := TrimStart(s);
    var u := TrimEnd(t);
    var i := |s| - |t|;
    TrimStartEdge(s);
    TrimEndEdge(t);
    assert t == s[i..];
    assert u == t[..|u|];
    assert u == s[i..i + |u|];
    forall k | i + |u| <= k < |s|
      ensures IsSpace(s[k])
    {
      assert t[k - i] == s[k];
    }
  }

  /** What sv_trim leaves neither starts nor ends with whitespace. */
  lemma TrimmedEdges(s: string)
    ensures |Trimmed(s)| > 0 ==> !IsSpace(Trimmed(s)[0]) && !IsSpace(Trimmed(s)[|Trimmed(s)| - 1])
  {
    var t := TrimStart(s);
    var u := TrimEnd(t);
    TrimStartEdge(s);
    TrimEndEdge(t);
    if |u| > 0 {
      assert u[0] == t[0];
    }
  }

  /** A line is blank after sv_trim exactly when every character is whitespace. */
  lemma TrimmedBlank(s: string)
    ensures Trimmed(s) == [] <==> forall k | 0 <= k < |s| :: IsSpace(s[k])
  {
    TrimmedIsCore(s);
    if forall k | 0 <= k < |s| :: IsSpace(s[k]) {
      AllSpaceTrimsAway(s);
    }
  }

  lemma {:induction false} AllSpaceTrimsAway(s: string)
    requires forall k | 0 <= k < |s| :: IsSpace(s[k])
    ensures TrimStart(s) == []
    decreases |s|
  {
    if |s| > 0 {
      AllSpaceTrimsAway(s[1..]);
    }
  }

  /** Trimming twice is trimming once. */
  lemma TrimmedTwice(s: string)
    ensures Trimmed(Trimmed(s)) == Trimmed(s)
  {
    TrimmedEdges(s);
    var t := Trimmed(s);
    if |t| > 0 {
      assert TrimStart(t) == t;
      assert TrimEnd(t) == t;
    }
  }

  /**
   * sv_trim (malcrepl.c:159-168): advance `data` past leading whitespace,
   * then shorten `count` past trailing whitespace.
   */
  method Trim(sv: View) returns (r: View)
    requires Valid(sv)
    ensures Valid(r) && r.base == sv.base
    ensures Text(r) == Trimmed(Text(sv))
  {
    r := sv;
    while r.count > 0 && IsSpace(r.base[r.offset])
      invariant Valid(r) && r.base == sv.base
      invariant TrimStart(Text(r)) == TrimStart(Text(sv))
      decreases r.count
    {
      r := DropFirst(r);
    }
    ghost var started := Text(r);
    assert started == TrimStart(Text(sv)) by {
      assert TrimStart(started) == started;
    }
    while r.count > 0 && IsSpace(r.base[r.offset + r.count - 1])
      invariant Valid(r) && r.base == sv.base
      invariant TrimEnd(Text(r)) == TrimEnd(started)
      decreases r.count
    {
      r := DropLast(r);
    }
    EndKept(r);
  }

  /** A view that does not end in whitespace is its own TrimEnd. */
  lemma EndKept(v: View)
    requires Valid(v) && !(v.count > 0 && IsSpace(v.base[v.offset + v.count - 1]))
    ensures TrimEnd(Text(v)) == Text(v)
  {
    if v.count > 0 {
      assert Text(v)[v.count - 1] == v.base[v.offset + v.count - 1];
    }
  }

  /** `data++; count--` past a leading whitespace character. */
  function DropFirst(v: View): (r: View)
    requires Valid(v) && v.count > 0 && IsSpace(v.base[v.offset])
    ensures Valid(r) && r.base == v.base && r.count == v.count - 1
    ensures TrimStart(Text(r)) == TrimStart(Text(v))
  {
    var r := View(v.base, v.offset + 1, v.count - 1);
    var t := Text(v);
    assert t[0] == v.base[v.offset];
    assert t[1..] == Text(r);
    r
  }

  /** `count--` past a trailing whitespace character. */
  function DropLast(v: View): (r: View)
    requires Valid(v) && v.count > 0 && IsSpace(v.base[v.offset + v.count - 1])
    ensures Valid(r) && r.base == v.base && r.count == v.count - 1
    ensures TrimEnd(Text(r)) == TrimEnd(Text(v))
  {
    assert Text(v)[..v.count - 1] == v.base[v.offset..v.offset + v.count - 1];
    View(v.base, v.offset, v.count - 1)
  }

  // ---------------------------------------------------------------------------
  // sv_eq
  // ---------------------------------------------------------------------------

  /**
   * memcmp over n characters: the difference of the first differing pair
   * as unsigned values, 0 when none differ.
   */
  function Memcmp(a: string, b: string, n: nat): int
    requires n <= |a| && n <= |b|
  {
    if n == 0 then 0
    else if a[0] != b[0] then a[0] as int - b[0] as int
    else Memcmp(a[1..], b[1..], n - 1)
  }

  /** memcmp reports 0 exactly when the first n characters agree. */
  lemma {:induction false} MemcmpZeroIffEqual(a: string, b: string, n: nat)
    requires n <= |a| && n <= |b|
    ensures Memcmp(a, b, n) == 0 <==> a[..n] == b[..n]
  {
    if n > 0 && a[0] == b[0] {
      MemcmpZeroIffEqual(a[1..], b[1..], n - 1);
      assert a[..n] == [a[0]] + a[1..][..n - 1];
      assert b[..n] == [b[0]] + b[1..][..n - 1];
    } else if n > 0 {
      assert a[..n][0] != b[..n][0];
    }
  }

  /** sv_eq (malcrepl.c:170-172): equal counts and equal characters. */
  function Equal(a: View, b: View): (r: bool)
    requires Valid(a) && Valid(b)
    ensures r <==> Text(a) == Text(b)
  {
    MemcmpZeroIffEqual(Text(a), Text(b), if a.count <= b.count then a.count else b.count);
    a.count == b.count && Memcmp(Text(a), Text(b), a.count) == 0
  }
}
