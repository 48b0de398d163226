/**
 * The function catalog: the two scanners that walk the compiled source
 * looking for an identifier followed (after optional whitespace) by '('.
 * list_functions (malcrepl.c:814-886) keeps one entry, with its signature,
 * per occurrence; get_function_names (malcrepl.c:986-1075) keeps each name
 * once. Symbol lookup in the compiled module (compiler_get_symbol) is the
 * set `symbols` of names it resolves.
 */
module Catalog {
  import opened Wrappers
  import opened CText
  import opened ReturnType
  import opened Signature

  // ---------------------------------------------------------------------------
  // The scan
  // ---------------------------------------------------------------------------

  /** Where `while (identifier character) p++` stops. */
  function IdentEnd(code: string, p: nat): (e: nat)
    requires p <= |code|
    ensures p <= e <= |code| && (e < |code| ==> !IsIdentChar(code[e]))
    ensures forall k | p <= k < e :: IsIdentChar(code[k])
    decreases |code| - p
  {
    if p < |code| && IsIdentChar(code[p]) then IdentEnd(code, p + 1) else p
  }

  /** One turn of the scanners' `while (*p)` loop: the name found, if any, and where the next turn starts. */
  datatype Turn = Turn(found: Option<CString>, next: nat)

  /**
   * One turn from p: skip whitespace; an identifier followed by optional
   * whitespace and '(' is a name; a character that cannot start an
   * identifier is stepped over. The text ending is a stop: the source's
   * `p++` there would step past the terminator.
   */
  function ScanTurn(code: CString, p: nat): (t: Turn)
    requires p < |code|
    ensures p < t.next <= |code|
    ensures t.found.Some? ==> IsIdentifier(t.found.value)
  {
    var q := SpaceForward(code, p, |code|);
    if q == |code| then Turn(None, |code|)
    else if !IsIdentStart(code[q]) then Turn(None, q + 1)
    else
      var e := IdentEnd(code, q);
      var r := SpaceForward(code, e, |code|);
      var name := Substring(code, q, e);
      assert forall k | 0 < k < |name| :: name[k] == code[q + k];
      if r < |code| && code[r] == '(' then Turn(Some(name), r) else Turn(None, r)
  }

  /** The names the scan meets from p on, in order, repeats included. */
  function CandidatesFrom(code: CString, p: nat): (r: seq<CString>)
    requires p <= |code|
    ensures forall k | 0 <= k < |r| :: IsIdentifier(r[k])
    decreases |code| - p
  {
    if p == |code| then []
    else
      var t := ScanTurn(code, p);
      (if t.found.Some? then [t.found.value] else []) + CandidatesFrom(code, t.next)
  }

  function Candidates(code: CString): seq<CString> {
    CandidatesFrom(code, 0)
  }

  /** The names seen before p and after it make up all the candidates, one turn later too. */
  lemma CandidatesStep(code: CString, p: nat, seen: seq<CString>)
    requires p < |code| && seen + CandidatesFrom(code, p) == Candidates(code)
    ensures var t := ScanTurn(code, p);
      (if t.found.Some? then seen + [t.found.value] else seen) + CandidatesFrom(code, t.next) == Candidates(code)
  {
    var t := ScanTurn(code, p);
    if t.found.Some? {
      assert seen + ([t.found.value] + CandidatesFrom(code, t.next)) == (seen + [t.found.value]) + CandidatesFrom(code, t.next);
    }
  }

  /** One turn of the scan as the source's loops. */
  method ScanOnce(code: CString, p: nat) returns (found: Option<CString>, next: nat)
    requires p < |code|
    ensures Turn(found, next) == ScanTurn(code, p)
  {
    var q := SkipSpaceForward(code, p, |code|);
    if q == |code| {
      return None, |code|;
    }
    if !IsIdentStart(code[q]) {
      return None, q + 1;
    }
    var e := q;
    while e < |code| && IsIdentChar(code[e])
      invariant q <= e <= |code| && IdentEnd(code, e) == IdentEnd(code, q)
      decreases |code| - e
    {
      e := e + 1;
    }
    var r := SkipSpaceForward(code, e, |code|);
    if r < |code| && code[r] == '(' {
      found := Some(Substring(code, q, e));
    } else {
      found := None;
    }
    next := r;
  }

  /** compiler_get_symbol succeeds and the name fits `current_func[256]`. */
  predicate Callable(name: string, symbols: set<string>) {
    |name| < 256 && name in symbols
  }

  /** The callable names among xs, in order. */
  function Callables(xs: seq<CString>, symbols: set<string>): (r: seq<CString>)
    ensures forall k | 0 <= k < |r| :: r[k] in xs && Callable(r[k], symbols)
  {
    if |xs| == 0 then []
    else
      var prev := Callables(xs[..|xs| - 1], symbols);
      var x := xs[|xs| - 1];
      assert forall y | y in xs[..|xs| - 1] :: y in xs;
      if Callable(x, symbols) then prev + [x] else prev
  }

  // ---------------------------------------------------------------------------
  // get_function_names
  // ---------------------------------------------------------------------------

  /** xs with every repeat after the first occurrence dropped. */
  function Unique(xs: seq<CString>): (r: seq<CString>)
    ensures forall k | 0 <= k < |r| :: r[k] in xs
  {
    if |xs| == 0 then []
    else
      var prev := Unique(xs[..|xs| - 1]);
      var x := xs[|xs| - 1];
      assert forall y | y in xs[..|xs| - 1] :: y in xs;
      if x in prev then prev else prev + [x]
  }

  /** What get_function_names returns for the source and the module's symbols. */
  function Names(code: CString, symbols: set<string>): seq<CString> {
    Unique(Callables(Candidates(code), symbols))
  }

  /** The duplicate test of get_function_names: strcmp against every name kept so far. */
  method Contains(names: seq<CString>, name: CString) returns (duplicate: bool)
    ensures duplicate <==> name in names
  {
    for i := 0 to |names|
      invariant forall k | 0 <= k < i :: names[k] != name
    {
      if names[i] == name {
        return true;
      }
    }
    return false;
  }

  /**
   * get_function_names (malcrepl.c:986-1075). Running out of memory is not
   * modelled, so the array's growth from 32 is not either.
   */
  method GetFunctionNames(code: CString, symbols: set<string>) returns (names: seq<CString>)
    ensures names == Names(code, symbols)
  {
    names := [];
    var p: nat := 0;
    ghost var seen: seq<CString> := [];
    while p < |code|
      invariant p <= |code| && seen + CandidatesFrom(code, p) == Candidates(code)
      invariant names == Unique(Callables(seen, symbols))
      decreases |code| - p
    {
      var found, next := ScanOnce(code, p);
      CandidatesStep(code, p, seen);
      if found.Some? {
        var name := found.value;
        NamesSnoc(seen, name, symbols);
        if |name| < 256 && name in symbols {
          var duplicate := Contains(names, name);
          if !duplicate {
            names := names + [name];
          }
        }
        seen := seen + [name];
      }
      p := next;
    }
    assert seen + CandidatesFrom(code, p) == seen;
  }

  lemma NamesSnoc(seen: seq<CString>, name: CString, symbols: set<string>)
    ensures Unique(Callables(seen + [name], symbols)) ==
      var u := Unique(Callables(seen, symbols));
      if Callable(name, symbols) && name !in u then u + [name] else u
  {
    assert (seen + [name])[..|seen|] == seen;
    var c := Callables(seen, symbols);
    assert (c + [name])[..|c|] == c;
  }

  /** Unique keeps exactly one copy of each element, and nothing else. */
  lemma {:induction false} UniqueCounts(xs: seq<CString>)
    ensures forall x :: multiset(Unique(xs))[x] == if x in xs then 1 else 0
  {
    if |xs| > 0 {
      var init := xs[..|xs| - 1];
      UniqueCounts(init);
      assert xs == init + [xs[|xs| - 1]];
      forall x
        ensures multiset(Unique(xs))[x] == if x in xs then 1 else 0
      {
        assert x in xs <==> x in init || x == xs[|xs| - 1];
        assert x in Unique(init) <==> multiset(Unique(init))[x] > 0;
      }
    }
  }

  lemma {:induction false} CallablesCounts(xs: seq<CString>, symbols: set<string>)
    ensures forall x :: multiset(Callables(xs, symbols))[x] == if Callable(x, symbols) then multiset(xs)[x] else 0
  {
    if |xs| > 0 {
      var init := xs[..|xs| - 1];
      CallablesCounts(init, symbols);
      assert xs == init + [xs[|xs| - 1]];
    }
  }

  /** The position of the first occurrence of x in xs. */
  function FirstIndex(xs: seq<CString>, x: CString): (i: nat)
    requires x in xs
    ensures i < |xs| && xs[i] == x && x !in xs[..i]
  {
    if xs[0] == x then 0
    else
      assert xs[1..][..FirstIndex(xs[1..], x)] == xs[1..1 + FirstIndex(xs[1..], x)];
      1 + FirstIndex(xs[1..], x)
  }

  /** A position holding x with no x before it is the first occurrence. */
  lemma FirstIndexIs(xs: seq<CString>, x: CString, i: nat)
    requires i < |xs| && xs[i] == x && x !in xs[..i]
    ensures FirstIndex(xs, x) == i
  {
  }

  /**
   * Unique keeps the names in the order of their first occurrences: of two
   * kept names, the one met first in xs comes first.
   */
  lemma {:induction false} UniqueInFirstOccurrenceOrder(xs: seq<CString>)
    ensures forall i, j | 0 <= i < j < |Unique(xs)| :: FirstIndex(xs, Unique(xs)[i]) < FirstIndex(xs, Unique(xs)[j])
  {
    if |xs| > 0 {
      var init := xs[..|xs| - 1];
      var y := xs[|xs| - 1];
      var u0 := Unique(init);
      UniqueInFirstOccurrenceOrder(init);
      forall k | 0 <= k < |u0|
        ensures FirstIndex(xs, u0[k]) == FirstIndex(init, u0[k])
      {
        var f := FirstIndex(init, u0[k]);
        assert xs[..f] == init[..f];
        FirstIndexIs(xs, u0[k], f);
      }
      if y !in u0 {
        UniqueCounts(init);
        assert multiset(u0)[y] == 0;
        assert y !in init;
        assert xs[..|init|] == init;
        FirstIndexIs(xs, y, |init|);
        var u := Unique(xs);
        assert u == u0 + [y];
        forall i, j | 0 <= i < j < |u|
          ensures FirstIndex(xs, u[i]) < FirstIndex(xs, u[j])
        {
          if j < |u0| {
            assert u[i] == u0[i] && u[j] == u0[j];
          } else {
            assert u[i] == u0[i];
          }
        }
      }
    }
  }

  /**
   * get_function_names lists its names in the order the scan first meets
   * them among the callable names.
   */
  lemma NamesInScanOrder(code: CString, symbols: set<string>)
    ensures var cs := Callables(Candidates(code), symbols); var ns := Names(code, symbols);
      forall i, j | 0 <= i < j < |ns| :: FirstIndex(cs, ns[i]) < FirstIndex(cs, ns[j])
  {
    UniqueInFirstOccurrenceOrder(Callables(Candidates(code), symbols));
  }

  /**
   * get_function_names returns each name that the scan meets and the
   * module resolves exactly once, and no other name.
   */
  lemma NamesOncePerName(code: CString, symbols: set<string>)
    ensures forall x: CString ::
      (multiset(Names(code, symbols))[x] == if Callable(x, symbols) && x in Candidates(code) then 1 else 0)
  {
    var xs := Candidates(code);
    UniqueCounts(Callables(xs, symbols));
    CallablesCounts(xs, symbols);
    forall x
      ensures (x in Callables(xs, symbols)) == (Callable(x, symbols) && x in xs)
    {
      assert x in Callables(xs, symbols) <==> multiset(Callables(xs, symbols))[x] > 0;
      assert x in xs <==> multiset(xs)[x] > 0;
    }
  }

  // ---------------------------------------------------------------------------
  // list_functions
  // ---------------------------------------------------------------------------

  datatype FunctionInfo = FunctionInfo(name: CString, signature: string)

  /** The signature size list_functions uses: `char signature[512]`. */
  const SignatureSize := 512

  /** The entries list_functions collects for the names xs met by the scan, in order. */
  function Entries(code: CString, xs: seq<CString>, symbols: set<string>): seq<FunctionInfo>
    requires forall k | 0 <= k < |xs| :: IsIdentifier(xs[k])
  {
    if |xs| == 0 then []
    else
      var prev := Entries(code, xs[..|xs| - 1], symbols);
      var x := xs[|xs| - 1];
      var signature := SignatureText(code, x, SignatureSize);
      if Callable(x, symbols) && signature.Some? then prev + [FunctionInfo(x, signature.value)] else prev
  }

  /** What `:list` prints, one line per entry: the function's signature. */
  function Listed(code: CString, symbols: set<string>): seq<FunctionInfo> {
    Entries(code, Candidates(code), symbols)
  }

  /**
   * list_functions (malcrepl.c:814-886) on a source text: the entries it
   * prints. Running out of memory is not modelled, so neither is the
   * growth of the array from 16. The source moves p back to the end of the
   * identifier after a match; the next turn skips the same whitespace
   * again, so the model resumes at the '('.
   */
  method ListFunctions(code: CString, symbols: set<string>) returns (functions: seq<FunctionInfo>)
    ensures functions == Listed(code, symbols)
  {
    functions := [];
    var p: nat := 0;
    ghost var seen: seq<CString> := [];
    while p < |code|
      invariant p <= |code| && seen + CandidatesFrom(code, p) == Candidates(code)
      invariant forall k | 0 <= k < |seen| :: IsIdentifier(seen[k])
      invariant functions == Entries(code, seen, symbols)
      decreases |code| - p
    {
      var found, next := ScanOnce(code, p);
      CandidatesStep(code, p, seen);
      if found.Some? {
        var name := found.value;
        EntriesSnoc(code, seen, name, symbols);
        if |name| < 256 && name in symbols {
          var entry := Describe(code, name);
          if entry.Some? {
            functions := functions + [entry.value];
          }
        }
        seen := seen + [name];
      }
      p := next;
    }
    assert seen + CandidatesFrom(code, p) == seen;
  }

  /** The signature lookup for one resolved name, into a fresh `char signature[512]`. */
  method Describe(code: CString, name: CString) returns (entry: Option<FunctionInfo>)
    requires IsIdentifier(name)
    ensures entry.Some? <==> SignatureText(code, name, SignatureSize).Some?
    ensures entry.Some? ==> entry.value == FunctionInfo(name, SignatureText(code, name, SignatureSize).value)
  {
    var signature := new char[SignatureSize];
    var ok := ExtractFunctionSignature(code, name, signature);
    if !ok {
      return None;
    }
    ghost var t := SignatureText(code, name, SignatureSize).value;
    SignatureHasNoNul(code, name, SignatureSize);
    var text := CopyOut(signature, t);
    entry := Some(FunctionInfo(name, text));
  }

  lemma EntriesSnoc(code: CString, seen: seq<CString>, name: CString, symbols: set<string>)
    requires forall k | 0 <= k < |seen| :: IsIdentifier(seen[k])
    requires IsIdentifier(name)
    ensures Entries(code, seen + [name], symbols) ==
      var es := Entries(code, seen, symbols);
      var signature := SignatureText(code, name, SignatureSize);
      if Callable(name, symbols) && signature.Some? then es + [FunctionInfo(name, signature.value)] else es
  {
    assert (seen + [name])[..|seen|] == seen;
  }

  /** strdup of the NUL-terminated text t held in buf. */
  method CopyOut(buf: array<char>, ghost t: string) returns (text: string)
    requires |t| < buf.Length && buf[..|t|] == t && buf[|t|] == '\0'
    requires forall k | 0 <= k < |t| :: t[k] != '\0'
    ensures text == t
  {
    var n := 0;
    while buf[n] != '\0'
      invariant n <= |t| && forall k | 0 <= k < n :: buf[k] == t[k]
      decreases |t| - n
    {
      n := n + 1;
    }
    text := buf[..n];
  }

  function EntryNames(es: seq<FunctionInfo>): seq<CString> {
    if |es| == 0 then [] else EntryNames(es[..|es| - 1]) + [es[|es| - 1].name]
  }

  /** The module resolves the name and the exact text `name(` occurs in the source. */
  predicate Listable(code: CString, name: CString, symbols: set<string>) {
    Callable(name, symbols) && Strstr(code, Pattern(name)).Some?
  }

  /** extract_function_signature fails only when `name(` does not occur. */
  lemma SignatureFound(code: CString, name: CString)
    requires IsIdentifier(name)
    ensures SignatureText(code, name, SignatureSize).Some? <==> Strstr(code, Pattern(name)).Some?
  {
  }

  /**
   * list_functions does not deduplicate: each name appears once per
   * occurrence the scan meets, provided the module resolves it and the
   * exact text `name(` occurs somewhere; otherwise it does not appear.
   */
  lemma {:induction false} ListedPerOccurrence(code: CString, symbols: set<string>, xs: seq<CString>)
    requires forall k | 0 <= k < |xs| :: IsIdentifier(xs[k])
    ensures forall x: CString ::
      (multiset(EntryNames(Entries(code, xs, symbols)))[x] == if Listable(code, x, symbols) then multiset(xs)[x] else 0)
  {
    if |xs| > 0 {
      var init := xs[..|xs| - 1];
      var y := xs[|xs| - 1];
      ListedPerOccurrence(code, symbols, init);
      assert xs == init + [y];
      var prev := Entries(code, init, symbols);
      var es := Entries(code, xs, symbols);
      SignatureFound(code, y);
      if es != prev {
        assert es[..|es| - 1] == prev;
      }
    }
  }

  /** a is a subsequence of b: its elements occur in b in the same order. */
  predicate InOrder(a: seq<CString>, b: seq<CString>)
    decreases |b|
  {
    |a| == 0
    || (|b| > 0
        && ((a[|a| - 1] == b[|b| - 1] && InOrder(a[..|a| - 1], b[..|b| - 1])) || InOrder(a, b[..|b| - 1])))
  }

  /**
   * list_functions lists its entries in the order the scan meets the
   * names; with ListedPerOccurrence, the names listed are exactly the
   * listable occurrences, left to right.
   */
  lemma {:induction false} ListedInScanOrder(code: CString, symbols: set<string>, xs: seq<CString>)
    requires forall k | 0 <= k < |xs| :: IsIdentifier(xs[k])
    ensures InOrder(EntryNames(Entries(code, xs, symbols)), xs)
  {
    if |xs| > 0 {
      var init := xs[..|xs| - 1];
      ListedInScanOrder(code, symbols, init);
      var prev := Entries(code, init, symbols);
      var es := Entries(code, xs, symbols);
      if es != prev {
        assert es[..|es| - 1] == prev;
        assert EntryNames(es)[..|EntryNames(es)| - 1] == EntryNames(prev);
      }
    }
  }

  /** Each entry carries the signature extract_function_signature gives for its name. */
  lemma {:induction false} ListedSignatures(code: CString, symbols: set<string>, xs: seq<CString>)
    requires forall k | 0 <= k < |xs| :: IsIdentifier(xs[k])
    ensures forall e | e in Entries(code, xs, symbols) ::
      IsIdentifier(e.name) && SignatureText(code, e.name, SignatureSize) == Some(e.signature)
  {
    if |xs| > 0 {
      ListedSignatures(code, symbols, xs[..|xs| - 1]);
    }
  }

  /** Every name `:list` prints is also one that get_function_names returns. */
  lemma ListedAreNames(code: CString, symbols: set<string>)
    ensures forall e | e in Listed(code, symbols) :: e.name in Names(code, symbols)
  {
    var xs := Candidates(code);
    var m: multiset<CString> := multiset(xs);
    ListedPerOccurrence(code, symbols, xs);
    NamesOncePerName(code, symbols);
    forall e | e in Listed(code, symbols)
      ensures e.name in Names(code, symbols)
    {
      EntryNamesCover(Listed(code, symbols), e);
      assert m[e.name] > 0;
      assert multiset(Names(code, symbols))[e.name] == 1;
    }
  }

  lemma {:induction false} EntryNamesCover(es: seq<FunctionInfo>, e: FunctionInfo)
    requires e in es
    ensures e.name in EntryNames(es)
  {
    if es[|es| - 1] != e {
      EntryNamesCover(es[..|es| - 1], e);
    }
  }
}
