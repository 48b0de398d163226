/**
 * parse_arguments (malcrepl.c:428-520): the literal tokens after the
 * function name become the libffi argument types and value slots of the
 * call, one of each per token, in token order.
 *
 * Each value slot is a fresh arena block. What a slot holds is modelled by
 * ArgValue; floating-point literals keep their type but not their value.
 */
module CallArgs {
  import opened Wrappers
  import opened CText
  import opened FfiTypes
  import opened Tokens
  import opened DynamicArray
  import opened MemoryArena

  /** What the pointer stored in `values` points at. */
  datatype ArgValue =
    | Int32(i: int)                 // an `int`
    | Int64(l: int)                 // a `long`
    | Char(c: int)                  // a signed `char`
    | StringPointer(text: CString)  // a `char *` to an arena copy of the text
    | Single                        // a `float`
    | DoubleValue                   // a `double`

  /** One argument: its type descriptor and its value. */
  datatype Argument = Argument(tag: TypeTag, value: ArgValue)

  /** The descriptor that goes with each kind of value. */
  function TagOf(v: ArgValue): TypeTag {
    match v
    case Int32(_) => SInt32
    case Int64(_) => SLong
    case Char(_) => SChar
    case StringPointer(_) => Pointer
    case Single => Float
    case DoubleValue => Double
  }

  /** Arena blocks one argument takes: the slot, and for a string also its copy. */
  function BlocksOf(v: ArgValue): nat {
    if v.StringPointer? then 2 else 1
  }

  // ---------------------------------------------------------------------------
  // The suffix scans (malcrepl.c:433-439 and 491-497)
  // ---------------------------------------------------------------------------

  /** Characters the integer scan steps over: digits, x/X and hex letters. */
  predicate IsHexRunChar(c: char) {
    IsDigit(c) || c == 'x' || c == 'X' || ('a' <= c <= 'f') || ('A' <= c <= 'F')
  }

  /** Characters the float scan steps over: digits, '.', e/E and signs. */
  predicate IsFloatRunChar(c: char) {
    IsDigit(c) || c == '.' || c == 'e' || c == 'E' || c == '+' || c == '-'
  }

  predicate InRun(c: char, hex: bool) {
    if hex then IsHexRunChar(c) else IsFloatRunChar(c)
  }

  /** Where a scan from the token's first character stops. */
  function RunEnd(s: CString, hex: bool): (n: nat)
    ensures n <= |s|
    ensures forall k | 0 <= k < n :: InRun(s[k], hex)
    ensures n < |s| ==> !InRun(s[n], hex)
  {
    if |s| > 0 && InRun(s[0], hex) then 1 + RunEnd(s[1..], hex) else 0
  }

  /** The scan stops on one of the two suffix letters. */
  predicate SuffixAfterRun(s: CString, hex: bool, upper: char, lower: char) {
    RunEnd(s, hex) < |s| && (s[RunEnd(s, hex)] == upper || s[RunEnd(s, hex)] == lower)
  }

  /** `while (*p && ...) p++`: the scan itself. */
  method ScanRun(s: CString, hex: bool) returns (p: nat)
    ensures p == RunEnd(s, hex)
  {
    p := 0;
    while p < |s| && InRun(s[p], hex)
      invariant p <= |s| && RunEnd(s, hex) == p + RunEnd(s[p..], hex)
      decreases |s| - p
    {
      assert s[p..][1..] == s[p + 1..];
      p := p + 1;
    }
  }

  // ---------------------------------------------------------------------------
  // The argument of one token
  // ---------------------------------------------------------------------------

  /**
   * The argument a token gives, None for a token parse_arguments rejects:
   * a '...' string that is not exactly one character, or any token other
   * than a literal.
   */
  function ArgumentOf(t: Token): (r: Option<Argument>)
    ensures r.None? <==> t.kind.Identifier? || t.kind.Other? || (t.kind.SqString? && |t.kind.text| != 1)
    ensures r.Some? ==> r.value.tag == TagOf(r.value.value)
  {
    match t.kind
    case IntLit(v) =>
      if SuffixAfterRun(t.source, true, 'L', 'l') then Some(Argument(SLong, Int64(v)))
      else Some(Argument(SInt32, Int32(Int32Of(v))))
    case DqString(s) => Some(Argument(Pointer, StringPointer(s)))
    case SqString(s) =>
      if |s| == 1 then Some(Argument(SChar, Char(Int8Of(s[0] as int)))) else None
    case CharLit(v) => Some(Argument(SChar, Char(Int8Of(v))))
    case FloatLit =>
      if SuffixAfterRun(t.source, false, 'F', 'f') then Some(Argument(Float, Single))
      else Some(Argument(Double, DoubleValue))
    case Identifier(_) => None
    case Other(_) => None
  }

  /** The arguments of the tokens up to the first one rejected. */
  function Accepted(tokens: seq<Token>): seq<Argument> {
    if |tokens| == 0 || ArgumentOf(tokens[0]).None? then []
    else [ArgumentOf(tokens[0]).value] + Accepted(tokens[1..])
  }

  /** Every token gives an argument. */
  predicate Supported(tokens: seq<Token>) {
    forall k | 0 <= k < |tokens| :: ArgumentOf(tokens[k]).Some?
  }

  function Tags(args: seq<Argument>): (r: seq<TypeTag>)
    ensures |r| == |args|
  {
    seq(|args|, k requires 0 <= k < |args| => args[k].tag)
  }

  function Values(args: seq<Argument>): (r: seq<ArgValue>)
    ensures |r| == |args|
  {
    seq(|args|, k requires 0 <= k < |args| => args[k].value)
  }

  function BlockCount(args: seq<Argument>): nat {
    if |args| == 0 then 0 else BlockCount(args[..|args| - 1]) + BlocksOf(args[|args| - 1].value)
  }

  /**
   * Accepted holds one argument per token, in token order, and stops at
   * the first rejected token; it covers every token exactly when all are
   * supported.
   */
  lemma {:induction false} AcceptedInOrder(tokens: seq<Token>)
    ensures |Accepted(tokens)| <= |tokens|
    ensures forall k | 0 <= k < |Accepted(tokens)| :: ArgumentOf(tokens[k]) == Some(Accepted(tokens)[k])
    ensures |Accepted(tokens)| < |tokens| ==> ArgumentOf(tokens[|Accepted(tokens)|]).None?
    ensures Supported(tokens) <==> |Accepted(tokens)| == |tokens|
  {
    if |tokens| > 0 && ArgumentOf(tokens[0]).Some? {
      var rest := tokens[1..];
      AcceptedInOrder(rest);
      forall k | 1 <= k < |Accepted(tokens)|
        ensures ArgumentOf(tokens[k]) == Some(Accepted(tokens)[k])
      {
        assert tokens[k] == rest[k - 1];
      }
      if Supported(tokens) {
        assert Supported(rest) by {
          forall k | 0 <= k < |rest| ensures ArgumentOf(rest[k]).Some? {
            assert rest[k] == tokens[k + 1];
          }
        }
      }
      if |Accepted(tokens)| == |tokens| {
        forall k | 0 <= k < |tokens| ensures ArgumentOf(tokens[k]).Some? {
          if k > 0 {
            assert tokens[k] == rest[k - 1];
          }
        }
      }
    }
  }

  // ---------------------------------------------------------------------------
  // The methods
  // ---------------------------------------------------------------------------

  /**
   * The decision half of the switch in parse_arguments: which type and
   * value a token gives, running the suffix scan for numeric literals.
   */
  method Classify(t: Token) returns (arg: Option<Argument>)
    ensures arg == ArgumentOf(t)
  {
    match t.kind {
      case IntLit(v) =>
        var p := ScanRun(t.source, true);
        if p < |t.source| && (t.source[p] == 'L' || t.source[p] == 'l') {
          arg := Some(Argument(SLong, Int64(v)));
        } else {
          arg := Some(Argument(SInt32, Int32(Int32Of(v))));
        }
      case DqString(s) =>
        arg := Some(Argument(Pointer, StringPointer(s)));
      case SqString(s) =>
        if |s| == 1 {
          arg := Some(Argument(SChar, Char(Int8Of(s[0] as int))));
        } else {
          arg := None;
        }
      case CharLit(v) =>
        arg := Some(Argument(SChar, Char(Int8Of(v))));
      case FloatLit =>
        var p := ScanRun(t.source, false);
        if p < |t.source| && (t.source[p] == 'f' || t.source[p] == 'F') {
          arg := Some(Argument(Float, Single));
        } else {
          arg := Some(Argument(Double, DoubleValue));
        }
      case Identifier(_) =>
        arg := None;
      case Other(_) =>
        arg := None;
    }
  }

  /**
   * The storing half: `da_append(types, ...)`, a value slot of the type's
   * size from the arena (and for a string its arena copy), then
   * `da_append(values, slot)`.
   */
  method Push(arg: Argument, types: DynArray<TypeTag>, values: DynArray<ArgValue>, arena: Arena)
    requires types.Valid() && values.Valid()
    modifies types, values, arena
    ensures types.Valid() && values.Valid()
    ensures types.items == old(types.items) + [arg.tag]
    ensures values.items == old(values.items) + [arg.value]
    ensures |arena.blocks| == |old(arena.blocks)| + BlocksOf(arg.value)
    ensures types.capacity >= old(types.capacity) && values.capacity >= old(values.capacity)
  {
    types.Append(arg.tag);
    var slot := arena.Alloc(Size(arg.tag));
    if arg.value.StringPointer? {
      var text := arg.value.text;
      var copy := arena.Strdup(text);
      assert copy[..|text|] == text;
      values.Append(StringPointer(copy[..|text|]));
    } else {
      values.Append(arg.value);
    }
  }

  /** The accepted arguments so far, when the token at i is rejected or there is none. */
  lemma AcceptedStops(tokens: seq<Token>, i: nat, done: seq<Argument>)
    requires i <= |tokens| && Accepted(tokens) == done + Accepted(tokens[i..])
    requires i < |tokens| ==> ArgumentOf(tokens[i]).None?
    ensures Accepted(tokens) == done
  {
    assert Accepted(tokens[i..]) == [];
    assert done + [] == done;
  }

  /** One more token accepted. */
  lemma AcceptedStep(tokens: seq<Token>, i: nat, done: seq<Argument>)
    requires i < |tokens| && Accepted(tokens) == done + Accepted(tokens[i..])
    requires ArgumentOf(tokens[i]).Some?
    ensures Accepted(tokens) == (done + [ArgumentOf(tokens[i]).value]) + Accepted(tokens[i + 1..])
  {
    var arg := ArgumentOf(tokens[i]).value;
    assert tokens[i..][1..] == tokens[i + 1..];
    assert Accepted(tokens[i..]) == [arg] + Accepted(tokens[i + 1..]);
    assert done + ([arg] + Accepted(tokens[i + 1..])) == (done + [arg]) + Accepted(tokens[i + 1..]);
  }

  /** Tags, Values and BlockCount of one more argument. */
  lemma Extended(done: seq<Argument>, arg: Argument)
    ensures Tags(done + [arg]) == Tags(done) + [arg.tag]
    ensures Values(done + [arg]) == Values(done) + [arg.value]
    ensures BlockCount(done + [arg]) == BlockCount(done) + BlocksOf(arg.value)
  {
    assert (done + [arg])[..|done|] == done;
  }

  /**
   * parse_arguments (malcrepl.c:428-520): true exactly when every token is
   * a supported literal. Either way the arrays gain the arguments of the
   * tokens before the first rejected one, in order.
   */
  method ParseArguments(tokens: seq<Token>, types: DynArray<TypeTag>, values: DynArray<ArgValue>, arena: Arena)
      returns (ok: bool)
    requires types.Valid() && values.Valid()
    modifies types, values, arena
    ensures types.Valid() && values.Valid()
    ensures ok == Supported(tokens)
    ensures types.items == old(types.items) + Tags(Accepted(tokens))
    ensures values.items == old(values.items) + Values(Accepted(tokens))
    ensures |arena.blocks| == |old(arena.blocks)| + BlockCount(Accepted(tokens))
    ensures types.capacity >= old(types.capacity) && values.capacity >= old(values.capacity)
  {
    var i := 0;
    ghost var done: seq<Argument> := [];
    while i < |tokens|
      invariant i <= |tokens| && types.Valid() && values.Valid()
      invariant Accepted(tokens) == done + Accepted(tokens[i..])
      invariant forall k | 0 <= k < i :: ArgumentOf(tokens[k]).Some?
      invariant types.items == old(types.items) + Tags(done)
      invariant values.items == old(values.items) + Values(done)
      invariant |arena.blocks| == |old(arena.blocks)| + BlockCount(done)
      invariant types.capacity >= old(types.capacity) && values.capacity >= old(values.capacity)
    {
      var next := Classify(tokens[i]);
      if next.None? {
        AcceptedStops(tokens, i, done);
        return false;
      }
      var arg := next.value;
      Push(arg, types, values, arena);
      AcceptedStep(tokens, i, done);
      Extended(done, arg);
      done := done + [arg];
      i := i + 1;
    }
    AcceptedStops(tokens, i, done);
    ok := true;
  }
}
