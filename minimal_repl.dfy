/**
 * The loop of crepl.c's `main` (crepl.c:46-107), the first, minimal version
 * of the REPL: every line names a function of a shared library, its
 * arguments are integer and string literals only, and the function is
 * called as returning void.
 *
 * As in the session model, the lexer is a function from a line to its
 * tokens and symbol lookup (`dlsym`) is the set `symbols`; libffi is
 * reduced to whether `ffi_prep_cif` succeeds for the argument types, since
 * a void call leaves nothing for the loop to observe.
 */
module MinimalRepl {
  import opened Wrappers
  import opened CText
  import opened FfiTypes
  import opened Tokens
  import opened StringView
  import opened DynamicArray
  import opened CallArgs

  /**
   * nob.h's temporary storage, which is not part of this model beyond its
   * bookkeeping: the sizes requested since start-up, in order. A mark is a
   * position in that log, and rewinding to it forgets what came after.
   */
  class TempStorage {
    var requests: seq<nat>

    constructor ()
      ensures requests == []
    {
      requests := [];
    }

    /** temp_save. */
    method Save() returns (mark: nat)
      ensures mark == |requests|
    {
      mark := |requests|;
    }

    /** temp_rewind. */
    method Rewind(mark: nat)
      requires mark <= |requests|
      modifies this
      ensures requests == old(requests[..mark])
    {
      requests := requests[..mark];
    }

    /** temp_alloc. */
    method Alloc(size: nat)
      modifies this
      ensures requests == old(requests) + [size]
    {
      requests := requests + [size];
    }

    /** temp_strdup: strlen + 1 characters holding a copy of s. */
    method Strdup(s: CString) returns (copy: CString)
      modifies this
      ensures copy == s && requests == old(requests) + [|s| + 1]
    {
      requests := requests + [|s| + 1];
      copy := s;
    }
  }

  /** What one turn of the loop does. */
  datatype Reply =
    | NoToken                           // the lexer found nothing
    | NotIdentifier                     // "function name must be an identifier"
    | NoFunction(name: CString)         // "no function ... found"
    | InvalidArgument(name: CString)    // "invalid argument token"
    | CifFailed(name: CString)          // "could not create cif"
    | Invoked(name: CString, args: seq<Argument>)
    | Quit                              // end of input

  /** The two argument kinds: an integer literal as `int`, a "..." string as `char *`. */
  function MinimalArgument(t: Token): (r: Option<Argument>)
    ensures r.Some? <==> t.kind.IntLit? || t.kind.DqString?
  {
    match t.kind
    case IntLit(n) => Some(Argument(SInt32, Int32(Int32Of(n))))
    case DqString(s) => Some(Argument(Pointer, StringPointer(s)))
    case _ => None
  }

  /** The arguments of the tokens up to the first one rejected. */
  function Taken(tokens: seq<Token>): seq<Argument> {
    if |tokens| == 0 || MinimalArgument(tokens[0]).None? then []
    else [MinimalArgument(tokens[0]).value] + Taken(tokens[1..])
  }

  /** Every token is an integer or a string literal. */
  predicate AllTaken(tokens: seq<Token>) {
    forall k | 0 <= k < |tokens| :: MinimalArgument(tokens[k]).Some?
  }

  /** The temp requests of one argument: the value slot, and for a string its copy. */
  function RequestsOf(a: Argument): seq<nat> {
    if a.value.StringPointer? then [8, |a.value.text| + 1] else [4]
  }

  function Requests(args: seq<Argument>): seq<nat> {
    if |args| == 0 then [] else Requests(args[..|args| - 1]) + RequestsOf(args[|args| - 1])
  }

  /** The line names a function the library exports, so the argument loop runs. */
  predicate Resolves(tokens: seq<Token>, symbols: set<string>) {
    |tokens| > 0 && tokens[0].kind.Identifier? && tokens[0].kind.name in symbols
  }

  /** One turn of the loop on an input line, None at end of input: the loop quits exactly at end of input. */
  function ReplyTo(input: Option<CString>, symbols: set<string>, lex: string -> seq<Token>,
                   prepares: seq<TypeTag> -> bool): (r: Reply)
    ensures r.Quit? <==> input.None?
  {
    match input
    case None => Quit
    case Some(line) => CallReply(lex(Trimmed(line)), symbols, prepares)
  }

  /**
   * The turn for the tokens of the trimmed line. A line never quits; a
   * call goes to an exported function with one argument per further token.
   */
  function CallReply(tokens: seq<Token>, symbols: set<string>, prepares: seq<TypeTag> -> bool): (r: Reply)
    ensures !r.Quit?
    ensures r.NoFunction? ==> r.name !in symbols
    ensures r.Invoked? ==> r.name in symbols && |r.args| == |tokens| - 1
  {
    if |tokens| == 0 then NoToken
    else if !tokens[0].kind.Identifier? then NotIdentifier
    else
      var name := tokens[0].kind.name;
      if name !in symbols then NoFunction(name)
      else if !AllTaken(tokens[1..]) then InvalidArgument(name)
      else if !prepares(Tags(Taken(tokens[1..]))) then CifFailed(name)
      else
        TakenInOrder(tokens[1..]);
        Invoked(name, Taken(tokens[1..]))
  }

  /** The arguments of a turn that reaches the argument loop. */
  function LineArguments(input: Option<CString>, symbols: set<string>, lex: string -> seq<Token>): seq<Argument>
    requires input.Some? && Resolves(lex(Trimmed(input.value)), symbols)
  {
    Taken(lex(Trimmed(input.value))[1..])
  }

  /**
   * The state of crepl's `main`: the library's symbols, the temp storage
   * and the mark saved before the loop, and the argument arrays.
   */
  class Minimal {
    const symbols: set<string>
    const temp: TempStorage
    const mark: nat
    const args: DynArray<TypeTag>
    const values: DynArray<ArgValue>

    ghost predicate Valid()
      reads this, temp, args, values
    {
      args.Valid() && values.Valid() && mark <= |temp.requests|
    }

    /** `Types args = {0}; Values values = {0}; size_t mark = temp_save();` */
    constructor (symbols: set<string>, temp: TempStorage)
      ensures Valid() && this.symbols == symbols && this.temp == temp && mark == |temp.requests|
      ensures fresh(args) && fresh(values) && args.items == [] && values.items == []
    {
      var m := temp.Save();
      this.symbols := symbols;
      this.temp := temp;
      mark := m;
      args := new DynArray<TypeTag>();
      values := new DynArray<ArgValue>();
    }

    /**
     * One turn of `for (;;)`: rewind the temp storage to the mark, read a
     * line, look the function up, reset the counts, build the arguments,
     * prepare and call. The arrays are reset only once the name resolves;
     * the temp storage always holds exactly this turn's requests after the
     * mark.
     */
    method Turn(input: Option<CString>, lex: string -> seq<Token>, prepares: seq<TypeTag> -> bool)
        returns (reply: Reply)
      requires Valid()
      modifies temp, args, values
      ensures Valid()
      ensures reply == ReplyTo(input, symbols, lex, prepares)
      ensures input.Some? && Resolves(lex(Trimmed(input.value)), symbols) ==>
        var taken := LineArguments(input, symbols, lex);
        && args.items == Tags(taken) && values.items == Values(taken)
        && temp.requests == old(temp.requests[..mark]) + Requests(taken)
      ensures !(input.Some? && Resolves(lex(Trimmed(input.value)), symbols)) ==>
        && args.items == old(args.items) && values.items == old(values.items)
        && temp.requests == old(temp.requests[..mark])
    {
      temp.Rewind(mark);
      if input.None? {
        return Quit;
      }
      var sv := Trim(FromCString(input.value));
      reply := Call(lex(Text(sv)), prepares);
    }

    /** The turn once the line is read: lookup, then the arguments, then the call. */
    method Call(tokens: seq<Token>, prepares: seq<TypeTag> -> bool) returns (reply: Reply)
      requires Valid()
      modifies temp, args, values
      ensures Valid()
      ensures reply == CallReply(tokens, symbols, prepares)
      ensures Resolves(tokens, symbols) ==>
        && args.items == Tags(Taken(tokens[1..])) && values.items == Values(Taken(tokens[1..]))
        && temp.requests == old(temp.requests) + Requests(Taken(tokens[1..]))
      ensures !Resolves(tokens, symbols) ==> unchanged(temp, args, values)
    {
      if |tokens| == 0 {
        return NoToken;
      }
      if !tokens[0].kind.Identifier? {
        return NotIdentifier;
      }
      var name := tokens[0].kind.name;
      if name !in symbols {
        return NoFunction(name);
      }
      args.Clear();
      values.Clear();
      var ok := TakeArguments(tokens[1..]);
      assert args.items == Tags(Taken(tokens[1..])) && values.items == Values(Taken(tokens[1..]));
      if !ok {
        return InvalidArgument(name);
      }
      if !prepares(args.items) {
        return CifFailed(name);
      }
      reply := Invoked(name, Taken(tokens[1..]));
    }

    /**
     * `while (stb_c_lexer_get_token(&l))`: append each integer or string
     * argument; the first other token abandons the line.
     */
    method TakeArguments(tokens: seq<Token>) returns (ok: bool)
      requires Valid()
      modifies temp, args, values
      ensures Valid()
      ensures ok == AllTaken(tokens)
      ensures args.items == old(args.items) + Tags(Taken(tokens))
      ensures values.items == old(values.items) + Values(Taken(tokens))
      ensures temp.requests == old(temp.requests) + Requests(Taken(tokens))
    {
      var i := 0;
      ghost var done: seq<Argument> := [];
      while i < |tokens|
        invariant i <= |tokens| && Valid()
        invariant Taken(tokens) == done + Taken(tokens[i..])
        invariant forall k | 0 <= k < i :: MinimalArgument(tokens[k]).Some?
        invariant args.items == old(args.items) + Tags(done)
        invariant values.items == old(values.items) + Values(done)
        invariant temp.requests == old(temp.requests) + Requests(done)
      {
        var next := MinimalArgument(tokens[i]);
        if next.None? {
          TakenStops(tokens, i, done);
          return false;
        }
        var arg := next.value;
        Push(arg, done, old(args.items), old(values.items), old(temp.requests));
        TakenStep(tokens, i, done);
        done := done + [arg];
        i := i + 1;
      }
      TakenStops(tokens, i, done);
      ok := true;
    }

    /**
     * One argument: its type, a temp slot (and for a string a temp copy),
     * its value; stated on what the arrays held before the loop (a0, v0,
     * r0) and the arguments it took before this one.
     */
    method Push(arg: Argument, ghost done: seq<Argument>, ghost a0: seq<TypeTag>, ghost v0: seq<ArgValue>, ghost r0: seq<nat>)
      requires Valid()
      requires args.items == a0 + Tags(done) && values.items == v0 + Values(done) && temp.requests == r0 + Requests(done)
      modifies temp, args, values
      ensures Valid()
      ensures args.items == a0 + Tags(done + [arg])
      ensures values.items == v0 + Values(done + [arg])
      ensures temp.requests == r0 + Requests(done + [arg])
    {
      Extended(done, arg);
      RequestsSnoc(done, arg);
      args.Append(arg.tag);
      if arg.value.StringPointer? {
        temp.Alloc(8);
        var copy := temp.Strdup(arg.value.text);
        values.Append(StringPointer(copy));
      } else {
        temp.Alloc(4);
        values.Append(arg.value);
      }
    }

    /**
     * The loop over a run of input lines, until end of input (which prints
     * "Quit") or until the lines run out.
     */
    method Run(inputs: seq<Option<CString>>, lex: string -> seq<Token>, prepares: seq<TypeTag> -> bool)
        returns (replies: seq<Reply>)
      requires Valid()
      modifies temp, args, values
      ensures Valid()
      ensures Answers(replies, inputs, symbols, lex, prepares)
      ensures forall k | 0 <= k < |replies| - 1 :: replies[k] != Quit
      ensures |replies| == |inputs| || (|replies| > 0 && replies[|replies| - 1] == Quit)
      ensures temp.requests[..mark] == old(temp.requests[..mark])
    {
      replies := [];
      var i := 0;
      while i < |inputs|
        invariant Valid() && i == |replies|
        invariant Answers(replies, inputs, symbols, lex, prepares)
        invariant forall k | 0 <= k < i :: replies[k] != Quit
        invariant temp.requests[..mark] == old(temp.requests[..mark])
      {
        var reply := Turn(inputs[i], lex, prepares);
        AnswersSnoc(replies, inputs, symbols, lex, prepares, reply);
        replies := replies + [reply];
        i := i + 1;
        if reply == Quit {
          return;
        }
      }
    }
  }

  /** Each reply answers the input line at its position. */
  predicate Answers(replies: seq<Reply>, inputs: seq<Option<CString>>, symbols: set<string>,
                    lex: string -> seq<Token>, prepares: seq<TypeTag> -> bool)
  {
    |replies| <= |inputs| && forall k | 0 <= k < |replies| :: replies[k] == ReplyTo(inputs[k], symbols, lex, prepares)
  }

  lemma AnswersSnoc(replies: seq<Reply>, inputs: seq<Option<CString>>, symbols: set<string>,
                    lex: string -> seq<Token>, prepares: seq<TypeTag> -> bool, r: Reply)
    requires Answers(replies, inputs, symbols, lex, prepares) && |replies| < |inputs|
    requires r == ReplyTo(inputs[|replies|], symbols, lex, prepares)
    ensures Answers(replies + [r], inputs, symbols, lex, prepares)
  {
  }

  /** The taken arguments so far, when the token at i is rejected or there is none. */
  lemma TakenStops(tokens: seq<Token>, i: nat, done: seq<Argument>)
    requires i <= |tokens| && Taken(tokens) == done + Taken(tokens[i..])
    requires forall k | 0 <= k < i :: MinimalArgument(tokens[k]).Some?
    requires i < |tokens| ==> MinimalArgument(tokens[i]).None?
    ensures Taken(tokens) == done
    ensures AllTaken(tokens) <==> i == |tokens|
  {
    assert Taken(tokens[i..]) == [];
    assert done + [] == done;
  }

  /** One more token taken. */
  lemma TakenStep(tokens: seq<Token>, i: nat, done: seq<Argument>)
    requires i < |tokens| && Taken(tokens) == done + Taken(tokens[i..])
    requires MinimalArgument(tokens[i]).Some?
    ensures Taken(tokens) == (done + [MinimalArgument(tokens[i]).value]) + Taken(tokens[i + 1..])
  {
    var arg := MinimalArgument(tokens[i]).value;
    assert tokens[i..][1..] == tokens[i + 1..];
    assert Taken(tokens[i..]) == [arg] + Taken(tokens[i + 1..]);
    assert done + ([arg] + Taken(tokens[i + 1..])) == (done + [arg]) + Taken(tokens[i + 1..]);
  }

  lemma RequestsSnoc(done: seq<Argument>, arg: Argument)
    ensures Requests(done + [arg]) == Requests(done) + RequestsOf(arg)
  {
    assert (done + [arg])[..|done|] == done;
  }

  // ---------------------------------------------------------------------------
  // Properties
  // ---------------------------------------------------------------------------

  /**
   * Taken holds one argument per token, in token order, and stops at the
   * first token that is neither an integer nor a string literal; it covers
   * every token exactly when all are.
   */
  lemma {:induction false} TakenInOrder(tokens: seq<Token>)
    ensures |Taken(tokens)| <= |tokens|
    ensures forall k | 0 <= k < |Taken(tokens)| :: MinimalArgument(tokens[k]) == Some(Taken(tokens)[k])
    ensures AllTaken(tokens) <==> |Taken(tokens)| == |tokens|
  {
    if |tokens| > 0 && MinimalArgument(tokens[0]).Some? {
      var rest := tokens[1..];
      TakenInOrder(rest);
      forall k | 1 <= k < |Taken(tokens)|
        ensures MinimalArgument(tokens[k]) == Some(Taken(tokens)[k])
      {
        assert tokens[k] == rest[k - 1];
      }
      if AllTaken(tokens) {
        assert AllTaken(rest) by {
          forall k | 0 <= k < |rest| ensures MinimalArgument(rest[k]).Some? {
            assert rest[k] == tokens[k + 1];
          }
        }
      }
      if |Taken(tokens)| == |tokens| {
        forall k | 0 <= k < |tokens| ensures MinimalArgument(tokens[k]).Some? {
          if k > 0 {
            assert tokens[k] == rest[k - 1];
          }
        }
      }
    }
  }

  /**
   * The call path: a function is called exactly when the first token is an
   * identifier the library exports, every further token is an integer or a
   * string literal, and the call can be prepared. An unexported name is
   * reported before any argument is looked at. The call gets one argument
   * per further token, in order: an integer as an `int` holding its value
   * cut to 32 bits, a string as a `char *` to its text.
   */
  lemma CallPath(tokens: seq<Token>, symbols: set<string>, prepares: seq<TypeTag> -> bool)
    ensures var r := CallReply(tokens, symbols, prepares);
      && (r.NoFunction? <==> |tokens| > 0 && tokens[0].kind.Identifier? && tokens[0].kind.name !in symbols)
      && (r.InvalidArgument? <==> Resolves(tokens, symbols) && exists k | 1 <= k < |tokens| ::
            !tokens[k].kind.IntLit? && !tokens[k].kind.DqString?)
      && (r.Invoked? <==> Resolves(tokens, symbols) && AllTaken(tokens[1..]) && prepares(Tags(Taken(tokens[1..]))))
    ensures var r := CallReply(tokens, symbols, prepares);
      r.Invoked? ==>
        && r.name == tokens[0].kind.name
        && |r.args| == |tokens| - 1
        && forall k | 0 <= k < |r.args| ::
             (tokens[k + 1].kind.IntLit? ==> r.args[k] == Argument(SInt32, Int32(Int32Of(tokens[k + 1].kind.number))))
             && (tokens[k + 1].kind.DqString? ==> r.args[k] == Argument(Pointer, StringPointer(tokens[k + 1].kind.text)))
  {
    if |tokens| > 0 {
      var rest := tokens[1..];
      TakenInOrder(rest);
      forall k | 0 <= k < |Taken(rest)|
        ensures MinimalArgument(tokens[k + 1]) == Some(Taken(rest)[k])
      {
        assert tokens[k + 1] == rest[k];
      }
      if Resolves(tokens, symbols) && !AllTaken(rest) {
        var k :| 0 <= k < |rest| && MinimalArgument(rest[k]).None?;
        assert tokens[k + 1] == rest[k];
      }
      if exists k | 1 <= k < |tokens| :: !tokens[k].kind.IntLit? && !tokens[k].kind.DqString? {
        var k :| 1 <= k < |tokens| && !tokens[k].kind.IntLit? && !tokens[k].kind.DqString?;
        assert MinimalArgument(rest[k - 1]).None?;
      }
    }
  }

  /** End of input ends the loop. */
  lemma EndOfInputQuits(symbols: set<string>, lex: string -> seq<Token>, prepares: seq<TypeTag> -> bool)
    ensures ReplyTo(None, symbols, lex, prepares) == Quit
  {
  }

  /**
   * The minimal loop builds, for the tokens it accepts, the argument the
   * later parse_arguments builds, except that parse_arguments turns an
   * integer followed by L or l into a `long`.
   */
  lemma AgreesWithParseArguments(t: Token)
    requires MinimalArgument(t).Some?
    requires !(t.kind.IntLit? && SuffixAfterRun(t.source, true, 'L', 'l'))
    ensures ArgumentOf(t) == MinimalArgument(t)
  {
  }

  /** The arguments of a call are all `int` or `char *`. */
  lemma OnlyIntsAndStrings(tokens: seq<Token>)
    ensures forall a | a in Taken(tokens) :: a.tag == SInt32 || a.tag == Pointer
  {
    TakenInOrder(tokens);
  }
}
