/**
 * The session loop of malcrepl's `main` (malcrepl.c:1229-1360): one input
 * line at a time, a built-in command or a function call, on a module that
 * was compiled at `launch`.
 *
 * What lies outside the model is injected: the lexer (stb_c_lexer.h) is a
 * function from a line to its tokens, symbol lookup in the compiled module
 * is the set `symbols` of names it resolves, and libffi is an Executor
 * that says whether `ffi_prep_cif` succeeds, which bytes `ffi_call` writes
 * into the result buffer, and what memory holds after the call.
 */
module Session {
  import opened Wrappers
  import opened CText
  import opened FfiTypes
  import opened Tokens
  import opened StringView
  import opened DynamicArray
  import opened MemoryArena
  import opened CallArgs
  import opened ReturnType
  import opened Renderer
  import opened Catalog

  /** libffi, as far as the loop observes it. */
  datatype Executor = Executor(
    prepares: (TypeTag, seq<TypeTag>) -> bool,           // ffi_prep_cif returns FFI_OK
    writes: (CString, seq<ArgValue>) -> seq<byte>,       // what ffi_call stores at the result buffer
    memory: (CString, seq<ArgValue>) -> (nat -> byte))   // the process memory after the call

  /** What one turn of the loop does. */
  datatype Outcome =
    | Continue                                  // readline saw end of input; the loop goes on
    | EndOfInput                                // fgets saw end of input; the loop ends
    | Blank                                     // only whitespace
    | Quit                                      // :quit, :q
    | Help                                      // :help, :h
    | Info(types: nat, values: nat)             // :info, with the arrays' capacities
    | List(functions: seq<FunctionInfo>)        // :list, :l
    | Reload                                    // :reload, :r: back to `launch`
    | UnknownCommand                            // any other line starting with ':'
    | NoToken                                   // the lexer found nothing
    | NotIdentifier                             // "function name must be an identifier"
    | NotFound(name: CString)                   // "function '...' not found"
    | BadArguments(name: CString)               // parse_arguments returned false
    | PrepareFailed(name: CString, tag: TypeTag)  // "could not prepare FFI call"
    | Called(name: CString, tag: TypeTag, args: seq<Argument>, shown: Shown)

  /** The turns after which the loop is left. */
  predicate Ends(o: Outcome) {
    o.Quit? || o.EndOfInput? || o.Reload?
  }

  /** `char function_name[256]`. */
  const NameSize := 256

  /** strncpy into function_name with the last character forced to NUL. */
  function FunctionName(s: CString): (r: CString)
    ensures |r| < NameSize && |r| <= |s| && r == s[..|r|]
    ensures |s| < NameSize ==> r == s
    ensures |s| >= NameSize ==> |r| == NameSize - 1
  {
    if |s| < NameSize then s else s[..NameSize - 1]
  }

  // ---------------------------------------------------------------------------
  // What a line does
  // ---------------------------------------------------------------------------

  /**
   * The built-in commands, matched exactly against the trimmed line. A
   * command never calls a function, and it leaves the loop exactly for
   * the quit and reload words.
   */
  function Command(t: string, capacities: (nat, nat), code: CString, symbols: set<string>): (r: Outcome)
    ensures r.Quit? || r.Help? || r.Info? || r.List? || r.Reload? || r.UnknownCommand?
    ensures Ends(r) <==> t == ":quit" || t == ":q" || t == ":reload" || t == ":r"
  {
    if t == ":quit" || t == ":q" then Quit
    else if t == ":help" || t == ":h" then Help
    else if t == ":info" then Info(capacities.0, capacities.1)
    else if t == ":list" || t == ":l" then List(Listed(code, symbols))
    else if t == ":reload" || t == ":r" then Reload
    else UnknownCommand
  }

  /** The size bytes of a zero-filled result buffer after the call stored `written` at its start. */
  function Stored(written: seq<byte>, size: nat): (r: seq<byte>)
    ensures |r| == size
  {
    seq(size, k requires 0 <= k < size => if k < |written| then written[k] else 0)
  }

  /** `sv_eq(input, sv_from_cstr(word)) || sv_eq(input, sv_from_cstr(short))`. */
  method IsCommand(input: View, word: CString, short: CString) returns (r: bool)
    requires Valid(input)
    ensures r <==> Text(input) == word || Text(input) == short
  {
    r := Equal(input, FromCString(word)) || Equal(input, FromCString(short));
  }

  /** The line reaches parse_arguments: it names a function the module resolves. */
  predicate Resolves(tokens: seq<Token>, symbols: set<string>) {
    |tokens| > 0 && tokens[0].kind.Identifier? && FunctionName(tokens[0].kind.name) in symbols
  }

  /**
   * The call path for the line's tokens. It never leaves the loop, it
   * reports NoToken exactly for an empty line of tokens, and whatever it
   * reports past the name lookup is about a function the module resolves.
   */
  function CallResponse(tokens: seq<Token>, code: CString, symbols: set<string>, exec: Executor): (r: Outcome)
    ensures !Ends(r) && !r.Blank?
    ensures r.NoToken? <==> |tokens| == 0
    ensures r.NotFound? ==> r.name !in symbols
    ensures (r.BadArguments? || r.PrepareFailed? || r.Called?) ==> r.name in symbols
  {
    if |tokens| == 0 then NoToken
    else if !tokens[0].kind.Identifier? then NotIdentifier
    else
      var name := FunctionName(tokens[0].kind.name);
      if name !in symbols then NotFound(name)
      else if !Supported(tokens[1..]) then BadArguments(name)
      else
        var tag := Detected(ReturnTypeText(code, name, 64));
        var args := Accepted(tokens[1..]);
        if !exec.prepares(tag, Tags(args)) then PrepareFailed(name, tag)
        else
          var values := Values(args);
          var result := if tag == Void then None else Some(Stored(exec.writes(name, values), Size(tag)));
          Called(name, tag, args, Rendered(tag, result, exec.memory(name, values)))
  }

  /** One turn of the loop on an input line, None at end of input. */
  function Response(input: Option<CString>, readline: bool, capacities: (nat, nat), code: CString,
                    symbols: set<string>, lex: CString -> seq<Token>, exec: Executor): (r: Outcome)
    ensures r.Continue? <==> input.None? && readline
    ensures r.EndOfInput? <==> input.None? && !readline
    ensures r.Blank? <==> input.Some? && |Trimmed(input.value)| == 0
    ensures (r.Quit? || r.Reload?) ==> input.Some? && Trimmed(input.value) in {":quit", ":q", ":reload", ":r"}
  {
    match input
    case None => if readline then Continue else EndOfInput
    case Some(line) =>
      var t := Trimmed(line);
      if |t| == 0 then Blank
      else if t[0] == ':' then Command(t, capacities, code, symbols)
      else CallResponse(lex(line), code, symbols, exec)
  }

  /** The arguments parse_arguments appends during the turn: none unless the line reaches it. */
  function Parsed(input: Option<CString>, symbols: set<string>, lex: CString -> seq<Token>): seq<Argument> {
    match input
    case None => []
    case Some(line) =>
      var t := Trimmed(line);
      if |t| == 0 || t[0] == ':' || !Resolves(lex(line), symbols) then []
      else Accepted(lex(line)[1..])
  }

  /** The turns that take a result buffer from the arena: a non-void call that got past its arguments. */
  predicate TakesResultBlock(o: Outcome) {
    (o.PrepareFailed? || o.Called?) && o.tag != Void
  }

  /** Each pair of capacities is at least the one before it. */
  predicate NeverShrink(cs: seq<(nat, nat)>) {
    forall k | 0 < k < |cs| :: cs[k - 1].0 <= cs[k].0 && cs[k - 1].1 <= cs[k].1
  }

  lemma NeverShrinkSnoc(cs: seq<(nat, nat)>, c: (nat, nat))
    requires NeverShrink(cs) && (|cs| > 0 ==> cs[|cs| - 1].0 <= c.0 && cs[|cs| - 1].1 <= c.1)
    ensures NeverShrink(cs + [c])
  {
  }

  /** Each outcome answers the input line at its position, with the capacities at its position. */
  predicate Answers(outcomes: seq<Outcome>, inputs: seq<Option<CString>>, readline: bool, capacities: seq<(nat, nat)>,
                    code: CString, symbols: set<string>, lex: CString -> seq<Token>, exec: Executor)
  {
    |outcomes| == |capacities| <= |inputs|
    && forall k | 0 <= k < |outcomes| :: outcomes[k] == Response(inputs[k], readline, capacities[k], code, symbols, lex, exec)
  }

  lemma AnswersSnoc(outcomes: seq<Outcome>, inputs: seq<Option<CString>>, readline: bool, capacities: seq<(nat, nat)>,
                    code: CString, symbols: set<string>, lex: CString -> seq<Token>, exec: Executor,
                    o: Outcome, c: (nat, nat))
    requires Answers(outcomes, inputs, readline, capacities, code, symbols, lex, exec) && |outcomes| < |inputs|
    requires o == Response(inputs[|outcomes|], readline, c, code, symbols, lex, exec)
    ensures Answers(outcomes + [o], inputs, readline, capacities + [c], code, symbols, lex, exec)
  {
  }

  // ---------------------------------------------------------------------------
  // The loop
  // ---------------------------------------------------------------------------

  /**
   * The state of one `launch`: the compiled module, the arena every turn
   * resets, and the argument arrays, which `launch` declares `= {0}` and
   * whose storage every turn reuses.
   */
  class Repl {
    const code: CString
    const symbols: set<string>
    const temp: Arena
    const types: DynArray<TypeTag>
    const values: DynArray<ArgValue>

    ghost predicate Valid()
      reads this, types, values
    {
      types.Valid() && values.Valid()
    }

    /** `launch` on a compiled module: fresh, empty argument arrays. */
    constructor (code: CString, symbols: set<string>, temp: Arena)
      ensures Valid() && this.code == code && this.symbols == symbols && this.temp == temp
      ensures fresh(types) && fresh(values)
      ensures types.items == [] && types.capacity == 0 && values.items == [] && values.capacity == 0
    {
      this.code := code;
      this.symbols := symbols;
      this.temp := temp;
      types := new DynArray<TypeTag>();
      values := new DynArray<ArgValue>();
    }

    /**
     * One turn of `for (;;)`: reset the arena and the argument counts, then
     * handle the line. Afterwards the arrays hold exactly the arguments of
     * this line and the arena exactly its blocks.
     */
    method Turn(input: Option<CString>, readline: bool, lex: CString -> seq<Token>, exec: Executor)
        returns (outcome: Outcome)
      requires Valid()
      modifies temp, types, values
      ensures Valid()
      ensures types.capacity >= old(types.capacity) && values.capacity >= old(values.capacity)
      ensures outcome == Response(input, readline, (old(types.capacity), old(values.capacity)), code, symbols, lex, exec)
      ensures types.items == Tags(Parsed(input, symbols, lex)) && values.items == Values(Parsed(input, symbols, lex))
      ensures |temp.blocks| == BlockCount(Parsed(input, symbols, lex)) + if TakesResultBlock(outcome) then 1 else 0
    {
      temp.Reset();
      types.Clear();
      values.Clear();
      outcome := Line(input, readline, lex, exec);
    }

    /** The turn after the resets: end of input, a blank line, a command or a call. */
    method Line(input: Option<CString>, readline: bool, lex: CString -> seq<Token>, exec: Executor)
        returns (outcome: Outcome)
      requires Valid() && types.items == [] && values.items == [] && temp.blocks == []
      modifies temp, types, values
      ensures Valid()
      ensures types.capacity >= old(types.capacity) && values.capacity >= old(values.capacity)
      ensures outcome == Response(input, readline, (old(types.capacity), old(values.capacity)), code, symbols, lex, exec)
      ensures types.items == Tags(Parsed(input, symbols, lex)) && values.items == Values(Parsed(input, symbols, lex))
      ensures |temp.blocks| == BlockCount(Parsed(input, symbols, lex)) + if TakesResultBlock(outcome) then 1 else 0
    {
      assert Tags([]) == [] && Values([]) == [];
      if input.None? {
        if readline {
          return Continue;
        }
        return EndOfInput;
      }
      var line := input.value;
      var view := Trim(FromCString(line));
      if view.count == 0 {
        return Blank;
      }
      assert Text(view)[0] == view.base[view.offset];
      if view.base[view.offset] == ':' {
        outcome := Dispatch(view, types.capacity, values.capacity);
        return;
      }
      outcome := Call(lex(line), exec);
    }

    /** The built-in commands, each compared with sv_eq. */
    method Dispatch(input: View, typesCapacity: nat, valuesCapacity: nat) returns (outcome: Outcome)
      requires StringView.Valid(input)
      ensures outcome == Command(Text(input), (typesCapacity, valuesCapacity), code, symbols)
    {
      var quit := IsCommand(input, ":quit", ":q");
      var help := IsCommand(input, ":help", ":h");
      var info := IsCommand(input, ":info", ":info");
      var list := IsCommand(input, ":list", ":l");
      var reload := IsCommand(input, ":reload", ":r");
      if quit {
        outcome := Quit;
      } else if help {
        outcome := Help;
      } else if info {
        outcome := Info(typesCapacity, valuesCapacity);
      } else if list {
        var functions := ListFunctions(code, symbols);
        outcome := List(functions);
      } else if reload {
        outcome := Reload;
      } else {
        outcome := UnknownCommand;
      }
    }

    /**
     * The call path: identifier check, lookup of the truncated name before
     * any argument is read, parse_arguments, return-type detection, a
     * zero-filled result buffer from the arena, ffi_prep_cif, ffi_call and
     * display_return_value.
     */
    method Call(tokens: seq<Token>, exec: Executor) returns (outcome: Outcome)
      requires Valid() && types.items == [] && values.items == [] && temp.blocks == []
      modifies temp, types, values
      ensures Valid()
      ensures types.capacity >= old(types.capacity) && values.capacity >= old(values.capacity)
      ensures outcome == CallResponse(tokens, code, symbols, exec)
      ensures var args := if Resolves(tokens, symbols) then Accepted(tokens[1..]) else [];
        types.items == Tags(args) && values.items == Values(args)
        && |temp.blocks| == BlockCount(args) + if TakesResultBlock(outcome) then 1 else 0
    {
      if |tokens| == 0 {
        return NoToken;
      }
      if !tokens[0].kind.Identifier? {
        return NotIdentifier;
      }
      var name := FunctionName(tokens[0].kind.name);
      if name !in symbols {
        return NotFound(name);
      }
      var ok := ParseArguments(tokens[1..], types, values, temp);
      assert Tags([]) + Tags(Accepted(tokens[1..])) == Tags(Accepted(tokens[1..]));
      assert Values([]) + Values(Accepted(tokens[1..])) == Values(Accepted(tokens[1..]));
      if !ok {
        return BadArguments(name);
      }
      var tag := DetectReturnType(name, code);
      if tag != Void {
        var buffer := temp.Alloc(Size(tag));
      }
      if !exec.prepares(tag, types.items) {
        return PrepareFailed(name, tag);
      }
      var result: Option<seq<byte>> := None;
      if tag != Void {
        result := Some(Stored(exec.writes(name, values.items), Size(tag)));
      }
      var shown := Display(tag, result, exec.memory(name, values.items));
      outcome := Called(name, tag, Accepted(tokens[1..]), shown);
    }

    /**
     * The loop over a run of input lines: a turn per line until one leaves
     * the loop (:quit, end of input under fgets, or :reload, after which
     * `launch` starts over) or the lines run out. Each outcome answers its
     * line with the capacities the arrays had before that turn, and the
     * capacities never shrink.
     */
    method Run(inputs: seq<Option<CString>>, readline: bool, lex: CString -> seq<Token>, exec: Executor)
        returns (outcomes: seq<Outcome>, capacities: seq<(nat, nat)>)
      requires Valid()
      modifies temp, types, values
      ensures Valid()
      ensures |outcomes| == |capacities| <= |inputs|
      ensures Answers(outcomes, inputs, readline, capacities, code, symbols, lex, exec)
      ensures forall k | 0 <= k < |outcomes| - 1 :: !Ends(outcomes[k])
      ensures |outcomes| == |inputs| || (|outcomes| > 0 && Ends(outcomes[|outcomes| - 1]))
      ensures |capacities| > 0 ==> capacities[0] == (old(types.capacity), old(values.capacity))
      ensures NeverShrink(capacities)
    {
      outcomes, capacities := [], [];
      var i := 0;
      while i < |inputs|
        invariant Valid() && i == |outcomes| == |capacities| <= |inputs|
        invariant Answers(outcomes, inputs, readline, capacities, code, symbols, lex, exec)
        invariant forall k | 0 <= k < i :: !Ends(outcomes[k])
        invariant i > 0 ==> capacities[0] == (old(types.capacity), old(values.capacity))
        invariant NeverShrink(capacities)
        invariant i > 0 ==> capacities[i - 1].0 <= types.capacity && capacities[i - 1].1 <= values.capacity
        invariant i == 0 ==> types.capacity == old(types.capacity) && values.capacity == old(values.capacity)
      {
        var before := (types.capacity, values.capacity);
        var outcome := Turn(inputs[i], readline, lex, exec);
        NeverShrinkSnoc(capacities, before);
        AnswersSnoc(outcomes, inputs, readline, capacities, code, symbols, lex, exec, outcome, before);
        outcomes, capacities := outcomes + [outcome], capacities + [before];
        i := i + 1;
        if Ends(outcome) {
          return;
        }
      }
    }
  }

  // ---------------------------------------------------------------------------
  // Properties
  // ---------------------------------------------------------------------------

  /** The words the built-in commands accept. */
  const CommandWords: set<string> := {":quit", ":q", ":help", ":h", ":info", ":list", ":l", ":reload", ":r"}

  /** End of input: the readline build keeps looping, the fgets build leaves the loop. */
  lemma EndOfInputByBuild(capacities: (nat, nat), code: CString, symbols: set<string>,
                          lex: CString -> seq<Token>, exec: Executor)
    ensures Response(None, true, capacities, code, symbols, lex, exec) == Continue
    ensures Ends(Response(None, false, capacities, code, symbols, lex, exec))
  {
  }

  /**
   * A line whose trimmed text starts with ':' is a command and never
   * reaches the lexer: :quit/:q leave the loop, :reload/:r restart it, and
   * anything not exactly one of the command words is unknown.
   */
  lemma CommandLines(line: CString, readline: bool, capacities: (nat, nat), code: CString,
                     symbols: set<string>, lex: CString -> seq<Token>, exec: Executor)
    requires |Trimmed(line)| > 0 && Trimmed(line)[0] == ':'
    ensures var o := Response(Some(line), readline, capacities, code, symbols, lex, exec);
      && (o == Quit <==> Trimmed(line) == ":quit" || Trimmed(line) == ":q")
      && (o == Reload <==> Trimmed(line) == ":reload" || Trimmed(line) == ":r")
      && (o == UnknownCommand <==> Trimmed(line) !in CommandWords)
      && (o == Info(capacities.0, capacities.1) <==> Trimmed(line) == ":info")
      && !o.Called? && !o.NotFound? && !o.NotIdentifier?
    ensures Parsed(Some(line), symbols, lex) == []
  {
  }

  /** A line is blank exactly when it is whitespace only. */
  lemma BlankLines(line: CString, readline: bool, capacities: (nat, nat), code: CString,
                   symbols: set<string>, lex: CString -> seq<Token>, exec: Executor)
    ensures Response(Some(line), readline, capacities, code, symbols, lex, exec) == Blank
      <==> forall k | 0 <= k < |line| :: IsSpace(line[k])
  {
    TrimmedBlank(line);
  }

  /** Commands are compared after trimming: surrounding whitespace and the newline do not matter. */
  lemma PaddedQuit(readline: bool, capacities: (nat, nat), code: CString, symbols: set<string>,
                   lex: CString -> seq<Token>, exec: Executor)
    ensures Response(Some("  :q\n"), readline, capacities, code, symbols, lex, exec) == Quit
  {
    assert TrimStart("  :q\n") == TrimStart(" :q\n") == TrimStart(":q\n") == ":q\n";
    assert TrimEnd(":q\n") == TrimEnd(":q");
  }

  /** Commands are compared exactly: a command word followed by more text is unknown. */
  lemma ExactCommandsOnly(readline: bool, capacities: (nat, nat), code: CString, symbols: set<string>,
                          lex: CString -> seq<Token>, exec: Executor)
    ensures Response(Some(":quit now"), readline, capacities, code, symbols, lex, exec) == UnknownCommand
  {
    assert Trimmed(":quit now") == ":quit now";
  }

  /** Commands are compared case-sensitively. */
  lemma CommandsCaseSensitive(readline: bool, capacities: (nat, nat), code: CString, symbols: set<string>,
                              lex: CString -> seq<Token>, exec: Executor)
    ensures Response(Some(":Q"), readline, capacities, code, symbols, lex, exec) == UnknownCommand
  {
  }

  /**
   * The call path: a function is called exactly when the first token is an
   * identifier whose name, cut to 255 characters, the module resolves,
   * every further token is a supported literal, and the call can be
   * prepared. The call gets one argument per further token, in order, and
   * the detected return type. An unresolved name is reported before any
   * argument is looked at.
   */
  lemma CallPath(tokens: seq<Token>, code: CString, symbols: set<string>, exec: Executor)
    ensures var o := CallResponse(tokens, code, symbols, exec);
      && (o.NotFound? <==> |tokens| > 0 && tokens[0].kind.Identifier? && !Resolves(tokens, symbols))
      && (o.Called? <==>
            Resolves(tokens, symbols) && Supported(tokens[1..])
            && exec.prepares(Detected(ReturnTypeText(code, FunctionName(tokens[0].kind.name), 64)), Tags(Accepted(tokens[1..]))))
    ensures var o := CallResponse(tokens, code, symbols, exec);
      o.Called? ==>
        && o.name == FunctionName(tokens[0].kind.name)
        && o.tag == Detected(ReturnTypeText(code, o.name, 64))
        && |o.args| == |tokens| - 1
        && forall k | 0 <= k < |o.args| :: ArgumentOf(tokens[k + 1]) == Some(o.args[k])
  {
    if |tokens| > 0 {
      var rest := tokens[1..];
      AcceptedInOrder(rest);
      forall k | 0 <= k < |Accepted(rest)|
        ensures ArgumentOf(tokens[k + 1]) == Some(Accepted(rest)[k])
      {
        assert tokens[k + 1] == rest[k];
      }
    }
  }

  /**
   * A call shows what the function returned: an int or int32_t as the
   * value, a long as the value, a char as its signed value (with its glyph
   * exactly when printable), and nothing for void. Only the low bytes the
   * type occupies matter, so a store widened to a whole register shows
   * the same value.
   */
  lemma CalledShowsResult(tokens: seq<Token>, code: CString, symbols: set<string>, exec: Executor, v: int)
    requires CallResponse(tokens, code, symbols, exec).Called?
    ensures var o := CallResponse(tokens, code, symbols, exec);
      var w := exec.writes(o.name, Values(o.args));
      && (o.tag == Void ==> o.shown == Nothing)
      && (((o.tag == SInt || o.tag == SInt32) && -0x8000_0000 <= v < 0x8000_0000
           && |w| >= 4 && w[..4] == LittleEndian(v, 4)) ==> o.shown == IntShown(v))
      && ((o.tag == SLong && -0x8000_0000_0000_0000 <= v < 0x8000_0000_0000_0000
           && |w| >= 8 && w[..8] == LittleEndian(v, 8)) ==> o.shown == LongShown(v))
      && ((o.tag == SChar && |w| >= 1) ==>
            && (o.shown.Printable? <==> ByteIsPrint(w[0]))
            && (o.shown.Printable? ==> o.shown.code == w[0])
            && (!o.shown.Printable? ==> o.shown == NonPrintable(SignedChar(w[0]))))
  {
    var o := CallResponse(tokens, code, symbols, exec);
    var written := exec.writes(o.name, Values(o.args));
    var memory := exec.memory(o.name, Values(o.args));
    if (o.tag == SInt || o.tag == SInt32) && -0x8000_0000 <= v < 0x8000_0000 && |written| >= 4 && written[..4] == LittleEndian(v, 4) {
      assert Stored(written, 4) == written[..4];
      IntShownAsReturned(o.tag, v, memory);
    }
    if o.tag == SLong && -0x8000_0000_0000_0000 <= v < 0x8000_0000_0000_0000 && |written| >= 8 && written[..8] == LittleEndian(v, 8) {
      assert Stored(written, 8) == written[..8];
      LongShownAsReturned(v, memory);
    }
    if o.tag == SChar && |written| >= 1 {
      CharShown(Stored(written, 1), memory);
    }
  }

  /**
   * libffi stores an int result widened to a whole 8-byte register; the
   * call still shows the int.
   */
  lemma CalledShowsWidenedInt(tokens: seq<Token>, code: CString, symbols: set<string>, exec: Executor, v: int)
    requires CallResponse(tokens, code, symbols, exec).Called?
    requires CallResponse(tokens, code, symbols, exec).tag in {SInt, SInt32}
    requires -0x8000_0000 <= v < 0x8000_0000
    requires var o := CallResponse(tokens, code, symbols, exec); exec.writes(o.name, Values(o.args)) == LittleEndian(v, 8)
    ensures CallResponse(tokens, code, symbols, exec).shown == IntShown(v)
  {
    LittleEndianPrefix(v, 4, 4);
    CalledShowsResult(tokens, code, symbols, exec, v);
  }
}
