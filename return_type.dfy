/**
 * Return-type autodetection (malcrepl.c:524-658): a text heuristic that
 * finds the first `name(` in the compiled source, takes the words in front
 * of it up to the previous line break, ';', '{' or '}', and maps them to a
 * libffi type.
 */
module ReturnType {
  import opened Wrappers
  import opened CText
  import opened FfiTypes
  import opened StringView

  /** The characters that end a declaration when walking backwards. */
  predicate IsDelimiter(c: char) {
    c == '\n' || c == ';' || c == '}' || c == '{'
  }

  /** The character at k, or the NUL just past the end. */
  function At(code: string, k: nat): char {
    if k < |code| then code[k] else '\0'
  }

  // ---------------------------------------------------------------------------
  // find_return_type_start
  // ---------------------------------------------------------------------------

  /**
   * The position just after the last delimiter at or before funcPos, or 0
   * when there is none.
   */
  function DeclarationStart(code: string, funcPos: nat): (start: nat)
    ensures start <= funcPos + 1
    ensures start == 0 || IsDelimiter(At(code, start - 1))
    ensures forall k: nat | start <= k <= funcPos :: !IsDelimiter(At(code, k))
  {
    if IsDelimiter(At(code, funcPos)) then funcPos + 1
    else if funcPos == 0 then 0
    else DeclarationStart(code, funcPos - 1)
  }

  /** find_return_type_start (malcrepl.c:528-542): walk back to a delimiter, then step past it. */
  method FindReturnTypeStart(code: CString, funcPos: nat) returns (start: nat)
    requires funcPos <= |code|
    ensures start == DeclarationStart(code, funcPos)
  {
    var p: nat := funcPos;
    while p > 0 && !IsDelimiter(At(code, p))
      invariant p <= funcPos && DeclarationStart(code, p) == DeclarationStart(code, funcPos)
    {
      p := p - 1;
    }
    if p > 0 || IsDelimiter(At(code, p)) {
      p := p + 1;
    }
    start := p;
  }

  // ---------------------------------------------------------------------------
  // extract_return_type
  // ---------------------------------------------------------------------------

  /** `snprintf(pattern, 256, "%s(", name)`: at most 255 characters are kept. */
  function Pattern(name: CString): (r: CString)
    ensures |r| <= 255
    ensures |name| < 255 ==> r == name + "("
    ensures r == (name + "(")[..|r|]
  {
    var full := name + "(";
    if |full| <= 255 then full else full[..255]
  }

  /** The first loop: back over whitespace, stopping at index 0. */
  function SpaceBack(code: string, p: nat): (q: nat)
    requires p < |code|
    ensures q <= p && (q == 0 || !IsSpace(code[q]))
    ensures forall k | q < k <= p :: IsSpace(code[k])
  {
    if p > 0 && IsSpace(code[p]) then SpaceBack(code, p - 1) else p
  }

  /**
   * The second loop: back to just after a delimiter. Index 0 itself is
   * never examined, so a delimiter there is kept.
   */
  function DelimiterBack(code: string, p: nat): (q: nat)
    requires p < |code|
    ensures q <= p + 1 && (q > 0 ==> IsDelimiter(code[q - 1]))
    ensures forall k | q <= k <= p && 0 < k :: !IsDelimiter(code[k])
  {
    if p == 0 then 0
    else if IsDelimiter(code[p]) then p + 1
    else DelimiterBack(code, p - 1)
  }

  /** The third loop: forward over whitespace, up to end. */
  function SpaceForward(code: string, p: nat, end: nat): (q: nat)
    requires p <= end <= |code|
    ensures p <= q <= end && (q < end ==> !IsSpace(code[q]))
    ensures forall k | p <= k < q :: IsSpace(code[k])
    decreases end - p
  {
    if p < end && IsSpace(code[p]) then SpaceForward(code, p + 1, end) else p
  }

  /**
   * What extract_return_type leaves in its buffer when it returns true;
   * None when it returns false. A name found at offset 0 has nothing in
   * front of it: the C code reads code[-1] there, and the model fails.
   */
  function ReturnTypeText(code: CString, name: CString, size: nat): Option<CString> {
    if size == 0 then None
    else match Strstr(code, Pattern(name))
      case None => None
      case Some(at) => if at == 0 then None else TextBefore(code, at, size)
  }

  /** The text the three scans pick out in front of the match at `at`. */
  function TextBefore(code: CString, at: nat, size: nat): Option<CString>
    requires 0 < at <= |code|
  {
    var last := SpaceBack(code, at - 1);
    var start := SpaceForward(code, DelimiterBack(code, last), last + 1);
    if start == last + 1 || last + 1 - start >= size then None
    else Some(Substring(code, start, last + 1))
  }

  /**
   * extract_return_type (malcrepl.c:544-602). The final loop that trims
   * trailing whitespace from the buffer never finds any: the copied text
   * always ends at a character the first loop stopped on because it is not
   * whitespace (ExtractedShape).
   */
  method ExtractReturnType(code: CString, name: CString, size: nat) returns (r: Option<CString>)
    ensures r == ReturnTypeText(code, name, size)
  {
    if size == 0 {
      return None;
    }
    var found := Strstr(code, Pattern(name));
    if found.None? || found.value == 0 {
      return None;
    }
    r := ExtractBefore(code, found.value, size);
  }

  /** The scans of extract_return_type once `name(` was found at `at`. */
  method ExtractBefore(code: CString, at: nat, size: nat) returns (r: Option<CString>)
    requires 0 < at <= |code|
    ensures r == TextBefore(code, at, size)
  {
    var last := SkipSpaceBack(code, at - 1);
    var retEnd := last + 1;
    var back := FindDelimiterBack(code, last);
    var p := SkipSpaceForward(code, back, retEnd);
    var len := retEnd - p;
    if len == 0 || len >= size {
      return None;
    }
    r := Some(Substring(code, p, retEnd));
  }

  /** `while (p > code && isspace(*p)) p--;` */
  method SkipSpaceBack(code: CString, p0: nat) returns (p: nat)
    requires p0 < |code|
    ensures p == SpaceBack(code, p0)
  {
    p := p0;
    while p > 0 && IsSpace(code[p])
      invariant p <= p0 && SpaceBack(code, p0) == SpaceBack(code, p)
    {
      p := p - 1;
    }
  }

  /** The loop back to a delimiter, stepping past it when one is found. */
  method FindDelimiterBack(code: CString, p0: nat) returns (p: nat)
    requires p0 < |code|
    ensures p == DelimiterBack(code, p0)
  {
    p := p0;
    while p > 0
      invariant p <= p0 && DelimiterBack(code, p0) == DelimiterBack(code, p)
    {
      if IsDelimiter(code[p]) {
        p := p + 1;
        return;
      }
      p := p - 1;
    }
  }

  /** `while (p < ret_end && isspace(*p)) p++;` */
  method SkipSpaceForward(code: CString, p0: nat, end: nat) returns (p: nat)
    requires p0 <= end <= |code|
    ensures p == SpaceForward(code, p0, end)
  {
    p := p0;
    while p < end && IsSpace(code[p])
      invariant p0 <= p <= end && SpaceForward(code, p0, end) == SpaceForward(code, p, end)
    {
      p := p + 1;
    }
  }

  /**
   * When extraction succeeds the text is non-empty, shorter than the
   * buffer, starts and ends with a non-whitespace character and has no
   * delimiter after its first character.
   */
  lemma ExtractedShape(code: CString, name: CString, size: nat)
    requires ReturnTypeText(code, name, size).Some?
    ensures var t := ReturnTypeText(code, name, size).value;
      0 < |t| < size && !IsSpace(t[0]) && !IsSpace(t[|t| - 1])
      && forall k | 0 < k < |t| :: !IsDelimiter(t[k])
  {
    var at := Strstr(code, Pattern(name)).value;
    TextBeforeShape(code, at, size, ReturnTypeText(code, name, size).value);
  }

  /** The text found in front of a match at `at` is a non-empty, trimmed run without delimiters. */
  lemma TextBeforeShape(code: CString, at: nat, size: nat, t: string)
    requires 0 < at <= |code| && TextBefore(code, at, size) == Some(t)
    ensures 0 < |t| < size && !IsSpace(t[0]) && !IsSpace(t[|t| - 1])
    ensures forall k | 0 < k < |t| :: !IsDelimiter(t[k])
  {
    var last := SpaceBack(code, at - 1);
    var start := SpaceForward(code, DelimiterBack(code, last), last + 1);
    SpanShape(code, last);
    assert t == Substring(code, start, last + 1);
    assert t[0] == code[start] && t[|t| - 1] == code[last];
    forall k | 0 < k < |t|
      ensures !IsDelimiter(t[k])
    {
      assert t[k] == code[start + k];
    }
  }

  /**
   * The text found in front of a match at `at` ends where the whitespace
   * before `at` begins: it is the part of the source that ends at e, and
   * between e and `at` there is only whitespace.
   */
  lemma TextBeforePlace(code: CString, at: nat, size: nat)
    requires 0 < at <= |code| && TextBefore(code, at, size).Some?
    ensures var t := TextBefore(code, at, size).value;
      var e := SpaceBack(code, at - 1) + 1;
      |t| <= e <= at && (forall k | 0 <= k < |t| :: t[k] == code[e - |t| + k])
      && forall k | e <= k < at :: IsSpace(code[k])
  {
  }

  /** The span the three scans pick out before `last`, when it is not empty. */
  lemma SpanShape(code: CString, last: nat)
    requires last < |code| && (last == 0 || !IsSpace(code[last]))
    ensures var start := SpaceForward(code, DelimiterBack(code, last), last + 1);
      start <= last ==>
        !IsSpace(code[start]) && !IsSpace(code[last]) && forall k | start < k <= last :: !IsDelimiter(code[k])
  {
  }

  /**
   * A name whose nearest non-blank predecessor is ';', '{' or '}' (past
   * the first character of the source) has no return type text: the
   * extraction fails. A line break is whitespace to the first backward
   * scan, so it does not end the text this way.
   */
  lemma NameAfterDelimiterFails(code: CString, name: CString, size: nat, d: nat)
    requires Strstr(code, Pattern(name)).Some?
    requires 0 < d < Strstr(code, Pattern(name)).value
    requires code[d] == ';' || code[d] == '{' || code[d] == '}'
    requires forall k | d < k < Strstr(code, Pattern(name)).value :: IsSpace(code[k])
    ensures ReturnTypeText(code, name, size).None?
  {
    var at := Strstr(code, Pattern(name)).value;
    assert SpaceBack(code, at - 1) == d by {
      SpaceBackOverBlanks(code, d, at - 1);
    }
  }

  lemma {:induction false} SpaceBackOverBlanks(code: string, d: nat, p: nat)
    requires d <= p < |code| && !IsSpace(code[d])
    requires forall k | d < k <= p :: IsSpace(code[k])
    ensures SpaceBack(code, p) == d
    decreases p
  {
    if p > d {
      SpaceBackOverBlanks(code, d, p - 1);
    }
  }

  // ---------------------------------------------------------------------------
  // detect_return_type
  // ---------------------------------------------------------------------------

  /** The checks of detect_return_type, in their order, on trimmed text. */
  function Classified(rt: string): TypeTag {
    if rt == "void" then Void
    else if '*' in rt then Pointer
    else if rt == "char" then SChar
    else if rt == "int" || rt == "short"
      || (|rt| >= 6 && rt[..6] == "signed") || (|rt| >= 8 && rt[..8] == "unsigned") then SInt
    else if rt == "long" then SLong
    else if rt == "float" then Float
    else if rt == "double" then Double
    else SInt
  }

  /** The tag for the extraction result: the int default when it failed. */
  function Detected(extracted: Option<CString>): TypeTag {
    if extracted.None? then SInt else Classified(Trimmed(extracted.value))
  }

  /**
   * detect_return_type (malcrepl.c:604-658): extract into a 64-character
   * buffer, trim, and compare.
   */
  method DetectReturnType(name: CString, code: CString) returns (tag: TypeTag)
    ensures tag == Detected(ReturnTypeText(code, name, 64))
  {
    var extracted := ExtractReturnType(code, name, 64);
    if extracted.None? {
      return SInt;
    }
    var rt := Trim(FromCString(extracted.value));
    tag := Classify(rt.base[rt.offset..rt.offset + rt.count]);
  }

  /** The comparisons of detect_return_type on the trimmed view, in order. */
  method Classify(text: string) returns (tag: TypeTag)
    ensures tag == Classified(text)
  {
    if text == "void" {
      return Void;
    }
    for i := 0 to |text|
      invariant forall k | 0 <= k < i :: text[k] != '*'
    {
      if text[i] == '*' {
        return Pointer;
      }
    }
    if text == "char" {
      tag := SChar;
    } else if text == "int" || text == "short"
      || (|text| >= 6 && text[..6] == "signed") || (|text| >= 8 && text[..8] == "unsigned") {
      tag := SInt;
    } else if text == "long" {
      tag := SLong;
    } else if text == "float" {
      tag := Float;
    } else if text == "double" {
      tag := Double;
    } else {
      tag := SInt;
    }
  }

  /** The extracted text is already trimmed, so detection classifies it as it is. */
  lemma DetectedText(code: CString, name: CString)
    requires ReturnTypeText(code, name, 64).Some?
    ensures Detected(ReturnTypeText(code, name, 64)) == Classified(ReturnTypeText(code, name, 64).value)
  {
    var t := ReturnTypeText(code, name, 64).value;
    ExtractedShape(code, name, 64);
    assert TrimStart(t) == t;
    assert TrimEnd(t) == t;
  }

  /** Any text other than "void" is classified as a pointer exactly when it contains '*'. */
  lemma PointerExactlyWithStar(rt: string)
    requires rt != "void"
    ensures Classified(rt) == Pointer <==> '*' in rt
  {
  }

  /** Storage-class words and two-word types fall to the int default. */
  lemma ClassifiedWords()
    ensures Classified("static int") == SInt
    ensures Classified("long long") == SInt
    ensures Classified("unsigned long") == SInt
  {
    assert "static int"[..6][1] != "signed"[1];
    assert "long long"[..6][0] != "signed"[0] && "long long"[..8][0] != "unsigned"[0];
    assert "unsigned long"[..8] == "unsigned";
  }

  /** '*' wins over every word but "void"; single words map to their type. */
  lemma ClassifiedPointers()
    ensures Classified("char*") == Pointer && Classified("void *") == Pointer
    ensures Classified("double") == Double && Classified("long") == SLong
  {
    assert "char*"[4] == '*';
    assert "void *"[5] == '*';
    assert "double"[..6][0] != "signed"[0];
    assert "long" == ['l', 'o', 'n', 'g'];
    assert "double" == ['d', 'o', 'u', 'b', 'l', 'e'];
  }
}
