/**
 * The tokens of stb_c_lexer.h, whose code is not part of this model. A
 * token carries what the REPL reads from `stb_lexer` after
 * `stb_c_lexer_get_token`: its kind with `string` or `int_number`, and the
 * text from `where_firstchar` to the end of the line, which the suffix
 * scans of parse_arguments walk over.
 */
module Tokens {
  import opened CText
  import opened FfiTypes

  datatype Kind =
    | Identifier(name: CString)          // CLEX_id, name in `string`
    | IntLit(number: Long)               // CLEX_intlit, value in `int_number`
    | FloatLit                           // CLEX_floatlit; `real_number` is not modelled
    | DqString(text: CString)            // CLEX_dqstring, "..." contents in `string`
    | SqString(text: CString)            // CLEX_sqstring, '...' contents in `string`
    | CharLit(number: Long)              // CLEX_charlit, character code in `int_number`
    | Other(code: int)                   // any other token, parse errors included

  datatype Token = Token(kind: Kind, source: CString)
}
