/** The ZapScript symbol set, the character classes used by every scanner,
    the reserved command names, and the closed set of errors the parser
    can report. */
module Symbols {

  /** The end-of-input sentinel. It is code point 0, so a literal NUL in
      the input is indistinguishable from the end for every caller that
      compares a read character against it. */
  const EOF: char := '\0'

  const CmdStart: char := '*'
  const CmdSep: char := '|'
  const EscapeSeq: char := '^'
  const ArgStart: char := ':'
  const ArgSep: char := ','
  const ArgDoubleQuote: char := '"'
  const ArgSingleQuote: char := '\''
  const AdvArgStart: char := '?'
  const AdvArgSep: char := '&'
  const AdvArgEq: char := '='
  const JSONStart: char := '{'
  const JSONEnd: char := '}'
  const JSONEscapeSeq: char := '\\'
  const JSONString: char := '"'
  const InputMacroEscapeSeq: char := '\\'
  const InputMacroExtStart: char := '{'
  const InputMacroExtEnd: char := '}'
  const ExpressionStart: char := '['
  const ExpressionEnd: char := ']'
  const MediaTitleStart: char := '@'
  const MediaTitleSep: char := '/'
  const TraitsStart: char := '#'
  const ArrayStart: char := '['
  const ArrayEnd: char := ']'
  const ArraySep: char := ','

  /** Private-use code points that delimit a tokenised expression body. */
  const TokExprStart: char := '\U{E000}'
  const TokExprEnd: char := '\U{E001}'

  /** Reserved command names. */
  const CmdLaunch: string := "launch"
  const CmdLaunchTitle: string := "launch.title"
  const CmdInputKeyboard: string := "input.keyboard"
  const CmdInputGamepad: string := "input.gamepad"
  const CmdTraits: string := "traits"

  /** The error set. `InvalidCmdName` and `InvalidAdvArgName` are the
      internal fallback signals; `InvalidUnreadRune` is the pushback
      failure of the underlying reader; `EvalFailed` stands for any error
      raised by the external expression engine. */
  datatype Error =
    | UnexpectedEOF
    | InvalidCmdName
    | InvalidAdvArgName
    | EmptyCmdName
    | EmptyZapScript
    | UnmatchedQuote
    | InvalidJSON
    | UnmatchedInputMacroExt
    | UnmatchedExpression
    | BadExpressionReturn
    | UnmatchedArrayBracket
    | InvalidUnreadRune
    | EvalFailed

  /** A value or an error. */
  datatype Result<+T> = Success(value: T) | Failure(error: Error)

  /** A value or nothing. */
  datatype Option<+T> = None | Some(value: T)

  predicate IsAsciiLetter(ch: char) {
    ('a' <= ch <= 'z') || ('A' <= ch <= 'Z')
  }

  predicate IsAsciiDigit(ch: char) {
    '0' <= ch <= '9'
  }

  predicate IsCmdName(ch: char) {
    IsAsciiLetter(ch) || IsAsciiDigit(ch) || ch == '.'
  }

  predicate IsAdvArgName(ch: char) {
    IsAsciiLetter(ch) || IsAsciiDigit(ch) || ch == '_'
  }

  /** The first character of a trait key. */
  predicate IsAdvArgNameStart(ch: char) {
    IsAsciiLetter(ch)
  }

  predicate IsWhitespace(ch: char) {
    ch == ' ' || ch == '\t' || ch == '\n' || ch == '\r'
  }

  function IsInputMacroCmd(name: string): (r: bool)
    ensures r ==> |name| > 0 && name[0] == 'i'
  {
    name == CmdInputKeyboard || name == CmdInputGamepad
  }

  /** The two name alphabets agree everywhere except on '.' and '_':
      '.' is legal only in command names and '_' only in argument keys. */
  lemma {:induction false} NameClassesDiffer(ch: char)
    ensures IsCmdName('.') && !IsAdvArgName('.')
    ensures IsAdvArgName('_') && !IsCmdName('_')
    ensures ch != '.' && ch != '_' ==> (IsCmdName(ch) <==> IsAdvArgName(ch))
    ensures IsAdvArgNameStart(ch) ==> IsAdvArgName(ch) && IsCmdName(ch)
  {
  }

  /** Only the four ASCII blanks are whitespace to the scanner; form feed,
      vertical tab and no-break space are ordinary content. */
  lemma {:induction false} WhitespaceIsNarrow()
    ensures !IsWhitespace('\U{C}') && !IsWhitespace('\U{B}') && !IsWhitespace('\U{A0}')
    ensures forall ch :: IsWhitespace(ch) ==> ch as int < 0x21
  {
  }

  /** The expression markers are distinct from each other, from the end
      sentinel, and from every symbol the scanners react to. */
  lemma {:induction false} MarkersAreReserved()
    ensures TokExprStart != TokExprEnd
    ensures TokExprStart != EOF && TokExprEnd != EOF
    ensures TokExprStart as int == 0xE000 && TokExprEnd as int == 0xE001
    ensures !IsWhitespace(TokExprStart) && !IsCmdName(TokExprStart) && !IsAdvArgName(TokExprStart)
  {
  }

  lemma {:induction false} InputMacroCmds(name: string)
    ensures IsInputMacroCmd(name) <==> name in {"input.keyboard", "input.gamepad"}
    ensures !IsInputMacroCmd(CmdLaunch) && !IsInputMacroCmd("INPUT.KEYBOARD")
  {
  }
}
