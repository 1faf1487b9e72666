/** The trait shorthand `#key=value #flag #list=[a,b]`: keys, boolean
    flags, quoted, unquoted and array values with inferred types, and the
    silent fallback that hands a malformed segment back as launch text.
    The scanner starts just after the '#'. */
module Traits {
  import opened Symbols
  import opened GoStrings
  import opened Reader

  /** A trait value. `TFloat` holds the text that the float parser
      accepted; its numeric value is left to that parser. */
  datatype TraitValue =
    | TStr(s: string)
    | TBool(b: bool)
    | TInt(i: int)
    | TFloat(text: string)
    | TArray(elems: seq<TraitValue>)

  /** Whether `strconv.ParseFloat(s, 64)` accepts `s`. */
  type FloatOk = string -> bool

  /** The type of a value: quoted text stays text; otherwise the exact
      words "true" and "false" are booleans, then a 64-bit decimal
      integer, then a float, and anything else is text. */
  function InferType(value: string, quoted: bool, floatOk: FloatOk): (v: TraitValue)
    ensures quoted ==> v == TStr(value)
    ensures !v.TArray?
  {
    if quoted then TStr(value)
    else if value == "" then TStr("")
    else if value == "true" then TBool(true)
    else if value == "false" then TBool(false)
    else if ParseInt64(value).Some? then TInt(ParseInt64(value).value)
    else if floatOk(value) then TFloat(value)
    else TStr(value)
  }

  // ---- consuming the rest of a command ----

  datatype Consumed = Consumed(text: string, cur: Cur)

  datatype ConsumeMove = ConsumeMore(cur: Cur, ch: char) | ConsumeDone(cur: Cur)

  function ConsumeStep(c: Cur): (m: ConsumeMove)
    ensures m.ConsumeMore? ==> c.pos < |c.text| && m.cur == Cursor(c.text, c.pos + 1, m.cur.canUnread) && m.ch == c.text[c.pos]
    ensures m.ConsumeDone? ==> m.cur.text == c.text && c.pos <= m.cur.pos
  {
    var s := Read(c);
    if s.ch == EOF then ConsumeDone(s.cur)
    else
      var eoc := CheckEndOfCmd(s.ch, s.cur);
      if eoc.isEnd then ConsumeDone(eoc.cur)
      else ConsumeMore(eoc.cur, s.ch)
  }

  /** Reads up to the end of the input or of the command; the terminator
      is consumed but not returned, so the text is a verbatim slice of the
      input. */
  function ConsumeToEndOfCmd(c: Cur): (r: Consumed)
    ensures r.cur.text == c.text && c.pos + |r.text| <= r.cur.pos
    ensures r.text == c.text[c.pos..c.pos + |r.text|]
    decreases |c.text| - c.pos
  {
    match ConsumeStep(c)
    case ConsumeDone(cur) => Consumed("", cur)
    case ConsumeMore(next, ch) =>
      var r := ConsumeToEndOfCmd(next);
      assert [ch] + r.text == c.text[c.pos..c.pos + 1 + |r.text|] by {
        SliceCons(c.text, c.pos, c.pos + 1 + |r.text|, []);
      }
      Consumed([ch] + r.text, r.cur)
  }

  // ---- values ----

  /** A value, the raw text it was read from, and the cursor after it. */
  datatype ValueRead = ValueRead(value: TraitValue, raw: string, cur: Cur)

  /** The decoded text of a value before typing, its raw text, and the
      cursor after it. */
  datatype TextRead = TextRead(val: string, raw: string, cur: Cur)

  datatype TextMove = TextMore(cur: Cur, raw: string, val: string) | TextDone(result: Result<TextRead>)

  /** After a '^': the decoded character goes to the value and the
      original one to the raw text; at the end the '^' itself is kept. */
  function Unescape(c: Cur, raw: string, val: string): (m: TextMove)
    ensures m.TextMore? && m.cur.text == c.text
    ensures m.cur.pos == if c.pos < |c.text| then c.pos + 1 else c.pos
  {
    var next := Peek(c).ch;
    var e := ParseEscapeSeq(c);
    if e.text == [] then TextMore(e.cur, raw, val + [EscapeSeq])
    else TextMore(e.cur, raw + [next], val + e.text)
  }

  /** One character of a quoted value; the opening quote is already read. */
  function QuotedStep(c: Cur, quote: char, raw: string, val: string): (m: TextMove)
    ensures m.TextMore? ==> m.cur.text == c.text && c.pos < m.cur.pos
    ensures m.TextDone? && m.result.Success? ==> m.result.value.cur.text == c.text && c.pos < m.result.value.cur.pos
  {
    var s := Read(c);
    if s.ch == EOF then TextDone(Failure(UnmatchedQuote))
    else if s.ch == EscapeSeq then Unescape(s.cur, raw + [s.ch], val)
    else if s.ch == quote then TextDone(Success(TextRead(val, raw + [s.ch], s.cur)))
    else TextMore(s.cur, raw + [s.ch], val + [s.ch])
  }

  function QuotedFrom(c: Cur, quote: char, raw: string, val: string): (r: Result<TextRead>)
    ensures r.Success? ==> r.value.cur.text == c.text && c.pos < r.value.cur.pos
    ensures r.Failure? ==> r.error == UnmatchedQuote
    decreases |c.text| - c.pos
  {
    match QuotedStep(c, quote, raw, val)
    case TextMore(next, raw', val') => QuotedFrom(next, quote, raw', val')
    case TextDone(r) => r
  }

  /** Where an unquoted value ends: at the end, at whitespace, and at '|'
      or '#' for a trait value, at ',' or ']' for an array element. */
  predicate StopsUnquoted(ch: char, inArray: bool) {
    ch == EOF || IsWhitespace(ch) || (if inArray then ch == ArraySep || ch == ArrayEnd else ch == CmdSep || ch == TraitsStart)
  }

  function UnquotedStep(c: Cur, inArray: bool, raw: string, val: string): (m: TextMove)
    ensures m.TextMore? ==> m.cur.text == c.text && c.pos < m.cur.pos
    ensures m.TextDone? ==> m.result.Success? && m.result.value.cur.text == c.text && m.result.value.cur.pos == c.pos
  {
    var p := Peek(c);
    if StopsUnquoted(p.ch, inArray) then TextDone(Success(TextRead(val, raw, p.cur)))
    else
      var s := Read(p.cur);
      if s.ch == EscapeSeq then Unescape(s.cur, raw + [s.ch], val)
      else TextMore(s.cur, raw + [s.ch], val + [s.ch])
  }

  /** The text of an unquoted value, up to the first stop character. */
  function UnquotedFrom(c: Cur, inArray: bool, raw: string, val: string): (r: TextRead)
    ensures r.cur.text == c.text && c.pos <= r.cur.pos
    decreases |c.text| - c.pos
  {
    match UnquotedStep(c, inArray, raw, val)
    case TextMore(next, raw', val') => UnquotedFrom(next, inArray, raw', val')
    case TextDone(r) => r.value
  }

  function IsQuote(ch: char): bool {
    ch == ArgDoubleQuote || ch == ArgSingleQuote
  }

  /** A quoted value: always a string. */
  function QuotedValue(c: Cur): (r: Result<ValueRead>)
    requires c.pos < |c.text| && IsQuote(c.text[c.pos])
    ensures r.Success? ==> r.value.cur.text == c.text && c.pos < r.value.cur.pos && r.value.value.TStr?
    ensures r.Failure? ==> r.error == UnmatchedQuote
  {
    var s := Read(c);
    var q := QuotedFrom(s.cur, s.ch, [s.ch], "");
    if q.Failure? then Failure(q.error)
    else Success(ValueRead(TStr(q.value.val), q.value.raw, q.value.cur))
  }

  /** A value after '=': quoted, an array, or unquoted. */
  function ParseTraitValue(c: Cur, floatOk: FloatOk): (r: Result<ValueRead>)
    ensures r.Success? ==> r.value.cur.text == c.text && c.pos <= r.value.cur.pos
    ensures r.Failure? ==> r.error == UnmatchedQuote || r.error == UnmatchedArrayBracket
    ensures !AtEnd(c) && IsQuote(c.text[c.pos]) && r.Success? ==> r.value.value.TStr?
    ensures AtEnd(c) || (!IsQuote(c.text[c.pos]) && c.text[c.pos] != ArrayStart) ==> r.Success? && !r.value.value.TArray?
  {
    var first := Peek(c);
    if IsQuote(first.ch) then QuotedValue(first.cur)
    else if first.ch == ArrayStart then ParseTraitArray(first.cur, floatOk)
    else
      var t := UnquotedFrom(first.cur, false, "", "");
      Success(ValueRead(InferType(t.val, false, floatOk), t.raw, t.cur))
  }

  // ---- arrays ----

  datatype Skipped = Skipped(cur: Cur, raw: string)

  /** Skips whitespace, copying it to the raw text. */
  function SkipBlanks(c: Cur, raw: string): (r: Skipped)
    ensures r.cur.text == c.text && c.pos <= r.cur.pos
    decreases |c.text| - c.pos
  {
    var p := Peek(c);
    if !IsWhitespace(p.ch) then Skipped(p.cur, raw)
    else
      var s := Read(p.cur);
      SkipBlanks(s.cur, raw + [s.ch])
  }

  /** One array element: a quoted string, or unquoted text that is trimmed
      and typed. */
  function ParseArrayElement(c: Cur, floatOk: FloatOk): (r: Result<ValueRead>)
    ensures r.Success? ==> r.value.cur.text == c.text && c.pos <= r.value.cur.pos && !r.value.value.TArray?
    ensures r.Failure? ==> r.error == UnmatchedQuote
  {
    var first := Peek(c);
    if IsQuote(first.ch) then QuotedValue(first.cur)
    else
      var t := UnquotedFrom(first.cur, true, "", "");
      Success(ValueRead(InferType(TrimSpace(t.val), false, floatOk), t.raw, t.cur))
  }

  /** No element is itself an array. */
  predicate Flat(elems: seq<TraitValue>) {
    forall i :: 0 <= i < |elems| ==> !elems[i].TArray?
  }

  /** The array loop, at the start of an element or of the closing
      bracket; a trailing ',' before ']' is allowed. */
  function ArrayFrom(c: Cur, elems: seq<TraitValue>, raw: string, floatOk: FloatOk): (r: Result<ValueRead>)
    ensures r.Success? ==> r.value.cur.text == c.text && c.pos < r.value.cur.pos && r.value.value.TArray?
    ensures r.Failure? ==> r.error == UnmatchedQuote || r.error == UnmatchedArrayBracket
    decreases |c.text| - c.pos, 1
  {
    var b := SkipBlanks(c, raw);
    var p := Peek(b.cur);
    if p.ch == EOF then Failure(UnmatchedArrayBracket)
    else if p.ch == ArrayEnd then
      var s := Read(p.cur);
      Success(ValueRead(TArray(elems), b.raw + [s.ch], s.cur))
    else
      var e := ParseArrayElement(p.cur, floatOk);
      if e.Failure? then Failure(e.error)
      else AfterElement(e.value.cur, elems + [e.value.value], b.raw + e.value.raw, floatOk)
  }

  /** After an element: ']' closes the array, ',' leads to the next
      element, and anything else is an unmatched bracket. */
  function AfterElement(c: Cur, elems: seq<TraitValue>, raw: string, floatOk: FloatOk): (r: Result<ValueRead>)
    ensures r.Success? ==> r.value.cur.text == c.text && c.pos < r.value.cur.pos && r.value.value.TArray?
    ensures r.Failure? ==> r.error == UnmatchedQuote || r.error == UnmatchedArrayBracket
    decreases |c.text| - c.pos, 0
  {
    var a := SkipBlanks(c, raw);
    var q := Peek(a.cur);
    if q.ch == EOF then Failure(UnmatchedArrayBracket)
    else if q.ch == ArrayEnd then
      var s := Read(q.cur);
      Success(ValueRead(TArray(elems), a.raw + [s.ch], s.cur))
    else if q.ch == ArraySep then
      var s := Read(q.cur);
      ArrayFrom(s.cur, elems, a.raw + [s.ch], floatOk)
    else Failure(UnmatchedArrayBracket)
  }

  /** An array value; the cursor is on the '['. Elements are never
      arrays themselves. */
  function ParseTraitArray(c: Cur, floatOk: FloatOk): (r: Result<ValueRead>)
    requires c.pos < |c.text| && c.text[c.pos] == ArrayStart
    ensures r.Success? ==> r.value.cur.text == c.text && c.pos < r.value.cur.pos && r.value.value.TArray?
    ensures r.Failure? ==> r.error == UnmatchedQuote || r.error == UnmatchedArrayBracket
  {
    var s := Read(c);
    ArrayFrom(s.cur, [], [s.ch], floatOk)
  }

  // ---- the trait loop ----

  /** The outcome: the traits read, and for a malformed segment the text
      to launch instead, the offending key and the flag that says so. */
  datatype TraitsResult = TraitsResult(traits: map<string, TraitValue>, fallback: string, invalidKeyName: string, invalidKey: bool)

  datatype TraitsRead = TraitsRead(result: TraitsResult, cur: Cur)

  /** A stored key: a lower-case ASCII letter followed by key characters,
      none of them upper case. */
  predicate TraitKey(k: string) {
    && |k| > 0 && 'a' <= k[0] <= 'z'
    && forall i :: 0 <= i < |k| ==> IsAdvArgName(k[i]) && !('A' <= k[i] <= 'Z')
  }

  predicate TraitKeys(traits: map<string, TraitValue>) {
    forall k :: k in traits ==> TraitKey(k)
  }

  datatype KeyRead = KeyRead(cur: Cur, key: string, fb: string)

  /** Reads the rest of a key, lower-casing it and copying the original
      characters to the fallback text. */
  function KeyFrom(c: Cur, key: string, fb: string): (r: KeyRead)
    ensures r.cur.text == c.text && c.pos <= r.cur.pos
    decreases |c.text| - c.pos
  {
    var p := Peek(c);
    if p.ch == EOF || !IsAdvArgName(p.ch) then KeyRead(p.cur, key, fb)
    else
      var s := Read(p.cur);
      KeyFrom(s.cur, key + ToLowerAscii([s.ch]), fb + [s.ch])
  }

  function Done(traits: map<string, TraitValue>, c: Cur): TraitsRead {
    TraitsRead(TraitsResult(traits, "", "", false), c)
  }

  /** Just after a '#' (or at the start): a key and its value, or the end
      of the input. */
  function TraitsFrom(c: Cur, traits: map<string, TraitValue>, fb: string, floatOk: FloatOk): (r: Result<TraitsRead>)
    ensures r.Success? ==> r.value.cur.text == c.text && c.pos <= r.value.cur.pos
    ensures r.Failure? ==> r.error == UnmatchedQuote || r.error == UnmatchedArrayBracket
    decreases |c.text| - c.pos, 2
  {
    var s := Read(c);
    if s.ch == EOF then Success(Done(traits, s.cur))
    else if !IsAdvArgNameStart(s.ch) then
      var rest := ConsumeToEndOfCmd(s.cur);
      var text := fb + [s.ch] + rest.text;
      Success(TraitsRead(TraitsResult(traits, text, text, true), rest.cur))
    else
      var k := KeyFrom(s.cur, ToLowerAscii([s.ch]), fb + [s.ch]);
      TraitEntry(k, traits, floatOk)
  }

  /** After a key: '=' and a value, a boolean flag, or a character that
      makes the segment malformed. */
  function TraitEntry(k: KeyRead, traits: map<string, TraitValue>, floatOk: FloatOk): (r: Result<TraitsRead>)
    ensures r.Success? ==> r.value.cur.text == k.cur.text && k.cur.pos <= r.value.cur.pos
    ensures r.Failure? ==> r.error == UnmatchedQuote || r.error == UnmatchedArrayBracket
    decreases |k.cur.text| - k.cur.pos, 1
  {
    var next := Peek(k.cur);
    if next.ch == AdvArgEq then
      var eq := Read(next.cur);
      var v := ParseTraitValue(eq.cur, floatOk);
      if v.Failure? then Failure(v.error)
      else AfterTrait(v.value.cur, traits[k.key := v.value.value], k.fb + [eq.ch] + v.value.raw, floatOk)
    else if next.ch == EOF || next.ch == CmdSep || next.ch == TraitsStart || IsWhitespace(next.ch) then
      AfterTrait(next.cur, traits[k.key := TBool(true)], k.fb, floatOk)
    else
      var rest := ConsumeToEndOfCmd(next.cur);
      Success(TraitsRead(TraitsResult(traits, k.fb + rest.text, k.key, true), rest.cur))
  }

  /** After a value: whitespace and single '|' are skipped, '#' starts the
      next trait, and the end of the input or of the command, or any other
      character, ends the scan. */
  function AfterTrait(c: Cur, traits: map<string, TraitValue>, fb: string, floatOk: FloatOk): (r: Result<TraitsRead>)
    ensures r.Success? ==> r.value.cur.text == c.text && c.pos <= r.value.cur.pos
    ensures r.Failure? ==> r.error == UnmatchedQuote || r.error == UnmatchedArrayBracket
    decreases |c.text| - c.pos, 0
  {
    var p := Peek(c);
    if p.ch == EOF then Success(Done(traits, p.cur))
    else if p.ch == CmdSep then
      var s := Read(p.cur);
      var eoc := CheckEndOfCmd(s.ch, s.cur);
      if eoc.isEnd then Success(Done(traits, eoc.cur))
      else AfterTrait(eoc.cur, traits, fb + [s.ch], floatOk)
    else if IsWhitespace(p.ch) then
      var s := Read(p.cur);
      AfterTrait(s.cur, traits, fb + [s.ch], floatOk)
    else if p.ch == TraitsStart then
      var s := Read(p.cur);
      TraitsFrom(s.cur, traits, fb + [s.ch], floatOk)
    else Success(Done(traits, p.cur))
  }

  /** Parses trait shorthand after a '#'. Every stored key is lower case
      and starts with a letter; a malformed segment is not an error but
      yields fallback text that starts with the '#'. */
  function ParseTraitsSyntax(c: Cur, floatOk: FloatOk): (r: Result<TraitsRead>)
    ensures r.Success? ==> r.value.cur.text == c.text && c.pos <= r.value.cur.pos
    ensures r.Failure? ==> r.error == UnmatchedQuote || r.error == UnmatchedArrayBracket
  {
    TraitsFrom(c, map[], [TraitsStart], floatOk)
  }

  // ---- properties ----

  /** The typing rule case by case, in both directions. */
  lemma {:induction false} InferTypeSpec(value: string, quoted: bool, floatOk: FloatOk)
    ensures var v := InferType(value, quoted, floatOk);
      && (v.TStr? ==> v.s == value)
      && (v.TBool? <==> !quoted && (value == "true" || value == "false"))
      && (v.TBool? ==> (v.b <==> value == "true"))
      && (v.TInt? <==> !quoted && ParseInt64(value).Some?)
      && (v.TInt? ==> Some(v.i) == ParseInt64(value))
      && (v.TFloat? <==> !quoted && value !in {"", "true", "false"} && ParseInt64(value).None? && floatOk(value))
      && (v.TFloat? ==> v.text == value)
  {
  }

  /** Formatted integers and booleans are read back as what they were. */
  lemma {:induction false} InferTypeRoundTrip(i: int, b: bool, floatOk: FloatOk)
    requires MinInt64 <= i <= MaxInt64
    ensures InferType(FormatInt(i), false, floatOk) == TInt(i)
    ensures InferType(FormatBool(b), false, floatOk) == TBool(b)
  {
    FormatIntRoundTrip(i);
    assert FormatInt(i) != "true" && FormatInt(i) != "false" by {
      assert ParseInt64("true").None? && ParseInt64("false").None?;
    }
  }

  lemma {:induction false} ArrayFromFlat(c: Cur, elems: seq<TraitValue>, raw: string, floatOk: FloatOk)
    requires Flat(elems)
    ensures var r := ArrayFrom(c, elems, raw, floatOk);
      r.Success? ==> elems <= r.value.value.elems && Flat(r.value.value.elems)
    decreases |c.text| - c.pos, 1
  {
    var b := SkipBlanks(c, raw);
    var p := Peek(b.cur);
    if p.ch != EOF && p.ch != ArrayEnd {
      var e := ParseArrayElement(p.cur, floatOk);
      if e.Success? {
        AfterElementFlat(e.value.cur, elems + [e.value.value], b.raw + e.value.raw, floatOk);
      }
    }
  }

  lemma {:induction false} AfterElementFlat(c: Cur, elems: seq<TraitValue>, raw: string, floatOk: FloatOk)
    requires Flat(elems)
    ensures var r := AfterElement(c, elems, raw, floatOk);
      r.Success? ==> elems <= r.value.value.elems && Flat(r.value.value.elems)
    decreases |c.text| - c.pos, 0
  {
    var a := SkipBlanks(c, raw);
    var q := Peek(a.cur);
    if q.ch == ArraySep {
      var s := Read(q.cur);
      ArrayFromFlat(s.cur, elems, a.raw + [s.ch], floatOk);
    }
  }

  /** Array elements are never arrays themselves. */
  lemma {:induction false} ParseTraitArrayFlat(c: Cur, floatOk: FloatOk)
    requires c.pos < |c.text| && c.text[c.pos] == ArrayStart
    ensures var r := ParseTraitArray(c, floatOk); r.Success? ==> Flat(r.value.value.elems)
  {
    ArrayFromFlat(Read(c).cur, [], [ArrayStart], floatOk);
  }

  /** A key scan keeps the key well formed, only adds to the fallback
      text, and stops before a non-key character. */
  lemma {:induction false} KeyFromKey(c: Cur, key: string, fb: string)
    requires TraitKey(key)
    ensures var r := KeyFrom(c, key, fb);
      TraitKey(r.key) && fb <= r.fb && !IsAdvArgName(Peek(r.cur).ch)
    decreases |c.text| - c.pos
  {
    var p := Peek(c);
    if p.ch != EOF && IsAdvArgName(p.ch) {
      var s := Read(p.cur);
      var k := key + ToLowerAscii([s.ch]);
      assert k[|key|] == ToLowerAscii([s.ch])[0];
      KeyFromKey(s.cur, k, fb + [s.ch]);
    }
  }

  /** What a scan from a '#' produces, when it does not fail. */
  predicate Shaped(r: Result<TraitsRead>, fb: string) {
    r.Success? ==>
      && TraitKeys(r.value.result.traits)
      && (!r.value.result.invalidKey ==> r.value.result.fallback == "" && r.value.result.invalidKeyName == "")
      && (r.value.result.invalidKey ==> fb <= r.value.result.fallback)
  }

  lemma {:induction false} TraitsFromShaped(c: Cur, traits: map<string, TraitValue>, fb: string, floatOk: FloatOk)
    requires TraitKeys(traits)
    ensures Shaped(TraitsFrom(c, traits, fb, floatOk), fb + [Read(c).ch])
    decreases |c.text| - c.pos, 2
  {
    var s := Read(c);
    if s.ch != EOF && IsAdvArgNameStart(s.ch) {
      var key := ToLowerAscii([s.ch]);
      KeyFromKey(s.cur, key, fb + [s.ch]);
      var k := KeyFrom(s.cur, key, fb + [s.ch]);
      TraitEntryShaped(k, traits, floatOk);
    }
  }

  lemma {:induction false} TraitEntryShaped(k: KeyRead, traits: map<string, TraitValue>, floatOk: FloatOk)
    requires TraitKeys(traits) && TraitKey(k.key)
    ensures Shaped(TraitEntry(k, traits, floatOk), k.fb)
    decreases |k.cur.text| - k.cur.pos, 1
  {
    var next := Peek(k.cur);
    if next.ch == AdvArgEq {
      var eq := Read(next.cur);
      var v := ParseTraitValue(eq.cur, floatOk);
      if v.Success? {
        AfterTraitShaped(v.value.cur, traits[k.key := v.value.value], k.fb + [eq.ch] + v.value.raw, floatOk);
      }
    } else if next.ch == EOF || next.ch == CmdSep || next.ch == TraitsStart || IsWhitespace(next.ch) {
      AfterTraitShaped(next.cur, traits[k.key := TBool(true)], k.fb, floatOk);
    }
  }

  lemma {:induction false} AfterTraitShaped(c: Cur, traits: map<string, TraitValue>, fb: string, floatOk: FloatOk)
    requires TraitKeys(traits)
    ensures Shaped(AfterTrait(c, traits, fb, floatOk), fb)
    decreases |c.text| - c.pos, 0
  {
    var p := Peek(c);
    if p.ch == CmdSep {
      var s := Read(p.cur);
      var eoc := CheckEndOfCmd(s.ch, s.cur);
      if !eoc.isEnd {
        AfterTraitShaped(eoc.cur, traits, fb + [s.ch], floatOk);
      }
    } else if p.ch != EOF && IsWhitespace(p.ch) {
      var s := Read(p.cur);
      AfterTraitShaped(s.cur, traits, fb + [s.ch], floatOk);
    } else if p.ch == TraitsStart {
      var s := Read(p.cur);
      TraitsFromShaped(s.cur, traits, fb + [s.ch], floatOk);
    }
  }

  /** Every stored key is lower case and starts with a letter; fallback
      text is produced exactly for malformed segments and always starts
      with the '#'. */
  lemma {:induction false} ParseTraitsSyntaxShaped(c: Cur, floatOk: FloatOk)
    ensures var r := ParseTraitsSyntax(c, floatOk);
      && Shaped(r, [TraitsStart])
      && (r.Success? && r.value.result.invalidKey ==> |r.value.result.fallback| > 1)
  {
    TraitsFromShaped(c, map[], [TraitsStart], floatOk);
  }
}
