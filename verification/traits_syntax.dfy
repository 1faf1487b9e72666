/** Whole trait segments read from just after their '#': what the map,
    the fallback text and the cursor come out as. */
module TraitSyntax {
  import opened Symbols
  import opened GoStrings
  import opened Reader
  import opened Traits
  import opened TraitRuns

  // ---- text shapes ----

  lemma {:induction false} ValueText(n: string, v: string, u: string)
    ensures n + [AdvArgEq] + v + u == n + ([AdvArgEq] + v + u)
  {
  }

  lemma {:induction false} NextTraitText(n: string, v: string, w: char, u: string)
    ensures n + [AdvArgEq] + v + [w, TraitsStart] + u == n + ([AdvArgEq] + v + ([w, TraitsStart] + u))
    ensures [AdvArgEq] + v + ([w, TraitsStart] + u) == [AdvArgEq] + (v + ([w, TraitsStart] + u))
  {
  }

  lemma {:induction false} AfterValueText(text: string, pos: nat, v: string, u: string)
    requires pos <= |text| && text[pos..] == [AdvArgEq] + (v + u)
    ensures pos + 1 + |v| <= |text| && text[pos + 1 + |v|..] == u
  {
    SliceSplit(text, pos, [AdvArgEq] + v, u);
  }

  lemma {:induction false} QuotedText(n: string, quote: char, v: string)
    ensures n + [AdvArgEq] + [quote] + v + [quote] == n + ([AdvArgEq] + ([quote] + v + [quote] + []))
    ensures n + [AdvArgEq, quote] + v == n + ([AdvArgEq, quote] + v)
  {
  }

  // ---- one key at a time ----

  /** A key that runs to the end of the input is the flag true. */
  lemma {:induction false} TraitsFlag(c: Cur, floatOk: FloatOk, n: string)
    requires KeyName(n) && c.text[c.pos..] == n
    ensures ParseTraitsSyntax(c, floatOk) == Success(Done(map[ToLowerAscii(n) := TBool(true)], Cursor(c.text, |c.text|, false)))
  {
    assert n + [] == n;
    KeyStopText(c.text, c.pos, n, []);
    var k := TraitsKeyAt(c, map[], [TraitsStart], floatOk, n);
    EntryFlag(k, map[], floatOk);
    AfterAtEnd(k.cur, map[ToLowerAscii(n) := TBool(true)], k.fb, floatOk);
    assert Cursor(k.cur.text, k.cur.pos, false) == Cursor(c.text, |c.text|, false);
  }

  /** A flag followed by "||": the command, and the scan, end there. */
  lemma {:induction false} TraitsFlagChain(c: Cur, floatOk: FloatOk, n: string, u: string)
    requires KeyName(n) && c.text[c.pos..] == n + ("||" + u)
    ensures ParseTraitsSyntax(c, floatOk) == Success(Done(map[ToLowerAscii(n) := TBool(true)], Cursor(c.text, c.pos + |n| + 2, true)))
  {
    KeyStopText(c.text, c.pos, n, "||" + u);
    PipesAt(c.text, c.pos + |n|, u);
    var k := TraitsKeyAt(c, map[], [TraitsStart], floatOk, n);
    EntryFlagChain(k, map[], floatOk);
    assert Cursor(k.cur.text, k.cur.pos + 2, true) == Cursor(c.text, c.pos + |n| + 2, true);
  }

  lemma {:induction false} PipesAt(text: string, pos: nat, u: string)
    requires pos <= |text| && text[pos..] == "||" + u
    ensures pos + 1 < |text| && text[pos] == CmdSep && text[pos + 1] == CmdSep
  {
    assert text[pos..][1] == CmdSep;
  }

  lemma {:induction false} EntryFlagChain(k: KeyRead, traits: map<string, TraitValue>, floatOk: FloatOk)
    requires k.cur.pos + 1 < |k.cur.text| && k.cur.text[k.cur.pos] == CmdSep && k.cur.text[k.cur.pos + 1] == CmdSep && !k.cur.canUnread
    ensures TraitEntry(k, traits, floatOk) == Success(Done(traits[k.key := TBool(true)], Cursor(k.cur.text, k.cur.pos + 2, true)))
  {
    EntryFlag(k, traits, floatOk);
    AfterChain(k.cur, traits[k.key := TBool(true)], k.fb, floatOk);
  }

  /** The last trait of the input, with an unquoted value. */
  lemma {:induction false} TraitsLast(c: Cur, traits: map<string, TraitValue>, fb: string, floatOk: FloatOk, n: string, v: string)
    requires KeyName(n) && PlainValue(v, false) && (v == [] || (!IsQuote(v[0]) && v[0] != ArrayStart))
    requires c.text[c.pos..] == n + [AdvArgEq] + v
    ensures TraitsFrom(c, traits, fb, floatOk)
         == Success(Done(traits[ToLowerAscii(n) := InferType(v, false, floatOk)], Cursor(c.text, |c.text|, false)))
  {
    ValueText(n, v, []);
    assert [AdvArgEq] + v + [] == [AdvArgEq] + v && n + [AdvArgEq] + v + [] == n + [AdvArgEq] + v;
    KeyStopText(c.text, c.pos, n, [AdvArgEq] + v);
    var k := TraitsKeyAt(c, traits, fb, floatOk, n);
    EntryLast(k, traits, floatOk, v);
    assert Cursor(k.cur.text, |k.cur.text|, false) == Cursor(c.text, |c.text|, false);
  }

  lemma {:induction false} EntryLast(k: KeyRead, traits: map<string, TraitValue>, floatOk: FloatOk, v: string)
    requires PlainValue(v, false) && (v == [] || (!IsQuote(v[0]) && v[0] != ArrayStart))
    requires k.cur.text[k.cur.pos..] == [AdvArgEq] + v
    ensures TraitEntry(k, traits, floatOk)
         == Success(Done(traits[k.key := InferType(v, false, floatOk)], Cursor(k.cur.text, |k.cur.text|, false)))
  {
    assert [AdvArgEq] + v + [] == [AdvArgEq] + v && [AdvArgEq] + v == [AdvArgEq] + (v + []);
    AfterValueText(k.cur.text, k.cur.pos, v, []);
    EntryValue(k, traits, floatOk, v, []);
    var e := Cursor(k.cur.text, k.cur.pos + 1 + |v|, false);
    AfterAtEnd(e, traits[k.key := InferType(v, false, floatOk)], k.fb + [AdvArgEq] + v, floatOk);
    assert Cursor(e.text, e.pos, false) == Cursor(k.cur.text, |k.cur.text|, false);
  }

  /** `#key=value` to the end of the input: one trait, typed. */
  lemma {:induction false} TraitsValue(c: Cur, floatOk: FloatOk, n: string, v: string)
    requires KeyName(n) && PlainValue(v, false) && (v == [] || (!IsQuote(v[0]) && v[0] != ArrayStart))
    requires c.text[c.pos..] == n + [AdvArgEq] + v
    ensures ParseTraitsSyntax(c, floatOk)
         == Success(Done(map[ToLowerAscii(n) := InferType(v, false, floatOk)], Cursor(c.text, |c.text|, false)))
  {
    TraitsLast(c, map[], [TraitsStart], floatOk, n, v);
  }

  /** A trait with an unquoted value, whitespace and '#': the scan goes on
      with the next key, the value stored. */
  lemma {:induction false} TraitsThen(c: Cur, traits: map<string, TraitValue>, fb: string, floatOk: FloatOk, n: string, v: string, w: char, u: string)
    requires KeyName(n) && PlainValue(v, false) && (v == [] || (!IsQuote(v[0]) && v[0] != ArrayStart)) && IsWhitespace(w)
    requires c.text[c.pos..] == n + [AdvArgEq] + v + [w, TraitsStart] + u
    ensures TraitsFrom(c, traits, fb, floatOk)
         == TraitsFrom(Cursor(c.text, c.pos + |n| + |v| + 3, true), traits[ToLowerAscii(n) := InferType(v, false, floatOk)],
                       fb + n + [AdvArgEq] + v + [w] + [TraitsStart], floatOk)
  {
    NextTraitText(n, v, w, u);
    KeyStopText(c.text, c.pos, n, [AdvArgEq] + v + ([w, TraitsStart] + u));
    var k := TraitsKeyAt(c, traits, fb, floatOk, n);
    EntryThen(k, traits, floatOk, v, w, u);
    assert Cursor(k.cur.text, k.cur.pos + |v| + 3, true) == Cursor(c.text, c.pos + |n| + |v| + 3, true);
  }

  /** The text after a key: the key's own characters, then the rest. */
  lemma {:induction false} KeyStopText(text: string, pos: nat, n: string, u: string)
    requires n != [] && pos <= |text| && text[pos..] == n + u
    ensures pos + |n| <= |text| && text[pos] == n[0] && text[pos + 1..pos + 1 + |n[1..]|] == n[1..]
    ensures text[pos + |n|..] == u && (u == [] <==> pos + |n| == |text|) && (u != [] ==> text[pos + |n|] == u[0])
  {
    PrefixStop(text, pos, n, u);
    SliceTail(text, pos, n);
  }

  /** The key at the cursor, read from facts about single positions. */
  lemma {:induction false} TraitsKeyAt(c: Cur, traits: map<string, TraitValue>, fb: string, floatOk: FloatOk, n: string) returns (k: KeyRead)
    requires KeyName(n) && c.pos + |n| <= |c.text| && c.text[c.pos] == n[0]
    requires c.text[c.pos + 1..c.pos + 1 + |n[1..]|] == n[1..]
    requires c.pos + |n| == |c.text| || !IsAdvArgName(c.text[c.pos + |n|])
    ensures k == KeyRead(Cursor(c.text, c.pos + |n|, false), ToLowerAscii(n), fb + n)
    ensures TraitsFrom(c, traits, fb, floatOk) == TraitEntry(k, traits, floatOk)
  {
    KeyWholeAt(c, fb, n);
    k := KeyRead(Cursor(c.text, c.pos + |n|, false), ToLowerAscii(n), fb + n);
    TraitsTakesKey(c, traits, fb, floatOk, k);
  }

  /** The entry of a key whose unquoted value is followed by whitespace
      and '#' goes on to the next key. */
  lemma {:induction false} EntryThen(k: KeyRead, traits: map<string, TraitValue>, floatOk: FloatOk, v: string, w: char, u: string)
    requires PlainValue(v, false) && (v == [] || (!IsQuote(v[0]) && v[0] != ArrayStart)) && IsWhitespace(w)
    requires k.cur.text[k.cur.pos..] == [AdvArgEq] + v + ([w, TraitsStart] + u)
    ensures TraitEntry(k, traits, floatOk)
         == TraitsFrom(Cursor(k.cur.text, k.cur.pos + |v| + 3, true), traits[k.key := InferType(v, false, floatOk)],
                       k.fb + [AdvArgEq] + v + [w] + [TraitsStart], floatOk)
  {
    BlankHashText(k.cur.text, k.cur.pos, v, w, u);
    EntryValue(k, traits, floatOk, v, [w, TraitsStart] + u);
    ThenCompose(k, traits, floatOk, v);
  }

  lemma {:induction false} BlankHashText(text: string, pos: nat, v: string, w: char, u: string)
    requires pos <= |text| && text[pos..] == [AdvArgEq] + v + ([w, TraitsStart] + u)
    ensures pos + |v| + 2 < |text| && text[pos + 1 + |v|] == w && text[pos + |v| + 2] == TraitsStart
  {
    assert [AdvArgEq] + v + ([w, TraitsStart] + u) == ([AdvArgEq] + v) + ([w, TraitsStart] + u);
    assert text[pos..][1 + |v|] == w && text[pos..][|v| + 2] == TraitsStart;
  }

  lemma {:induction false} ThenCompose(k: KeyRead, traits: map<string, TraitValue>, floatOk: FloatOk, v: string)
    requires k.cur.pos + |v| + 2 < |k.cur.text| && IsWhitespace(k.cur.text[k.cur.pos + 1 + |v|]) && k.cur.text[k.cur.pos + |v| + 2] == TraitsStart
    requires TraitEntry(k, traits, floatOk)
          == AfterTrait(Cursor(k.cur.text, k.cur.pos + 1 + |v|, false), traits[k.key := InferType(v, false, floatOk)], k.fb + [AdvArgEq] + v, floatOk)
    ensures TraitEntry(k, traits, floatOk)
         == TraitsFrom(Cursor(k.cur.text, k.cur.pos + |v| + 3, true), traits[k.key := InferType(v, false, floatOk)],
                       k.fb + [AdvArgEq] + v + [k.cur.text[k.cur.pos + 1 + |v|]] + [TraitsStart], floatOk)
  {
    AfterNext(Cursor(k.cur.text, k.cur.pos + 1 + |v|, false), traits[k.key := InferType(v, false, floatOk)], k.fb + [AdvArgEq] + v, floatOk);
  }

  /** Two traits separated by whitespace: both are stored, the second
      written over the first when their keys agree up to case. */
  lemma {:induction false} TraitsTwo(c: Cur, floatOk: FloatOk, n1: string, v1: string, w: char, n2: string, v2: string)
    requires KeyName(n1) && PlainValue(v1, false) && (v1 == [] || (!IsQuote(v1[0]) && v1[0] != ArrayStart)) && IsWhitespace(w)
    requires KeyName(n2) && PlainValue(v2, false) && (v2 == [] || (!IsQuote(v2[0]) && v2[0] != ArrayStart))
    requires c.text[c.pos..] == n1 + [AdvArgEq] + v1 + [w, TraitsStart] + (n2 + [AdvArgEq] + v2)
    ensures ParseTraitsSyntax(c, floatOk)
         == Success(Done(map[ToLowerAscii(n1) := InferType(v1, false, floatOk)][ToLowerAscii(n2) := InferType(v2, false, floatOk)],
                         Cursor(c.text, |c.text|, false)))
  {
    var rest := n2 + [AdvArgEq] + v2;
    NextTraitText(n1, v1, w, rest);
    SecondTraitText(c.text, c.pos, n1, v1, w, rest);
    var d := Cursor(c.text, c.pos + |n1| + |v1| + 3, true);
    var m := map[ToLowerAscii(n1) := InferType(v1, false, floatOk)];
    TraitsLast(d, m, [TraitsStart] + n1 + [AdvArgEq] + v1 + [w] + [TraitsStart], floatOk, n2, v2);
    TraitsThen(c, map[], [TraitsStart], floatOk, n1, v1, w, rest);
  }

  lemma {:induction false} SecondTraitText(text: string, pos: nat, n: string, v: string, w: char, u: string)
    requires pos <= |text| && text[pos..] == n + ([AdvArgEq] + (v + ([w, TraitsStart] + u)))
    ensures pos + |n| + |v| + 3 <= |text| && text[pos + |n| + |v| + 3..] == u
  {
    assert n + ([AdvArgEq] + (v + ([w, TraitsStart] + u))) == (n + [AdvArgEq] + v + [w, TraitsStart]) + u;
    SliceSplit(text, pos, n + [AdvArgEq] + v + [w, TraitsStart], u);
  }

  /** A repeated key keeps only its last value. */
  lemma {:induction false} TraitsLastWins(c: Cur, floatOk: FloatOk, n1: string, v1: string, w: char, n2: string, v2: string)
    requires KeyName(n1) && PlainValue(v1, false) && (v1 == [] || (!IsQuote(v1[0]) && v1[0] != ArrayStart)) && IsWhitespace(w)
    requires KeyName(n2) && PlainValue(v2, false) && (v2 == [] || (!IsQuote(v2[0]) && v2[0] != ArrayStart))
    requires ToLowerAscii(n1) == ToLowerAscii(n2)
    requires c.text[c.pos..] == n1 + [AdvArgEq] + v1 + [w, TraitsStart] + (n2 + [AdvArgEq] + v2)
    ensures ParseTraitsSyntax(c, floatOk)
         == Success(Done(map[ToLowerAscii(n2) := InferType(v2, false, floatOk)], Cursor(c.text, |c.text|, false)))
  {
    TraitsTwo(c, floatOk, n1, v1, w, n2, v2);
    assert map[ToLowerAscii(n1) := InferType(v1, false, floatOk)][ToLowerAscii(n2) := InferType(v2, false, floatOk)]
        == map[ToLowerAscii(n2) := InferType(v2, false, floatOk)];
  }

  /** A quoted value is stored as text, quotes removed. */
  lemma {:induction false} TraitsQuoted(c: Cur, floatOk: FloatOk, n: string, quote: char, v: string)
    requires KeyName(n) && IsQuote(quote) && QuotedChars(v, quote)
    requires c.text[c.pos..] == n + [AdvArgEq] + [quote] + v + [quote]
    ensures ParseTraitsSyntax(c, floatOk) == Success(Done(map[ToLowerAscii(n) := TStr(v)], Cursor(c.text, |c.text|, false)))
  {
    QuotedText(n, quote, v);
    var u := [AdvArgEq] + ([quote] + v + [quote] + []);
    KeyStopText(c.text, c.pos, n, u);
    QuotedEnd(c.text, c.pos + |n|, quote, v);
    var k := TraitsKeyAt(c, map[], [TraitsStart], floatOk, n);
    EntryQuoted(k, map[], floatOk, quote, v, []);
    var e := Cursor(c.text, k.cur.pos + |v| + 3, true);
    AfterAtEnd(e, map[ToLowerAscii(n) := TStr(v)], k.fb + [AdvArgEq] + ([quote] + v + [quote]), floatOk);
    assert Cursor(e.text, e.pos, false) == Cursor(c.text, |c.text|, false);
  }

  lemma {:induction false} QuotedEnd(text: string, pos: nat, quote: char, v: string)
    requires pos <= |text| && text[pos..] == [AdvArgEq] + ([quote] + v + [quote] + [])
    ensures pos + |v| + 3 == |text|
  {
  }

  /** A quote that is never closed fails the whole scan. */
  lemma {:induction false} TraitsUnclosed(c: Cur, floatOk: FloatOk, n: string, quote: char, v: string)
    requires KeyName(n) && IsQuote(quote) && QuotedChars(v, quote)
    requires c.text[c.pos..] == n + [AdvArgEq, quote] + v
    ensures ParseTraitsSyntax(c, floatOk) == Failure(UnmatchedQuote)
  {
    QuotedText(n, quote, v);
    KeyStopText(c.text, c.pos, n, [AdvArgEq, quote] + v);
    var k := TraitsKeyAt(c, map[], [TraitsStart], floatOk, n);
    EntryUnclosed(k, map[], floatOk, quote, v);
  }

  /** An array of plain elements is stored with each element trimmed and
      typed. */
  lemma {:induction false} TraitsArray(c: Cur, floatOk: FloatOk, n: string, es: seq<string>)
    requires KeyName(n) && PlainElems(es)
    requires c.text[c.pos..] == n + ([AdvArgEq] + ([ArrayStart] + (ArrayBody(es) + [])))
    ensures ParseTraitsSyntax(c, floatOk) == Success(Done(map[ToLowerAscii(n) := TArray(Typed(es, floatOk))], Cursor(c.text, |c.text|, false)))
  {
    var u := [AdvArgEq] + ([ArrayStart] + (ArrayBody(es) + []));
    KeyStopText(c.text, c.pos, n, u);
    ArrayValueText(c.text, c.pos + |n|, es);
    var k := TraitsKeyAt(c, map[], [TraitsStart], floatOk, n);
    EntryArray(k, floatOk, es);
  }

  lemma {:induction false} EntryArray(k: KeyRead, floatOk: FloatOk, es: seq<string>)
    requires PlainElems(es) && k.cur.pos < |k.cur.text| && k.cur.text[k.cur.pos] == AdvArgEq
    requires k.cur.text[k.cur.pos + 1..] == [ArrayStart] + (ArrayBody(es) + []) && k.cur.pos + 2 + |ArrayBody(es)| == |k.cur.text|
    ensures TraitEntry(k, map[], floatOk) == Success(Done(map[k.key := TArray(Typed(es, floatOk))], Cursor(k.cur.text, |k.cur.text|, false)))
  {
    var d := Cursor(k.cur.text, k.cur.pos + 1, true);
    ValueArray(d, floatOk, es, []);
    var e := Cursor(k.cur.text, d.pos + 1 + |ArrayBody(es)|, true);
    assert Cursor(d.text, d.pos + 1 + |ArrayBody(es)|, true) == e && e.pos == |k.cur.text|;
    EntryTakes(k, map[], floatOk, TArray(Typed(es, floatOk)), [ArrayStart] + ArrayBody(es), e);
    AfterAtEnd(e, map[k.key := TArray(Typed(es, floatOk))], k.fb + [AdvArgEq] + ([ArrayStart] + ArrayBody(es)), floatOk);
  }

  lemma {:induction false} ArrayValueText(text: string, pos: nat, es: seq<string>)
    requires pos <= |text| && text[pos..] == [AdvArgEq] + ([ArrayStart] + (ArrayBody(es) + []))
    ensures pos < |text| && text[pos] == AdvArgEq
    ensures text[pos + 1..] == [ArrayStart] + (ArrayBody(es) + [])
    ensures pos + 2 + |ArrayBody(es)| == |text|
  {
    RestAfterFirst(text, pos, [AdvArgEq], [ArrayStart] + (ArrayBody(es) + []));
  }

  /** An array whose last element runs into the end of the input has an
      unmatched bracket, and the scan fails. */
  lemma {:induction false} TraitsArrayOpen(c: Cur, floatOk: FloatOk, n: string, v: string)
    requires KeyName(n) && PlainElem(v)
    requires c.text[c.pos..] == n + ([AdvArgEq] + ([ArrayStart] + v))
    ensures ParseTraitsSyntax(c, floatOk) == Failure(UnmatchedArrayBracket)
  {
    var u := [AdvArgEq] + ([ArrayStart] + v);
    KeyStopText(c.text, c.pos, n, u);
    OpenArrayText(c.text, c.pos + |n|, v);
    var k := TraitsKeyAt(c, map[], [TraitsStart], floatOk, n);
    EntryArrayOpen(k, floatOk, v);
  }

  lemma {:induction false} EntryArrayOpen(k: KeyRead, floatOk: FloatOk, v: string)
    requires PlainElem(v) && k.cur.pos + 2 < |k.cur.text| && k.cur.text[k.cur.pos] == AdvArgEq && k.cur.text[k.cur.pos + 1] == ArrayStart
    requires k.cur.text[k.cur.pos + 2..] == v + [] && k.cur.pos + 2 + |v| == |k.cur.text| && k.cur.text[k.cur.pos + 2] == v[0]
    ensures TraitEntry(k, map[], floatOk) == Failure(UnmatchedArrayBracket)
  {
    var t := k.cur.text;
    var d := Cursor(t, k.cur.pos + 1, true);
    var e := Cursor(t, k.cur.pos + 2, true);
    ElementPlain(Cursor(t, e.pos, false), floatOk, v, []);
    assert Cursor(t, e.pos + |v|, false) == Cursor(t, |t|, false) && InferType(TrimSpace(v), false, floatOk) == ElemValue(v, floatOk);
    ArrayTakes(e, [], [ArrayStart], floatOk, ValueRead(ElemValue(v, floatOk), v, Cursor(t, |t|, false)));
    AfterBad(Cursor(t, |t|, false), [ElemValue(v, floatOk)], [ArrayStart] + v, floatOk);
    ValueArrayStep(d, floatOk);
    assert Cursor(d.text, d.pos + 1, true) == e && [] + [ElemValue(v, floatOk)] == [ElemValue(v, floatOk)];
    EntryValueFails(k, map[], floatOk, UnmatchedArrayBracket);
  }

  lemma {:induction false} OpenArrayText(text: string, pos: nat, v: string)
    requires v != [] && pos <= |text| && text[pos..] == [AdvArgEq] + ([ArrayStart] + v)
    ensures pos + 2 < |text| && text[pos] == AdvArgEq && text[pos + 1] == ArrayStart
    ensures text[pos + 2..] == v + [] && pos + 2 + |v| == |text| && text[pos + 2] == v[0]
  {
    RestAfterFirst(text, pos, [AdvArgEq], [ArrayStart] + v);
    RestAfterFirst(text, pos + 1, [ArrayStart], v);
    assert v + [] == v;
  }

  // ---- malformed segments ----

  /** A first character that cannot start a key: the segment is fallback
      text, the '#' included, up to the end of the command. */
  lemma {:induction false} TraitsBadKeyStart(c: Cur, floatOk: FloatOk, ch: char, t: string)
    requires c.text[c.pos..] == [ch] + t && NoSep(t)
    requires ch != EOF && !IsAsciiLetter(ch)
    ensures ParseTraitsSyntax(c, floatOk)
         == Success(TraitsRead(TraitsResult(map[], [TraitsStart, ch] + t, [TraitsStart, ch] + t, true), Cursor(c.text, |c.text|, false)))
  {
    TraitsBadStart(c, map[], [TraitsStart], floatOk, ch, t);
    assert [TraitsStart] + [ch] + t == [TraitsStart, ch] + t;
  }

  /** A key followed by a character that is neither '=' nor a separator:
      the segment is fallback text and the key is reported as invalid. */
  lemma {:induction false} TraitsBadAfterKey(c: Cur, floatOk: FloatOk, n: string, ch: char, t: string)
    requires KeyName(n) && c.text[c.pos..] == n + ([ch] + t) && NoSep(t)
    requires !IsAdvArgName(ch) && ch != AdvArgEq && ch != EOF && ch != CmdSep && ch != TraitsStart && !IsWhitespace(ch)
    ensures ParseTraitsSyntax(c, floatOk)
         == Success(TraitsRead(TraitsResult(map[], [TraitsStart] + n + [ch] + t, ToLowerAscii(n), true), Cursor(c.text, |c.text|, false)))
  {
    KeyStopText(c.text, c.pos, n, [ch] + t);
    var k := TraitsKeyAt(c, map[], [TraitsStart], floatOk, n);
    EntryInvalid(k, map[], floatOk, ch, t);
  }
}
