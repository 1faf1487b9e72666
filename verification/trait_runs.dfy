/** What the trait scanners do on whole segments: keys, flags, values of
    each kind, arrays, repeated keys and the fallback for malformed
    segments. */
module TraitRuns {
  import opened Symbols
  import opened GoStrings
  import opened Reader
  import opened Traits

  // ---- text shapes ----

  /** Characters a key scan takes: letters, digits and '_'. */
  predicate KeyChars(n: string) {
    forall i :: 0 <= i < |n| ==> IsAdvArgName(n[i])
  }

  /** A key as written: a letter, then key characters. */
  predicate KeyName(n: string) {
    |n| > 0 && IsAsciiLetter(n[0]) && KeyChars(n)
  }

  /** Characters an unquoted value takes literally. */
  predicate PlainValue(v: string, inArray: bool) {
    forall i :: 0 <= i < |v| ==> !StopsUnquoted(v[i], inArray) && v[i] != EscapeSeq
  }

  /** Characters a quoted value takes literally. */
  predicate QuotedChars(v: string, quote: char) {
    forall i :: 0 <= i < |v| ==> v[i] != EOF && v[i] != EscapeSeq && v[i] != quote
  }

  /** Text with no command separator and no end sentinel. */
  predicate NoSep(t: string) {
    forall i :: 0 <= i < |t| ==> t[i] != CmdSep && t[i] != EOF
  }

  // ---- sequence helpers ----

  lemma {:induction false} LowerCons(s: string)
    requires s != []
    ensures ToLowerAscii(s) == ToLowerAscii([s[0]]) + ToLowerAscii(s[1..])
  {
    assert [s[0]][1..] == [];
  }

  lemma {:induction false} AppendCons(a: string, s: string)
    requires s != []
    ensures a + [s[0]] + s[1..] == a + s
  {
    assert s == [s[0]] + s[1..];
  }

  lemma {:induction false} RestAfterFirst(text: string, pos: nat, s: string, u: string)
    requires pos <= |text| && text[pos..] == s + u && s != []
    ensures pos < |text| && text[pos] == s[0] && text[pos + 1..] == s[1..] + u
  {
    SliceSplit(text, pos, s, u);
    ConsSplit(s, u);
    assert text[pos..][1..] == text[pos + 1..];
  }

  lemma {:induction false} KeyAppend(key: string, fb: string, n: string)
    requires n != []
    ensures key + ToLowerAscii([n[0]]) + ToLowerAscii(n[1..]) == key + ToLowerAscii(n)
    ensures fb + [n[0]] + n[1..] == fb + n
  {
    LowerCons(n);
    AppendCons(fb, n);
  }

  lemma {:induction false} ValueAppend(raw: string, val: string, v: string)
    requires v != []
    ensures raw + [v[0]] + v[1..] == raw + v && val + [v[0]] + v[1..] == val + v
  {
    AppendCons(raw, v);
    AppendCons(val, v);
  }

  lemma {:induction false} KeyGrows(key: string, ch: char)
    requires TraitKey(key) && IsAdvArgName(ch)
    ensures TraitKey(key + ToLowerAscii([ch]))
  {
    var k := key + ToLowerAscii([ch]);
    assert k[|key|] == ToLowerAscii([ch])[0];
  }

  // ---- scanner runs ----

  lemma {:induction false} KeyTakes(c: Cur, key: string, fb: string, next: Cur, key': string, fb': string)
    requires TraitKey(key) && c.pos < |c.text| && IsAdvArgName(c.text[c.pos])
    requires next == Cursor(c.text, c.pos + 1, true)
    requires key' == key + ToLowerAscii([c.text[c.pos]]) && fb' == fb + [c.text[c.pos]]
    ensures TraitKey(key') && KeyFrom(c, key, fb) == KeyFrom(next, key', fb')
  {
    KeyGrows(key, c.text[c.pos]);
  }

  lemma {:induction false} KeyStops(c: Cur, key: string, fb: string)
    requires TraitKey(key) && (c.pos == |c.text| || !IsAdvArgName(c.text[c.pos]))
    ensures KeyFrom(c, key, fb) == KeyRead(Cursor(c.text, c.pos, false), key, fb)
  {
  }

  /** A key scan takes every key character and stops at the first other
      one, lower-casing the key and copying the text as written. */
  lemma {:induction false} KeyRun(c: Cur, key: string, fb: string, n: string, u: string)
    requires TraitKey(key) && KeyChars(n)
    requires c.text[c.pos..] == n + u && (u == [] || !IsAdvArgName(u[0]))
    ensures KeyFrom(c, key, fb) == KeyRead(Cursor(c.text, c.pos + |n|, false), key + ToLowerAscii(n), fb + n)
  {
    PrefixStop(c.text, c.pos, n, u);
    KeyRunAt(c, key, fb, n);
  }

  /** `n` is written at `pos`, and `u` follows it up to the end. */
  lemma {:induction false} PrefixStop(text: string, pos: nat, n: string, u: string)
    requires pos <= |text| && text[pos..] == n + u
    ensures pos + |n| <= |text| && text[pos..pos + |n|] == n
    ensures u == [] <==> pos + |n| == |text|
    ensures u != [] ==> u[0] == text[pos + |n|]
  {
    SliceSplit(text, pos, n, u);
  }

  lemma {:induction false} SliceTail(text: string, pos: nat, n: string)
    requires n != [] && pos + |n| <= |text| && text[pos..pos + |n|] == n
    ensures text[pos] == n[0] && text[pos + 1..pos + 1 + |n[1..]|] == n[1..]
  {
    assert text[pos..pos + |n|][0] == text[pos];
    assert text[pos + 1..pos + 1 + |n[1..]|] == text[pos..pos + |n|][1..];
  }

  lemma {:induction false} NothingAppended(key: string, fb: string, n: string)
    requires n == []
    ensures key + ToLowerAscii(n) == key && fb + n == fb
  {
  }

  lemma {:induction false} KeyRunAt(c: Cur, key: string, fb: string, n: string)
    requires TraitKey(key) && KeyChars(n)
    requires c.pos + |n| <= |c.text| && c.text[c.pos..c.pos + |n|] == n
    requires c.pos + |n| == |c.text| || !IsAdvArgName(c.text[c.pos + |n|])
    ensures KeyFrom(c, key, fb) == KeyRead(Cursor(c.text, c.pos + |n|, false), key + ToLowerAscii(n), fb + n)
    decreases |n|
  {
    if n == [] {
      NothingAppended(key, fb, n);
      KeyStops(c, key, fb);
    } else {
      SliceTail(c.text, c.pos, n);
      var next := Cursor(c.text, c.pos + 1, true);
      var key' := key + ToLowerAscii([n[0]]);
      KeyTakes(c, key, fb, next, key', fb + [n[0]]);
      KeyRunAt(next, key', fb + [n[0]], n[1..]);
      KeyAppend(key, fb, n);
    }
  }

  lemma {:induction false} UnquotedTakes(c: Cur, inArray: bool, raw: string, val: string, next: Cur)
    requires c.pos < |c.text| && !StopsUnquoted(c.text[c.pos], inArray) && c.text[c.pos] != EscapeSeq
    requires next == Cursor(c.text, c.pos + 1, true)
    ensures UnquotedFrom(c, inArray, raw, val) == UnquotedFrom(next, inArray, raw + [c.text[c.pos]], val + [c.text[c.pos]])
  {
  }

  lemma {:induction false} UnquotedStops(c: Cur, inArray: bool, raw: string, val: string)
    requires c.pos == |c.text| || StopsUnquoted(c.text[c.pos], inArray)
    ensures UnquotedFrom(c, inArray, raw, val) == TextRead(val, raw, Cursor(c.text, c.pos, false))
  {
  }

  type UnquotedLoop = (Cur, string, string) -> TextRead

  function UnquotedLoopOf(inArray: bool): UnquotedLoop {
    (c: Cur, raw: string, val: string) => UnquotedFrom(c, inArray, raw, val)
  }

  ghost predicate UnquotedMovesAt(f: UnquotedLoop, inArray: bool, c: Cur, raw: string, val: string) {
    c.pos < |c.text| && !StopsUnquoted(c.text[c.pos], inArray) && c.text[c.pos] != EscapeSeq ==>
      f(c, raw, val) == f(Cursor(c.text, c.pos + 1, true), raw + [c.text[c.pos]], val + [c.text[c.pos]])
  }

  ghost predicate UnquotedMoves(f: UnquotedLoop, inArray: bool) {
    forall c: Cur, raw: string, val: string :: UnquotedMovesAt(f, inArray, c, raw, val)
  }

  lemma {:induction false} UnquotedLoopSteps(inArray: bool)
    ensures UnquotedMoves(UnquotedLoopOf(inArray), inArray)
  {
    var f := UnquotedLoopOf(inArray);
    forall c: Cur, raw: string, val: string ensures UnquotedMovesAt(f, inArray, c, raw, val) {
      if c.pos < |c.text| && !StopsUnquoted(c.text[c.pos], inArray) && c.text[c.pos] != EscapeSeq {
        UnquotedTakes(c, inArray, raw, val, Cursor(c.text, c.pos + 1, true));
      }
    }
  }

  lemma {:induction false} UseUnquotedMoves(f: UnquotedLoop, inArray: bool, c: Cur, raw: string, val: string)
    requires UnquotedMoves(f, inArray)
    ensures UnquotedMovesAt(f, inArray, c, raw, val)
  {
  }

  lemma {:induction false} UnquotedSkipRun(f: UnquotedLoop, inArray: bool, c: Cur, raw: string, val: string, v: string, u: string)
    requires UnquotedMoves(f, inArray)
    requires v != [] && PlainValue(v, inArray) && c.text[c.pos..] == v + u
    ensures c.pos + |v| <= |c.text|
    ensures f(c, raw, val) == f(Cursor(c.text, c.pos + |v|, true), raw + v, val + v)
    decreases |v|
  {
    RestAfterFirst(c.text, c.pos, v, u);
    UseUnquotedMoves(f, inArray, c, raw, val);
    assert !StopsUnquoted(v[0], inArray) && v[0] != EscapeSeq;
    assert f(c, raw, val) == f(Cursor(c.text, c.pos + 1, true), raw + [v[0]], val + [v[0]]);
    if |v| > 1 {
      assert PlainValue(v[1..], inArray) by {
        assert forall i :: 0 <= i < |v[1..]| ==> v[1..][i] == v[i + 1];
      }
      UnquotedSkipRun(f, inArray, Cursor(c.text, c.pos + 1, true), raw + [v[0]], val + [v[0]], v[1..], u);
      ValueAppend(raw, val, v);
    } else {
      assert v == [v[0]];
    }
  }

  /** Plain characters of an unquoted value are copied one by one. */
  lemma {:induction false} UnquotedSkip(c: Cur, inArray: bool, raw: string, val: string, v: string, u: string)
    requires v != [] && PlainValue(v, inArray) && c.text[c.pos..] == v + u
    ensures c.pos + |v| <= |c.text|
    ensures UnquotedFrom(c, inArray, raw, val) == UnquotedFrom(Cursor(c.text, c.pos + |v|, true), inArray, raw + v, val + v)
  {
    UnquotedLoopSteps(inArray);
    UnquotedSkipRun(UnquotedLoopOf(inArray), inArray, c, raw, val, v, u);
  }

  lemma {:induction false} UnquotedRunMore(c: Cur, inArray: bool, raw: string, val: string, v: string, u: string, stop: Cur)
    requires v != [] && PlainValue(v, inArray)
    requires c.text[c.pos..] == v + u && (u == [] || StopsUnquoted(u[0], inArray))
    requires stop == Cursor(c.text, c.pos + |v|, true)
    ensures UnquotedFrom(c, inArray, raw, val) == UnquotedFrom(stop, inArray, raw + v, val + v)
    ensures stop.pos == |c.text| || StopsUnquoted(c.text[stop.pos], inArray)
  {
    UnquotedSkip(c, inArray, raw, val, v, u);
    SliceSplit(c.text, c.pos, v, u);
  }

  /** An unquoted value without escapes is the text up to the first stop
      character. */
  lemma {:induction false} UnquotedRun(c: Cur, inArray: bool, raw: string, val: string, v: string, u: string)
    requires PlainValue(v, inArray)
    requires c.text[c.pos..] == v + u && (u == [] || StopsUnquoted(u[0], inArray))
    ensures UnquotedFrom(c, inArray, raw, val) == TextRead(val + v, raw + v, Cursor(c.text, c.pos + |v|, false))
  {
    if v == [] {
      assert c.text[c.pos..] == u;
      UnquotedStops(c, inArray, raw, val);
      assert val + v == val && raw + v == raw;
    } else {
      var stop := Cursor(c.text, c.pos + |v|, true);
      UnquotedRunMore(c, inArray, raw, val, v, u, stop);
      UnquotedStops(stop, inArray, raw + v, val + v);
    }
  }

  lemma {:induction false} QuotedTakes(c: Cur, quote: char, raw: string, val: string, next: Cur)
    requires c.pos < |c.text| && c.text[c.pos] != EOF && c.text[c.pos] != EscapeSeq && c.text[c.pos] != quote
    requires next == Cursor(c.text, c.pos + 1, true)
    ensures QuotedFrom(c, quote, raw, val) == QuotedFrom(next, quote, raw + [c.text[c.pos]], val + [c.text[c.pos]])
  {
  }

  lemma {:induction false} QuotedCloses(c: Cur, quote: char, raw: string, val: string)
    requires IsQuote(quote) && c.pos < |c.text| && c.text[c.pos] == quote
    ensures QuotedFrom(c, quote, raw, val) == Success(TextRead(val, raw + [quote], Cursor(c.text, c.pos + 1, true)))
  {
  }

  /** A quoted value without escapes is the text up to the closing quote,
      always a string. */
  lemma {:induction false} QuotedRun(c: Cur, quote: char, raw: string, val: string, v: string, u: string)
    requires IsQuote(quote) && QuotedChars(v, quote)
    requires c.text[c.pos..] == v + [quote] + u
    ensures QuotedFrom(c, quote, raw, val) == Success(TextRead(val + v, raw + v + [quote], Cursor(c.text, c.pos + |v| + 1, true)))
    decreases |v|
  {
    if v == [] {
      assert c.text[c.pos..] == [quote] + u;
      RestAfterFirst(c.text, c.pos, [quote], u);
      QuotedCloses(c, quote, raw, val);
      assert val + v == val && raw + v == raw;
    } else {
      assert v + [quote] + u == v + ([quote] + u);
      RestAfterFirst(c.text, c.pos, v, [quote] + u);
      assert c.text[c.pos + 1..] == v[1..] + [quote] + u;
      var next := Cursor(c.text, c.pos + 1, true);
      QuotedTakes(c, quote, raw, val, next);
      QuotedRun(next, quote, raw + [v[0]], val + [v[0]], v[1..], u);
      AppendCons(raw, v);
      AppendCons(val, v);
      assert raw + [v[0]] + v[1..] + [quote] == raw + v + [quote];
    }
  }

  /** A quote that is never closed is an error. */
  lemma {:induction false} QuotedUnclosed(c: Cur, quote: char, raw: string, val: string, v: string)
    requires QuotedChars(v, quote) && c.text[c.pos..] == v
    ensures QuotedFrom(c, quote, raw, val) == Failure(UnmatchedQuote)
    decreases |v|
  {
    if v == [] {
      assert c.pos == |c.text|;
    } else {
      assert v == v + [];
      RestAfterFirst(c.text, c.pos, v, []);
      assert c.text[c.pos + 1..] == v[1..];
      QuotedUnclosed(Cursor(c.text, c.pos + 1, true), quote, raw + [v[0]], val + [v[0]], v[1..]);
    }
  }

  /** Inside quotes, '^' and the character after it decode as one
      character of the value, and the raw text keeps both. */
  lemma {:induction false} QuotedEscape(c: Cur, quote: char, raw: string, val: string, x: char, u: string)
    requires c.text[c.pos..] == [EscapeSeq, x] + u && x != EOF
    ensures QuotedFrom(c, quote, raw, val)
         == QuotedFrom(Cursor(c.text, c.pos + 2, true), quote, raw + [EscapeSeq, x], val + ParseEscapeSeq(Cursor(c.text, c.pos + 1, true)).text)
  {
    RestAfterFirst(c.text, c.pos, [EscapeSeq, x], u);
    RestAfterFirst(c.text, c.pos + 1, [x], u);
    assert raw + [EscapeSeq] + [x] == raw + [EscapeSeq, x];
  }

  /** Consuming text without separators reads to the end of the input. */
  lemma {:induction false} ConsumeEnd(c: Cur, t: string)
    requires NoSep(t) && c.text[c.pos..] == t
    ensures ConsumeToEndOfCmd(c) == Consumed(t, Cursor(c.text, |c.text|, false))
  {
    PrefixStop(c.text, c.pos, t, []);
    ConsumeEndAt(c, t);
  }

  lemma {:induction false} HeadTail(t: string)
    requires t != []
    ensures [t[0]] + t[1..] == t
  {
  }

  lemma {:induction false} ConsumeEndAt(c: Cur, t: string)
    requires NoSep(t) && c.pos + |t| == |c.text| && c.text[c.pos..c.pos + |t|] == t
    ensures ConsumeToEndOfCmd(c) == Consumed(t, Cursor(c.text, |c.text|, false))
    decreases |t|
  {
    if t == [] {
      ConsumeAtEnd(c);
    } else {
      SliceTail(c.text, c.pos, t);
      var next := Cursor(c.text, c.pos + 1, true);
      ConsumeEndAt(next, t[1..]);
      ConsumeTakes(c, next);
      HeadTail(t);
    }
  }

  lemma {:induction false} ConsumeAtEnd(c: Cur)
    requires c.pos == |c.text|
    ensures ConsumeToEndOfCmd(c) == Consumed("", Cursor(c.text, |c.text|, false))
  {
  }

  lemma {:induction false} ConsumeTakes(c: Cur, next: Cur)
    requires c.pos < |c.text| && c.text[c.pos] != CmdSep && c.text[c.pos] != EOF && next == Cursor(c.text, c.pos + 1, true)
    ensures ConsumeToEndOfCmd(c) == Consumed([c.text[c.pos]] + ConsumeToEndOfCmd(next).text, ConsumeToEndOfCmd(next).cur)
  {
  }

  lemma {:induction false} ConsumePipes(c: Cur)
    requires c.pos + 1 < |c.text| && c.text[c.pos] == CmdSep && c.text[c.pos + 1] == CmdSep
    ensures ConsumeToEndOfCmd(c) == Consumed("", Cursor(c.text, c.pos + 2, true))
  {
  }

  /** Consuming stops at "||", which is consumed but not returned. */
  lemma {:induction false} ConsumeChain(c: Cur, t: string, u: string)
    requires NoSep(t) && c.text[c.pos..] == t + "||" + u
    ensures ConsumeToEndOfCmd(c) == Consumed(t, Cursor(c.text, c.pos + |t| + 2, true))
  {
    PipesText(t, u);
    HeadSep(c.text, c.pos, t, CmdSep, "|" + u);
    ConsumeChainAt(c, t);
  }

  lemma {:induction false} PipesText(t: string, u: string)
    ensures t + "||" + u == t + ([CmdSep] + ("|" + u)) && "|" + u == [CmdSep] + u
  {
  }

  lemma {:induction false} ConsumeChainAt(c: Cur, t: string)
    requires NoSep(t) && c.pos + |t| + 1 < |c.text| && c.text[c.pos..c.pos + |t|] == t
    requires c.text[c.pos + |t|] == CmdSep && c.text[c.pos + |t| + 1] == CmdSep
    ensures ConsumeToEndOfCmd(c) == Consumed(t, Cursor(c.text, c.pos + |t| + 2, true))
    decreases |t|
  {
    if t == [] {
      ConsumePipes(c);
    } else {
      SliceTail(c.text, c.pos, t);
      var next := Cursor(c.text, c.pos + 1, true);
      ConsumeChainAt(next, t[1..]);
      ConsumeTakes(c, next);
      HeadTail(t);
    }
  }

  // ---- steps of the trait loop ----

  lemma {:induction false} KeyCharsTail(n: string)
    requires n != [] && KeyChars(n)
    ensures KeyChars(n[1..])
  {
    assert forall i :: 0 <= i < |n[1..]| ==> n[1..][i] == n[i + 1];
  }

  lemma {:induction false} FirstKey(ch: char)
    requires IsAsciiLetter(ch)
    ensures TraitKey(ToLowerAscii([ch]))
  {
  }

  lemma {:induction false} KeyWhole(c: Cur, fb: string, n: string, u: string)
    requires KeyName(n) && c.text[c.pos..] == n + u && (u == [] || !IsAdvArgName(u[0]))
    ensures c.pos < |c.text| && c.text[c.pos] == n[0] && TraitKey(ToLowerAscii([n[0]]))
    ensures KeyFrom(Cursor(c.text, c.pos + 1, true), ToLowerAscii([n[0]]), fb + [n[0]])
         == KeyRead(Cursor(c.text, c.pos + |n|, false), ToLowerAscii(n), fb + n)
  {
    PrefixStop(c.text, c.pos, n, u);
    SliceTail(c.text, c.pos, n);
    KeyWholeAt(c, fb, n);
  }

  lemma {:induction false} KeyWholeAt(c: Cur, fb: string, n: string)
    requires KeyName(n) && c.pos + |n| <= |c.text| && c.text[c.pos] == n[0]
    requires c.text[c.pos + 1..c.pos + 1 + |n[1..]|] == n[1..]
    requires c.pos + |n| == |c.text| || !IsAdvArgName(c.text[c.pos + |n|])
    ensures TraitKey(ToLowerAscii([n[0]]))
    ensures KeyFrom(Cursor(c.text, c.pos + 1, true), ToLowerAscii([n[0]]), fb + [n[0]])
         == KeyRead(Cursor(c.text, c.pos + |n|, false), ToLowerAscii(n), fb + n)
  {
    var key := ToLowerAscii([n[0]]);
    FirstKey(n[0]);
    KeyCharsTail(n);
    KeyRunAt(Cursor(c.text, c.pos + 1, true), key, fb + [n[0]], n[1..]);
    KeyAppend([], fb, n);
    NoneBefore(key);
  }

  lemma {:induction false} TraitsTakesKey(c: Cur, traits: map<string, TraitValue>, fb: string, floatOk: FloatOk, k: KeyRead)
    requires c.pos < |c.text| && IsAsciiLetter(c.text[c.pos])
    requires KeyFrom(Cursor(c.text, c.pos + 1, true), ToLowerAscii([c.text[c.pos]]), fb + [c.text[c.pos]]) == k
    ensures TraitsFrom(c, traits, fb, floatOk) == TraitEntry(k, traits, floatOk)
  {
  }

  /** A key is read whole, lower-cased, and copied to the fallback text. */
  lemma {:induction false} TraitsKey(c: Cur, traits: map<string, TraitValue>, fb: string, floatOk: FloatOk, n: string, u: string)
    requires KeyName(n)
    requires c.text[c.pos..] == n + u && (u == [] || !IsAdvArgName(u[0]))
    ensures TraitKey(ToLowerAscii(n))
    ensures TraitsFrom(c, traits, fb, floatOk) == TraitEntry(KeyRead(Cursor(c.text, c.pos + |n|, false), ToLowerAscii(n), fb + n), traits, floatOk)
  {
    KeyWhole(c, fb, n, u);
    var k := KeyRead(Cursor(c.text, c.pos + |n|, false), ToLowerAscii(n), fb + n);
    TraitsTakesKey(c, traits, fb, floatOk, k);
    KeyFromKey(Cursor(c.text, c.pos + 1, true), ToLowerAscii([n[0]]), fb + [n[0]]);
  }

  /** A key followed by the end, '|', '#' or whitespace is the flag true. */
  lemma {:induction false} EntryFlag(k: KeyRead, traits: map<string, TraitValue>, floatOk: FloatOk)
    requires k.cur.pos == |k.cur.text| || (var ch := k.cur.text[k.cur.pos]; ch == EOF || ch == CmdSep || ch == TraitsStart || IsWhitespace(ch))
    ensures TraitEntry(k, traits, floatOk) == AfterTrait(Cursor(k.cur.text, k.cur.pos, false), traits[k.key := TBool(true)], k.fb, floatOk)
  {
  }

  lemma {:induction false} EntryTakes(k: KeyRead, traits: map<string, TraitValue>, floatOk: FloatOk, value: TraitValue, raw: string, cur: Cur)
    requires k.cur.pos < |k.cur.text| && k.cur.text[k.cur.pos] == AdvArgEq
    requires ParseTraitValue(Cursor(k.cur.text, k.cur.pos + 1, true), floatOk) == Success(ValueRead(value, raw, cur))
    ensures TraitEntry(k, traits, floatOk) == AfterTrait(cur, traits[k.key := value], k.fb + [AdvArgEq] + raw, floatOk)
  {
    var eq := Read(Peek(k.cur).cur);
    assert eq.ch == AdvArgEq && eq.cur == Cursor(k.cur.text, k.cur.pos + 1, true);
  }

  lemma {:induction false} ValueUnquotedStep(c: Cur, floatOk: FloatOk, t: TextRead)
    requires c.pos == |c.text| || (!IsQuote(c.text[c.pos]) && c.text[c.pos] != ArrayStart)
    requires UnquotedFrom(Cursor(c.text, c.pos, false), false, [], []) == t
    ensures ParseTraitValue(c, floatOk) == Success(ValueRead(InferType(t.val, false, floatOk), t.raw, t.cur))
  {
  }

  lemma {:induction false} ValueQuotedStep(c: Cur, floatOk: FloatOk, r: Result<TextRead>)
    requires c.pos < |c.text| && IsQuote(c.text[c.pos])
    requires QuotedFrom(Cursor(c.text, c.pos + 1, true), c.text[c.pos], [c.text[c.pos]], []) == r
    ensures r.Success? ==> ParseTraitValue(c, floatOk) == Success(ValueRead(TStr(r.value.val), r.value.raw, r.value.cur))
    ensures r.Failure? ==> ParseTraitValue(c, floatOk) == Failure(r.error)
  {
  }

  lemma {:induction false} ValueArrayStep(c: Cur, floatOk: FloatOk)
    requires c.pos < |c.text| && c.text[c.pos] == ArrayStart
    ensures ParseTraitValue(c, floatOk) == ArrayFrom(Cursor(c.text, c.pos + 1, true), [], [ArrayStart], floatOk)
  {
  }

  lemma {:induction false} ElementUnquotedStep(c: Cur, floatOk: FloatOk, t: TextRead)
    requires c.pos == |c.text| || !IsQuote(c.text[c.pos])
    requires UnquotedFrom(Cursor(c.text, c.pos, false), true, [], []) == t
    ensures ParseArrayElement(c, floatOk) == Success(ValueRead(InferType(TrimSpace(t.val), false, floatOk), t.raw, t.cur))
  {
  }

  lemma {:induction false} EntryValueFails(k: KeyRead, traits: map<string, TraitValue>, floatOk: FloatOk, e: Error)
    requires k.cur.pos < |k.cur.text| && k.cur.text[k.cur.pos] == AdvArgEq
    requires ParseTraitValue(Cursor(k.cur.text, k.cur.pos + 1, true), floatOk) == Failure(e)
    ensures TraitEntry(k, traits, floatOk) == Failure(e)
  {
  }

  /** An unquoted value that does not open a quote or an array. */
  lemma {:induction false} ValuePlain(c: Cur, floatOk: FloatOk, v: string, u: string)
    requires c.text[c.pos..] == v + u
    requires PlainValue(v, false) && (v == [] || (!IsQuote(v[0]) && v[0] != ArrayStart))
    requires u == [] || StopsUnquoted(u[0], false)
    ensures ParseTraitValue(c, floatOk) == Success(ValueRead(InferType(v, false, floatOk), v, Cursor(c.text, c.pos + |v|, false)))
  {
    SliceSplit(c.text, c.pos, v, u);
    if v != [] {
      RestAfterFirst(c.text, c.pos, v, u);
    } else if u != [] {
      RestAfterFirst(c.text, c.pos, u, []);
    }
    UnquotedRun(Cursor(c.text, c.pos, false), false, [], [], v, u);
    assert [] + v == v;
    ValueUnquotedStep(c, floatOk, TextRead(v, v, Cursor(c.text, c.pos + |v|, false)));
  }


  /** A quoted value without escapes. */
  lemma {:induction false} ValueQuoted(c: Cur, floatOk: FloatOk, quote: char, v: string, u: string)
    requires IsQuote(quote) && QuotedChars(v, quote)
    requires c.text[c.pos..] == [quote] + v + [quote] + u
    ensures ParseTraitValue(c, floatOk) == Success(ValueRead(TStr(v), [quote] + v + [quote], Cursor(c.text, c.pos + |v| + 2, true)))
  {
    assert [quote] + v + [quote] + u == [quote] + (v + [quote] + u);
    RestAfterFirst(c.text, c.pos, [quote], v + [quote] + u);
    var d := Cursor(c.text, c.pos + 1, true);
    QuotedRun(d, quote, [quote], [], v, u);
    var e := Cursor(d.text, d.pos + |v| + 1, true);
    assert [] + v == v;
    ValueQuotedStep(c, floatOk, Success(TextRead(v, [quote] + v + [quote], e)));
    assert e == Cursor(c.text, c.pos + |v| + 2, true);
  }


  /** `key=value` with an unquoted value stores the typed value. */
  lemma {:induction false} EntryValue(k: KeyRead, traits: map<string, TraitValue>, floatOk: FloatOk, v: string, u: string)
    requires k.cur.text[k.cur.pos..] == [AdvArgEq] + v + u
    requires PlainValue(v, false) && (v == [] || (!IsQuote(v[0]) && v[0] != ArrayStart))
    requires u == [] || StopsUnquoted(u[0], false)
    ensures TraitEntry(k, traits, floatOk)
         == AfterTrait(Cursor(k.cur.text, k.cur.pos + 1 + |v|, false), traits[k.key := InferType(v, false, floatOk)], k.fb + [AdvArgEq] + v, floatOk)
  {
    EqText(k.cur.text, k.cur.pos, v, u);
    EntryValueAt(k, traits, floatOk, v, u);
  }

  lemma {:induction false} EqText(text: string, pos: nat, v: string, u: string)
    requires pos <= |text| && text[pos..] == [AdvArgEq] + v + u
    ensures pos < |text| && text[pos] == AdvArgEq && text[pos + 1..] == v + u
  {
    assert [AdvArgEq] + v + u == [AdvArgEq] + (v + u);
    RestAfterFirst(text, pos, [AdvArgEq], v + u);
  }

  lemma {:induction false} EntryValueAt(k: KeyRead, traits: map<string, TraitValue>, floatOk: FloatOk, v: string, u: string)
    requires k.cur.pos < |k.cur.text| && k.cur.text[k.cur.pos] == AdvArgEq && k.cur.text[k.cur.pos + 1..] == v + u
    requires PlainValue(v, false) && (v == [] || (!IsQuote(v[0]) && v[0] != ArrayStart))
    requires u == [] || StopsUnquoted(u[0], false)
    ensures TraitEntry(k, traits, floatOk)
         == AfterTrait(Cursor(k.cur.text, k.cur.pos + 1 + |v|, false), traits[k.key := InferType(v, false, floatOk)], k.fb + [AdvArgEq] + v, floatOk)
  {
    ValuePlain(Cursor(k.cur.text, k.cur.pos + 1, true), floatOk, v, u);
    EntryTakes(k, traits, floatOk, InferType(v, false, floatOk), v, Cursor(k.cur.text, k.cur.pos + 1 + |v|, false));
  }

  /** `key="text"` stores the text as a string. */
  lemma {:induction false} EntryQuoted(k: KeyRead, traits: map<string, TraitValue>, floatOk: FloatOk, quote: char, v: string, u: string)
    requires IsQuote(quote) && QuotedChars(v, quote)
    requires k.cur.text[k.cur.pos..] == [AdvArgEq] + ([quote] + v + [quote] + u)
    ensures TraitEntry(k, traits, floatOk)
         == AfterTrait(Cursor(k.cur.text, k.cur.pos + |v| + 3, true), traits[k.key := TStr(v)], k.fb + [AdvArgEq] + ([quote] + v + [quote]), floatOk)
  {
    RestAfterFirst(k.cur.text, k.cur.pos, [AdvArgEq], [quote] + v + [quote] + u);
    var d := Cursor(k.cur.text, k.cur.pos + 1, true);
    ValueQuoted(d, floatOk, quote, v, u);
    var e := Cursor(d.text, d.pos + |v| + 2, true);
    EntryTakes(k, traits, floatOk, TStr(v), [quote] + v + [quote], e);
    assert e == Cursor(k.cur.text, k.cur.pos + |v| + 3, true);
  }

  /** A quote that is never closed fails the whole scan. */
  lemma {:induction false} EntryUnclosed(k: KeyRead, traits: map<string, TraitValue>, floatOk: FloatOk, quote: char, v: string)
    requires IsQuote(quote) && QuotedChars(v, quote)
    requires k.cur.text[k.cur.pos..] == [AdvArgEq, quote] + v
    ensures TraitEntry(k, traits, floatOk) == Failure(UnmatchedQuote)
  {
    var t := k.cur.text;
    RestAfterFirst(t, k.cur.pos, [AdvArgEq, quote], v);
    RestAfterFirst(t, k.cur.pos + 1, [quote], v);
    var at := Cursor(t, k.cur.pos + 1, true);
    QuotedUnclosed(Cursor(t, k.cur.pos + 2, true), quote, [quote], [], v);
    ValueQuotedStep(at, floatOk, Failure(UnmatchedQuote));
    EntryValueFails(k, traits, floatOk, UnmatchedQuote);
  }


  /** Any other character after a key makes the segment malformed: the
      rest of the command is consumed and handed back. */
  lemma {:induction false} EntryInvalid(k: KeyRead, traits: map<string, TraitValue>, floatOk: FloatOk, ch: char, t: string)
    requires k.cur.text[k.cur.pos..] == [ch] + t && NoSep(t)
    requires ch != AdvArgEq && ch != EOF && ch != CmdSep && ch != TraitsStart && !IsWhitespace(ch)
    ensures TraitEntry(k, traits, floatOk)
         == Success(TraitsRead(TraitsResult(traits, k.fb + [ch] + t, k.key, true), Cursor(k.cur.text, |k.cur.text|, false)))
  {
    assert NoSep([ch] + t);
    ConsumeEnd(Cursor(k.cur.text, k.cur.pos, false), [ch] + t);
    assert k.fb + ([ch] + t) == k.fb + [ch] + t;
  }

  lemma {:induction false} AfterAtEnd(c: Cur, traits: map<string, TraitValue>, fb: string, floatOk: FloatOk)
    requires c.pos == |c.text|
    ensures AfterTrait(c, traits, fb, floatOk) == Success(Done(traits, Cursor(c.text, c.pos, false)))
  {
  }

  /** "||" ends the command and the scan. */
  lemma {:induction false} AfterChain(c: Cur, traits: map<string, TraitValue>, fb: string, floatOk: FloatOk)
    requires c.pos + 1 < |c.text| && c.text[c.pos] == CmdSep && c.text[c.pos + 1] == CmdSep
    ensures AfterTrait(c, traits, fb, floatOk) == Success(Done(traits, Cursor(c.text, c.pos + 2, true)))
  {
  }

  lemma {:induction false} AfterBlank(c: Cur, traits: map<string, TraitValue>, fb: string, floatOk: FloatOk)
    requires c.pos < |c.text| && IsWhitespace(c.text[c.pos])
    ensures AfterTrait(c, traits, fb, floatOk) == AfterTrait(Cursor(c.text, c.pos + 1, true), traits, fb + [c.text[c.pos]], floatOk)
  {
  }

  lemma {:induction false} AfterHash(c: Cur, traits: map<string, TraitValue>, fb: string, floatOk: FloatOk)
    requires c.pos < |c.text| && c.text[c.pos] == TraitsStart
    ensures AfterTrait(c, traits, fb, floatOk) == TraitsFrom(Cursor(c.text, c.pos + 1, true), traits, fb + [TraitsStart], floatOk)
  {
  }

  /** Whitespace and then '#' lead to the next trait. */
  lemma {:induction false} AfterNext(c: Cur, traits: map<string, TraitValue>, fb: string, floatOk: FloatOk)
    requires c.pos + 1 < |c.text| && IsWhitespace(c.text[c.pos]) && c.text[c.pos + 1] == TraitsStart
    ensures AfterTrait(c, traits, fb, floatOk) == TraitsFrom(Cursor(c.text, c.pos + 2, true), traits, fb + [c.text[c.pos]] + [TraitsStart], floatOk)
  {
    AfterBlank(c, traits, fb, floatOk);
    var d := Cursor(c.text, c.pos + 1, true);
    AfterHash(d, traits, fb + [c.text[c.pos]], floatOk);
    assert Cursor(d.text, d.pos + 1, true) == Cursor(c.text, c.pos + 2, true);
  }

  /** Any other character ends the scan and is left unread. */
  lemma {:induction false} AfterOther(c: Cur, traits: map<string, TraitValue>, fb: string, floatOk: FloatOk)
    requires c.pos < |c.text|
    requires var ch := c.text[c.pos]; ch != EOF && ch != CmdSep && ch != TraitsStart && !IsWhitespace(ch)
    ensures AfterTrait(c, traits, fb, floatOk) == Success(Done(traits, Cursor(c.text, c.pos, false)))
  {
  }

  /** A first character that cannot start a key makes the segment
      malformed; the fallback text is everything from the '#' on. */
  lemma {:induction false} TraitsBadStart(c: Cur, traits: map<string, TraitValue>, fb: string, floatOk: FloatOk, ch: char, t: string)
    requires c.text[c.pos..] == [ch] + t && NoSep(t)
    requires ch != EOF && !IsAsciiLetter(ch)
    ensures TraitsFrom(c, traits, fb, floatOk)
         == Success(TraitsRead(TraitsResult(traits, fb + [ch] + t, fb + [ch] + t, true), Cursor(c.text, |c.text|, false)))
  {
    RestAfterFirst(c.text, c.pos, [ch], t);
    assert t == [ch][1..] + t;
    ConsumeEnd(Cursor(c.text, c.pos + 1, true), t);
  }

  // ---- arrays ----

  /** The text of an array after its '[': the elements separated by ','
      and then ']'. */
  function ArrayBody(es: seq<string>): (t: string)
    ensures |t| > 0
  {
    if es == [] then [ArrayEnd]
    else if |es| == 1 then es[0] + [ArrayEnd]
    else es[0] + [ArraySep] + ArrayBody(es[1..])
  }

  /** The value an unquoted element stands for: trimmed, then typed. */
  function ElemValue(v: string, floatOk: FloatOk): TraitValue {
    InferType(TrimSpace(v), false, floatOk)
  }

  /** A way of typing elements; the array loop is proved for any of them. */
  type ElemTyper = (string, FloatOk) -> TraitValue

  function TypedBy(es: seq<string>, ty: ElemTyper, floatOk: FloatOk): (vs: seq<TraitValue>)
    ensures |vs| == |es|
  {
    if es == [] then [] else [ty(es[0], floatOk)] + TypedBy(es[1..], ty, floatOk)
  }

  /** The values unquoted elements stand for. */
  function Typed(es: seq<string>, floatOk: FloatOk): (vs: seq<TraitValue>)
    ensures |vs| == |es|
  {
    TypedBy(es, ElemValue, floatOk)
  }

  /** An element written without quotes, escapes, blanks or brackets. */
  predicate PlainElem(v: string) {
    v != [] && PlainValue(v, true) && !IsQuote(v[0])
  }

  /** Elements that are all plain. */
  predicate PlainElems(es: seq<string>) {
    es == [] || (PlainElem(es[0]) && PlainElems(es[1..]))
  }

  lemma {:induction false} ArrayCloses(c: Cur, elems: seq<TraitValue>, raw: string, floatOk: FloatOk)
    requires c.pos < |c.text| && c.text[c.pos] == ArrayEnd
    ensures ArrayFrom(c, elems, raw, floatOk) == Success(ValueRead(TArray(elems), raw + [ArrayEnd], Cursor(c.text, c.pos + 1, true)))
  {
  }

  lemma {:induction false} ArrayTakes(c: Cur, elems: seq<TraitValue>, raw: string, floatOk: FloatOk, e: ValueRead)
    requires c.pos < |c.text| && !IsWhitespace(c.text[c.pos]) && c.text[c.pos] != EOF && c.text[c.pos] != ArrayEnd
    requires ParseArrayElement(Cursor(c.text, c.pos, false), floatOk) == Success(e)
    ensures ArrayFrom(c, elems, raw, floatOk) == AfterElement(e.cur, elems + [e.value], raw + e.raw, floatOk)
  {
  }

  /** An unquoted element is trimmed and typed. */
  lemma {:induction false} ElementPlain(c: Cur, floatOk: FloatOk, v: string, u: string)
    requires v != [] && PlainValue(v, true) && !IsQuote(v[0])
    requires c.text[c.pos..] == v + u && (u == [] || StopsUnquoted(u[0], true))
    ensures ParseArrayElement(c, floatOk) == Success(ValueRead(InferType(TrimSpace(v), false, floatOk), v, Cursor(c.text, c.pos + |v|, false)))
  {
    RestAfterFirst(c.text, c.pos, v, u);
    UnquotedRun(Cursor(c.text, c.pos, false), true, [], [], v, u);
    assert [] + v == v;
    ElementUnquotedStep(c, floatOk, TextRead(v, v, Cursor(c.text, c.pos + |v|, false)));
  }


  lemma {:induction false} AfterCloses(c: Cur, elems: seq<TraitValue>, raw: string, floatOk: FloatOk)
    requires c.pos < |c.text| && c.text[c.pos] == ArrayEnd
    ensures AfterElement(c, elems, raw, floatOk) == Success(ValueRead(TArray(elems), raw + [ArrayEnd], Cursor(c.text, c.pos + 1, true)))
  {
  }

  lemma {:induction false} AfterComma(c: Cur, elems: seq<TraitValue>, raw: string, floatOk: FloatOk)
    requires c.pos < |c.text| && c.text[c.pos] == ArraySep
    ensures AfterElement(c, elems, raw, floatOk) == ArrayFrom(Cursor(c.text, c.pos + 1, true), elems, raw + [ArraySep], floatOk)
  {
    NoBlanks(c, raw);
  }

  /** Blanks are skipped up to the first other character. */
  lemma {:induction false} NoBlanks(c: Cur, raw: string)
    requires c.pos < |c.text| && !IsWhitespace(c.text[c.pos])
    ensures SkipBlanks(c, raw) == Skipped(c.(canUnread := false), raw)
  {
  }

  /** After an element, the end of the input or any character other than
      whitespace, ',' and ']' is an unmatched bracket. */
  lemma {:induction false} AfterBad(c: Cur, elems: seq<TraitValue>, raw: string, floatOk: FloatOk)
    requires c.pos == |c.text| || (var ch := c.text[c.pos]; !IsWhitespace(ch) && ch != ArraySep && ch != ArrayEnd)
    ensures AfterElement(c, elems, raw, floatOk) == Failure(UnmatchedArrayBracket)
  {
  }

  lemma {:induction false} BodyShape(es: seq<string>, u: string)
    requires es != []
    ensures |es| == 1 ==> ArrayBody(es) + u == es[0] + ([ArrayEnd] + u)
    ensures |es| > 1 ==> ArrayBody(es) + u == es[0] + ([ArraySep] + (ArrayBody(es[1..]) + u))
  {
  }

  lemma {:induction false} TypedCons(es: seq<string>, elems: seq<TraitValue>, ty: ElemTyper, floatOk: FloatOk)
    requires es != []
    ensures elems + [ty(es[0], floatOk)] + TypedBy(es[1..], ty, floatOk) == elems + TypedBy(es, ty, floatOk)
  {
  }

  lemma {:induction false} TypedOne(es: seq<string>, ty: ElemTyper, floatOk: FloatOk)
    requires |es| == 1
    ensures TypedBy(es[1..], ty, floatOk) == []
  {
  }

  lemma {:induction false} BodyOne(es: seq<string>, raw: string)
    requires |es| == 1
    ensures raw + es[0] + [ArrayEnd] == raw + ArrayBody(es)
  {
  }

  lemma {:induction false} BodyMore(es: seq<string>, raw: string)
    requires |es| > 1
    ensures raw + es[0] + [ArraySep] + ArrayBody(es[1..]) == raw + ArrayBody(es)
  {
  }


  /** The array loop as a pair of functions of the cursor, the elements so
      far and the raw text so far. */
  type ArrayLoop = (Cur, seq<TraitValue>, string) -> Result<ValueRead>

  function ArrayFromOf(floatOk: FloatOk): ArrayLoop {
    (c: Cur, elems: seq<TraitValue>, raw: string) => ArrayFrom(c, elems, raw, floatOk)
  }

  function AfterElementOf(floatOk: FloatOk): ArrayLoop {
    (c: Cur, elems: seq<TraitValue>, raw: string) => AfterElement(c, elems, raw, floatOk)
  }

  /** The moves of the array loop over a body of plain elements: ']' closes
      it, ',' leads to the next element, and a plain element `v` followed by
      a stop character is trimmed, typed and appended. */
  ghost predicate ArrayMovesAt(fa: ArrayLoop, fe: ArrayLoop, ty: ElemTyper, floatOk: FloatOk, c: Cur, elems: seq<TraitValue>, raw: string, v: string) {
    (c.pos < |c.text| && c.text[c.pos] == ArrayEnd ==>
       fa(c, elems, raw) == Success(ValueRead(TArray(elems), raw + [ArrayEnd], Cursor(c.text, c.pos + 1, true)))
       && fe(c, elems, raw) == Success(ValueRead(TArray(elems), raw + [ArrayEnd], Cursor(c.text, c.pos + 1, true))))
    && (c.pos < |c.text| && c.text[c.pos] == ArraySep ==>
       fe(c, elems, raw) == fa(Cursor(c.text, c.pos + 1, true), elems, raw + [ArraySep]))
    && (PlainElem(v) && c.pos + |v| < |c.text| && c.text[c.pos..c.pos + |v|] == v && StopsUnquoted(c.text[c.pos + |v|], true) ==>
       fa(c, elems, raw) == fe(Cursor(c.text, c.pos + |v|, false), elems + [ty(v, floatOk)], raw + v))
  }

  ghost predicate ArrayMoves(fa: ArrayLoop, fe: ArrayLoop, ty: ElemTyper, floatOk: FloatOk) {
    forall c: Cur, elems: seq<TraitValue>, raw: string, v: string :: ArrayMovesAt(fa, fe, ty, floatOk, c, elems, raw, v)
  }

  lemma {:induction false} ArrayElementMove(c: Cur, elems: seq<TraitValue>, raw: string, floatOk: FloatOk, v: string)
    requires PlainElem(v) && c.pos + |v| < |c.text| && c.text[c.pos..c.pos + |v|] == v && StopsUnquoted(c.text[c.pos + |v|], true)
    ensures ArrayFrom(c, elems, raw, floatOk)
         == AfterElement(Cursor(c.text, c.pos + |v|, false), elems + [ElemValue(v, floatOk)], raw + v, floatOk)
  {
    ElemText(c.text, c.pos, v);
    ArrayElementAt(c, elems, raw, floatOk, v, c.text[c.pos + |v|..]);
  }

  lemma {:induction false} ElemText(text: string, pos: nat, v: string)
    requires v != [] && pos + |v| < |text| && text[pos..pos + |v|] == v
    ensures text[pos..] == v + text[pos + |v|..] && text[pos] == v[0]
    ensures text[pos + |v|..] != [] && text[pos + |v|..][0] == text[pos + |v|]
  {
    assert text[pos..] == text[pos..pos + |v|] + text[pos + |v|..];
  }

  lemma {:induction false} ArrayElementAt(c: Cur, elems: seq<TraitValue>, raw: string, floatOk: FloatOk, v: string, u: string)
    requires PlainElem(v) && c.text[c.pos..] == v + u && c.pos < |c.text| && c.text[c.pos] == v[0] && u != [] && StopsUnquoted(u[0], true)
    ensures ArrayFrom(c, elems, raw, floatOk)
         == AfterElement(Cursor(c.text, c.pos + |v|, false), elems + [ElemValue(v, floatOk)], raw + v, floatOk)
  {
    ElementPlain(Cursor(c.text, c.pos, false), floatOk, v, u);
    ArrayTakes(c, elems, raw, floatOk, ValueRead(ElemValue(v, floatOk), v, Cursor(c.text, c.pos + |v|, false)));
  }

  lemma {:induction false} ArrayLoopSteps(floatOk: FloatOk)
    ensures ArrayMoves(ArrayFromOf(floatOk), AfterElementOf(floatOk), ElemValue, floatOk)
  {
    var fa, fe, ty := ArrayFromOf(floatOk), AfterElementOf(floatOk), ElemValue;
    forall c: Cur, elems: seq<TraitValue>, raw: string, v: string ensures ArrayMovesAt(fa, fe, ty, floatOk, c, elems, raw, v) {
      if c.pos < |c.text| && c.text[c.pos] == ArrayEnd {
        ArrayCloses(c, elems, raw, floatOk);
        AfterCloses(c, elems, raw, floatOk);
      }
      if c.pos < |c.text| && c.text[c.pos] == ArraySep {
        AfterComma(c, elems, raw, floatOk);
      }
      if PlainElem(v) && c.pos + |v| < |c.text| && c.text[c.pos..c.pos + |v|] == v && StopsUnquoted(c.text[c.pos + |v|], true) {
        ArrayElementMove(c, elems, raw, floatOk, v);
      }
    }
  }

  lemma {:induction false} UseArrayMoves(fa: ArrayLoop, fe: ArrayLoop, ty: ElemTyper, floatOk: FloatOk, c: Cur, elems: seq<TraitValue>, raw: string, v: string)
    requires ArrayMoves(fa, fe, ty, floatOk)
    ensures ArrayMovesAt(fa, fe, ty, floatOk, c, elems, raw, v)
  {
  }

  /** The body `es` is written in `text` from `pos` on: each element, then
      ',' before the next one or ']' after the last. */
  ghost predicate BodyAt(text: string, pos: nat, es: seq<string>)
    decreases |es|
  {
    if es == [] then pos < |text| && text[pos] == ArrayEnd
    else
      pos + |es[0]| < |text| && text[pos..pos + |es[0]|] == es[0]
      && (if |es| == 1 then text[pos + |es[0]|] == ArrayEnd
          else text[pos + |es[0]|] == ArraySep && BodyAt(text, pos + |es[0]| + 1, es[1..]))
  }

  lemma {:induction false} BodyLen(es: seq<string>)
    ensures es == [] ==> |ArrayBody(es)| == 1
    ensures |es| == 1 ==> |ArrayBody(es)| == |es[0]| + 1
    ensures |es| > 1 ==> |ArrayBody(es)| == |es[0]| + 1 + |ArrayBody(es[1..])|
  {
  }

  lemma {:induction false} HeadSep(text: string, pos: nat, a: string, ch: char, rest: string)
    requires pos <= |text| && text[pos..] == a + ([ch] + rest)
    ensures pos + |a| < |text| && text[pos..pos + |a|] == a
    ensures text[pos + |a|] == ch && text[pos + |a| + 1..] == rest
  {
    SliceSplit(text, pos, a, [ch] + rest);
    assert text[pos + |a|..][1..] == text[pos + |a| + 1..];
  }

  lemma {:induction false} BodyHead(text: string, pos: nat, es: seq<string>, u: string)
    requires es != [] && pos <= |text| && text[pos..] == ArrayBody(es) + u
    ensures pos + |es[0]| < |text| && text[pos..pos + |es[0]|] == es[0]
    ensures text[pos + |es[0]|] == (if |es| == 1 then ArrayEnd else ArraySep)
    ensures |es| > 1 ==> text[pos + |es[0]| + 1..] == ArrayBody(es[1..]) + u
  {
    BodyShape(es, u);
    if |es| == 1 {
      HeadSep(text, pos, es[0], ArrayEnd, u);
    } else {
      HeadSep(text, pos, es[0], ArraySep, ArrayBody(es[1..]) + u);
    }
  }

  lemma {:induction false} BodyAtOf(text: string, pos: nat, es: seq<string>, u: string)
    requires pos <= |text| && text[pos..] == ArrayBody(es) + u
    ensures BodyAt(text, pos, es)
    ensures pos + |ArrayBody(es)| <= |text|
    decreases |es|
  {
    SliceSplit(text, pos, ArrayBody(es), u);
    if es == [] {
      RestAfterFirst(text, pos, [ArrayEnd], u);
    } else {
      BodyHead(text, pos, es, u);
      if |es| > 1 {
        BodyAtOf(text, pos + |es[0]| + 1, es[1..], u);
      }
    }
  }

  lemma {:induction false} SameArray(text: string, v1: seq<TraitValue>, v2: seq<TraitValue>, r1: string, r2: string, p1: nat, p2: nat)
    requires v1 == v2 && r1 == r2 && 0 < p1 == p2 <= |text|
    ensures Success(ValueRead(TArray(v1), r1, Cursor(text, p1, true))) == Success(ValueRead(TArray(v2), r2, Cursor(text, p2, true)))
  {
  }

  lemma {:induction false} ArrayRunWith(fa: ArrayLoop, fe: ArrayLoop, ty: ElemTyper, floatOk: FloatOk, c: Cur, elems: seq<TraitValue>, raw: string, es: seq<string>)
    requires ArrayMoves(fa, fe, ty, floatOk)
    requires PlainElems(es) && BodyAt(c.text, c.pos, es)
    requires c.pos + |ArrayBody(es)| <= |c.text|
    ensures fa(c, elems, raw)
         == Success(ValueRead(TArray(elems + TypedBy(es, ty, floatOk)), raw + ArrayBody(es), Cursor(c.text, c.pos + |ArrayBody(es)|, true)))
    decreases |es|
  {
    BodyLen(es);
    if es == [] {
      UseArrayMoves(fa, fe, ty, floatOk, c, elems, raw, []);
      assert elems + TypedBy(es, ty, floatOk) == elems;
    } else if |es| == 1 {
      ArrayRunLast(fa, fe, ty, floatOk, c, elems, raw, es);
    } else {
      var next := Cursor(c.text, c.pos + |es[0]| + 1, true);
      var elems' := elems + [ty(es[0], floatOk)];
      ArrayRunWith(fa, fe, ty, floatOk, next, elems', raw + es[0] + [ArraySep], es[1..]);
      ArrayNextChain(fa, fe, ty, floatOk, c, elems, raw, es);
    }
  }

  /** The first element and its ',' lead to the rest of the body, whose
      result is that of the whole body. */
  lemma {:induction false} ArrayNextChain(fa: ArrayLoop, fe: ArrayLoop, ty: ElemTyper, floatOk: FloatOk, c: Cur, elems: seq<TraitValue>, raw: string, es: seq<string>)
    requires ArrayMoves(fa, fe, ty, floatOk)
    requires |es| > 1 && PlainElem(es[0]) && c.pos + |es[0]| < |c.text| && c.text[c.pos..c.pos + |es[0]|] == es[0] && c.text[c.pos + |es[0]|] == ArraySep
    requires c.pos + |ArrayBody(es)| <= |c.text|
    requires fa(Cursor(c.text, c.pos + |es[0]| + 1, true), elems + [ty(es[0], floatOk)], raw + es[0] + [ArraySep])
          == Success(ValueRead(TArray(elems + [ty(es[0], floatOk)] + TypedBy(es[1..], ty, floatOk)),
                               raw + es[0] + [ArraySep] + ArrayBody(es[1..]),
                               Cursor(c.text, c.pos + |es[0]| + 1 + |ArrayBody(es[1..])|, true)))
    ensures fa(c, elems, raw)
         == Success(ValueRead(TArray(elems + TypedBy(es, ty, floatOk)), raw + ArrayBody(es), Cursor(c.text, c.pos + |ArrayBody(es)|, true)))
  {
    var e := es[0];
    var elems' := elems + [ty(e, floatOk)];
    var at := Cursor(c.text, c.pos + |e|, false);
    var next := Cursor(c.text, c.pos + |e| + 1, true);
    calc {
      fa(c, elems, raw);
    == { ArrayStepElem(fa, fe, ty, floatOk, c, elems, raw, e); }
      fe(at, elems', raw + e);
    == { ArrayStepSep(fa, fe, ty, floatOk, at, next, elems', raw + e); }
      fa(next, elems', raw + e + [ArraySep]);
    ==
      Success(ValueRead(TArray(elems' + TypedBy(es[1..], ty, floatOk)), raw + e + [ArraySep] + ArrayBody(es[1..]),
                        Cursor(c.text, next.pos + |ArrayBody(es[1..])|, true)));
    == { ArrayNextResult(c.text, elems, raw, es, ty, floatOk, c.pos, next.pos); }
      Success(ValueRead(TArray(elems + TypedBy(es, ty, floatOk)), raw + ArrayBody(es), Cursor(c.text, c.pos + |ArrayBody(es)|, true)));
    }
  }

  /** The last element of a body, then its ']'. */
  lemma {:induction false} ArrayRunLast(fa: ArrayLoop, fe: ArrayLoop, ty: ElemTyper, floatOk: FloatOk, c: Cur, elems: seq<TraitValue>, raw: string, es: seq<string>)
    requires ArrayMoves(fa, fe, ty, floatOk)
    requires |es| == 1 && PlainElem(es[0]) && c.pos + |es[0]| < |c.text| && c.text[c.pos..c.pos + |es[0]|] == es[0] && c.text[c.pos + |es[0]|] == ArrayEnd
    ensures c.pos + |ArrayBody(es)| <= |c.text|
    ensures fa(c, elems, raw)
         == Success(ValueRead(TArray(elems + TypedBy(es, ty, floatOk)), raw + ArrayBody(es), Cursor(c.text, c.pos + |ArrayBody(es)|, true)))
  {
    var e := es[0];
    BodyLen(es);
    UseArrayMoves(fa, fe, ty, floatOk, c, elems, raw, e);
    var at := Cursor(c.text, c.pos + |e|, false);
    var elems' := elems + [ty(e, floatOk)];
    UseArrayMoves(fa, fe, ty, floatOk, at, elems', raw + e, []);
    TypedCons(es, elems, ty, floatOk);
    TypedOne(es, ty, floatOk);
    BodyOne(es, raw);
    calc {
      fa(c, elems, raw);
      fe(at, elems', raw + e);
      Success(ValueRead(TArray(elems'), raw + e + [ArrayEnd], Cursor(c.text, at.pos + 1, true)));
      { assert elems' + TypedBy(es[1..], ty, floatOk) == elems';
        SameArray(c.text, elems', elems + TypedBy(es, ty, floatOk), raw + e + [ArrayEnd], raw + ArrayBody(es), at.pos + 1, c.pos + |ArrayBody(es)|); }
      Success(ValueRead(TArray(elems + TypedBy(es, ty, floatOk)), raw + ArrayBody(es), Cursor(c.text, c.pos + |ArrayBody(es)|, true)));
    }
  }

  /** The loop takes a plain element followed by ','. */
  lemma {:induction false} ArrayStepElem(fa: ArrayLoop, fe: ArrayLoop, ty: ElemTyper, floatOk: FloatOk, c: Cur, elems: seq<TraitValue>, raw: string, v: string)
    requires ArrayMoves(fa, fe, ty, floatOk)
    requires PlainElem(v) && c.pos + |v| < |c.text| && c.text[c.pos..c.pos + |v|] == v && c.text[c.pos + |v|] == ArraySep
    ensures fa(c, elems, raw) == fe(Cursor(c.text, c.pos + |v|, false), elems + [ty(v, floatOk)], raw + v)
  {
    UseArrayMoves(fa, fe, ty, floatOk, c, elems, raw, v);
  }

  /** After an element, ',' leads to the next one. */
  lemma {:induction false} ArrayStepSep(fa: ArrayLoop, fe: ArrayLoop, ty: ElemTyper, floatOk: FloatOk, at: Cur, next: Cur, elems: seq<TraitValue>, raw: string)
    requires ArrayMoves(fa, fe, ty, floatOk)
    requires at.pos < |at.text| && at.text[at.pos] == ArraySep && next == Cursor(at.text, at.pos + 1, true)
    ensures fe(at, elems, raw) == fa(next, elems, raw + [ArraySep])
  {
    UseArrayMoves(fa, fe, ty, floatOk, at, elems, raw, []);
  }

  /** The result after the first element and its ',' is the result of the
      whole body. */
  lemma {:induction false} ArrayNextResult(text: string, elems: seq<TraitValue>, raw: string, es: seq<string>, ty: ElemTyper, floatOk: FloatOk, p: nat, q: nat)
    requires |es| > 1 && p + |ArrayBody(es)| <= |text| && q == p + |es[0]| + 1
    ensures q + |ArrayBody(es[1..])| == p + |ArrayBody(es)|
    ensures Success(ValueRead(TArray(elems + [ty(es[0], floatOk)] + TypedBy(es[1..], ty, floatOk)),
                              raw + es[0] + [ArraySep] + ArrayBody(es[1..]),
                              Cursor(text, q + |ArrayBody(es[1..])|, true)))
         == Success(ValueRead(TArray(elems + TypedBy(es, ty, floatOk)), raw + ArrayBody(es), Cursor(text, p + |ArrayBody(es)|, true)))
  {
    TypedCons(es, elems, ty, floatOk);
    BodyMore(es, raw);
    assert |raw + es[0] + [ArraySep] + ArrayBody(es[1..])| == |raw| + |es[0]| + 1 + |ArrayBody(es[1..])|;
    SameArray(text, elems + [ty(es[0], floatOk)] + TypedBy(es[1..], ty, floatOk), elems + TypedBy(es, ty, floatOk),
              raw + es[0] + [ArraySep] + ArrayBody(es[1..]), raw + ArrayBody(es),
              q + |ArrayBody(es[1..])|, p + |ArrayBody(es)|);
  }

  /** A body of plain elements is read up to and including its ']'. */
  lemma {:induction false} ArrayRun(c: Cur, elems: seq<TraitValue>, raw: string, floatOk: FloatOk, es: seq<string>, u: string)
    requires PlainElems(es) && c.text[c.pos..] == ArrayBody(es) + u
    ensures c.pos + |ArrayBody(es)| <= |c.text|
    ensures ArrayFrom(c, elems, raw, floatOk)
         == Success(ValueRead(TArray(elems + Typed(es, floatOk)), raw + ArrayBody(es), Cursor(c.text, c.pos + |ArrayBody(es)|, true)))
  {
    BodyAtOf(c.text, c.pos, es, u);
    ArrayLoopSteps(floatOk);
    ArrayRunWith(ArrayFromOf(floatOk), AfterElementOf(floatOk), ElemValue, floatOk, c, elems, raw, es);
  }

  /** The body of an array value, after its opening bracket. */
  lemma {:induction false} ArrayOfBody(c: Cur, floatOk: FloatOk, es: seq<string>, u: string)
    requires PlainElems(es) && c.text[c.pos..] == [ArrayStart] + (ArrayBody(es) + u)
    ensures c.pos < |c.text| && c.text[c.pos] == ArrayStart
    ensures ArrayFrom(Cursor(c.text, c.pos + 1, true), [], [ArrayStart], floatOk)
         == Success(ValueRead(TArray([] + Typed(es, floatOk)), [ArrayStart] + ArrayBody(es), Cursor(c.text, c.pos + 1 + |ArrayBody(es)|, true)))
  {
    RestAfterFirst(c.text, c.pos, [ArrayStart], ArrayBody(es) + u);
    var n := Cursor(c.text, c.pos + 1, true);
    assert n.text[n.pos..] == ArrayBody(es) + u;
    ArrayRun(n, [], [ArrayStart], floatOk, es, u);
  }

  lemma {:induction false} NoneBefore<T>(s: seq<T>)
    ensures [] + s == s
  {
  }

  /** An array value: '[' and a body of plain elements. */
  lemma {:induction false} ValueArray(c: Cur, floatOk: FloatOk, es: seq<string>, u: string)
    requires PlainElems(es) && c.text[c.pos..] == [ArrayStart] + (ArrayBody(es) + u)
    ensures ParseTraitValue(c, floatOk)
         == Success(ValueRead(TArray(Typed(es, floatOk)), [ArrayStart] + ArrayBody(es), Cursor(c.text, c.pos + 1 + |ArrayBody(es)|, true)))
  {
    ArrayOfBody(c, floatOk, es, u);
    NoneBefore(Typed(es, floatOk));
    ValueArrayStep(c, floatOk);
  }

}
