/** The argument scanners: JSON literals, the input-macro argument list,
    advanced `?key=value&...` arguments and comma-separated positional
    arguments. Each loop is a step function that either moves on with a
    new state or finishes with an outcome, and a loop that repeats it. */
module Arguments {
  import opened Symbols
  import opened GoStrings
  import opened Reader
  import opened Expressions
  import opened Quoted

  /** JSON validation and re-serialisation of a whole document: `Some`
      with the compact canonical text when the document is valid JSON,
      `None` otherwise. It is supplied by the caller; the model does not
      implement a JSON codec. */
  type Canon = string -> Option<string>

  /** Errors a sub-scanner may raise inside an argument. */
  predicate ArgError(e: Error) {
    e == UnmatchedQuote || e == UnmatchedExpression || e == InvalidUnreadRune || e == InvalidJSON
  }

  // ---- JSON literals ----

  /** The brace counter of the JSON scanner: nesting depth, whether the
      scan is inside a JSON string, and whether the previous character
      was a backslash. */
  datatype JState = JState(depth: int, inString: bool, escaped: bool)

  /** The state right after the opening '{'. */
  const JSONOpen: JState := JState(1, false, false)

  /** One character of the brace counter. A backslash escapes the next
      character wherever it appears; a double quote toggles string mode;
      braces count only outside strings. */
  function JStep(st: JState, ch: char): JState {
    if st.escaped then st.(escaped := false)
    else if ch == JSONEscapeSeq then st.(escaped := true)
    else if ch == JSONString then st.(inString := !st.inString)
    else if st.inString then st
    else if ch == JSONStart then st.(depth := st.depth + 1)
    else if ch == JSONEnd then st.(depth := st.depth - 1)
    else st
  }

  /** The brace counter after a whole text. */
  function JRun(st: JState, s: string): JState
    decreases |s|
  {
    if s == [] then st else JRun(JStep(st, s[0]), s[1..])
  }

  /** `t` is where the scan stops: the counter reaches zero at its last
      character and not before. */
  predicate ClosesJSON(st: JState, t: string) {
    && t != []
    && JRun(st, t).depth == 0
    && forall k :: 0 <= k < |t| ==> JRun(st, t[..k]).depth > 0
  }

  /** Reads the body of a JSON literal after its '{', up to and including
      the brace that brings the depth back to zero. Running out of input
      first is invalid JSON. */
  function JSONSpan(c: Cur, st: JState): (r: Scan<string>)
    requires st.depth > 0
    ensures r.Within(c) && !r.Fallback?
    ensures r.Fail? ==> r.err == InvalidJSON
    ensures r.Ok? ==> c.pos < r.cur.pos
    decreases |c.text| - c.pos
  {
    var s := Read(c);
    if s.ch == EOF then Fail(InvalidJSON)
    else
      var st' := JStep(st, s.ch);
      if st'.depth == 0 then Ok([s.ch], s.cur)
      else
        var rest := JSONSpan(s.cur, st');
        if rest.Fail? then rest else Ok([s.ch] + rest.value, rest.cur)
  }

  /** Called after a '{' that starts an argument. The literal is read by
      brace counting and then validated and re-serialised; text that is not
      valid JSON is an error. */
  function ParseJSONArg(c: Cur, canon: Canon): (r: Scan<string>)
    ensures r.Within(c) && !r.Fallback?
    ensures r.Fail? ==> r.err == InvalidJSON
    ensures r.Ok? ==> c.pos < r.cur.pos
  {
    var span := JSONSpan(c, JSONOpen);
    if span.Fail? then Fail(span.err)
    else
      match canon([JSONStart] + span.value)
      case None => Fail(InvalidJSON)
      case Some(j) => Ok(j, span.cur)
  }

  /** One character in front of a closing span: the counter after the
      character must still be open, so the longer text closes too. */
  lemma {:induction false} JSONCons(st: JState, ch: char, t: string)
    requires st.depth > 0 && ClosesJSON(JStep(st, ch), t)
    ensures ClosesJSON(st, [ch] + t)
  {
    var u := [ch] + t;
    assert u[1..] == t;
    forall k | 0 <= k < |u| ensures JRun(st, u[..k]).depth > 0 {
      if k > 0 {
        assert u[..k][1..] == t[..k - 1];
      }
    }
  }

  /** The first character of a closing span of two or more characters
      leaves the counter open, and the rest closes from there. */
  lemma {:induction false} JSONUncons(st: JState, t: string)
    requires ClosesJSON(st, t) && |t| > 1
    ensures JStep(st, t[0]).depth > 0 && ClosesJSON(JStep(st, t[0]), t[1..])
  {
    var st' := JStep(st, t[0]);
    assert t[..1][1..] == [];
    assert JRun(st, t[..1]) == st';
    forall k | 0 <= k < |t| - 1 ensures JRun(st', t[1..][..k]).depth > 0 {
      assert t[..k + 1][1..] == t[1..][..k];
      assert JRun(st, t[..k + 1]).depth > 0;
    }
  }

  /** What `JSONSpan` reads is a closing span of the text, without the
      sentinel. */
  lemma {:induction false} JSONSpanCloses(c: Cur, st: JState)
    requires st.depth > 0 && JSONSpan(c, st).Ok?
    ensures JSONSpan(c, st).cur.pos <= |c.text|
    ensures JSONSpan(c, st).value == c.text[c.pos..JSONSpan(c, st).cur.pos]
    ensures ClosesJSON(st, JSONSpan(c, st).value) && NoEOF(JSONSpan(c, st).value)
    decreases |c.text| - c.pos
  {
    var s := Read(c);
    var st' := JStep(st, s.ch);
    if st'.depth == 0 {
      assert c.text[c.pos..c.pos + 1] == [s.ch];
    } else {
      var rest := JSONSpan(s.cur, st');
      JSONSpanCloses(s.cur, st');
      JSONCons(st, s.ch, rest.value);
      assert c.text[c.pos..rest.cur.pos] == [s.ch] + c.text[c.pos + 1..rest.cur.pos];
    }
  }

  /** Conversely, a closing span at the cursor is exactly what
      `JSONSpan` reads. */
  lemma {:induction false} JSONSpanExact(c: Cur, st: JState, t: string)
    requires st.depth > 0 && ClosesJSON(st, t) && NoEOF(t)
    requires c.pos + |t| <= |c.text| && c.text[c.pos..c.pos + |t|] == t
    ensures JSONSpan(c, st) == Ok(t, Cursor(c.text, c.pos + |t|, true))
    decreases |t|, 1
  {
    assert c.text[c.pos] == t[0] && t[0] in t;
    if |t| == 1 {
      JSONSpanLast(c, st, t);
    } else {
      JSONSpanMore(c, st, t);
    }
  }

  lemma {:induction false} JSONSpanLast(c: Cur, st: JState, t: string)
    requires st.depth > 0 && ClosesJSON(st, t) && NoEOF(t) && |t| == 1
    requires c.pos + |t| <= |c.text| && c.text[c.pos..c.pos + |t|] == t
    ensures JSONSpan(c, st) == Ok(t, Cursor(c.text, c.pos + |t|, true))
  {
    assert c.text[c.pos] == t[0] && t[0] in t;
    assert t[1..] == [] && t == [t[0]];
    assert JRun(st, t) == JStep(st, t[0]);
  }

  lemma {:induction false} JSONSpanMore(c: Cur, st: JState, t: string)
    requires st.depth > 0 && ClosesJSON(st, t) && NoEOF(t) && |t| > 1
    requires c.pos + |t| <= |c.text| && c.text[c.pos..c.pos + |t|] == t
    ensures JSONSpan(c, st) == Ok(t, Cursor(c.text, c.pos + |t|, true))
    decreases |t|, 0
  {
    assert c.text[c.pos] == t[0] && t[0] in t;
    var st' := JStep(st, t[0]);
    JSONUncons(st, t);
    assert c.text[c.pos + 1..c.pos + 1 + |t[1..]|] == t[1..];
    assert NoEOF(t[1..]) by {
      assert forall i :: 0 <= i < |t| - 1 ==> t[1..][i] == t[i + 1];
    }
    JSONSpanExact(Read(c).cur, st', t[1..]);
    assert [t[0]] + t[1..] == t;
  }

  /** The counter stays open over every prefix of `t`, `t` included. */
  predicate StaysOpen(st: JState, t: string) {
    forall k :: 0 <= k <= |t| ==> JRun(st, t[..k]).depth > 0
  }

  lemma {:induction false} StaysOpenTail(st: JState, t: string)
    requires StaysOpen(st, t) && t != []
    ensures JStep(st, t[0]).depth > 0 && StaysOpen(JStep(st, t[0]), t[1..])
  {
    var st' := JStep(st, t[0]);
    assert t[..1][1..] == [];
    assert JRun(st, t[..1]) == st';
    forall k | 0 <= k <= |t| - 1 ensures JRun(st', t[1..][..k]).depth > 0 {
      assert t[..k + 1][1..] == t[1..][..k];
      assert JRun(st, t[..k + 1]).depth > 0;
    }
  }

  /** Input that ends (or reaches the sentinel) while the counter is still
      open is invalid JSON. */
  lemma {:induction false} JSONRunsOut(c: Cur, st: JState)
    requires NoEOF(c.text[c.pos..]) && StaysOpen(st, c.text[c.pos..])
    ensures st.depth > 0 && JSONSpan(c, st) == Fail(InvalidJSON)
    decreases |c.text| - c.pos
  {
    var t := c.text[c.pos..];
    assert t[..0] == [];
    if c.pos < |c.text| {
      assert c.text[c.pos] == t[0] && t[0] in t;
      StaysOpenTail(st, t);
      assert c.text[c.pos + 1..] == t[1..];
      assert NoEOF(t[1..]) by {
        assert forall i :: 0 <= i < |t| - 1 ==> t[1..][i] == t[i + 1];
      }
      JSONRunsOut(Read(c).cur, JStep(st, t[0]));
    }
  }

  /** Inside a string, a character other than a quote or a backslash
      changes nothing: braces in particular do not count. */
  lemma {:induction false} JStepInString(st: JState, ch: char)
    requires st.inString && !st.escaped && ch != JSONString && ch != JSONEscapeSeq
    ensures JStep(st, ch) == st
  {
  }

  /** The character after a backslash is skipped whatever it is: only the
      escape flag is cleared. */
  lemma {:induction false} JStepEscaped(st: JState, ch: char)
    requires st.escaped
    ensures JStep(st, ch) == st.(escaped := false)
  {
  }

  /** The text between the quotes of a JSON string: characters other than
      a quote or a backslash, and backslashes each followed by one
      character. */
  predicate StringBody(s: string)
    decreases |s|
  {
    || s == []
    || (s[0] == JSONEscapeSeq && |s| >= 2 && StringBody(s[2..]))
    || (s[0] != JSONEscapeSeq && s[0] != JSONString && StringBody(s[1..]))
  }

  lemma {:induction false} JRunAppend(st: JState, a: string, b: string)
    ensures JRun(st, a + b) == JRun(JRun(st, a), b)
    decreases |a|
  {
    if a == [] {
      assert a + b == b;
    } else {
      assert (a + b)[0] == a[0] && (a + b)[1..] == a[1..] + b;
      assert JRun(st, a + b) == JRun(JStep(st, a[0]), a[1..] + b);
      JRunAppend(JStep(st, a[0]), a[1..], b);
    }
  }

  /** A string body leaves the counter inside the string exactly as it
      found it. */
  lemma {:induction false} JRunStringBody(st: JState, s: string)
    requires st.inString && !st.escaped && StringBody(s)
    ensures JRun(st, s) == st
    decreases |s|
  {
    if s != [] {
      if s[0] == JSONEscapeSeq {
        var esc := st.(escaped := true);
        assert JStep(st, s[0]) == esc;
        JStepEscaped(esc, s[1]);
        assert s[1..][0] == s[1] && s[1..][1..] == s[2..];
        assert JRun(st, s) == JRun(esc, s[1..]) == JRun(st, s[2..]);
        JRunStringBody(st, s[2..]);
      } else {
        JStepInString(st, s[0]);
        JRunStringBody(st, s[1..]);
      }
    }
  }

  /** A whole JSON string, whatever braces and escaped quotes it holds,
      leaves the depth and the mode as they were. */
  lemma {:induction false} JSONStringInert(st: JState, body: string)
    requires !st.inString && !st.escaped && StringBody(body)
    ensures JRun(st, [JSONString] + body + [JSONString]) == st
  {
    var open := st.(inString := true);
    JRunAppend(st, [JSONString] + body, [JSONString]);
    JRunAppend(st, [JSONString], body);
    assert JRun(st, [JSONString]) == open;
    JRunStringBody(open, body);
  }

  /** A JSON argument is the canonical form of '{' followed by the closing
      span; a span that the codec rejects is invalid JSON. */
  lemma {:induction false} ParseJSONArgSpec(c: Cur, canon: Canon, t: string)
    requires ClosesJSON(JSONOpen, t) && NoEOF(t)
    requires c.pos + |t| <= |c.text| && c.text[c.pos..c.pos + |t|] == t
    ensures canon([JSONStart] + t).None? ==> ParseJSONArg(c, canon) == Fail(InvalidJSON)
    ensures canon([JSONStart] + t).Some? ==>
      ParseJSONArg(c, canon) == Ok(canon([JSONStart] + t).value, Cursor(c.text, c.pos + |t|, true))
  {
    JSONSpanExact(c, JSONOpen, t);
  }

  // ---- advanced arguments ----

  /** The state of the advanced-argument loop: the arguments stored so far,
      the key and value being read, whether a '=' has been seen, the
      position of the value's first character, and the raw text consumed
      (returned when the loop gives up). */
  datatype AdvState = AdvState(
    args: map<string, string>, key: string, value: string,
    inValue: bool, valueStart: int, buf: string)

  const AdvInit: AdvState := AdvState(map[], "", "", false, -1, "")

  /** Ends one argument: a non-empty key is stored with its trimmed value
      (replacing an earlier one), and key and value start over. */
  function StoreArg(st: AdvState): AdvState {
    var args := if st.key != "" then st.args[st.key := TrimSpace(st.value)] else st.args;
    st.(args := args, key := "", value := "")
  }

  /** One turn of the advanced-argument loop. */
  datatype AdvMove = AdvMore(cur: Cur, st: AdvState) | AdvDone(result: Scan<map<string, string>>)

  function AdvArgStep(c: Cur, st: AdvState, canon: Canon): (m: AdvMove)
    ensures m.AdvMore? ==> m.cur.text == c.text && c.pos < m.cur.pos
    ensures m.AdvDone? ==> m.result.Within(c) && (m.result.Fail? ==> ArgError(m.result.err))
  {
    var s := Read(c);
    if s.ch == EOF then AdvDone(Ok(StoreArg(st).args, s.cur))
    else
      var buf := st.buf + [s.ch];
      var atValueStart := st.inValue && st.valueStart == s.cur.pos - 1;
      if atValueStart && (s.ch == ArgDoubleQuote || s.ch == ArgSingleQuote) then
        var q := ParseQuotedArg(s.cur, s.ch);
        if q.Fail? then AdvDone(Fail(q.err)) else AdvMore(q.cur, st.(value := q.value, buf := buf))
      else if atValueStart && s.ch == JSONStart then
        var j := ParseJSONArg(s.cur, canon);
        if j.Fail? then AdvDone(Fail(j.err)) else AdvMore(j.cur, st.(value := j.value, buf := buf))
      else if st.inValue && s.ch == EscapeSeq then
        var p := Peek(s.cur);
        var e := ParseEscapeSeq(p.cur);
        if e.text == [] then AdvMore(e.cur, st.(value := st.value + [EscapeSeq], buf := buf))
        else AdvMore(e.cur, st.(value := st.value + e.text, buf := buf + [p.ch]))
      else
        var eoc := CheckEndOfCmd(s.ch, s.cur);
        if eoc.isEnd then AdvDone(Ok(StoreArg(st).args, eoc.cur))
        else if s.ch == AdvArgSep then AdvMore(eoc.cur, StoreArg(st).(inValue := false, buf := buf))
        else if s.ch == AdvArgEq && !st.inValue then
          AdvMore(eoc.cur, st.(inValue := true, valueStart := eoc.cur.pos, buf := buf))
        else if st.inValue then
          if s.ch == ExpressionStart then
            var x := ParseExpression(eoc.cur);
            if x.Fail? then AdvDone(Fail(x.err))
            else AdvMore(x.cur, st.(value := st.value + x.value, buf := buf))
          else AdvMore(eoc.cur, st.(value := st.value + [s.ch], buf := buf))
        else if !IsAdvArgName(s.ch) then AdvDone(Fallback(buf, eoc.cur))
        else AdvMore(eoc.cur, st.(key := st.key + [s.ch], buf := buf))
  }

  function AdvArgsFrom(c: Cur, st: AdvState, canon: Canon): (r: Scan<map<string, string>>)
    ensures r.Within(c)
    ensures r.Fail? ==> ArgError(r.err)
    decreases |c.text| - c.pos
  {
    match AdvArgStep(c, st, canon)
    case AdvMore(next, st') => AdvArgsFrom(next, st', canon)
    case AdvDone(r) => r
  }

  /** Called after '?'. Reads `key=value` pairs separated by '&' up to the
      end of the command. A character that cannot be part of a key gives
      up with the raw text consumed (`Fallback`), so the caller can treat
      it as ordinary content; it is never reported as an error. */
  function ParseAdvArgs(c: Cur, canon: Canon): (r: Scan<map<string, string>>)
    ensures r.Within(c)
    ensures r.Fail? ==> ArgError(r.err) && r.err != InvalidAdvArgName
  {
    AdvArgsFrom(c, AdvInit, canon)
  }

  /** Characters the value loop copies verbatim: not an escape, not a
      separator or pipe, not an expression opener, not the sentinel. */
  predicate ValueChar(ch: char) {
    ch != EscapeSeq && ch != AdvArgSep && ch != CmdSep && ch != ExpressionStart && ch != EOF
  }

  /** A value's first character must not start a quoted or JSON literal. */
  predicate PlainValueStart(v: string) {
    v == [] || (v[0] != ArgDoubleQuote && v[0] != ArgSingleQuote && v[0] != JSONStart)
  }

  /** One `key` or `key=value` item of an advanced-argument list. */
  datatype AdvPair = AdvPair(key: string, value: Option<string>)

  function PairText(p: AdvPair): string {
    p.key + if p.value.Some? then [AdvArgEq] + p.value.value else []
  }

  /** Items joined by '&'. */
  function PairsText(ps: seq<AdvPair>): string
    requires |ps| > 0
  {
    if |ps| == 1 then PairText(ps[0]) else PairText(ps[0]) + [AdvArgSep] + PairsText(ps[1..])
  }

  /** A non-empty key of name characters, and a value of verbatim
      characters that does not start a literal. */
  predicate PairOk(p: AdvPair) {
    && p.key != []
    && (forall i :: 0 <= i < |p.key| ==> IsAdvArgName(p.key[i]))
    && (p.value.Some? ==> PlainValueStart(p.value.value))
    && (p.value.Some? ==> forall i :: 0 <= i < |p.value.value| ==> ValueChar(p.value.value[i]))
  }

  /** The reference meaning of a list of items: stored left to right, so a
      later item replaces an earlier one with the same key; a key without
      '=' stores the empty value. */
  function PairsMap(m: map<string, string>, ps: seq<AdvPair>): map<string, string>
    decreases |ps|
  {
    if ps == [] then m
    else
      var v := if ps[0].value.Some? then ps[0].value.value else "";
      PairsMap(m[ps[0].key := TrimSpace(v)], ps[1..])
  }

  lemma {:induction false} Assoc(a: string, b: string, c: string)
    ensures a + b + c == a + (b + c)
  {
  }

  /** The advanced-argument loop as a function of cursor and state. The
      run lemmas below are stated for any such function with the step
      facts they need, and then applied to this one. */
  type AdvLoop = (Cur, AdvState) -> Scan<map<string, string>>

  function LoopOf(canon: Canon): AdvLoop {
    (c: Cur, st: AdvState) => AdvArgsFrom(c, st, canon)
  }

  /** A key character outside a value extends the key. */
  ghost predicate KeyMoves(f: AdvLoop) {
    forall c: Cur, st: AdvState {:trigger f(c, st), c.text[c.pos]} :: c.pos < |c.text| && IsAdvArgName(c.text[c.pos]) && !st.inValue ==>
      f(c, st) == f(Cursor(c.text, c.pos + 1, true), st.(key := st.key + [c.text[c.pos]], buf := st.buf + [c.text[c.pos]]))
  }

  /** A verbatim character inside a value, other than a literal opener at
      the value's start, extends the value. */
  ghost predicate ValueMoves(f: AdvLoop) {
    forall c: Cur, st: AdvState {:trigger f(c, st), c.text[c.pos]} ::
      && c.pos < |c.text| && ValueChar(c.text[c.pos]) && st.inValue
      && (st.valueStart == c.pos ==> PlainValueStart([c.text[c.pos]]))
      ==>
      f(c, st) == f(Cursor(c.text, c.pos + 1, true), st.(value := st.value + [c.text[c.pos]], buf := st.buf + [c.text[c.pos]]))
  }

  /** '=' outside a value starts the value. */
  ghost predicate EqMoves(f: AdvLoop) {
    forall c: Cur, st: AdvState {:trigger f(c, st), c.text[c.pos]} :: c.pos < |c.text| && c.text[c.pos] == AdvArgEq && !st.inValue ==>
      f(c, st) == f(Cursor(c.text, c.pos + 1, true), st.(inValue := true, valueStart := c.pos + 1, buf := st.buf + [AdvArgEq]))
  }

  /** '&' stores the current item. */
  ghost predicate SepMoves(f: AdvLoop) {
    forall c: Cur, st: AdvState {:trigger f(c, st), c.text[c.pos]} :: c.pos < |c.text| && c.text[c.pos] == AdvArgSep ==>
      f(c, st) == f(Cursor(c.text, c.pos + 1, true), StoreArg(st).(inValue := false, buf := st.buf + [AdvArgSep]))
  }

  /** The advanced-argument loop has all four step facts. */
  lemma {:induction false} AdvLoopSteps(canon: Canon)
    ensures KeyMoves(LoopOf(canon)) && ValueMoves(LoopOf(canon)) && EqMoves(LoopOf(canon))
    ensures SepMoves(LoopOf(canon))
  {
    var f := LoopOf(canon);
    forall c: Cur, st: AdvState | c.pos < |c.text| && IsAdvArgName(c.text[c.pos]) && !st.inValue
      ensures f(c, st) == f(Cursor(c.text, c.pos + 1, true), st.(key := st.key + [c.text[c.pos]], buf := st.buf + [c.text[c.pos]]))
    {
      AdvKeyStep(c, st, canon);
    }
    forall c: Cur, st: AdvState |
      && c.pos < |c.text| && ValueChar(c.text[c.pos]) && st.inValue
      && (st.valueStart == c.pos ==> PlainValueStart([c.text[c.pos]]))
      ensures f(c, st) == f(Cursor(c.text, c.pos + 1, true), st.(value := st.value + [c.text[c.pos]], buf := st.buf + [c.text[c.pos]]))
    {
      AdvValueStep(c, st, canon);
    }
    forall c: Cur, st: AdvState | c.pos < |c.text| && c.text[c.pos] == AdvArgEq && !st.inValue
      ensures f(c, st) == f(Cursor(c.text, c.pos + 1, true), st.(inValue := true, valueStart := c.pos + 1, buf := st.buf + [AdvArgEq]))
    {
      AdvEqStep(c, st, canon);
    }
    forall c: Cur, st: AdvState | c.pos < |c.text| && c.text[c.pos] == AdvArgSep
      ensures f(c, st) == f(Cursor(c.text, c.pos + 1, true), StoreArg(st).(inValue := false, buf := st.buf + [AdvArgSep]))
    {
      AdvSepStep(c, st, canon);
    }
  }

  lemma {:induction false} AdvKeyStep(c: Cur, st: AdvState, canon: Canon)
    requires c.pos < |c.text| && IsAdvArgName(c.text[c.pos]) && !st.inValue
    ensures AdvArgsFrom(c, st, canon)
         == AdvArgsFrom(Cursor(c.text, c.pos + 1, true), st.(key := st.key + [c.text[c.pos]], buf := st.buf + [c.text[c.pos]]), canon)
  {
  }

  lemma {:induction false} AdvValueStep(c: Cur, st: AdvState, canon: Canon)
    requires c.pos < |c.text| && ValueChar(c.text[c.pos]) && st.inValue
    requires st.valueStart == c.pos ==> PlainValueStart([c.text[c.pos]])
    ensures AdvArgsFrom(c, st, canon)
         == AdvArgsFrom(Cursor(c.text, c.pos + 1, true), st.(value := st.value + [c.text[c.pos]], buf := st.buf + [c.text[c.pos]]), canon)
  {
  }

  lemma {:induction false} AdvEqStep(c: Cur, st: AdvState, canon: Canon)
    requires c.pos < |c.text| && c.text[c.pos] == AdvArgEq && !st.inValue
    ensures AdvArgsFrom(c, st, canon)
         == AdvArgsFrom(Cursor(c.text, c.pos + 1, true), st.(inValue := true, valueStart := c.pos + 1, buf := st.buf + [AdvArgEq]), canon)
  {
  }

  lemma {:induction false} AdvSepStep(c: Cur, st: AdvState, canon: Canon)
    requires c.pos < |c.text| && c.text[c.pos] == AdvArgSep
    ensures AdvArgsFrom(c, st, canon)
         == AdvArgsFrom(Cursor(c.text, c.pos + 1, true), StoreArg(st).(inValue := false, buf := st.buf + [AdvArgSep]), canon)
  {
    var next := StoreArg(st).(inValue := false, buf := st.buf + [AdvArgSep]);
    assert AdvArgStep(c, st, canon) == AdvMore(Cursor(c.text, c.pos + 1, true), next);
  }

  lemma {:induction false} AdvEndStep(c: Cur, st: AdvState, canon: Canon)
    requires c.pos == |c.text|
    ensures AdvArgsFrom(c, st, canon) == Ok(StoreArg(st).args, c.(canUnread := false))
  {
  }

  /** Peels the first character off a known prefix of the unread text. */
  lemma {:induction false} Peel(text: string, pos: nat, k: string, rest: string)
    requires pos <= |text| && text[pos..] == k + rest && k != []
    ensures pos + |k| <= |text| && text[pos] == k[0]
    ensures text[pos + 1..] == k[1..] + rest
  {
    SliceSplit(text, pos, k, rest);
    assert text[pos] == text[pos..][0];
    assert text[pos + 1..] == text[pos..][1..];
  }

  /** Appending the first character and then the rest is appending all. */
  lemma {:induction false} AppendCons(a: string, k: string)
    requires k != []
    ensures a + [k[0]] + k[1..] == a + k
  {
    assert [k[0]] + k[1..] == k;
  }

  /** A run of key characters extends the key. */
  lemma {:induction false} KeyRun(f: AdvLoop, c: Cur, st: AdvState, k: string, rest: string)
    requires KeyMoves(f)
    requires c.text[c.pos..] == k + rest && k != [] && !st.inValue
    requires forall i :: 0 <= i < |k| ==> IsAdvArgName(k[i])
    ensures c.pos + |k| <= |c.text|
    ensures f(c, st) == f(Cursor(c.text, c.pos + |k|, true), st.(key := st.key + k, buf := st.buf + k))
    decreases |k|
  {
    Peel(c.text, c.pos, k, rest);
    assert IsAdvArgName(k[0]);
    var st1 := st.(key := st.key + [k[0]], buf := st.buf + [k[0]]);
    var c1 := Cursor(c.text, c.pos + 1, true);
    assert f(c, st) == f(c1, st1);
    if |k| > 1 {
      assert forall i :: 0 <= i < |k| - 1 ==> k[1..][i] == k[i + 1];
      KeyRun(f, c1, st1, k[1..], rest);
      AppendCons(st.key, k);
      AppendCons(st.buf, k);
    } else {
      assert k == [k[0]];
    }
  }

  /** A run of verbatim value characters extends the value. */
  lemma {:induction false} ValueRun(f: AdvLoop, c: Cur, st: AdvState, v: string, rest: string)
    requires ValueMoves(f)
    requires c.text[c.pos..] == v + rest && c.canUnread && st.inValue && st.valueStart <= c.pos
    requires forall i :: 0 <= i < |v| ==> ValueChar(v[i])
    requires st.valueStart == c.pos ==> PlainValueStart(v)
    ensures c.pos + |v| <= |c.text|
    ensures f(c, st) == f(Cursor(c.text, c.pos + |v|, true), st.(value := st.value + v, buf := st.buf + v))
    decreases |v|
  {
    if v == [] {
      assert st.value + v == st.value && st.buf + v == st.buf;
    } else {
      Peel(c.text, c.pos, v, rest);
      assert ValueChar(v[0]);
      var st1 := st.(value := st.value + [v[0]], buf := st.buf + [v[0]]);
      var c1 := Cursor(c.text, c.pos + 1, true);
      assert f(c, st) == f(c1, st1);
      assert forall i :: 0 <= i < |v| - 1 ==> v[1..][i] == v[i + 1];
      ValueRun(f, c1, st1, v[1..], rest);
      AppendCons(st.value, v);
      AppendCons(st.buf, v);
    }
  }

  /** The value an item stores before trimming. */
  function RawValue(p: AdvPair): string {
    if p.value.Some? then p.value.value else []
  }

  /** '=' followed by a run of verbatim value characters. */
  lemma {:induction false} EqValueRun(f: AdvLoop, c: Cur, st: AdvState, v: string, rest: string)
    requires EqMoves(f) && ValueMoves(f)
    requires c.text[c.pos..] == [AdvArgEq] + (v + rest) && !st.inValue
    requires forall i :: 0 <= i < |v| ==> ValueChar(v[i])
    requires PlainValueStart(v)
    ensures c.pos + 1 + |v| <= |c.text|
    ensures f(c, st) == f(Cursor(c.text, c.pos + 1 + |v|, true),
                          st.(inValue := true, valueStart := c.pos + 1, value := st.value + v, buf := st.buf + [AdvArgEq] + v))
  {
    Peel(c.text, c.pos, [AdvArgEq], v + rest);
    var c1 := Cursor(c.text, c.pos + 1, true);
    var st1 := st.(inValue := true, valueStart := c.pos + 1, buf := st.buf + [AdvArgEq]);
    assert f(c, st) == f(c1, st1);
    ValueRun(f, c1, st1, v, rest);
  }

  /** The state after one item read from a state with no key or value. */
  function AfterPair(st: AdvState, p: AdvPair, pos: nat): AdvState {
    if p.value.Some? then
      st.(key := p.key, inValue := true, valueStart := pos + |p.key| + 1,
          value := p.value.value, buf := st.buf + p.key + [AdvArgEq] + p.value.value)
    else st.(key := p.key, buf := st.buf + p.key)
  }

  /** One item: afterwards the key and value are those of the item. */
  lemma {:induction false} PairRun(f: AdvLoop, c: Cur, st: AdvState, p: AdvPair, rest: string)
    requires KeyMoves(f) && ValueMoves(f) && EqMoves(f)
    requires c.text[c.pos..] == PairText(p) + rest && PairOk(p)
    requires !st.inValue && st.key == [] && st.value == []
    ensures c.pos + |PairText(p)| <= |c.text|
    ensures f(c, st) == f(Cursor(c.text, c.pos + |PairText(p)|, true), AfterPair(st, p, c.pos))
  {
    if p.value.Some? {
      KeyValueRun(f, c, st, p.key, p.value.value, rest);
    } else {
      assert PairText(p) == p.key;
      KeyRun(f, c, st, p.key, rest);
      assert st.key + p.key == p.key;
    }
  }

  /** An item with a value. */
  lemma {:induction false} KeyValueRun(f: AdvLoop, c: Cur, st: AdvState, k: string, v: string, rest: string)
    requires KeyMoves(f) && ValueMoves(f) && EqMoves(f)
    requires c.text[c.pos..] == k + ([AdvArgEq] + v) + rest && PairOk(AdvPair(k, Some(v)))
    requires !st.inValue && st.key == [] && st.value == []
    ensures c.pos + |k| + 1 + |v| <= |c.text|
    ensures f(c, st) == f(Cursor(c.text, c.pos + |k| + 1 + |v|, true), AfterPair(st, AdvPair(k, Some(v)), c.pos))
  {
    assert c.text[c.pos..] == k + ([AdvArgEq] + (v + rest));
    KeyRun(f, c, st, k, [AdvArgEq] + (v + rest));
    SliceSplit(c.text, c.pos, k, [AdvArgEq] + (v + rest));
    var st1 := st.(key := st.key + k, buf := st.buf + k);
    EqValueRun(f, Cursor(c.text, c.pos + |k|, true), st1, v, rest);
    assert st.key + k == k && st1.value + v == v;
  }

  /** The loop stops at position `pos` of `text`, whatever the state,
      storing the current item and leaving the cursor at `e`. */
  ghost predicate StopsAt(f: AdvLoop, text: string, pos: nat, e: Cur) {
    pos <= |text| &&
    forall st: AdvState {:trigger f(Cursor(text, pos, true), st)} ::
      pos > 0 ==> f(Cursor(text, pos, true), st) == Ok(StoreArg(st).args, e)
  }

  /** A whole list of items, followed by text where the loop stops, is
      read as its reference meaning. */
  lemma {:induction false} PairsRun(f: AdvLoop, c: Cur, st: AdvState, ps: seq<AdvPair>, rest: string, e: Cur)
    requires KeyMoves(f) && ValueMoves(f) && EqMoves(f) && SepMoves(f)
    requires |ps| > 0 && c.text[c.pos..] == PairsText(ps) + rest
    requires forall i :: 0 <= i < |ps| ==> PairOk(ps[i])
    requires StopsAt(f, c.text, |c.text| - |rest|, e)
    requires !st.inValue && st.key == [] && st.value == []
    ensures f(c, st) == Ok(PairsMap(st.args, ps), e)
    decreases |ps|
  {
    var p := ps[0];
    var tail := if |ps| == 1 then rest else [AdvArgSep] + (PairsText(ps[1..]) + rest);
    assert c.text[c.pos..] == PairText(p) + tail;
    PairRun(f, c, st, p, tail);
    var n := Cursor(c.text, c.pos + |PairText(p)|, true);
    var st' := AfterPair(st, p, c.pos);
    assert StoreArg(st').args == st.args[p.key := TrimSpace(RawValue(p))];
    SliceSplit(c.text, c.pos, PairText(p), tail);
    if |ps| == 1 {
      assert n == Cursor(c.text, |c.text| - |rest|, true);
      assert f(n, st') == Ok(StoreArg(st').args, e);
    } else {
      PairsNext(f, n, st', ps, rest, e);
    }
  }

  /** The '&' after an item, and the remaining items. */
  lemma {:induction false} PairsNext(f: AdvLoop, n: Cur, st: AdvState, ps: seq<AdvPair>, rest: string, e: Cur)
    requires KeyMoves(f) && ValueMoves(f) && EqMoves(f) && SepMoves(f)
    requires |ps| > 1 && n.text[n.pos..] == [AdvArgSep] + (PairsText(ps[1..]) + rest)
    requires forall i :: 0 <= i < |ps| ==> PairOk(ps[i])
    requires StopsAt(f, n.text, |n.text| - |rest|, e)
    ensures f(n, st) == Ok(PairsMap(StoreArg(st).args, ps[1..]), e)
    decreases |ps|, 0
  {
    Peel(n.text, n.pos, [AdvArgSep], PairsText(ps[1..]) + rest);
    var n2 := Cursor(n.text, n.pos + 1, true);
    var st2 := StoreArg(st).(inValue := false, buf := st.buf + [AdvArgSep]);
    assert f(n, st) == f(n2, st2);
    PairsRun(f, n2, st2, ps[1..], rest, e);
  }

  /** The end of the input is a place where the loop stops. */
  lemma {:induction false} AdvStopsAtEnd(text: string, canon: Canon)
    ensures StopsAt(LoopOf(canon), text, |text|, Cursor(text, |text|, false))
  {
    forall st: AdvState | |text| > 0
      ensures LoopOf(canon)(Cursor(text, |text|, true), st) == Ok(StoreArg(st).args, Cursor(text, |text|, false))
    {
      AdvEndStep(Cursor(text, |text|, true), st, canon);
    }
  }

  /** Items followed by text where the loop stops. */
  lemma {:induction false} AdvPairsFrom(c: Cur, canon: Canon, ps: seq<AdvPair>, rest: string, e: Cur)
    requires |ps| > 0 && c.text[c.pos..] == PairsText(ps) + rest
    requires forall i :: 0 <= i < |ps| ==> PairOk(ps[i])
    requires StopsAt(LoopOf(canon), c.text, |c.text| - |rest|, e)
    ensures ParseAdvArgs(c, canon) == Ok(PairsMap(map[], ps), e)
  {
    AdvLoopSteps(canon);
    PairsRun(LoopOf(canon), c, AdvInit, ps, rest, e);
  }

  /** Advanced arguments written as `key=value` items joined by '&', with
      plain keys and values, mean their reference map: each value trimmed,
      the last item for a key winning, a bare key storing "". */
  lemma {:induction false} AdvPairsRead(c: Cur, canon: Canon, ps: seq<AdvPair>)
    requires |ps| > 0 && c.text[c.pos..] == PairsText(ps)
    requires forall i :: 0 <= i < |ps| ==> PairOk(ps[i])
    ensures ParseAdvArgs(c, canon) == Ok(PairsMap(map[], ps), Cursor(c.text, |c.text|, false))
  {
    var e := Cursor(c.text, |c.text|, false);
    AdvStopsAtEnd(c.text, canon);
    assert c.text[c.pos..] == PairsText(ps) + [];
    AdvPairsFrom(c, canon, ps, [], e);
  }

  /** "||" ends the list: the current item is stored and only the two
      pipes are consumed. */
  lemma {:induction false} AdvPipesStep(c: Cur, st: AdvState, canon: Canon)
    requires c.pos + 1 < |c.text| && c.text[c.pos] == CmdSep && c.text[c.pos + 1] == CmdSep
    ensures AdvArgsFrom(c, st, canon) == Ok(StoreArg(st).args, Cursor(c.text, c.pos + 2, true))
  {
    var s := Read(c);
    assert s == Step(CmdSep, Cursor(c.text, c.pos + 1, true));
    assert CheckEndOfCmd(s.ch, s.cur) == EndCheck(true, Cursor(c.text, c.pos + 2, true));
    assert AdvArgStep(c, st, canon) == AdvDone(Ok(StoreArg(st).args, Cursor(c.text, c.pos + 2, true)));
  }

  /** A single '|' inside a value is part of the value. */
  lemma {:induction false} AdvPipeInValue(c: Cur, st: AdvState, canon: Canon)
    requires c.pos + 1 < |c.text| && c.text[c.pos] == CmdSep
    requires c.text[c.pos + 1] != CmdSep && c.text[c.pos + 1] != EOF && st.inValue
    ensures AdvArgsFrom(c, st, canon)
         == AdvArgsFrom(Cursor(c.text, c.pos + 1, false), st.(value := st.value + [CmdSep], buf := st.buf + [CmdSep]), canon)
  {
    var s := Read(c);
    assert s == Step(CmdSep, Cursor(c.text, c.pos + 1, true));
    assert CheckEndOfCmd(s.ch, s.cur) == EndCheck(false, Cursor(c.text, c.pos + 1, false));
  }

  /** A "||" is a place where the loop stops. */
  lemma {:induction false} AdvStopsAtPipes(text: string, pos: nat, canon: Canon)
    requires pos + 1 < |text| && text[pos] == CmdSep && text[pos + 1] == CmdSep
    ensures StopsAt(LoopOf(canon), text, pos, Cursor(text, pos + 2, true))
  {
    forall st: AdvState | pos > 0
      ensures LoopOf(canon)(Cursor(text, pos, true), st) == Ok(StoreArg(st).args, Cursor(text, pos + 2, true))
    {
      AdvPipesStep(Cursor(text, pos, true), st, canon);
    }
  }

  /** Items followed by "||" and anything else: the same reference map,
      and the cursor stops right after the two pipes. */
  lemma {:induction false} AdvPairsReadPipes(c: Cur, canon: Canon, ps: seq<AdvPair>, u: string)
    requires |ps| > 0 && c.text[c.pos..] == PairsText(ps) + ([CmdSep, CmdSep] + u)
    requires forall i :: 0 <= i < |ps| ==> PairOk(ps[i])
    ensures ParseAdvArgs(c, canon) == Ok(PairsMap(map[], ps), Cursor(c.text, |c.text| - |u|, true))
  {
    var rest := [CmdSep, CmdSep] + u;
    SliceSplit(c.text, c.pos, PairsText(ps), rest);
    var pos := |c.text| - |rest|;
    assert c.text[pos] == rest[0] && c.text[pos + 1] == rest[1];
    var e := Cursor(c.text, pos + 2, true);
    AdvStopsAtPipes(c.text, pos, canon);
    AdvPairsFrom(c, canon, ps, rest, e);
  }

  /** After an item with an empty key, '&' and further items store
      exactly those items. */
  lemma {:induction false} AdvAfterEmptyKey(n: Cur, st: AdvState, canon: Canon, ps: seq<AdvPair>)
    requires |ps| > 0 && n.text[n.pos..] == [AdvArgSep] + PairsText(ps)
    requires forall i :: 0 <= i < |ps| ==> PairOk(ps[i])
    requires st.key == [] && st.args == map[]
    ensures AdvArgsFrom(n, st, canon) == Ok(PairsMap(map[], ps), Cursor(n.text, |n.text|, false))
  {
    var ps' := [AdvPair("a", None)] + ps;
    assert ps'[1..] == ps;
    assert n.text[n.pos..] == [AdvArgSep] + (PairsText(ps'[1..]) + []);
    assert StoreArg(st).args == map[];
    AdvStopsAtEnd(n.text, canon);
    AdvLoopSteps(canon);
    PairsNext(LoopOf(canon), n, st, ps', [], Cursor(n.text, |n.text|, false));
  }

  /** An item with an empty key, `=v`, is read but not stored: text
      `=v&` followed by items stores exactly the items. */
  lemma {:induction false} AdvEmptyKeyDropped(c: Cur, canon: Canon, v: string, ps: seq<AdvPair>)
    requires |ps| > 0 && c.text[c.pos..] == [AdvArgEq] + (v + ([AdvArgSep] + PairsText(ps)))
    requires (forall i :: 0 <= i < |v| ==> ValueChar(v[i])) && PlainValueStart(v)
    requires forall i :: 0 <= i < |ps| ==> PairOk(ps[i])
    ensures ParseAdvArgs(c, canon) == Ok(PairsMap(map[], ps), Cursor(c.text, |c.text|, false))
  {
    var rest := [AdvArgSep] + PairsText(ps);
    var n := Cursor(c.text, c.pos + 1 + |v|, true);
    var st := AdvInit.(inValue := true, valueStart := c.pos + 1, value := AdvInit.value + v, buf := AdvInit.buf + [AdvArgEq] + v);
    assert ParseAdvArgs(c, canon) == AdvArgsFrom(n, st, canon) by {
      AdvLoopSteps(canon);
      EqValueRun(LoopOf(canon), c, AdvInit, v, rest);
    }
    SliceSplit(c.text, c.pos, [AdvArgEq] + v, rest);
    AdvAfterEmptyKey(n, st, canon, ps);
  }

  /** Characters whose raw form the advanced-argument loop records as
      they are: everything except the openers of escapes and literals. */
  predicate RawChar(ch: char) {
    ch != EscapeSeq && ch != ArgDoubleQuote && ch != ArgSingleQuote
    && ch != JSONStart && ch != ExpressionStart && ch != EOF
  }

  /** When the loop gives up on text without escapes or literals, the raw
      text it returns is exactly the text it consumed, so the caller loses
      nothing. */
  lemma {:induction false} AdvRawLossless(c: Cur, st: AdvState, canon: Canon, start: nat)
    requires start <= c.pos && st.buf == c.text[start..c.pos]
    requires forall i :: c.pos <= i < |c.text| ==> RawChar(c.text[i])
    ensures AdvArgsFrom(c, st, canon).Fallback? ==>
      AdvArgsFrom(c, st, canon).raw == c.text[start..AdvArgsFrom(c, st, canon).cur.pos]
    decreases |c.text| - c.pos
  {
    if c.pos < |c.text| {
      assert RawChar(c.text[c.pos]);
      assert c.text[start..c.pos + 1] == c.text[start..c.pos] + [c.text[c.pos]];
      match AdvArgStep(c, st, canon)
      case AdvMore(next, st') =>
        assert st'.buf == c.text[start..next.pos];
        AdvRawLossless(next, st', canon, start);
      case AdvDone(r) =>
    }
  }

  /** A character that cannot start a key makes the loop give up at once,
      returning just that character. */
  lemma {:induction false} AdvInvalidFirst(c: Cur, canon: Canon)
    requires c.pos < |c.text| && c.text[c.pos] != EOF && !IsAdvArgName(c.text[c.pos])
    requires c.text[c.pos] != AdvArgSep && c.text[c.pos] != AdvArgEq && c.text[c.pos] != CmdSep
    ensures ParseAdvArgs(c, canon) == Fallback([c.text[c.pos]], Cursor(c.text, c.pos + 1, true))
  {
    var n := Cursor(c.text, c.pos + 1, true);
    assert Read(c) == Step(c.text[c.pos], n);
    assert CheckEndOfCmd(c.text[c.pos], n) == EndCheck(false, n);
    assert AdvInit.buf + [c.text[c.pos]] == [c.text[c.pos]];
    assert AdvArgStep(c, AdvInit, canon) == AdvDone(Fallback([c.text[c.pos]], n));
  }

  // ---- input macro arguments ----

  /** The positional arguments and advanced arguments of a command. */
  datatype ArgsOut = ArgsOut(args: seq<string>, advArgs: map<string, string>)

  /** Each character as an argument of its own. */
  function Singles(s: string): (r: seq<string>)
    ensures |r| == |s|
    ensures forall i :: 0 <= i < |s| ==> r[i] == [s[i]]
  {
    if s == [] then [] else [[s[0]]] + Singles(s[1..])
  }

  /** Called after '{' in an input macro: the text up to and including the
      next '}'. */
  function MacroExt(c: Cur): (r: Scan<string>)
    ensures r.Within(c) && !r.Fallback?
    ensures r.Fail? ==> r.err == UnmatchedInputMacroExt
    ensures r.Ok? ==> c.pos < r.cur.pos
    decreases |c.text| - c.pos
  {
    var s := Read(c);
    if s.ch == EOF then Fail(UnmatchedInputMacroExt)
    else if s.ch == InputMacroExtEnd then Ok([s.ch], s.cur)
    else
      var rest := MacroExt(s.cur);
      if rest.Fail? then rest else Ok([s.ch] + rest.value, rest.cur)
  }

  /** One turn of the input-macro loop. */
  datatype MacroMove = MacroMore(cur: Cur, args: seq<string>) | MacroDone(result: Scan<ArgsOut>)

  function MacroStep(c: Cur, args: seq<string>, canon: Canon): (m: MacroMove)
    ensures m.MacroMore? ==> m.cur.text == c.text && c.pos < m.cur.pos
    ensures m.MacroDone? ==> m.result.Within(c) && !m.result.Fallback?
    ensures m.MacroDone? && m.result.Fail? ==> ArgError(m.result.err) || m.result.err == UnmatchedInputMacroExt
  {
    var s := Read(c);
    if s.ch == EOF then MacroDone(Ok(ArgsOut(args, map[]), s.cur))
    else if s.ch == InputMacroEscapeSeq then
      var n := Read(s.cur);
      if n.ch == EOF then MacroDone(Ok(ArgsOut(args + [[InputMacroEscapeSeq]], map[]), n.cur))
      else MacroMore(n.cur, args + [[n.ch]])
    else
      var eoc := CheckEndOfCmd(s.ch, s.cur);
      if eoc.isEnd then MacroDone(Ok(ArgsOut(args, map[]), eoc.cur))
      else if s.ch == InputMacroExtStart then
        var x := MacroExt(eoc.cur);
        if x.Fail? then MacroDone(Fail(x.err)) else MacroMore(x.cur, args + [[InputMacroExtStart] + x.value])
      else if s.ch == AdvArgStart then
        var a := ParseAdvArgs(eoc.cur, canon);
        match a
        case Fallback(raw, next) => MacroMore(next, args + Singles([AdvArgStart] + raw))
        case Fail(e) => MacroDone(Fail(e))
        case Ok(adv, next) => MacroDone(Ok(ArgsOut(args, adv), next))
      else MacroMore(eoc.cur, args + [[s.ch]])
  }

  function MacroFrom(c: Cur, args: seq<string>, canon: Canon): (r: Scan<ArgsOut>)
    ensures r.Within(c) && !r.Fallback?
    ensures r.Fail? ==> ArgError(r.err) || r.err == UnmatchedInputMacroExt
    decreases |c.text| - c.pos
  {
    match MacroStep(c, args, canon)
    case MacroMore(next, args') => MacroFrom(next, args', canon)
    case MacroDone(r) => r
  }

  /** The argument list of `input.keyboard` and `input.gamepad`: every
      character is an argument of its own, "\x" is the character x, and
      "{name}" is one argument. A '?' that does not start valid advanced
      arguments is spelled out character by character. */
  function ParseInputMacroArg(c: Cur, canon: Canon): (r: Scan<ArgsOut>)
    ensures r.Within(c) && !r.Fallback?
    ensures r.Fail? ==> ArgError(r.err) || r.err == UnmatchedInputMacroExt
  {
    MacroFrom(c, [], canon)
  }

  /** One item of an input macro as written: a key, an escaped key, or a
      named key between braces. */
  datatype MacroItem = KeyItem(ch: char) | EscItem(ch: char) | ExtItem(name: string)

  function ItemText(m: MacroItem): string {
    match m
    case KeyItem(ch) => [ch]
    case EscItem(ch) => [InputMacroEscapeSeq, ch]
    case ExtItem(name) => [InputMacroExtStart] + name + [InputMacroExtEnd]
  }

  function ItemsText(ms: seq<MacroItem>): string {
    if ms == [] then [] else ItemText(ms[0]) + ItemsText(ms[1..])
  }

  /** The argument an item stands for. */
  function ItemArg(m: MacroItem): string {
    match m
    case KeyItem(ch) => [ch]
    case EscItem(ch) => [ch]
    case ExtItem(name) => [InputMacroExtStart] + name + [InputMacroExtEnd]
  }

  function ItemArgs(ms: seq<MacroItem>): (r: seq<string>)
    ensures |r| == |ms|
  {
    if ms == [] then [] else [ItemArg(ms[0])] + ItemArgs(ms[1..])
  }

  /** A character the macro loop takes as a key of its own. */
  predicate MacroKeyChar(ch: char) {
    ch != InputMacroEscapeSeq && ch != CmdSep && ch != InputMacroExtStart && ch != AdvArgStart && ch != EOF
  }

  /** A key that needs no escape, an escape of anything but the sentinel,
      and a name without a closing brace or the sentinel. */
  predicate ItemOk(m: MacroItem) {
    match m
    case KeyItem(ch) => MacroKeyChar(ch)
    case EscItem(ch) => ch != EOF
    case ExtItem(name) => InputMacroExtEnd !in name && EOF !in name
  }

  /** A name followed by '}' is read up to and including that brace. */
  lemma {:induction false} MacroExtReads(c: Cur, name: string, rest: string)
    requires c.text[c.pos..] == name + ([InputMacroExtEnd] + rest)
    requires InputMacroExtEnd !in name && EOF !in name
    ensures MacroExt(c) == Ok(name + [InputMacroExtEnd], Cursor(c.text, c.pos + |name| + 1, true))
    decreases |name|
  {
    if name == [] {
      assert c.text[c.pos] == c.text[c.pos..][0] == InputMacroExtEnd;
      assert name + [InputMacroExtEnd] == [InputMacroExtEnd];
    } else {
      Peel(c.text, c.pos, name, [InputMacroExtEnd] + rest);
      assert name[0] in name;
      assert [name[0]] + (name[1..] + [InputMacroExtEnd]) == name + [InputMacroExtEnd];
      assert forall x :: x in name[1..] ==> x in name;
      MacroExtReads(Read(c).cur, name[1..], rest);
    }
  }

  /** Input that ends before any '}' is an unmatched macro extension. */
  lemma {:induction false} MacroExtRunsOut(c: Cur)
    requires InputMacroExtEnd !in c.text[c.pos..] && EOF !in c.text[c.pos..]
    ensures MacroExt(c) == Fail(UnmatchedInputMacroExt)
    decreases |c.text| - c.pos
  {
    if c.pos < |c.text| {
      var t := c.text[c.pos..];
      assert c.text[c.pos] == t[0] && t[0] in t;
      assert c.text[c.pos + 1..] == t[1..];
      assert forall x :: x in t[1..] ==> x in t;
      MacroExtRunsOut(Read(c).cur);
    }
  }

  /** The input-macro loop as a function of cursor and arguments so far. */
  type MacroLoop = (Cur, seq<string>) -> Scan<ArgsOut>

  function MacroLoopOf(canon: Canon): MacroLoop {
    (c: Cur, args: seq<string>) => MacroFrom(c, args, canon)
  }

  /** A well-formed item is next in the input. */
  ghost predicate ItemAt(c: Cur, m: MacroItem) {
    ItemText(m) <= c.text[c.pos..] && ItemOk(m)
  }

  /** Reading item `m` at `c` extends the arguments by its meaning. */
  ghost predicate ItemMovesAt(f: MacroLoop, c: Cur, args: seq<string>, m: MacroItem) {
    ItemAt(c, m) ==>
    c.pos + |ItemText(m)| <= |c.text| && f(c, args) == f(Cursor(c.text, c.pos + |ItemText(m)|, true), args + [ItemArg(m)])
  }

  /** Each item of the input extends the arguments by its meaning. */
  ghost predicate ItemMoves(f: MacroLoop) {
    forall c: Cur, args: seq<string>, m: MacroItem :: ItemMovesAt(f, c, args, m)
  }

  /** The end of the input stops with the arguments so far. */
  ghost predicate MacroEndStops(f: MacroLoop) {
    forall c: Cur, args: seq<string> :: c.pos == |c.text| ==> f(c, args) == Ok(ArgsOut(args, map[]), c.(canUnread := false))
  }

  /** One item of the macro loop. */
  lemma {:induction false} MacroItemStep(c: Cur, args: seq<string>, canon: Canon, m: MacroItem)
    requires ItemAt(c, m)
    ensures c.pos + |ItemText(m)| <= |c.text|
    ensures MacroFrom(c, args, canon) == MacroFrom(Cursor(c.text, c.pos + |ItemText(m)|, true), args + [ItemArg(m)], canon)
  {
    var rest := c.text[c.pos..][|ItemText(m)|..];
    assert c.text[c.pos..] == ItemText(m) + rest;
    Peel(c.text, c.pos, ItemText(m), rest);
    match m
    case KeyItem(ch) => MacroKeyStep(c, args, canon, m);
    case EscItem(ch) => MacroEscStep(c, args, canon, m);
    case ExtItem(name) => MacroExtStep(c, args, canon, m, rest);
  }

  lemma {:induction false} MacroKeyStep(c: Cur, args: seq<string>, canon: Canon, m: MacroItem)
    requires m.KeyItem? && MacroKeyChar(m.ch) && c.pos < |c.text| && c.text[c.pos] == m.ch
    ensures MacroFrom(c, args, canon) == MacroFrom(Cursor(c.text, c.pos + |ItemText(m)|, true), args + [ItemArg(m)], canon)
  {
    assert MacroStep(c, args, canon) == MacroMore(Cursor(c.text, c.pos + 1, true), args + [[m.ch]]);
  }

  lemma {:induction false} MacroEscStep(c: Cur, args: seq<string>, canon: Canon, m: MacroItem)
    requires m.EscItem? && m.ch != EOF
    requires c.pos + 1 < |c.text| && c.text[c.pos] == InputMacroEscapeSeq && c.text[c.pos + 1] == m.ch
    ensures MacroFrom(c, args, canon) == MacroFrom(Cursor(c.text, c.pos + |ItemText(m)|, true), args + [ItemArg(m)], canon)
  {
    assert MacroStep(c, args, canon) == MacroMore(Cursor(c.text, c.pos + 2, true), args + [[m.ch]]);
  }

  lemma {:induction false} MacroExtStep(c: Cur, args: seq<string>, canon: Canon, m: MacroItem, rest: string)
    requires m.ExtItem? && InputMacroExtEnd !in m.name && EOF !in m.name
    requires c.pos < |c.text| && c.text[c.pos] == InputMacroExtStart
    requires c.text[c.pos + 1..] == ItemText(m)[1..] + rest
    ensures c.pos + |ItemText(m)| <= |c.text|
    ensures MacroFrom(c, args, canon) == MacroFrom(Cursor(c.text, c.pos + |ItemText(m)|, true), args + [ItemArg(m)], canon)
  {
    var name := m.name;
    ExtText(m, rest);
    MacroExtCore(c, args, canon, name, rest, Cursor(c.text, c.pos + |ItemText(m)|, true), args + [ItemArg(m)]);
  }

  lemma {:induction false} ExtText(m: MacroItem, rest: string)
    requires m.ExtItem?
    ensures ItemText(m)[1..] + rest == m.name + [InputMacroExtEnd] + rest
    ensures |ItemText(m)| == |m.name| + 2
  {
    assert ItemText(m)[1..] == m.name + [InputMacroExtEnd];
  }

  lemma {:induction false} MacroExtCore(c: Cur, args: seq<string>, canon: Canon, name: string, rest: string, next: Cur, args': seq<string>)
    requires InputMacroExtEnd !in name && EOF !in name
    requires c.pos < |c.text| && c.text[c.pos] == InputMacroExtStart
    requires c.text[c.pos + 1..] == name + [InputMacroExtEnd] + rest
    requires next == Cursor(c.text, c.pos + |name| + 2, true) && args' == args + [ItemArg(ExtItem(name))]
    ensures MacroFrom(c, args, canon) == MacroFrom(next, args', canon)
  {
    var s := Read(c);
    assert s.ch == InputMacroExtStart && s.cur == Cursor(c.text, c.pos + 1, true);
    assert !CheckEndOfCmd(s.ch, s.cur).isEnd && CheckEndOfCmd(s.ch, s.cur).cur == s.cur;
    assert MacroExt(s.cur) == Ok(name + [InputMacroExtEnd], next) by {
      assert name + [InputMacroExtEnd] + rest == name + ([InputMacroExtEnd] + rest);
      MacroExtReads(s.cur, name, rest);
    }
    assert [InputMacroExtStart] + (name + [InputMacroExtEnd]) == ItemArg(ExtItem(name));
    assert MacroStep(c, args, canon) == MacroMore(next, args');
  }

  lemma {:induction false} MacroLoopSteps(canon: Canon)
    ensures ItemMoves(MacroLoopOf(canon)) && MacroEndStops(MacroLoopOf(canon))
  {
    var f := MacroLoopOf(canon);
    forall c: Cur, args: seq<string>, m: MacroItem ensures ItemMovesAt(f, c, args, m) {
      if ItemAt(c, m) {
        MacroItemStep(c, args, canon, m);
      }
    }
    forall c: Cur, args: seq<string> | c.pos == |c.text|
      ensures f(c, args) == Ok(ArgsOut(args, map[]), c.(canUnread := false))
    {
      assert MacroStep(c, args, canon) == MacroDone(Ok(ArgsOut(args, map[]), c.(canUnread := false)));
    }
  }

  /** The input from `c` on is exactly the items `ms`, in order. */
  ghost predicate ItemsFrom(c: Cur, ms: seq<MacroItem>)
    decreases |ms|
  {
    if ms == [] then c.pos == |c.text|
    else
      && ItemAt(c, ms[0]) && c.pos + |ItemText(ms[0])| <= |c.text|
      && ItemsFrom(Cursor(c.text, c.pos + |ItemText(ms[0])|, true), ms[1..])
  }

  lemma {:induction false} ItemsRun(f: MacroLoop, c: Cur, args: seq<string>, ms: seq<MacroItem>)
    requires ItemMoves(f) && MacroEndStops(f) && ItemsFrom(c, ms)
    ensures f(c, args) == Ok(ArgsOut(args + ItemArgs(ms), map[]), Cursor(c.text, |c.text|, false))
    decreases |ms|
  {
    if ms == [] {
      assert args + ItemArgs(ms) == args;
    } else {
      var e := ItemsFirst(f, c, args, ms);
      ItemsRun(f, e, args + [ItemArg(ms[0])], ms[1..]);
      ItemArgsCons(args, ms);
    }
  }

  /** Reading the first of the items. */
  lemma {:induction false} ItemsFirst(f: MacroLoop, c: Cur, args: seq<string>, ms: seq<MacroItem>) returns (e: Cur)
    requires ItemMoves(f) && ItemsFrom(c, ms) && ms != []
    ensures e.text == c.text && ItemsFrom(e, ms[1..])
    ensures f(c, args) == f(e, args + [ItemArg(ms[0])])
  {
    ItemsFromCons(c, ms);
    e := Cursor(c.text, c.pos + |ItemText(ms[0])|, true);
    assert f(c, args) == f(e, args + [ItemArg(ms[0])]) by {
      UseItemMoves(f, c, args, ms[0]);
    }
  }

  lemma {:induction false} ItemsFromCons(c: Cur, ms: seq<MacroItem>)
    requires ItemsFrom(c, ms) && ms != []
    ensures ItemAt(c, ms[0]) && c.pos + |ItemText(ms[0])| <= |c.text|
    ensures ItemsFrom(Cursor(c.text, c.pos + |ItemText(ms[0])|, true), ms[1..])
  {
  }

  lemma {:induction false} UseItemMoves(f: MacroLoop, c: Cur, args: seq<string>, m: MacroItem)
    requires ItemMoves(f)
    ensures ItemMovesAt(f, c, args, m)
  {
  }

  lemma {:induction false} ItemArgsCons(args: seq<string>, ms: seq<MacroItem>)
    requires ms != []
    ensures args + [ItemArg(ms[0])] + ItemArgs(ms[1..]) == args + ItemArgs(ms)
  {
    assert ItemArgs(ms) == [ItemArg(ms[0])] + ItemArgs(ms[1..]);
  }

  /** Input spelled as the text of well-formed items is those items. */
  lemma {:induction false} ItemsFromText(c: Cur, ms: seq<MacroItem>)
    requires c.text[c.pos..] == ItemsText(ms) && forall i :: 0 <= i < |ms| ==> ItemOk(ms[i])
    ensures ItemsFrom(c, ms)
    decreases |ms|
  {
    if ms == [] {
      assert |c.text[c.pos..]| == 0;
    } else {
      assert ItemOk(ms[0]);
      ItemsPeel(c, ms);
      forall i | 0 <= i < |ms[1..]| ensures ItemOk(ms[1..][i]) {
        assert ms[1..][i] == ms[i + 1];
      }
      ItemsFromText(Cursor(c.text, c.pos + |ItemText(ms[0])|, true), ms[1..]);
    }
  }

  /** The first item of a non-empty list of items. */
  lemma {:induction false} ItemsPeel(c: Cur, ms: seq<MacroItem>)
    requires c.text[c.pos..] == ItemsText(ms) && ms != [] && ItemOk(ms[0])
    ensures ItemAt(c, ms[0]) && c.pos + |ItemText(ms[0])| <= |c.text|
    ensures c.text[c.pos + |ItemText(ms[0])|..] == ItemsText(ms[1..])
  {
    ItemsPeelRest(c, ms);
    ItemsPeelFirst(c, ms);
  }

  lemma {:induction false} ItemsPeelRest(c: Cur, ms: seq<MacroItem>)
    requires c.text[c.pos..] == ItemsText(ms) && ms != []
    ensures c.pos + |ItemText(ms[0])| <= |c.text|
    ensures c.text[c.pos + |ItemText(ms[0])|..] == ItemsText(ms[1..])
  {
    assert ItemsText(ms) == ItemText(ms[0]) + ItemsText(ms[1..]);
    SliceSplit(c.text, c.pos, ItemText(ms[0]), ItemsText(ms[1..]));
  }

  lemma {:induction false} ItemsPeelFirst(c: Cur, ms: seq<MacroItem>)
    requires c.text[c.pos..] == ItemsText(ms) && ms != [] && ItemOk(ms[0])
    ensures ItemAt(c, ms[0])
  {
    assert ItemsText(ms) == ItemText(ms[0]) + ItemsText(ms[1..]);
    PrefixOfAppend(ItemText(ms[0]), ItemsText(ms[1..]));
  }

  lemma {:induction false} PrefixOfAppend(t: string, u: string)
    ensures t <= t + u
  {
    assert (t + u)[..|t|] == t;
  }

  /** An input macro made of keys, escaped keys and named keys produces
      one argument per item, in order. */
  lemma {:induction false} MacroItemsRead(c: Cur, canon: Canon, ms: seq<MacroItem>)
    requires c.text[c.pos..] == ItemsText(ms) && forall i :: 0 <= i < |ms| ==> ItemOk(ms[i])
    ensures ParseInputMacroArg(c, canon) == Ok(ArgsOut(ItemArgs(ms), map[]), Cursor(c.text, |c.text|, false))
  {
    var f := MacroLoopOf(canon);
    MacroLoopSteps(canon);
    ItemsFromText(c, ms);
    ItemsRun(f, c, [], ms);
    assert [] + ItemArgs(ms) == ItemArgs(ms);
    assert ParseInputMacroArg(c, canon) == f(c, []);
  }

  /** A backslash at the very end stands for itself. */
  lemma {:induction false} MacroTrailingEscape(c: Cur, args: seq<string>, canon: Canon)
    requires c.pos + 1 == |c.text| && c.text[c.pos] == InputMacroEscapeSeq
    ensures MacroFrom(c, args, canon) == Ok(ArgsOut(args + ["\\"], map[]), Cursor(c.text, |c.text|, false))
  {
    assert MacroStep(c, args, canon) == MacroDone(Ok(ArgsOut(args + ["\\"], map[]), Cursor(c.text, |c.text|, false)));
  }

  /** A '{' whose name runs to the end of the input is an error. */
  lemma {:induction false} MacroUnmatchedExt(c: Cur, args: seq<string>, canon: Canon)
    requires c.pos < |c.text| && c.text[c.pos] == InputMacroExtStart
    requires InputMacroExtEnd !in c.text[c.pos + 1..] && EOF !in c.text[c.pos + 1..]
    ensures MacroFrom(c, args, canon) == Fail(UnmatchedInputMacroExt)
  {
    MacroExtRunsOut(Cursor(c.text, c.pos + 1, true));
  }

  /** A '?' that does not start valid advanced arguments is spelled out,
      together with the raw text the advanced-argument scan consumed, one
      character per argument. */
  lemma {:induction false} MacroAdvFallback(c: Cur, args: seq<string>, canon: Canon)
    requires c.pos < |c.text| && c.text[c.pos] == AdvArgStart
    requires ParseAdvArgs(Cursor(c.text, c.pos + 1, true), canon).Fallback?
    ensures var a := ParseAdvArgs(Cursor(c.text, c.pos + 1, true), canon);
      MacroFrom(c, args, canon) == MacroFrom(a.cur, args + Singles([AdvArgStart] + a.raw), canon)
  {
  }

  // ---- positional arguments ----

  /** The state of the positional-argument loop: the finished arguments,
      the argument being read, and the position where it started. */
  datatype ArgsState = ArgsState(args: seq<string>, current: string, argStart: nat)

  /** One turn of the positional-argument loop. */
  datatype ArgsMove = ArgsMore(cur: Cur, st: ArgsState) | ArgsDone(result: Scan<ArgsOut>)

  /** The outcome when the loop stops: the last argument is trimmed and
      kept, except that with `onlyAdvArgs` an empty one is dropped. */
  function FinishArgs(st: ArgsState, onlyAdvArgs: bool, adv: map<string, string>, c: Cur): Scan<ArgsOut> {
    var last := TrimSpace(st.current);
    Ok(ArgsOut(if !onlyAdvArgs || last != "" then st.args + [last] else st.args, adv), c)
  }

  function ArgsStep(c: Cur, st: ArgsState, onlyAdvArgs: bool, onlyOneArg: bool, canon: Canon): (m: ArgsMove)
    ensures m.ArgsMore? ==> m.cur.text == c.text && c.pos < m.cur.pos
    ensures m.ArgsDone? ==> m.result.Within(c) && !m.result.Fallback?
    ensures m.ArgsDone? && m.result.Fail? ==> ArgError(m.result.err)
    ensures m.ArgsMore? ==> |st.args| <= |m.st.args|
    ensures m.ArgsDone? && m.result.Ok? && !onlyAdvArgs ==> |st.args| < |m.result.value.args|
    ensures m.ArgsDone? && m.result.Ok? && !AtEnd(c) ==> c.pos < m.result.cur.pos
  {
    var s := Read(c);
    if s.ch == EOF then ArgsDone(FinishArgs(st, onlyAdvArgs, map[], s.cur))
    else
      var atStart := st.argStart == s.cur.pos - 1;
      if atStart && (s.ch == ArgDoubleQuote || s.ch == ArgSingleQuote) then
        var q := ParseQuotedArg(s.cur, s.ch);
        if q.Fail? then ArgsDone(Fail(q.err)) else ArgsMore(q.cur, st.(current := q.value))
      else if atStart && s.ch == JSONStart then
        var j := ParseJSONArg(s.cur, canon);
        if j.Fail? then ArgsDone(Fail(j.err)) else ArgsMore(j.cur, st.(current := j.value))
      else if s.ch == EscapeSeq then
        var e := ParseEscapeSeq(s.cur);
        ArgsMore(e.cur, st.(current := st.current + if e.text == [] then [EscapeSeq] else e.text))
      else
        var eoc := CheckEndOfCmd(s.ch, s.cur);
        if eoc.isEnd then ArgsDone(FinishArgs(st, onlyAdvArgs, map[], eoc.cur))
        else if !onlyOneArg && s.ch == ArgSep then
          ArgsMore(eoc.cur, ArgsState(st.args + [TrimSpace(st.current)], "", eoc.cur.pos))
        else if s.ch == AdvArgStart then
          var a := ParseAdvArgs(eoc.cur, canon);
          match a
          case Fallback(raw, next) => ArgsMore(next, st.(current := st.current + [AdvArgStart] + raw))
          case Fail(e) => ArgsDone(Fail(e))
          case Ok(adv, next) => ArgsDone(FinishArgs(st, onlyAdvArgs, adv, next))
        else if s.ch == ExpressionStart then
          var x := ParseExpression(eoc.cur);
          if x.Fail? then ArgsDone(Fail(x.err)) else ArgsMore(x.cur, st.(current := st.current + x.value))
        else ArgsMore(eoc.cur, st.(current := st.current + [s.ch]))
  }

  function ArgsFrom(c: Cur, st: ArgsState, onlyAdvArgs: bool, onlyOneArg: bool, canon: Canon): (r: Scan<ArgsOut>)
    ensures r.Within(c) && !r.Fallback?
    ensures r.Fail? ==> ArgError(r.err)
    ensures r.Ok? && !onlyAdvArgs ==> |st.args| < |r.value.args|
    decreases |c.text| - c.pos
  {
    match ArgsStep(c, st, onlyAdvArgs, onlyOneArg, canon)
    case ArgsMore(next, st') => ArgsFrom(next, st', onlyAdvArgs, onlyOneArg, canon)
    case ArgsDone(r) => r
  }

  /** Positional arguments up to the end of the command, starting with the
      text `prefix` already in the first argument. Arguments are split at
      ',' (unless `onlyOneArg`) and trimmed; a quote or '{' as the first
      character of an argument starts a quoted or JSON literal that
      replaces it; '^' escapes; "[[" opens an expression; '?' starts the
      advanced arguments, which end the list. */
  function ParseArgs(c: Cur, prefix: string, onlyAdvArgs: bool, onlyOneArg: bool, canon: Canon): (r: Scan<ArgsOut>)
    ensures r.Within(c) && !r.Fallback?
    ensures r.Fail? ==> ArgError(r.err)
    ensures r.Ok? && !onlyAdvArgs ==> |r.value.args| > 0
  {
    ArgsFrom(c, ArgsState([], prefix, c.pos), onlyAdvArgs, onlyOneArg, canon)
  }

  /** Unless the input is already at its end, a successful argument scan
      consumes at least one character. */
  lemma {:induction false} ArgsProgress(c: Cur, st: ArgsState, onlyAdvArgs: bool, onlyOneArg: bool, canon: Canon)
    ensures var r := ArgsFrom(c, st, onlyAdvArgs, onlyOneArg, canon);
      r.Ok? && !AtEnd(c) ==> c.pos < r.cur.pos
  {
  }

  // ---- The positional loop over plain text ----

  /** A character the positional loop copies, or splits at when it is ','. */
  predicate ArgChar(ch: char) {
    ch != EOF && ch != EscapeSeq && ch != CmdSep && ch != AdvArgStart && ch != ExpressionStart
  }

  /** A character that opens a quoted or JSON literal when it comes first
      in an argument. */
  predicate OpensLiteral(ch: char) {
    ch == ArgDoubleQuote || ch == ArgSingleQuote || ch == JSONStart
  }

  /** Text the loop reads one character at a time: only copied characters,
      and no literal opener right after a ',' that splits arguments. */
  predicate PlainArgs(t: string, oneArg: bool) {
    && (forall i :: 0 <= i < |t| ==> ArgChar(t[i]))
    && (!oneArg ==> forall i :: 0 < i < |t| && t[i - 1] == ArgSep ==> !OpensLiteral(t[i]))
  }

  function TrimAll(ps: seq<string>): (r: seq<string>)
    ensures |r| == |ps|
  {
    if ps == [] then [] else [TrimSpace(ps[0])] + TrimAll(ps[1..])
  }

  /** The reference meaning of plain argument text: its ','-separated
      pieces, each trimmed, or the whole text trimmed when only one argument
      is taken. */
  function Pieces(s: string, oneArg: bool): seq<string> {
    if oneArg then [TrimSpace(s)] else TrimAll(Split(s, ArgSep))
  }

  /** The state after copying `ch`, read just before `pos`. */
  function NextArgs(st: ArgsState, ch: char, pos: nat, oneArg: bool): ArgsState {
    if !oneArg && ch == ArgSep then ArgsState(st.args + [TrimSpace(st.current)], "", pos)
    else st.(current := st.current + [ch])
  }

  /** The state after reading plain text `t` that starts at `pos`. */
  function ArgsAfter(st: ArgsState, t: string, pos: nat, oneArg: bool): ArgsState
    decreases |t|
  {
    if t == [] then st else ArgsAfter(NextArgs(st, t[0], pos + 1, oneArg), t[1..], pos + 1, oneArg)
  }

  /** The positional loop as a function of cursor and state. */
  type ArgsLoop = (Cur, ArgsState) -> Scan<ArgsOut>

  function ArgsLoopOf(onlyAdvArgs: bool, onlyOneArg: bool, canon: Canon): ArgsLoop {
    (c: Cur, st: ArgsState) => ArgsFrom(c, st, onlyAdvArgs, onlyOneArg, canon)
  }

  /** A copied character moves the loop one step. */
  ghost predicate ArgMovesAt(f: ArgsLoop, oneArg: bool, c: Cur, st: ArgsState) {
    c.pos < |c.text| && ArgChar(c.text[c.pos]) && !(st.argStart == c.pos && OpensLiteral(c.text[c.pos])) ==>
      f(c, st) == f(Cursor(c.text, c.pos + 1, true), NextArgs(st, c.text[c.pos], c.pos + 1, oneArg))
  }

  ghost predicate ArgMoves(f: ArgsLoop, oneArg: bool) {
    forall c: Cur, st: ArgsState :: ArgMovesAt(f, oneArg, c, st)
  }

  /** The end of the input finishes the arguments. */
  ghost predicate ArgsEndStops(f: ArgsLoop, onlyAdvArgs: bool) {
    forall c: Cur, st: ArgsState :: c.pos == |c.text| ==> f(c, st) == FinishArgs(st, onlyAdvArgs, map[], c.(canUnread := false))
  }

  /** One copied character, or one ',' that splits off an argument. */
  lemma {:induction false} ArgMoveStep(c: Cur, st: ArgsState, onlyAdvArgs: bool, oneArg: bool, canon: Canon)
    requires c.pos < |c.text| && ArgChar(c.text[c.pos]) && !(st.argStart == c.pos && OpensLiteral(c.text[c.pos]))
    ensures ArgsFrom(c, st, onlyAdvArgs, oneArg, canon)
         == ArgsFrom(Cursor(c.text, c.pos + 1, true), NextArgs(st, c.text[c.pos], c.pos + 1, oneArg), onlyAdvArgs, oneArg, canon)
  {
    var ch := c.text[c.pos];
    var next := Cursor(c.text, c.pos + 1, true);
    assert Read(c) == Step(ch, next);
    assert CheckEndOfCmd(ch, next) == EndCheck(false, next);
    assert ArgsStep(c, st, onlyAdvArgs, oneArg, canon) == ArgsMore(next, NextArgs(st, ch, c.pos + 1, oneArg));
  }

  lemma {:induction false} ArgsEndStep(c: Cur, st: ArgsState, onlyAdvArgs: bool, oneArg: bool, canon: Canon)
    requires c.pos == |c.text|
    ensures ArgsFrom(c, st, onlyAdvArgs, oneArg, canon) == FinishArgs(st, onlyAdvArgs, map[], c.(canUnread := false))
  {
    assert ArgsStep(c, st, onlyAdvArgs, oneArg, canon) == ArgsDone(FinishArgs(st, onlyAdvArgs, map[], c.(canUnread := false)));
  }

  lemma {:induction false} ArgsLoopSteps(onlyAdvArgs: bool, oneArg: bool, canon: Canon)
    ensures ArgMoves(ArgsLoopOf(onlyAdvArgs, oneArg, canon), oneArg)
    ensures ArgsEndStops(ArgsLoopOf(onlyAdvArgs, oneArg, canon), onlyAdvArgs)
  {
    var f := ArgsLoopOf(onlyAdvArgs, oneArg, canon);
    forall c: Cur, st: ArgsState ensures ArgMovesAt(f, oneArg, c, st) {
      if c.pos < |c.text| && ArgChar(c.text[c.pos]) && !(st.argStart == c.pos && OpensLiteral(c.text[c.pos])) {
        ArgMoveStep(c, st, onlyAdvArgs, oneArg, canon);
      }
    }
    forall c: Cur, st: ArgsState | c.pos == |c.text|
      ensures f(c, st) == FinishArgs(st, onlyAdvArgs, map[], c.(canUnread := false))
    {
      ArgsEndStep(c, st, onlyAdvArgs, oneArg, canon);
    }
  }

  /** The cursor after `n` more characters have been read from `c`. */
  function Ahead(c: Cur, n: nat): (a: Cur)
    requires c.pos + n <= |c.text|
    ensures a.text == c.text && a.pos == c.pos + n
  {
    if n == 0 then c else Cursor(c.text, c.pos + n, true)
  }

  /** Plain text moves the loop to the state `ArgsAfter` describes. */
  lemma {:induction false} ArgsRun(f: ArgsLoop, oneArg: bool, c: Cur, st: ArgsState, t: string)
    requires ArgMoves(f, oneArg)
    requires c.pos + |t| <= |c.text| && c.text[c.pos..c.pos + |t|] == t && PlainArgs(t, oneArg)
    requires st.argStart <= c.pos && (st.argStart == c.pos && t != [] ==> !OpensLiteral(t[0]))
    ensures f(c, st) == f(Ahead(c, |t|), ArgsAfter(st, t, c.pos, oneArg))
    ensures ArgsAfter(st, t, c.pos, oneArg).argStart <= c.pos + |t|
    decreases |t|
  {
    if t != [] {
      var ch := t[0];
      assert c.text[c.pos] == ch by { assert c.text[c.pos..c.pos + |t|][0] == ch; }
      var st' := NextArgs(st, ch, c.pos + 1, oneArg);
      var e := Cursor(c.text, c.pos + 1, true);
      assert ArgMovesAt(f, oneArg, c, st);
      PlainArgsTail(t, oneArg);
      assert c.text[e.pos..e.pos + |t[1..]|] == t[1..] by {
        assert c.text[e.pos..e.pos + |t[1..]|] == c.text[c.pos..c.pos + |t|][1..];
      }
      ArgsRun(f, oneArg, e, st', t[1..]);
    }
  }

  lemma {:induction false} PlainArgsTail(t: string, oneArg: bool)
    requires PlainArgs(t, oneArg) && t != []
    ensures ArgChar(t[0]) && PlainArgs(t[1..], oneArg)
    ensures !oneArg && t[0] == ArgSep && |t| > 1 ==> !OpensLiteral(t[1])
  {
    forall i | 0 <= i < |t| - 1 ensures ArgChar(t[1..][i]) {
      assert t[1..][i] == t[i + 1];
    }
    if !oneArg {
      forall i | 0 < i < |t| - 1 && t[1..][i - 1] == ArgSep ensures !OpensLiteral(t[1..][i]) {
        assert t[1..][i] == t[i + 1] && t[1..][i - 1] == t[i];
      }
    }
  }

  // ---- What the positional loop computes ----

  /** The pieces of text with a ',' after a first piece without one. */
  lemma {:induction false} PiecesSep(a: string, b: string)
    requires ArgSep !in a
    ensures Pieces(a + [ArgSep] + b, false) == [TrimSpace(a)] + Pieces(b, false)
  {
    SplitAtFirst(a, b, ArgSep);
    var parts := [a] + Split(b, ArgSep);
    assert parts[1..] == Split(b, ArgSep);
  }

  /** Reading plain text keeps the meaning of the state: the arguments so
      far followed by the pieces of the current argument and the text. */
  lemma {:induction false} ArgsAfterPieces(st: ArgsState, t: string, pos: nat, oneArg: bool)
    requires !oneArg ==> ArgSep !in st.current
    ensures !oneArg ==> ArgSep !in ArgsAfter(st, t, pos, oneArg).current
    ensures ArgsAfter(st, t, pos, oneArg).args + Pieces(ArgsAfter(st, t, pos, oneArg).current, oneArg)
         == st.args + Pieces(st.current + t, oneArg)
    decreases |t|
  {
    if t == [] {
      assert st.current + t == st.current;
    } else {
      var ch := t[0];
      var st' := NextArgs(st, ch, pos + 1, oneArg);
      ArgsAfterPieces(st', t[1..], pos + 1, oneArg);
      var after := ArgsAfter(st', t[1..], pos + 1, oneArg);
      assert ArgsAfter(st, t, pos, oneArg) == after;
      if !oneArg && ch == ArgSep {
        SepKeeps(st, t, after);
      } else {
        CopyKeeps(st, t, after, oneArg);
      }
    }
  }

  lemma {:induction false} CopyKeeps(st: ArgsState, t: string, after: ArgsState, oneArg: bool)
    requires t != [] && (oneArg || t[0] != ArgSep) && (!oneArg ==> ArgSep !in st.current)
    requires after.args + Pieces(after.current, oneArg) == st.args + Pieces(st.current + [t[0]] + t[1..], oneArg)
    ensures after.args + Pieces(after.current, oneArg) == st.args + Pieces(st.current + t, oneArg)
    ensures !oneArg ==> ArgSep !in st.current + [t[0]]
  {
    assert st.current + [t[0]] + t[1..] == st.current + t;
  }

  lemma {:induction false} SepKeeps(st: ArgsState, t: string, after: ArgsState)
    requires t != [] && t[0] == ArgSep && ArgSep !in st.current
    requires after.args + Pieces(after.current, false) == st.args + [TrimSpace(st.current)] + Pieces([] + t[1..], false)
    ensures after.args + Pieces(after.current, false) == st.args + Pieces(st.current + t, false)
  {
    SepText(st.current, t);
    PiecesSep(st.current, t[1..]);
    SepAssoc(st.args, TrimSpace(st.current), Pieces(t[1..], false));
  }

  lemma {:induction false} SepAssoc(xs: seq<string>, x: string, ys: seq<string>)
    ensures xs + [x] + ys == xs + ([x] + ys)
  {
  }

  lemma {:induction false} SepText(cur: string, t: string)
    requires t != [] && t[0] == ArgSep
    ensures [] + t[1..] == t[1..] && cur + t == cur + [ArgSep] + t[1..]
  {
    assert t == [ArgSep] + t[1..];
  }

  /** The arguments the loop returns: the pieces, except that with
      `onlyAdvArgs` an empty last piece is dropped. */
  function KeepPieces(ps: seq<string>, onlyAdvArgs: bool): seq<string>
    requires |ps| > 0
  {
    if onlyAdvArgs && ps[|ps| - 1] == "" then ps[..|ps| - 1] else ps
  }

  lemma {:induction false} PiecesOfOne(s: string, oneArg: bool)
    requires !oneArg ==> ArgSep !in s
    ensures Pieces(s, oneArg) == [TrimSpace(s)]
  {
    if !oneArg {
      SplitNone(s, ArgSep);
    }
  }

  lemma {:induction false} PiecesNonEmpty(s: string, oneArg: bool)
    ensures |Pieces(s, oneArg)| > 0
  {
  }

  lemma {:induction false} LastOf(xs: seq<string>, ys: seq<string>, zs: seq<string>, x: string)
    requires xs + ys == zs + [x] && |ys| > 0
    ensures ys[|ys| - 1] == x && xs + ys[..|ys| - 1] == zs
  {
    assert (xs + ys)[|xs + ys| - 1] == ys[|ys| - 1];
    assert xs + ys[..|ys| - 1] == (xs + ys)[..|xs + ys| - 1];
  }

  /** Finishing after plain text gives the pieces of all the text read. */
  lemma {:induction false} FinishAfter(st: ArgsState, t: string, pos: nat, onlyAdvArgs: bool, oneArg: bool, adv: map<string, string>, c: Cur)
    requires !oneArg ==> ArgSep !in st.current
    ensures |Pieces(st.current + t, oneArg)| > 0
    ensures FinishArgs(ArgsAfter(st, t, pos, oneArg), onlyAdvArgs, adv, c)
         == Ok(ArgsOut(st.args + KeepPieces(Pieces(st.current + t, oneArg), onlyAdvArgs), adv), c)
  {
    var a := ArgsAfter(st, t, pos, oneArg);
    ArgsAfterPieces(st, t, pos, oneArg);
    PiecesOfOne(a.current, oneArg);
    var ps := Pieces(st.current + t, oneArg);
    PiecesNonEmpty(st.current + t, oneArg);
    LastOf(st.args, ps, a.args, TrimSpace(a.current));
  }

  lemma {:induction false} UseArgsEnd(f: ArgsLoop, onlyAdvArgs: bool, c: Cur, st: ArgsState)
    requires ArgsEndStops(f, onlyAdvArgs) && c.pos == |c.text|
    ensures f(c, st) == FinishArgs(st, onlyAdvArgs, map[], c.(canUnread := false))
  {
  }

  /** Plain argument text: the arguments are the trimmed ','-separated
      pieces of the prefix followed by the text, or the whole of it when
      only one argument is taken; with `onlyAdvArgs` an empty last piece is
      dropped. */
  lemma {:induction false} PlainArgsRead(c: Cur, prefix: string, onlyAdvArgs: bool, oneArg: bool, canon: Canon)
    requires PlainArgs(c.text[c.pos..], oneArg)
    requires c.pos < |c.text| ==> !OpensLiteral(c.text[c.pos])
    requires !oneArg ==> ArgSep !in prefix
    ensures |Pieces(prefix + c.text[c.pos..], oneArg)| > 0
    ensures ParseArgs(c, prefix, onlyAdvArgs, oneArg, canon)
         == Ok(ArgsOut(KeepPieces(Pieces(prefix + c.text[c.pos..], oneArg), onlyAdvArgs), map[]), Cursor(c.text, |c.text|, false))
  {
    var f := ArgsLoopOf(onlyAdvArgs, oneArg, canon);
    var st := ArgsState([], prefix, c.pos);
    var t := c.text[c.pos..];
    ArgsLoopSteps(onlyAdvArgs, oneArg, canon);
    assert c.text[c.pos..c.pos + |t|] == t;
    ArgsRun(f, oneArg, c, st, t);
    var e := Ahead(c, |t|);
    UseArgsEnd(f, onlyAdvArgs, e, ArgsAfter(st, t, c.pos, oneArg));
    FinishAfter(st, t, c.pos, onlyAdvArgs, oneArg, map[], e.(canUnread := false));
    assert [] + KeepPieces(Pieces(prefix + t, oneArg), onlyAdvArgs) == KeepPieces(Pieces(prefix + t, oneArg), onlyAdvArgs);
    assert ParseArgs(c, prefix, onlyAdvArgs, oneArg, canon) == f(c, st);
  }

  lemma {:induction false} ArgsLoopApply(onlyAdvArgs: bool, oneArg: bool, canon: Canon, c: Cur, st: ArgsState)
    ensures ArgsLoopOf(onlyAdvArgs, oneArg, canon)(c, st) == ArgsFrom(c, st, onlyAdvArgs, oneArg, canon)
  {
  }

  /** A '?' followed by valid advanced arguments ends the list: the
      current argument is finished and the advanced arguments are kept. */
  lemma {:induction false} ArgsAdvOkStep(c: Cur, st: ArgsState, onlyAdvArgs: bool, oneArg: bool, canon: Canon, adv: map<string, string>, next: Cur)
    requires c.pos < |c.text| && c.text[c.pos] == AdvArgStart
    requires ParseAdvArgs(Cursor(c.text, c.pos + 1, true), canon) == Ok(adv, next)
    ensures ArgsFrom(c, st, onlyAdvArgs, oneArg, canon) == FinishArgs(st, onlyAdvArgs, adv, next)
  {
    assert Read(c) == Step(AdvArgStart, Cursor(c.text, c.pos + 1, true));
    assert ArgsStep(c, st, onlyAdvArgs, oneArg, canon) == ArgsDone(FinishArgs(st, onlyAdvArgs, adv, next));
  }

  /** A '?' that does not start valid advanced arguments stays in the
      current argument together with the text the advanced scanner read. */
  lemma {:induction false} ArgsAdvFallbackStep(c: Cur, st: ArgsState, onlyAdvArgs: bool, oneArg: bool, canon: Canon)
    requires c.pos < |c.text| && c.text[c.pos] == AdvArgStart
    requires ParseAdvArgs(Cursor(c.text, c.pos + 1, true), canon).Fallback?
    ensures ArgsFrom(c, st, onlyAdvArgs, oneArg, canon)
         == ArgsFrom(ParseAdvArgs(Cursor(c.text, c.pos + 1, true), canon).cur,
                     st.(current := st.current + [AdvArgStart] + ParseAdvArgs(Cursor(c.text, c.pos + 1, true), canon).raw),
                     onlyAdvArgs, oneArg, canon)
  {
    var next := Cursor(c.text, c.pos + 1, true);
    var a := ParseAdvArgs(next, canon);
    assert Read(c) == Step(AdvArgStart, next);
    assert ArgsStep(c, st, onlyAdvArgs, oneArg, canon) == ArgsMore(a.cur, st.(current := st.current + [AdvArgStart] + a.raw));
  }

  /** "?x" where x cannot start an advanced argument name is two ordinary
      characters of the current argument. */
  lemma {:induction false} ArgsQuestionKept(c: Cur, st: ArgsState, onlyAdvArgs: bool, oneArg: bool, canon: Canon)
    requires c.pos + 1 < |c.text| && c.text[c.pos] == AdvArgStart
    requires c.text[c.pos + 1] != EOF && !IsAdvArgName(c.text[c.pos + 1])
    requires c.text[c.pos + 1] != AdvArgSep && c.text[c.pos + 1] != AdvArgEq && c.text[c.pos + 1] != CmdSep
    ensures ArgsFrom(c, st, onlyAdvArgs, oneArg, canon)
         == ArgsFrom(Cursor(c.text, c.pos + 2, true), st.(current := st.current + [AdvArgStart, c.text[c.pos + 1]]), onlyAdvArgs, oneArg, canon)
  {
    AdvInvalidFirst(Cursor(c.text, c.pos + 1, true), canon);
    ArgsAdvFallbackStep(c, st, onlyAdvArgs, oneArg, canon);
    QuestionText(st.current, c.text[c.pos + 1]);
  }

  lemma {:induction false} QuestionText(cur: string, ch: char)
    ensures cur + [AdvArgStart] + [ch] == cur + [AdvArgStart, ch]
  {
  }

  /** The text before the advanced arguments, the '?', and the rest. */
  lemma {:induction false} AdvTailText(text: string, pos: nat, t: string, u: string)
    requires pos <= |text| && text[pos..] == t + [AdvArgStart] + u
    ensures pos + |t| < |text| && text[pos..pos + |t|] == t
    ensures text[pos + |t|] == AdvArgStart && text[pos + |t| + 1..] == u
  {
    assert text[pos..][..|t|] == t;
    assert text[pos..][|t|] == AdvArgStart;
    assert text[pos..][|t| + 1..] == u;
  }

  /** Plain arguments followed by well-formed advanced arguments: the
      pieces of the text before the '?' and the map the advanced arguments
      describe. */
  lemma {:induction false} ArgsWithAdvRead(c: Cur, prefix: string, onlyAdvArgs: bool, oneArg: bool, canon: Canon, t: string, ps: seq<AdvPair>)
    requires |ps| > 0 && c.text[c.pos..] == t + [AdvArgStart] + PairsText(ps)
    requires forall i :: 0 <= i < |ps| ==> PairOk(ps[i])
    requires PlainArgs(t, oneArg) && (t != [] ==> !OpensLiteral(t[0]))
    requires !oneArg ==> ArgSep !in prefix
    ensures |Pieces(prefix + t, oneArg)| > 0
    ensures ParseArgs(c, prefix, onlyAdvArgs, oneArg, canon)
         == Ok(ArgsOut(KeepPieces(Pieces(prefix + t, oneArg), onlyAdvArgs), PairsMap(map[], ps)), Cursor(c.text, |c.text|, false))
  {
    var f := ArgsLoopOf(onlyAdvArgs, oneArg, canon);
    var st := ArgsState([], prefix, c.pos);
    AdvHeadText(c, t, PairsText(ps));
    ArgsLoopSteps(onlyAdvArgs, oneArg, canon);
    ArgsRun(f, oneArg, c, st, t);
    var after := ArgsAfter(st, t, c.pos, oneArg);
    AdvStop(c, t, after, onlyAdvArgs, oneArg, canon, ps);
    FinishAfter(st, t, c.pos, onlyAdvArgs, oneArg, PairsMap(map[], ps), Cursor(c.text, |c.text|, false));
    EmptyPrefix(KeepPieces(Pieces(prefix + t, oneArg), onlyAdvArgs));
    ArgsLoopApply(onlyAdvArgs, oneArg, canon, c, st);
  }

  lemma {:induction false} AdvHeadText(c: Cur, t: string, u: string)
    requires c.text[c.pos..] == t + [AdvArgStart] + u
    ensures c.pos + |t| < |c.text| && c.text[c.pos..c.pos + |t|] == t
  {
    AdvTailText(c.text, c.pos, t, u);
  }

  /** Well-formed advanced arguments after the plain text end the loop. */
  lemma {:induction false} AdvStop(c: Cur, t: string, st: ArgsState, onlyAdvArgs: bool, oneArg: bool, canon: Canon, ps: seq<AdvPair>)
    requires |ps| > 0 && c.text[c.pos..] == t + [AdvArgStart] + PairsText(ps) && forall i :: 0 <= i < |ps| ==> PairOk(ps[i])
    ensures c.pos + |t| < |c.text|
    ensures ArgsLoopOf(onlyAdvArgs, oneArg, canon)(Ahead(c, |t|), st)
         == FinishArgs(st, onlyAdvArgs, PairsMap(map[], ps), Cursor(c.text, |c.text|, false))
  {
    AdvTailText(c.text, c.pos, t, PairsText(ps));
    var e := Ahead(c, |t|);
    AdvStopAt(e, st, onlyAdvArgs, oneArg, canon, ps);
    ArgsLoopApply(onlyAdvArgs, oneArg, canon, e, st);
  }

  lemma {:induction false} AdvStopAt(e: Cur, st: ArgsState, onlyAdvArgs: bool, oneArg: bool, canon: Canon, ps: seq<AdvPair>)
    requires e.pos < |e.text| && e.text[e.pos] == AdvArgStart
    requires |ps| > 0 && e.text[e.pos + 1..] == PairsText(ps) && forall i :: 0 <= i < |ps| ==> PairOk(ps[i])
    ensures ArgsFrom(e, st, onlyAdvArgs, oneArg, canon) == FinishArgs(st, onlyAdvArgs, PairsMap(map[], ps), Cursor(e.text, |e.text|, false))
  {
    AdvPairsRead(Cursor(e.text, e.pos + 1, true), canon, ps);
    ArgsAdvOkStep(e, st, onlyAdvArgs, oneArg, canon, PairsMap(map[], ps), Cursor(e.text, |e.text|, false));
  }

  lemma {:induction false} EmptyPrefix(xs: seq<string>)
    ensures [] + xs == xs
  {
  }

  /** A quote first in an argument starts a quoted literal, which replaces
      whatever the argument held before, the prefix included. */
  lemma {:induction false} ArgsQuoteStep(c: Cur, st: ArgsState, onlyAdvArgs: bool, oneArg: bool, canon: Canon)
    requires c.pos < |c.text| && (c.text[c.pos] == ArgDoubleQuote || c.text[c.pos] == ArgSingleQuote)
    requires st.argStart == c.pos && ParseQuotedArg(Cursor(c.text, c.pos + 1, true), c.text[c.pos]).Ok?
    ensures ArgsFrom(c, st, onlyAdvArgs, oneArg, canon)
         == ArgsFrom(ParseQuotedArg(Cursor(c.text, c.pos + 1, true), c.text[c.pos]).cur,
                     st.(current := ParseQuotedArg(Cursor(c.text, c.pos + 1, true), c.text[c.pos]).value),
                     onlyAdvArgs, oneArg, canon)
  {
    var next := Cursor(c.text, c.pos + 1, true);
    var q := ParseQuotedArg(next, c.text[c.pos]);
    assert Read(c) == Step(c.text[c.pos], next);
    assert ArgsStep(c, st, onlyAdvArgs, oneArg, canon) == ArgsMore(q.cur, st.(current := q.value));
  }

  /** A whole command argument that is one quoted literal: the literal,
      trimmed, is the only argument, and the prefix is gone. */
  lemma {:induction false} QuotedArgRead(c: Cur, prefix: string, oneArg: bool, canon: Canon, quote: char, s: string)
    requires (quote == ArgDoubleQuote || quote == ArgSingleQuote) && QuotedPlain(s, quote)
    requires c.text[c.pos..] == [quote] + s + [quote]
    ensures ParseArgs(c, prefix, false, oneArg, canon) == Ok(ArgsOut([TrimSpace(s)], map[]), Cursor(c.text, |c.text|, false))
  {
    var st := ArgsState([], prefix, c.pos);
    QuoteText(c.text, c.pos, quote, s);
    var next := Cursor(c.text, c.pos + 1, true);
    QuotedReadsToQuote(next, quote, s);
    var q := ParseQuotedArg(next, quote);
    ArgsQuoteStep(c, st, false, oneArg, canon);
    ArgsEndStep(q.cur, st.(current := q.value), false, oneArg, canon);
    FinishOne(st.(current := q.value), q.cur.(canUnread := false));
  }

  /** Finishing with no earlier arguments gives the trimmed current one. */
  lemma {:induction false} FinishOne(st: ArgsState, c: Cur)
    requires st.args == []
    ensures FinishArgs(st, false, map[], c) == Ok(ArgsOut([TrimSpace(st.current)], map[]), c)
  {
    assert st.args + [TrimSpace(st.current)] == [TrimSpace(st.current)];
  }

  lemma {:induction false} QuoteText(text: string, pos: nat, quote: char, s: string)
    requires pos <= |text| && text[pos..] == [quote] + s + [quote]
    ensures pos + |s| + 2 == |text| && text[pos] == quote
    ensures text[pos + 1..pos + 1 + |s| + 1] == s + [quote]
  {
    assert text[pos..][0] == quote;
    assert text[pos + 1..pos + 1 + |s| + 1] == text[pos..][1..];
  }
}
