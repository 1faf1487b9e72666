/** The character cursor every scanner threads: one code point of
    lookahead, one code point of pushback, and a running position. */
module Reader {
  import opened Symbols

  /** A cursor over already-decoded input. `pos` is the number of code
      points consumed so far, which is also the index of the next one.
      `canUnread` is the reader's pushback slot: it is set by a read that
      returned a real character and cleared by everything else (a read at
      the end, a peek, an unread). */
  datatype Cursor = Cursor(text: seq<char>, pos: nat, canUnread: bool)

  type Cur = c: Cursor | c.pos <= |c.text| && (c.canUnread ==> 0 < c.pos)
    witness Cursor([], 0, false)

  /** A character together with the cursor after producing it. */
  datatype Step = Step(ch: char, cur: Cur)

  /** The three-way outcome of a sub-scanner: a value, a request to treat
      the consumed text as literal content, or a hard error. */
  datatype Scan<+T> = Ok(value: T, cur: Cur) | Fallback(raw: string, cur: Cur) | Fail(err: Error)
  {
    /** A successful or fallback outcome reads the same text and never
        moves the cursor backwards past `c`. */
    predicate Within(c: Cur) {
      !Fail? ==> cur.text == c.text && c.pos <= cur.pos
    }
  }

  /** True when nothing is left to read, or the next character is the
      sentinel code point. */
  predicate AtEnd(c: Cur) {
    c.pos == |c.text| || c.text[c.pos] == EOF
  }

  function NewParser(text: seq<char>): (c: Cur)
    ensures c.text == text && c.pos == 0 && !c.canUnread
  {
    Cursor(text, 0, false)
  }

  /** Consumes the next code point; at the end returns the sentinel and
      stays put. */
  function Read(c: Cur): (s: Step)
    ensures s.cur.text == c.text
    ensures c.pos == |c.text| ==> s.ch == EOF && s.cur.pos == c.pos && !s.cur.canUnread
    ensures c.pos < |c.text| ==> s.ch == c.text[c.pos] && s.cur.pos == c.pos + 1 && s.cur.canUnread
  {
    if c.pos == |c.text| then Step(EOF, c.(canUnread := false))
    else Step(c.text[c.pos], Cursor(c.text, c.pos + 1, true))
  }

  /** Looks at the next code point without consuming it. Like the
      buffered reader underneath, a peek empties the pushback slot. */
  function Peek(c: Cur): (s: Step)
    ensures s.cur.text == c.text && s.cur.pos == c.pos && !s.cur.canUnread
  {
    Step(if c.pos == |c.text| then EOF else c.text[c.pos], c.(canUnread := false))
  }

  /** Pushes back the code point returned by the immediately preceding
      read. Anything else in between (or a read that hit the end) makes the
      pushback fail. */
  function Unread(c: Cur): (r: Result<Cur>)
    ensures r.Success? <==> c.canUnread
    ensures r.Success? ==> r.value.text == c.text && r.value.pos + 1 == c.pos && !r.value.canUnread
    ensures r.Failure? ==> r.error == InvalidUnreadRune
  {
    if c.canUnread then Success(Cursor(c.text, c.pos - 1, false)) else Failure(InvalidUnreadRune)
  }

  function Skip(c: Cur): (c': Cur)
    ensures c' == Read(c).cur
  {
    Read(c).cur
  }

  /** Peek agrees with Read on the character and differs only in not
      consuming it. */
  lemma {:induction false} PeekIsReadWithoutMoving(c: Cur)
    ensures Peek(c).ch == Read(c).ch
    ensures Peek(c).cur.pos == c.pos && Peek(c).cur.text == c.text
    ensures Read(c).ch != EOF ==> Read(c).cur.pos == c.pos + 1
  {
  }

  /** Pushing back right after a read that returned a real character
      restores the position, so the same character is read again. */
  lemma {:induction false} ReadUnreadRestores(c: Cur)
    requires c.pos < |c.text|
    ensures Unread(Read(c).cur).Success?
    ensures Unread(Read(c).cur).value.pos == c.pos
    ensures Read(Unread(Read(c).cur).value) == Read(c)
  {
  }

  /** Pushback after a read that hit the end fails, and so does pushback
      after a peek. */
  lemma {:induction false} UnreadNeedsARead(c: Cur)
    ensures c.pos == |c.text| ==> Unread(Read(c).cur).Failure?
    ensures Unread(Peek(c).cur).Failure?
  {
  }

  /** Splits the unread rest of a text at a known prefix. */
  lemma {:induction false} SliceSplit(text: seq<char>, pos: nat, a: seq<char>, b: seq<char>)
    requires pos <= |text| && text[pos..] == a + b
    ensures pos + |a| <= |text|
    ensures text[pos..pos + |a|] == a && text[pos + |a|..] == b
  {
    assert text[pos..pos + |a|] == (a + b)[..|a|];
    assert text[pos + |a|..] == (a + b)[|a|..];
  }

  /** Peeling the first character off a concatenation. */
  lemma {:induction false} ConsSplit(t: seq<char>, u: seq<char>)
    requires t != []
    ensures t + u == [t[0]] + (t[1..] + u)
  {
    assert t == [t[0]] + t[1..];
  }

  /** Peeling the first character off a slice followed by more text. */
  lemma {:induction false} SliceCons(text: seq<char>, i: nat, j: nat, rest: seq<char>)
    requires i < j <= |text|
    ensures [text[i]] + (text[i + 1..j] + rest) == text[i..j] + rest
  {
    assert text[i..j] == [text[i]] + text[i + 1..j];
  }

  /** The result of checking a just-read character for the chain
      terminator, and the cursor after the check. */
  datatype EndCheck = EndCheck(isEnd: bool, cur: Cur)

  /** `ch` ends a command when it is '|' and the next code point is another
      '|' or the end. Only that second '|' is consumed. */
  function CheckEndOfCmd(ch: char, c: Cur): (r: EndCheck)
    ensures r.cur.text == c.text
    ensures r.isEnd <==> ch == CmdSep && (AtEnd(c) || c.text[c.pos] == CmdSep)
    ensures r.cur.pos == if ch == CmdSep && !AtEnd(c) && c.text[c.pos] == CmdSep then c.pos + 1 else c.pos
  {
    if ch != CmdSep then EndCheck(false, c)
    else
      var p := Peek(c);
      if p.ch == EOF then EndCheck(true, p.cur)
      else if p.ch == CmdSep then EndCheck(true, Skip(p.cur))
      else EndCheck(false, p.cur)
  }

  /** The decoded text of an escape sequence and the cursor after it. */
  datatype Decoded = Decoded(text: string, cur: Cur)

  /** Decodes the character after '^'. The letters n, r and t stand for
      newline, carriage return and tab; every other character stands for
      itself; at the end nothing is produced and the caller re-emits the
      '^'. */
  function ParseEscapeSeq(c: Cur): (r: Decoded)
    ensures r.cur.text == c.text
    ensures r.cur.pos == if c.pos < |c.text| then c.pos + 1 else c.pos
    ensures r.text == [] <==> AtEnd(c)
    ensures |r.text| <= 1
    ensures !AtEnd(c) && c.text[c.pos] !in "nrt" ==> r.text == [c.text[c.pos]]
  {
    var s := Read(c);
    var out :=
      if s.ch == EOF then ""
      else if s.ch == 'n' then "\n"
      else if s.ch == 'r' then "\r"
      else if s.ch == 't' then "\t"
      else if s.ch == EscapeSeq then [EscapeSeq]
      else if s.ch == ArgDoubleQuote then [ArgDoubleQuote]
      else if s.ch == ArgSingleQuote then [ArgSingleQuote]
      else [s.ch];
    Decoded(out, s.cur)
  }

  /** The escape table, including the three characters that stand for
      themselves. */
  lemma {:induction false} EscapeTable(c: Cur)
    requires c.pos < |c.text|
    ensures c.text[c.pos] == 'n' ==> ParseEscapeSeq(c).text == "\n"
    ensures c.text[c.pos] == 'r' ==> ParseEscapeSeq(c).text == "\r"
    ensures c.text[c.pos] == 't' ==> ParseEscapeSeq(c).text == "\t"
    ensures c.text[c.pos] == '^' ==> ParseEscapeSeq(c).text == "^"
    ensures c.text[c.pos] == '"' ==> ParseEscapeSeq(c).text == "\""
    ensures c.text[c.pos] == '\'' ==> ParseEscapeSeq(c).text == "'"
  {
  }
}
