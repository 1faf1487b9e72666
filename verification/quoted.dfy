/** The quoted-literal scanner shared by positional and advanced
    arguments: text up to the matching quote, with escapes decoded and
    expressions tokenised on the way. */
module Quoted {
  import opened Symbols
  import opened Reader
  import opened Expressions

  /** Called after the opening `quote` has been read. Ends at the first
      copy of `quote` that is not consumed by an escape or an expression;
      running out of input is an unmatched quote. */
  function ParseQuotedArg(c: Cur, quote: char): (r: Scan<string>)
    ensures r.Within(c) && !r.Fallback?
    ensures r.Fail? ==> r.err == UnmatchedQuote || r.err == UnmatchedExpression || r.err == InvalidUnreadRune
    ensures r.Ok? ==> c.pos < r.cur.pos && c.text[r.cur.pos - 1] == quote
    decreases |c.text| - c.pos
  {
    var s := Read(c);
    if s.ch == EOF then Fail(UnmatchedQuote)
    else if s.ch == EscapeSeq then
      var e := ParseEscapeSeq(s.cur);
      var rest := ParseQuotedArg(e.cur, quote);
      if rest.Fail? then rest else Ok(e.text + rest.value, rest.cur)
    else if s.ch == ExpressionStart then
      var x := ParseExpression(s.cur);
      if x.Fail? then Fail(x.err)
      else
        var rest := ParseQuotedArg(x.cur, quote);
        if rest.Fail? then rest else Ok(x.value + rest.value, rest.cur)
    else if s.ch == quote then Ok([], s.cur)
    else
      var rest := ParseQuotedArg(s.cur, quote);
      if rest.Fail? then rest else Ok([s.ch] + rest.value, rest.cur)
  }

  /** Text the quoted scanner copies verbatim up to `quote`. */
  predicate QuotedPlain(s: string, quote: char) {
    Plain(s) && quote !in s
  }

  /** The unfolding of `ParseQuotedArg` at a character copied verbatim. */
  lemma {:induction false} QuotedCopyStep(c: Cur, quote: char)
    requires c.pos < |c.text| && c.text[c.pos] != quote
    requires c.text[c.pos] != EOF && c.text[c.pos] != EscapeSeq && c.text[c.pos] != ExpressionStart
    requires ParseQuotedArg(Read(c).cur, quote).Ok?
    ensures ParseQuotedArg(c, quote).Ok?
    ensures ParseQuotedArg(c, quote).value == [c.text[c.pos]] + ParseQuotedArg(Read(c).cur, quote).value
    ensures ParseQuotedArg(c, quote).cur == ParseQuotedArg(Read(c).cur, quote).cur
  {
  }

  /** Plain text followed by the quote is returned as it is, and the scan
      stops right after that quote. */
  lemma {:induction false} QuotedReadsToQuote(c: Cur, quote: char, s: string)
    requires (quote == ArgDoubleQuote || quote == ArgSingleQuote) && QuotedPlain(s, quote)
    requires c.pos + |s| < |c.text| && c.text[c.pos..c.pos + |s| + 1] == s + [quote]
    ensures ParseQuotedArg(c, quote).Ok?
    ensures ParseQuotedArg(c, quote).value == s
    ensures ParseQuotedArg(c, quote).cur.pos == c.pos + |s| + 1
    decreases |s|
  {
    if s == [] {
      assert c.text[c.pos] == c.text[c.pos..c.pos + |s| + 1][0];
    } else {
      QuotedTail(c, quote, s);
      QuotedReadsToQuote(Read(c).cur, quote, s[1..]);
      QuotedCopyStep(c, quote);
    }
  }

  lemma {:induction false} QuotedTail(c: Cur, quote: char, s: string)
    requires QuotedPlain(s, quote) && s != []
    requires c.pos + |s| < |c.text| && c.text[c.pos..c.pos + |s| + 1] == s + [quote]
    ensures c.text[c.pos] == s[0] && s[0] != quote && s[0] != EOF && s[0] != EscapeSeq && s[0] != ExpressionStart
    ensures QuotedPlain(s[1..], quote) && [s[0]] + s[1..] == s
    ensures c.pos + 1 + |s[1..]| < |c.text| && c.text[c.pos + 1..c.pos + 1 + |s[1..]| + 1] == s[1..] + [quote]
  {
    var w := c.text[c.pos..c.pos + |s| + 1];
    assert c.text[c.pos] == w[0];
    assert s[0] in s;
    assert forall i :: 0 <= i < |s| - 1 ==> s[1..][i] == s[i + 1];
    assert c.text[c.pos + 1..c.pos + |s| + 1] == w[1..];
  }

  /** Plain text that never reaches the quote is an unmatched quote. */
  lemma {:induction false} QuotedRunsOut(c: Cur, quote: char)
    requires QuotedPlain(c.text[c.pos..], quote)
    ensures ParseQuotedArg(c, quote) == Fail(UnmatchedQuote)
    decreases |c.text| - c.pos
  {
    if c.pos < |c.text| {
      var t := c.text[c.pos..];
      assert c.text[c.pos] == t[0] && t[0] in t;
      assert QuotedPlain(c.text[c.pos + 1..], quote) by {
        assert c.text[c.pos + 1..] == t[1..];
        assert forall i :: 0 <= i < |t| - 1 ==> t[1..][i] == t[i + 1];
      }
      QuotedRunsOut(Read(c).cur, quote);
    }
  }

  /** An escaped quote does not end the literal: "^" followed by the quote
      contributes the quote itself. */
  lemma {:induction false} EscapedQuoteIsLiteral(c: Cur, quote: char)
    requires quote == ArgDoubleQuote || quote == ArgSingleQuote
    requires c.pos + 1 < |c.text| && c.text[c.pos] == EscapeSeq && c.text[c.pos + 1] == quote
    requires ParseQuotedArg(Cursor(c.text, c.pos + 2, true), quote).Ok?
    ensures ParseQuotedArg(c, quote).Ok?
    ensures ParseQuotedArg(c, quote).value == [quote] + ParseQuotedArg(Cursor(c.text, c.pos + 2, true), quote).value
  {
    var e := ParseEscapeSeq(Read(c).cur);
    EscapeTable(Read(c).cur);
    assert e.text == [quote];
  }
}
