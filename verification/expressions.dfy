/** Expression placeholders: `[[...]]` spans are tokenised into
    marker-delimited bodies while text is scanned, and a later pass splits
    the tokenised text back into literal and expression parts, evaluates
    the expressions with an external engine and concatenates the results. */
module Expressions {
  import opened Symbols
  import opened GoStrings
  import opened Reader

  // ---- tokenising ----

  /** An expression body with no "]]" inside and no ']' at its end: exactly
      the bodies that the first "]]" after them closes. */
  predicate ClosedBody(b: string) {
    forall i :: 0 <= i < |b| && b[i] == ExpressionEnd ==> i + 1 < |b| && b[i + 1] != ExpressionEnd
  }

  predicate NoEOF(s: string) {
    EOF !in s
  }

  /** Reads an expression body after "[[" up to and including the first
      "]]", returning the body without the closing brackets. Running out of
      input first is an unmatched expression. */
  function ExprBody(c: Cur): (r: Scan<string>)
    ensures r.Within(c) && !r.Fallback?
    ensures r.Fail? ==> r.err == UnmatchedExpression
    decreases |c.text| - c.pos
  {
    var s := Read(c);
    if s.ch == EOF then Fail(UnmatchedExpression)
    else if s.ch == ExpressionEnd && Peek(s.cur).ch == ExpressionEnd then
      Ok([], Skip(Peek(s.cur).cur))
    else
      var next := if s.ch == ExpressionEnd then Peek(s.cur).cur else s.cur;
      var rest := ExprBody(next);
      if rest.Fail? then rest else Ok([s.ch] + rest.value, rest.cur)
  }

  /** A body read by `ExprBody` is exactly the text before the first "]]":
      it is closed, holds no sentinel, and the scan stops right after the
      closing brackets. */
  lemma {:induction false} ExprBodySpan(c: Cur)
    requires ExprBody(c).Ok?
    ensures c.pos + |ExprBody(c).value| + 2 == ExprBody(c).cur.pos <= |c.text|
    ensures c.text[c.pos..ExprBody(c).cur.pos] == ExprBody(c).value + "]]"
    ensures ClosedBody(ExprBody(c).value) && NoEOF(ExprBody(c).value) && ExprBody(c).cur.canUnread
    decreases |c.text| - c.pos
  {
    var s := Read(c);
    if !(s.ch == ExpressionEnd && Peek(s.cur).ch == ExpressionEnd) {
      var next := if s.ch == ExpressionEnd then Peek(s.cur).cur else s.cur;
      var rest := ExprBody(next);
      ExprBodySpan(next);
      BodyCons(c, rest.value, rest.cur.pos);
    }
  }

  /** One more character in front of a body read by `ExprBody`. */
  lemma {:induction false} BodyCons(c: Cur, rest: string, end: nat)
    requires c.pos < |c.text| && c.text[c.pos] != EOF
    requires c.text[c.pos] == ExpressionEnd ==> c.pos + 1 < |c.text| && c.text[c.pos + 1] != ExpressionEnd
    requires c.pos + 1 + |rest| + 2 == end <= |c.text| && c.text[c.pos + 1..end] == rest + "]]"
    requires ClosedBody(rest) && NoEOF(rest)
    ensures c.text[c.pos..end] == [c.text[c.pos]] + rest + "]]"
    ensures ClosedBody([c.text[c.pos]] + rest) && NoEOF([c.text[c.pos]] + rest)
  {
    var body := [c.text[c.pos]] + rest;
    assert c.text[c.pos..end] == [c.text[c.pos]] + c.text[c.pos + 1..end];
    if c.text[c.pos] == ExpressionEnd {
      assert c.text[c.pos + 1] == (rest + "]]")[0];
      assert rest != [];
    }
    assert forall i :: 1 <= i < |body| ==> body[i] == rest[i - 1];
  }

  /** Called after a '[' has been read. A second '[' opens an expression,
      which becomes its body between the two private markers. Anything else
      is pushed back and the '[' stands for itself; at the very end the
      pushback is impossible, so a trailing lone '[' is an error. */
  function ParseExpression(c: Cur): (r: Scan<string>)
    ensures r.Within(c) && !r.Fallback?
    ensures c.pos == |c.text| ==> r == Fail(InvalidUnreadRune)
    ensures c.pos < |c.text| && c.text[c.pos] != ExpressionStart ==>
      r.Ok? && r.value == [ExpressionStart] && r.cur.pos == c.pos
    ensures c.pos < |c.text| && c.text[c.pos] == ExpressionStart && r.Fail? ==> r.err == UnmatchedExpression
  {
    var s := Read(c);
    if s.ch != ExpressionStart then
      var u := Unread(s.cur);
      if u.Failure? then Fail(u.error) else Ok([ExpressionStart], u.value)
    else
      var body := ExprBody(s.cur);
      if body.Fail? then body
      else
        Ok([TokExprStart] + body.value + [TokExprEnd], body.cur)
  }

  /** An opened expression becomes its body between the two markers, and
      the scan ends right after the "]]" that closes it. */
  lemma {:induction false} ParseExpressionSpan(c: Cur)
    requires c.pos < |c.text| && c.text[c.pos] == ExpressionStart && ParseExpression(c).Ok?
    ensures exists body :: ParseExpression(c).value == [TokExprStart] + body + [TokExprEnd]
                        && ParseExpression(c).cur.pos == c.pos + |body| + 3
                        && c.text[c.pos + 1..ParseExpression(c).cur.pos] == body + "]]"
                        && ClosedBody(body) && NoEOF(body)
  {
    ExprBodySpan(Read(c).cur);
  }

  /** Decodes escapes and tokenises expressions over the whole remaining
      input, applying no other syntax. An escape at the very end produces
      nothing. */
  function ParseExpressions(c: Cur): (r: Scan<string>)
    ensures r.Within(c) && !r.Fallback?
    ensures r.Fail? ==> r.err == UnmatchedExpression || r.err == InvalidUnreadRune
    decreases |c.text| - c.pos
  {
    var s := Read(c);
    if s.ch == EOF then Ok([], s.cur)
    else if s.ch == EscapeSeq then
      var e := ParseEscapeSeq(s.cur);
      var rest := ParseExpressions(e.cur);
      if rest.Fail? then rest else Ok(e.text + rest.value, rest.cur)
    else if s.ch == ExpressionStart then
      var x := ParseExpression(s.cur);
      if x.Fail? then x
      else
        var rest := ParseExpressions(x.cur);
        if rest.Fail? then rest else Ok(x.value + rest.value, rest.cur)
    else
      var rest := ParseExpressions(s.cur);
      if rest.Fail? then rest else Ok([s.ch] + rest.value, rest.cur)
  }

  /** Text the tokeniser copies verbatim: no escape, no bracket opener and
      no sentinel. */
  predicate Plain(s: string) {
    forall i :: 0 <= i < |s| ==> s[i] != EscapeSeq && s[i] != ExpressionStart && s[i] != EOF
  }

  /** On text with no '^' and no '[' the tokeniser is the identity. */
  lemma {:induction false} ParseExpressionsIdentity(c: Cur)
    requires Plain(c.text[c.pos..])
    ensures ParseExpressions(c).Ok? && ParseExpressions(c).value == c.text[c.pos..]
    decreases |c.text| - c.pos
  {
    if c.pos < |c.text| {
      assert c.text[c.pos] == c.text[c.pos..][0];
      assert c.text[c.pos + 1..] == c.text[c.pos..][1..];
      ParseExpressionsIdentity(Read(c).cur);
      assert c.text[c.pos..] == [c.text[c.pos]] + c.text[c.pos + 1..];
    }
  }

  /** An escaped opener is literal: "^[[" followed by plain text that does
      not start with '[' comes out as "[[" followed by that text. */
  lemma {:induction false} EscapedOpenerIsLiteral(s: string)
    requires |s| > 0 && s[0] != ExpressionStart && Plain(s)
    ensures ParseExpressions(NewParser("^[[" + s)).Ok?
    ensures ParseExpressions(NewParser("^[[" + s)).value == "[[" + s
  {
    var c := NewParser("^[[" + s);
    var c1 := Read(c).cur;
    var e := ParseEscapeSeq(c1);
    assert e.text == "[" && e.cur.pos == 2;
    var c3 := Read(e.cur).cur;
    var x := ParseExpression(c3);
    assert c3.text[c3.pos] == s[0];
    assert x.Ok? && x.value == "[" && x.cur.pos == 3;
    assert x.cur.text[x.cur.pos..] == s;
    ParseExpressionsIdentity(x.cur);
  }

  // ---- the source form and the tokenised form of a text ----

  /** A text seen as literal runs and expression bodies. */
  datatype Segment = Literal(text: string) | Expr(body: string)

  /** How an author writes one segment. */
  function SourceOf(seg: Segment): string {
    match seg
    case Literal(t) => t
    case Expr(b) => "[[" + b + "]]"
  }

  function Source(segs: seq<Segment>): string {
    if segs == [] then [] else SourceOf(segs[0]) + Source(segs[1..])
  }

  /** The tokenised form of one segment: a body sits between the two
      private markers. */
  function TokensOf(seg: Segment): string {
    match seg
    case Literal(t) => t
    case Expr(b) => [TokExprStart] + b + [TokExprEnd]
  }

  function Tokens(segs: seq<Segment>): string {
    if segs == [] then [] else TokensOf(segs[0]) + Tokens(segs[1..])
  }

  /** A literal run is non-empty plain text without markers; a body is
      closed by its own "]]" and holds no closing marker or sentinel. */
  predicate SegmentOk(seg: Segment) {
    match seg
    case Literal(t) => |t| > 0 && Plain(t) && TokExprStart !in t
    case Expr(b) => ClosedBody(b) && NoEOF(b) && TokExprEnd !in b
  }

  /** Segments whose source form the tokeniser reads back exactly, with no
      two literal runs adjacent. */
  predicate WellFormed(segs: seq<Segment>) {
    && (forall i :: 0 <= i < |segs| ==> SegmentOk(segs[i]))
    && (forall i :: 0 <= i < |segs| - 1 && segs[i].Literal? ==> segs[i + 1].Expr?)
  }

  lemma {:induction false} WellFormedTail(segs: seq<Segment>)
    requires WellFormed(segs) && |segs| > 0
    ensures SegmentOk(segs[0]) && WellFormed(segs[1..])
    ensures segs[0].Literal? && |segs| > 1 ==> segs[1].Expr?
  {
    assert forall i :: 0 <= i < |segs| - 1 ==> segs[1..][i] == segs[i + 1];
  }

  /** Reading a closed body followed by "]]" yields exactly that body. */
  lemma {:induction false} ExprBodyReadsBody(c: Cur, b: string)
    requires c.pos + |b| + 2 <= |c.text|
    requires c.text[c.pos..c.pos + |b| + 2] == b + "]]"
    requires ClosedBody(b) && NoEOF(b)
    ensures ExprBody(c).Ok? && ExprBody(c).value == b && ExprBody(c).cur == Cursor(c.text, c.pos + |b| + 2, true)
    decreases |b|
  {
    var s := Read(c);
    assert s.ch == c.text[c.pos..c.pos + |b| + 2][0];
    if b == [] {
      assert c.text[c.pos + 1] == c.text[c.pos..c.pos + |b| + 2][1];
    } else {
      assert s.ch == b[0];
      if b[0] == ExpressionEnd {
        assert |b| > 1 && b[1] != ExpressionEnd;
        assert c.text[c.pos + 1] == b[1];
      }
      var next := if s.ch == ExpressionEnd then Peek(s.cur).cur else s.cur;
      assert next.pos == c.pos + 1;
      assert next.text[next.pos..next.pos + |b[1..]| + 2] == b[1..] + "]]";
      ExprBodyReadsBody(next, b[1..]);
    }
  }

  /** A written expression "[[b]]" tokenises to its marked body. */
  lemma {:induction false} ExprSourceStep(c: Cur, b: string)
    requires c.pos + |b| + 4 <= |c.text|
    requires c.text[c.pos..c.pos + |b| + 4] == "[[" + b + "]]"
    requires ClosedBody(b) && NoEOF(b)
    ensures Read(c).ch == ExpressionStart
    ensures ParseExpression(Read(c).cur).Ok? && ParseExpression(Read(c).cur).value == [TokExprStart] + b + [TokExprEnd]
    ensures ParseExpression(Read(c).cur).cur == Cursor(c.text, c.pos + |b| + 4, true)
  {
    var w := c.text[c.pos..c.pos + |b| + 4];
    assert c.text[c.pos] == w[0] && c.text[c.pos + 1] == w[1];
    var s2 := Read(Read(c).cur);
    assert c.text[c.pos + 2..c.pos + |b| + 4] == w[2..];
    ExprBodyReadsBody(s2.cur, b);
  }

  /** Tokenising the source form of well-formed segments gives their
      tokenised form. */
  lemma {:induction false} TokenizeSource(c: Cur, segs: seq<Segment>)
    requires WellFormed(segs)
    requires c.text[c.pos..] == Source(segs)
    ensures ParseExpressions(c).Ok? && ParseExpressions(c).value == Tokens(segs)
    decreases |segs|
  {
    if segs == [] {
      TokenizeEnd(c);
    } else {
      var e := After(c, SourceOf(segs[0]), Source(segs[1..]));
      WellFormedTail(segs);
      TokenizeSource(e, segs[1..]);
      TokenizeStep(c, segs, e);
    }
  }

  /** The cursor just past a known prefix `w` of the unread text. */
  function After(c: Cur, w: string, rest: string): (e: Cur)
    requires c.text[c.pos..] == w + rest && w != []
    ensures e == Cursor(c.text, c.pos + |w|, true)
    ensures e.pos <= |c.text| && c.text[c.pos..e.pos] == w && e.text[e.pos..] == rest
  {
    SliceSplit(c.text, c.pos, w, rest);
    Cursor(c.text, c.pos + |w|, true)
  }

  lemma {:induction false} TokenizeEnd(c: Cur)
    requires c.text[c.pos..] == []
    ensures ParseExpressions(c).Ok? && ParseExpressions(c).value == []
  {
    assert c.pos == |c.text|;
  }

  /** One segment in front of segments already known to tokenise. */
  lemma {:induction false} TokenizeStep(c: Cur, segs: seq<Segment>, e: Cur)
    requires segs != [] && SegmentOk(segs[0])
    requires e == Cursor(c.text, c.pos + |SourceOf(segs[0])|, true)
    requires e.pos <= |c.text| && c.text[c.pos..e.pos] == SourceOf(segs[0])
    requires ParseExpressions(e).Ok? && ParseExpressions(e).value == Tokens(segs[1..])
    ensures ParseExpressions(c).Ok? && ParseExpressions(c).value == Tokens(segs)
  {
    SegmentBefore(c, segs[0], e);
  }

  /** One segment's source form is tokenised in front of whatever follows
      it. */
  lemma {:induction false} SegmentBefore(c: Cur, seg: Segment, e: Cur)
    requires SegmentOk(seg) && e == Cursor(c.text, c.pos + |SourceOf(seg)|, true)
    requires e.pos <= |c.text| && c.text[c.pos..e.pos] == SourceOf(seg)
    requires ParseExpressions(e).Ok?
    ensures ParseExpressions(c).Ok? && ParseExpressions(c).value == TokensOf(seg) + ParseExpressions(e).value
  {
    match seg
    case Literal(t) =>
      PlainBefore(c, t, e);
    case Expr(b) =>
      ExprSourceStep(c, b);
      ExprCopyStep(c);
  }

  /** A plain run is copied in front of whatever follows it. */
  lemma {:induction false} PlainBefore(c: Cur, t: string, e: Cur)
    requires t != [] && Plain(t) && e == Cursor(c.text, c.pos + |t|, true)
    requires e.pos <= |c.text| && c.text[c.pos..e.pos] == t
    requires ParseExpressions(e).Ok?
    ensures ParseExpressions(c).Ok? && ParseExpressions(c).value == t + ParseExpressions(e).value
  {
    PlainSlice(c.text, c.pos, t);
    PlainPrefix(c, e);
  }

  lemma {:induction false} PlainSlice(text: string, pos: nat, t: string)
    requires pos + |t| <= |text| && text[pos..pos + |t|] == t && Plain(t)
    ensures PlainSpan(text, pos, pos + |t|)
  {
    forall i | pos <= i < pos + |t| ensures PlainChar(text[i]) {
      assert text[i] == t[i - pos];
    }
  }

  predicate PlainChar(ch: char) {
    ch != EscapeSeq && ch != ExpressionStart && ch != EOF
  }

  /** The positions `from` up to `to` of `text` hold only plain characters. */
  predicate PlainSpan(text: string, from: nat, to: nat) {
    forall i :: from <= i < to && i < |text| ==> PlainChar(text[i])
  }

  /** A cursor some plain characters further on than `c`. */
  predicate Ahead(c: Cur, e: Cur) {
    e.text == c.text && c.pos <= e.pos && (c.pos < e.pos ==> e.canUnread) && (c.pos == e.pos ==> e == c)
  }

  /** Plain characters are copied verbatim in front of whatever the rest
      tokenises to. */
  lemma {:induction false} PlainPrefix(c: Cur, e: Cur)
    requires Ahead(c, e) && PlainSpan(c.text, c.pos, e.pos)
    requires ParseExpressions(e).Ok?
    ensures ParseExpressions(c).Ok?
    ensures ParseExpressions(c).value == c.text[c.pos..e.pos] + ParseExpressions(e).value
    decreases e.pos - c.pos
  {
    if c.pos == e.pos {
      assert c.text[c.pos..e.pos] == [];
    } else {
      var c1 := Read(c).cur;
      PlainPrefix(c1, e);
      PlainStep(c, e);
    }
  }

  lemma {:induction false} PlainStep(c: Cur, e: Cur)
    requires e.text == c.text && c.pos < e.pos <= |c.text| && PlainChar(c.text[c.pos])
    requires ParseExpressions(e).Ok? && ParseExpressions(Read(c).cur).Ok?
    requires ParseExpressions(Read(c).cur).value == c.text[c.pos + 1..e.pos] + ParseExpressions(e).value
    ensures ParseExpressions(c).Ok?
    ensures ParseExpressions(c).value == c.text[c.pos..e.pos] + ParseExpressions(e).value
  {
    PlainCopyStep(c);
    SliceCons(c.text, c.pos, e.pos, ParseExpressions(e).value);
  }

  /** The unfolding of `ParseExpressions` at an opened expression. */
  lemma {:induction false} ExprCopyStep(c: Cur)
    requires Read(c).ch == ExpressionStart && ParseExpression(Read(c).cur).Ok?
    requires ParseExpressions(ParseExpression(Read(c).cur).cur).Ok?
    ensures ParseExpressions(c).Ok?
    ensures ParseExpressions(c).value
         == ParseExpression(Read(c).cur).value + ParseExpressions(ParseExpression(Read(c).cur).cur).value
  {
  }

  /** The unfolding of `ParseExpressions` at a character copied verbatim. */
  lemma {:induction false} PlainCopyStep(c: Cur)
    requires c.pos < |c.text|
    requires c.text[c.pos] != EOF && c.text[c.pos] != EscapeSeq && c.text[c.pos] != ExpressionStart
    requires ParseExpressions(Read(c).cur).Ok?
    ensures ParseExpressions(c).Ok?
    ensures ParseExpressions(c).value == [c.text[c.pos]] + ParseExpressions(Read(c).cur).value
  {
  }

  // ---- splitting ----

  /** A literal run or a raw expression body. */
  datatype PostArgPart = StringPart(value: string) | ExpressionPart(value: string)

  /** Reads an expression body after the opening marker, up to the closing
      marker. */
  function PostExpression(c: Cur): (r: Scan<string>)
    ensures r.Within(c) && !r.Fallback?
    ensures r.Fail? ==> r.err == UnmatchedExpression
    decreases |c.text| - c.pos
  {
    var s := Read(c);
    if s.ch == EOF then Fail(UnmatchedExpression)
    else if s.ch == TokExprEnd then Ok([], s.cur)
    else
      var rest := PostExpression(s.cur);
      if rest.Fail? then rest else Ok([s.ch] + rest.value, rest.cur)
  }

  /** A body read by `PostExpression` is the text up to the first closing
      marker, which the scan consumes. */
  lemma {:induction false} PostExpressionSpan(c: Cur)
    requires PostExpression(c).Ok?
    ensures PostExpression(c).cur.pos == c.pos + |PostExpression(c).value| + 1 <= |c.text|
    ensures PostExpression(c).value + [TokExprEnd] == c.text[c.pos..PostExpression(c).cur.pos]
    ensures TokExprEnd !in PostExpression(c).value && NoEOF(PostExpression(c).value)
    decreases |c.text| - c.pos
  {
    var s := Read(c);
    if s.ch != TokExprEnd {
      var rest := PostExpression(s.cur);
      PostExpressionSpan(s.cur);
      assert c.text[c.pos..rest.cur.pos] == [s.ch] + c.text[s.cur.pos..rest.cur.pos];
    }
  }

  /** The text one part was split from. */
  function RenderOf(p: PostArgPart): string {
    match p
    case StringPart(v) => v
    case ExpressionPart(v) => [TokExprStart] + v + [TokExprEnd]
  }

  function RenderParts(parts: seq<PostArgPart>): string {
    if parts == [] then [] else RenderOf(parts[0]) + RenderParts(parts[1..])
  }

  function Flush(run: string): seq<PostArgPart> {
    if run == [] then [] else [StringPart(run)]
  }

  /** Splits tokenised text into parts; `run` is the literal text read since
      the last part was emitted. A literal run is emitted only when it is
      non-empty. */
  function SplitParts(c: Cur, run: string): (r: Result<seq<PostArgPart>>)
    ensures r.Failure? ==> r.error == UnmatchedExpression
    decreases |c.text| - c.pos
  {
    var s := Read(c);
    if s.ch == EOF then Success(Flush(run))
    else if s.ch == TokExprStart then
      var x := PostExpression(s.cur);
      if x.Fail? then Failure(x.err)
      else
        var rest := SplitParts(x.cur, []);
        if rest.Failure? then rest
        else Success(Flush(run) + [ExpressionPart(x.value)] + rest.value)
    else
      SplitParts(s.cur, run + [s.ch])
  }

  lemma {:induction false} RenderPrefix(a: seq<PostArgPart>, b: seq<PostArgPart>)
    ensures RenderParts(a + b) == RenderParts(a) + RenderParts(b)
    decreases |a|
  {
    if a == [] {
      assert a + b == b;
    } else {
      assert (a + b)[0] == a[0];
      assert (a + b)[1..] == a[1..] + b;
      RenderPrefix(a[1..], b);
    }
  }

  /** Splitting loses nothing: rendering the parts gives back the text they
      were split from, as long as the text holds no sentinel. */
  lemma {:induction false} SplitRendersBack(c: Cur, run: string)
    requires NoEOF(c.text[c.pos..]) && SplitParts(c, run).Success?
    ensures RenderParts(SplitParts(c, run).value) == run + c.text[c.pos..]
    decreases |c.text| - c.pos, 1
  {
    if c.pos == |c.text| {
      FlushRenders(run);
    } else {
      if c.text[c.pos] == TokExprStart {
        ExprRendersBack(c, run);
      } else {
        PlainRendersBack(c, run);
      }
    }
  }

  lemma {:induction false} PlainRendersBack(c: Cur, run: string)
    requires NoEOF(c.text[c.pos..]) && SplitParts(c, run).Success?
    requires c.pos < |c.text| && c.text[c.pos] != TokExprStart
    ensures RenderParts(SplitParts(c, run).value) == run + c.text[c.pos..]
    decreases |c.text| - c.pos, 0
  {
    assert c.text[c.pos] == c.text[c.pos..][0];
    SplitPlainStep(c, run);
    assert c.text[c.pos..] == [c.text[c.pos]] + c.text[c.pos + 1..];
    assert c.text[c.pos + 1..] == c.text[c.pos..][1..];
    SplitRendersBack(Read(c).cur, run + [c.text[c.pos]]);
  }

  lemma {:induction false} FlushRenders(run: string)
    ensures RenderParts(Flush(run)) == run
  {
    if run != [] {
      assert Flush(run)[1..] == [];
    }
  }

  lemma {:induction false} ExprRendersBack(c: Cur, run: string)
    requires NoEOF(c.text[c.pos..]) && SplitParts(c, run).Success?
    requires c.pos < |c.text| && c.text[c.pos] == TokExprStart
    ensures RenderParts(SplitParts(c, run).value) == run + c.text[c.pos..]
    decreases |c.text| - c.pos, 0
  {
    var x := PostExpression(Read(c).cur);
    PostExpressionSpan(Read(c).cur);
    var rest := SplitParts(x.cur, []);
    var tail := c.text[x.cur.pos..];
    assert NoEOF(tail) by {
      assert tail == c.text[c.pos..][x.cur.pos - c.pos..];
    }
    calc {
      RenderParts(SplitParts(c, run).value);
      { SplitExprStep(c, run); }
      RenderParts(Flush(run) + [ExpressionPart(x.value)] + rest.value);
      { RenderExprBetween(run, x.value, rest.value); }
      run + [TokExprStart] + x.value + [TokExprEnd] + RenderParts(rest.value);
      { SplitRendersBack(x.cur, []); assert [] + tail == tail; }
      run + [TokExprStart] + x.value + [TokExprEnd] + tail;
      { MarkedAssoc(run, x.value, tail); }
      run + ([TokExprStart] + x.value + [TokExprEnd] + tail);
      { MarkedSpan(c.text, c.pos, x.cur.pos, x.value); }
      run + c.text[c.pos..];
    }
  }

  /** The text at an opening marker is the marked body and what follows. */
  lemma {:induction false} MarkedSpan(text: string, pos: nat, end: nat, v: string)
    requires pos < end <= |text| && text[pos] == TokExprStart && text[pos + 1..end] == v + [TokExprEnd]
    ensures text[pos..] == [TokExprStart] + v + [TokExprEnd] + text[end..]
  {
    assert text[pos..] == [text[pos]] + text[pos + 1..end] + text[end..];
  }

  /** Rendering a run, an expression part and further parts. */
  lemma {:induction false} RenderExprBetween(run: string, v: string, rest: seq<PostArgPart>)
    ensures RenderParts(Flush(run) + [ExpressionPart(v)] + rest)
         == run + [TokExprStart] + v + [TokExprEnd] + RenderParts(rest)
  {
    var e := [ExpressionPart(v)];
    var m := [TokExprStart] + v + [TokExprEnd];
    assert RenderParts(e) == m by {
      assert e[1..] == [];
      assert m + [] == m;
    }
    calc {
      RenderParts(Flush(run) + e + rest);
      { RenderPrefix(Flush(run) + e, rest); }
      RenderParts(Flush(run) + e) + RenderParts(rest);
      { RenderPrefix(Flush(run), e); FlushRenders(run); }
      (run + m) + RenderParts(rest);
      { MarkedAssoc(run, v, RenderParts(rest)); }
      run + [TokExprStart] + v + [TokExprEnd] + RenderParts(rest);
    }
  }

  lemma {:induction false} MarkedAssoc(a: string, v: string, r: string)
    ensures (a + ([TokExprStart] + v + [TokExprEnd])) + r == a + [TokExprStart] + v + [TokExprEnd] + r
    ensures a + [TokExprStart] + v + [TokExprEnd] + r == a + ([TokExprStart] + v + [TokExprEnd] + r)
  {
  }

  /** The parts of a list of segments. */
  function PartOf(seg: Segment): PostArgPart {
    match seg
    case Literal(t) => StringPart(t)
    case Expr(b) => ExpressionPart(b)
  }

  function ToParts(segs: seq<Segment>): (parts: seq<PostArgPart>)
    ensures |parts| == |segs|
    ensures forall i :: 0 <= i < |segs| ==> parts[i] == PartOf(segs[i])
  {
    if segs == [] then [] else [PartOf(segs[0])] + ToParts(segs[1..])
  }

  /** A marked body is split off as one expression part. */
  lemma {:induction false} TokenStep(c: Cur, b: string)
    requires c.pos + |b| + 2 <= |c.text|
    requires c.text[c.pos..c.pos + |b| + 2] == [TokExprStart] + b + [TokExprEnd]
    requires TokExprEnd !in b && NoEOF(b)
    ensures Read(c).ch == TokExprStart
    ensures PostExpression(Read(c).cur).Ok? && PostExpression(Read(c).cur).value == b
    ensures PostExpression(Read(c).cur).cur == Cursor(c.text, c.pos + |b| + 2, true)
  {
    var w := c.text[c.pos..c.pos + |b| + 2];
    assert c.text[c.pos] == w[0];
    assert c.text[c.pos + 1..c.pos + |b| + 2] == w[1..];
    PostExpressionReadsBody(Read(c).cur, b);
  }

  /** Splitting the tokenised form of well-formed segments recovers them:
      literal runs and expression bodies, in order. */
  lemma {:induction false} SplitTokens(c: Cur, run: string, segs: seq<Segment>)
    requires WellFormed(segs)
    requires c.text[c.pos..] == Tokens(segs)
    requires TokExprStart !in run && NoEOF(run)
    requires run != [] ==> segs == [] || segs[0].Expr?
    ensures SplitParts(c, run) == Success(Flush(run) + ToParts(segs))
    decreases |segs|
  {
    if segs == [] {
      SplitEnd(c, run);
    } else {
      WellFormedTail(segs);
      var e := After(c, TokensOf(segs[0]), Tokens(segs[1..]));
      var next := OpenRun(segs[0]);
      SplitTokens(e, next, segs[1..]);
      SplitStep(c, run, segs, e);
    }
  }

  lemma {:induction false} SplitEnd(c: Cur, run: string)
    requires c.text[c.pos..] == []
    ensures SplitParts(c, run) == Success(Flush(run) + ToParts([]))
  {
    assert c.pos == |c.text|;
    assert Flush(run) + [] == Flush(run);
  }

  /** The literal run left open after a segment: a literal run stays open
      until the next expression or the end. */
  function OpenRun(seg: Segment): (run: string)
    requires SegmentOk(seg)
    ensures TokExprStart !in run && NoEOF(run)
  {
    match seg
    case Literal(t) =>
      assert forall i :: 0 <= i < |t| ==> t[i] != EOF;
      t
    case Expr(_) => []
  }

  /** One segment in front of segments already known to split. */
  lemma {:induction false} SplitStep(c: Cur, run: string, segs: seq<Segment>, e: Cur)
    requires segs != [] && SegmentOk(segs[0]) && TokExprStart !in run && NoEOF(run)
    requires run != [] ==> segs[0].Expr?
    requires e == Cursor(c.text, c.pos + |TokensOf(segs[0])|, true)
    requires e.pos <= |c.text| && c.text[c.pos..e.pos] == TokensOf(segs[0])
    requires SplitParts(e, OpenRun(segs[0])) == Success(Flush(OpenRun(segs[0])) + ToParts(segs[1..]))
    ensures SplitParts(c, run) == Success(Flush(run) + ToParts(segs))
  {
    match segs[0]
    case Literal(t) =>
      RunBefore(c, t, e);
      LiteralParts(run, segs);
    case Expr(b) =>
      ExprPartBefore(c, run, b, e);
      ExprParts(run, segs);
  }

  lemma {:induction false} LiteralParts(run: string, segs: seq<Segment>)
    requires segs != [] && segs[0].Literal? && segs[0].text != [] && run == []
    ensures Flush(segs[0].text) + ToParts(segs[1..]) == Flush(run) + ToParts(segs)
  {
    assert ToParts(segs) == [PartOf(segs[0])] + ToParts(segs[1..]);
    assert Flush(run) + ToParts(segs) == ToParts(segs);
  }

  lemma {:induction false} ExprParts(run: string, segs: seq<Segment>)
    requires segs != [] && segs[0].Expr?
    ensures Flush(run) + [ExpressionPart(segs[0].body)] + (Flush([]) + ToParts(segs[1..]))
         == Flush(run) + ToParts(segs)
  {
    assert ToParts(segs) == [PartOf(segs[0])] + ToParts(segs[1..]);
    assert Flush([]) + ToParts(segs[1..]) == ToParts(segs[1..]);
  }

  /** A marked body ends the current run and becomes an expression part. */
  lemma {:induction false} ExprPartBefore(c: Cur, run: string, b: string, e: Cur)
    requires SegmentOk(Expr(b)) && e == Cursor(c.text, c.pos + |TokensOf(Expr(b))|, true)
    requires e.pos <= |c.text| && c.text[c.pos..e.pos] == TokensOf(Expr(b))
    requires SplitParts(e, []).Success?
    ensures SplitParts(c, run) == Success(Flush(run) + [ExpressionPart(b)] + SplitParts(e, []).value)
  {
    TokenStep(c, b);
    SplitExprStep(c, run);
  }

  /** The unfolding of `SplitParts` at an opening marker. */
  lemma {:induction false} SplitExprStep(c: Cur, run: string)
    requires Read(c).ch == TokExprStart && PostExpression(Read(c).cur).Ok?
    requires SplitParts(PostExpression(Read(c).cur).cur, []).Success?
    ensures SplitParts(c, run) == Success(Flush(run) + [ExpressionPart(PostExpression(Read(c).cur).value)]
                                          + SplitParts(PostExpression(Read(c).cur).cur, []).value)
  {
  }

  /** A literal run read from the start of a part is collected whole. */
  lemma {:induction false} RunBefore(c: Cur, t: string, e: Cur)
    requires SegmentOk(Literal(t)) && e == Cursor(c.text, c.pos + |t|, true)
    requires e.pos <= |c.text| && c.text[c.pos..e.pos] == t
    ensures SplitParts(c, []) == SplitParts(e, t)
    ensures NoEOF(t) && TokExprStart !in t
  {
    RunSlice(c.text, c.pos, t);
    SplitRun(c, e, []);
    assert [] + t == t;
  }

  lemma {:induction false} RunSlice(text: string, pos: nat, t: string)
    requires pos + |t| <= |text| && text[pos..pos + |t|] == t && SegmentOk(Literal(t))
    ensures RunSpan(text, pos, pos + |t|) && NoEOF(t) && TokExprStart !in t
  {
    forall i | pos <= i < pos + |t| ensures RunChar(text[i]) {
      assert text[i] == t[i - pos];
      assert t[i - pos] in t;
    }
    assert forall i :: 0 <= i < |t| ==> t[i] != EOF;
  }

  /** A character that extends the current literal run. */
  predicate RunChar(ch: char) {
    ch != EOF && ch != TokExprStart
  }

  predicate RunSpan(text: string, from: nat, to: nat) {
    forall i :: from <= i < to && i < |text| ==> RunChar(text[i])
  }

  /** Characters other than the opening marker and the sentinel are
      collected into the current run. */
  lemma {:induction false} SplitRun(c: Cur, e: Cur, run: string)
    requires e.text == c.text && c.pos <= e.pos <= |c.text| && RunSpan(c.text, c.pos, e.pos)
    requires c.pos == e.pos ==> e == c
    requires c.pos < e.pos ==> e.canUnread
    ensures SplitParts(c, run) == SplitParts(e, run + c.text[c.pos..e.pos])
    decreases e.pos - c.pos
  {
    if c.pos == e.pos {
      assert run + c.text[c.pos..e.pos] == run;
    } else {
      var c1 := Read(c).cur;
      assert RunChar(c.text[c.pos]);
      SplitPlainStep(c, run);
      SplitRun(c1, e, run + [c.text[c.pos]]);
      assert c.text[c.pos..e.pos] == [c.text[c.pos]] + c.text[c1.pos..e.pos];
      assert run + [c.text[c.pos]] + c.text[c1.pos..e.pos] == run + c.text[c.pos..e.pos];
    }
  }

  /** An ordinary character joins the current literal run. */
  lemma {:induction false} SplitPlainStep(c: Cur, run: string)
    requires c.pos < |c.text| && c.text[c.pos] != EOF && c.text[c.pos] != TokExprStart
    ensures SplitParts(c, run) == SplitParts(Read(c).cur, run + [c.text[c.pos]])
  {
  }

  lemma {:induction false} PostExpressionReadsBody(c: Cur, b: string)
    requires c.pos + |b| + 1 <= |c.text|
    requires c.text[c.pos..c.pos + |b| + 1] == b + [TokExprEnd]
    requires TokExprEnd !in b && NoEOF(b)
    ensures PostExpression(c).Ok? && PostExpression(c).value == b && PostExpression(c).cur == Cursor(c.text, c.pos + |b| + 1, true)
    decreases |b|
  {
    assert c.text[c.pos] == (b + [TokExprEnd])[0];
    if b != [] {
      assert b[0] in b;
      var s := Read(c);
      assert c.text[c.pos + 1..c.pos + |b| + 1] == c.text[c.pos..c.pos + |b| + 1][1..];
      assert s.cur.text[s.cur.pos..s.cur.pos + |b[1..]| + 1] == b[1..] + [TokExprEnd];
      PostExpressionReadsBody(s.cur, b[1..]);
    }
  }

  lemma {:induction false} SplitTokensFromStart(segs: seq<Segment>)
    requires WellFormed(segs)
    ensures SplitParts(NewParser(Tokens(segs)), []) == Success(ToParts(segs))
  {
    var c := NewParser(Tokens(segs));
    assert c.text[c.pos..] == Tokens(segs);
    SplitTokens(c, [], segs);
    assert Flush([]) + ToParts(segs) == ToParts(segs);
  }

  /** The tokenise-then-split round trip: for well-formed segments,
      tokenising their source form and splitting the result at the markers
      recovers the literal runs and the expression bodies. */
  lemma {:induction false} TokenizeSplitRoundTrip(segs: seq<Segment>)
    requires WellFormed(segs)
    ensures ParseExpressions(NewParser(Source(segs))).Ok?
    ensures ParseExpressions(NewParser(Source(segs))).value == Tokens(segs)
    ensures SplitParts(NewParser(Tokens(segs)), []) == Success(ToParts(segs))
  {
    var c := NewParser(Source(segs));
    assert c.text[c.pos..] == Source(segs);
    TokenizeSource(c, segs);
    SplitTokensFromStart(segs);
  }

  // ---- evaluating ----

  /** The dynamic value an expression evaluates to. Floating-point values
      carry their decimal rendering; `Other` is any other dynamic type. */
  datatype ExprValue = VString(s: string) | VBool(b: bool) | VInt(i: int) | VFloat(rendered: string) | VOther

  /** What the external engine returns for one expression. */
  datatype EvalOutcome = EvalError | Value(v: ExprValue)

  /** The text one part contributes to the output. */
  function RenderPart(p: PostArgPart, eval: string -> EvalOutcome): (r: Result<string>)
    ensures p.StringPart? ==> r == Success(p.value)
    ensures r.Failure? <==> p.ExpressionPart? && (eval(p.value).EvalError? || eval(p.value).v.VOther?)
    ensures r.Failure? && eval(p.value).Value? ==> r.error == BadExpressionReturn
  {
    match p
    case StringPart(v) => Success(v)
    case ExpressionPart(src) =>
      match eval(src)
      case EvalError => Failure(EvalFailed)
      case Value(VString(s)) => Success(s)
      case Value(VBool(b)) => Success(FormatBool(b))
      case Value(VInt(i)) => Success(FormatInt(i))
      case Value(VFloat(t)) => Success(t)
      case Value(VOther) => Failure(BadExpressionReturn)
  }

  /** Renders the parts in order; the first part that cannot be rendered
      decides the error. */
  function EvalParts(parts: seq<PostArgPart>, eval: string -> EvalOutcome): (r: Result<string>)
    ensures r.Success? <==> forall i :: 0 <= i < |parts| ==> RenderPart(parts[i], eval).Success?
    ensures r.Failure? ==> exists i :: 0 <= i < |parts| && RenderPart(parts[i], eval) == Failure(r.error)
                                       && forall j :: 0 <= j < i ==> RenderPart(parts[j], eval).Success?
  {
    if parts == [] then Success([])
    else
      var head := RenderPart(parts[0], eval);
      if head.Failure? then head
      else
        var rest := EvalParts(parts[1..], eval);
        if rest.Failure? then
          assert forall i :: 1 <= i < |parts| ==> parts[i] == parts[1..][i - 1];
          rest
        else Success(head.value + rest.value)
  }

  /** Splits tokenised text and evaluates it with `eval`. */
  function EvalExpressions(text: string, eval: string -> EvalOutcome): Result<string> {
    var parts := SplitParts(NewParser(text), []);
    if parts.Failure? then Failure(parts.error) else EvalParts(parts.value, eval)
  }

  /** Replaces every expression body by the text `f` gives for it. */
  function Substitute(segs: seq<Segment>, f: string -> string): string {
    if segs == [] then []
    else (match segs[0] case Literal(t) => t case Expr(b) => f(b)) + Substitute(segs[1..], f)
  }

  lemma {:induction false} EvalToParts(segs: seq<Segment>, f: string -> string, eval: string -> EvalOutcome)
    requires forall src :: eval(src) == Value(VString(f(src)))
    ensures EvalParts(ToParts(segs), eval) == Success(Substitute(segs, f))
    decreases |segs|
  {
    if segs != [] {
      EvalToParts(segs[1..], f, eval);
      assert ToParts(segs)[1..] == ToParts(segs[1..]);
      assert ToParts(segs)[0] == PartOf(segs[0]);
    }
  }


  /** Evaluating tokenised text copies literal runs unchanged and in order
      and replaces each expression body by its value. */
  lemma {:induction false} EvalSubstitutes(segs: seq<Segment>, f: string -> string, eval: string -> EvalOutcome)
    requires WellFormed(segs)
    requires forall src :: eval(src) == Value(VString(f(src)))
    ensures EvalExpressions(Tokens(segs), eval) == Success(Substitute(segs, f))
  {
    SplitTokensFromStart(segs);
    EvalToParts(segs, f, eval);
  }

  /** An unterminated expression body in tokenised text is an error before
      any evaluation happens. */
  lemma {:induction false} UnterminatedMarkerFails(t: string, b: string, eval: string -> EvalOutcome)
    requires TokExprStart !in t && NoEOF(t) && TokExprEnd !in b && NoEOF(b)
    ensures EvalExpressions(t + [TokExprStart] + b, eval) == Failure(UnmatchedExpression)
  {
    var text := t + [TokExprStart] + b;
    SplitRunThenOpen(NewParser(text), [], t, b);
  }

  lemma {:induction false} SplitRunThenOpen(c: Cur, run: string, t: string, b: string)
    requires c.text[c.pos..] == t + [TokExprStart] + b
    requires TokExprStart !in t && NoEOF(t) && TokExprEnd !in b && NoEOF(b)
    ensures SplitParts(c, run) == Failure(UnmatchedExpression)
    decreases |t|
  {
    if t == [] {
      var s := Read(c);
      assert s.ch == TokExprStart;
      PostExpressionRunsOut(s.cur, b);
    } else {
      assert c.text[c.pos] == t[0] && t[0] in t;
      var s := Read(c);
      assert s.cur.text[s.cur.pos..] == t[1..] + [TokExprStart] + b;
      SplitRunThenOpen(s.cur, run + [t[0]], t[1..], b);
    }
  }

  lemma {:induction false} PostExpressionRunsOut(c: Cur, b: string)
    requires c.text[c.pos..] == b && TokExprEnd !in b && NoEOF(b)
    ensures PostExpression(c) == Fail(UnmatchedExpression)
    decreases |b|
  {
    if b != [] {
      assert c.text[c.pos] == b[0] && b[0] in b;
      var s := Read(c);
      assert s.cur.text[s.cur.pos..] == b[1..];
      PostExpressionRunsOut(s.cur, b[1..]);
    }
  }
}
