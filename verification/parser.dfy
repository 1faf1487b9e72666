/** The dispatcher: the `@system/title` scanner, the `**name:args`
    command scanner, and the loop that looks at the first significant
    character of every segment and picks a scanner for it. */
module Parser {
  import opened Symbols
  import opened GoStrings
  import opened Reader
  import opened Arguments
  import opened Commands

  /** The advanced arguments of a command: left nil unless there is at
      least one entry. */
  function AdvOf(m: map<string, string>): (a: AdvArgs)
    ensures Entries(a) == m
    ensures a.raw.None? <==> |m| == 0
  {
    if |m| > 0 then AdvArgs(Some(m)) else NoAdvArgs
  }

  // ---- media titles ----

  /** What the title loop has gathered when it stops: the content read and
      the advanced arguments that ended it, if any. */
  datatype Title = Title(content: string, advArgs: map<string, string>)

  /** One turn of the title loop. */
  datatype TitleMove = TitleMore(cur: Cur, content: string) | TitleDone(result: Scan<Title>)

  function TitleStep(c: Cur, content: string, canon: Canon): (m: TitleMove)
    ensures m.TitleMore? ==> m.cur.text == c.text && c.pos < m.cur.pos
    ensures m.TitleDone? ==> m.result.Within(c) && !m.result.Fallback?
    ensures m.TitleDone? && m.result.Fail? ==> ArgError(m.result.err)
  {
    var s := Read(c);
    if s.ch == EOF then TitleDone(Ok(Title(content, map[]), s.cur))
    else if s.ch == EscapeSeq then
      var e := ParseEscapeSeq(s.cur);
      TitleMore(e.cur, content + if e.text == [] then [EscapeSeq] else e.text)
    else
      var eoc := CheckEndOfCmd(s.ch, s.cur);
      if eoc.isEnd then TitleDone(Ok(Title(content, map[]), eoc.cur))
      else if s.ch == AdvArgStart then
        match ParseAdvArgs(eoc.cur, canon)
        case Fallback(raw, next) => TitleMore(next, content + [AdvArgStart] + raw)
        case Fail(e) => TitleDone(Fail(e))
        case Ok(adv, next) => TitleDone(Ok(Title(content, adv), next))
      else TitleMore(eoc.cur, content + [s.ch])
  }

  function TitleFrom(c: Cur, content: string, canon: Canon): (r: Scan<Title>)
    ensures r.Within(c) && !r.Fallback?
    ensures r.Fail? ==> ArgError(r.err)
    decreases |c.text| - c.pos
  {
    match TitleStep(c, content, canon)
    case TitleMore(next, content') => TitleFrom(next, content', canon)
    case TitleDone(r) => r
  }

  /** The outcome of the title scanner: the trimmed content, the advanced
      arguments, and whether the content has the `system/title` shape. */
  datatype MediaTitle = MediaTitle(rawContent: string, advArgs: map<string, string>, valid: bool)

  /** The validity test on trimmed content: a '/' whose two sides, split at
      the first one, are not blank. */
  predicate TitleShape(raw: string) {
    var i := IndexOf(raw, MediaTitleSep);
    i >= 0 && TrimSpace(raw[..i]) != "" && TrimSpace(raw[i + 1..]) != ""
  }

  /** Called after '@'. Reads content up to the end of the command,
      decoding escapes and handing a '?' to the advanced-argument scanner
      (whose invalid-name fallback is kept as content). The content is
      trimmed and then validated; an invalid title is not an error. */
  function ParseMediaTitle(c: Cur, canon: Canon): (r: Scan<MediaTitle>)
    ensures r.Within(c) && !r.Fallback?
    ensures r.Fail? ==> ArgError(r.err)
    ensures r.Ok? ==> r.value.rawContent == TrimSpace(r.value.rawContent)
    ensures r.Ok? && r.value.valid ==> MediaTitleSep in r.value.rawContent
  {
    var t := TitleFrom(c, "", canon);
    if t.Fail? then Fail(t.err)
    else
      var raw := TrimSpace(t.value.content);
      TrimSpaceIdempotent(t.value.content);
      Ok(MediaTitle(raw, t.value.advArgs, TitleShape(raw)), t.cur)
  }

  /** A character the title loop copies as it is. */
  predicate TitleChar(ch: char) {
    ch != EOF && ch != EscapeSeq && ch != CmdSep && ch != AdvArgStart
  }

  predicate TitlePlain(t: string) {
    forall i :: 0 <= i < |t| ==> TitleChar(t[i])
  }

  /** The reference meaning of the validity test: split at the first '/',
      both sides must be non-blank. */
  lemma {:induction false} TitleShapeSplit(a: string, b: string)
    requires MediaTitleSep !in a
    ensures TitleShape(a + [MediaTitleSep] + b) <==> TrimSpace(a) != "" && TrimSpace(b) != ""
  {
    var s := a + [MediaTitleSep] + b;
    assert s[|a|] == MediaTitleSep;
    assert IndexOf(s, MediaTitleSep) == |a|;
    assert s[..|a|] == a && s[|a| + 1..] == b;
  }

  /** Without a '/' a title is never valid. */
  lemma {:induction false} TitleShapeNeedsSep(raw: string)
    requires MediaTitleSep !in raw
    ensures !TitleShape(raw)
  {
  }

  /** A copied character moves the title loop one step. */
  lemma {:induction false} TitleCopyStep(c: Cur, content: string, canon: Canon)
    requires c.pos < |c.text| && TitleChar(c.text[c.pos])
    ensures TitleFrom(c, content, canon) == TitleFrom(Cursor(c.text, c.pos + 1, true), content + [c.text[c.pos]], canon)
  {
    assert TitleStep(c, content, canon) == TitleMore(Cursor(c.text, c.pos + 1, true), content + [c.text[c.pos]]);
  }

  lemma {:induction false} PlainHead(text: string, pos: nat, t: string)
    requires pos + |t| <= |text| && text[pos..pos + |t|] == t && t != []
    ensures text[pos] == t[0] && text[pos + 1..pos + 1 + |t[1..]|] == t[1..]
  {
    assert text[pos..pos + |t|][0] == text[pos];
    assert text[pos + 1..pos + 1 + |t[1..]|] == text[pos..pos + |t|][1..];
  }

  lemma {:induction false} AppendHead(content: string, t: string)
    requires t != []
    ensures content + [t[0]] + t[1..] == content + t
  {
    assert t == [t[0]] + t[1..];
  }

  /** The title loop as a function of cursor and content. */
  type TitleLoop = (Cur, string) -> Scan<Title>

  function TitleLoopOf(canon: Canon): TitleLoop {
    (c: Cur, content: string) => TitleFrom(c, content, canon)
  }

  ghost predicate TitleMovesAt(f: TitleLoop, c: Cur, content: string) {
    c.pos < |c.text| && TitleChar(c.text[c.pos]) ==>
      f(c, content) == f(Cursor(c.text, c.pos + 1, true), content + [c.text[c.pos]])
  }

  ghost predicate TitleMoves(f: TitleLoop) {
    forall c: Cur, content: string :: TitleMovesAt(f, c, content)
  }

  lemma {:induction false} TitleLoopSteps(canon: Canon)
    ensures TitleMoves(TitleLoopOf(canon))
  {
    var f := TitleLoopOf(canon);
    forall c: Cur, content: string ensures TitleMovesAt(f, c, content) {
      if c.pos < |c.text| && TitleChar(c.text[c.pos]) {
        TitleCopyStep(c, content, canon);
      }
    }
  }

  lemma {:induction false} UseTitleMoves(f: TitleLoop, c: Cur, content: string)
    requires TitleMoves(f)
    ensures TitleMovesAt(f, c, content)
  {
  }

  /** Plain text is appended to the content as it is. */
  lemma {:induction false} TitleRun(f: TitleLoop, c: Cur, content: string, t: string)
    requires TitleMoves(f)
    requires c.pos + |t| <= |c.text| && c.text[c.pos..c.pos + |t|] == t && TitlePlain(t)
    ensures f(c, content) == f(Ahead(c, |t|), content + t)
    decreases |t|
  {
    if t != [] {
      PlainHead(c.text, c.pos, t);
      assert TitleChar(t[0]);
      UseTitleMoves(f, c, content);
      var n := Cursor(c.text, c.pos + 1, true);
      assert TitlePlain(t[1..]) by {
        assert forall i :: 0 <= i < |t[1..]| ==> t[1..][i] == t[i + 1];
      }
      TitleRun(f, n, content + [t[0]], t[1..]);
      AppendHead(content, t);
      assert Ahead(n, |t[1..]|) == Ahead(c, |t|);
    } else {
      assert content + t == content;
    }
  }

  /** `TitleRun` for the title loop itself. */
  lemma {:induction false} TitleRunFrom(c: Cur, content: string, canon: Canon, t: string)
    requires c.pos + |t| <= |c.text| && c.text[c.pos..c.pos + |t|] == t && TitlePlain(t)
    ensures TitleFrom(c, content, canon) == TitleFrom(Ahead(c, |t|), content + t, canon)
  {
    TitleLoopSteps(canon);
    TitleRun(TitleLoopOf(canon), c, content, t);
  }

  /** At the end of the input the title loop stops with what it has. */
  lemma {:induction false} TitleEnd(c: Cur, content: string, canon: Canon)
    requires c.pos == |c.text|
    ensures TitleFrom(c, content, canon) == Ok(Title(content, map[]), c.(canUnread := false))
  {
  }

  /** A title of plain text: the content is the trimmed text, there are no
      advanced arguments, and the scan runs to the end of the input. */
  lemma {:induction false} TitleReadsPlain(c: Cur, canon: Canon)
    requires TitlePlain(c.text[c.pos..])
    ensures ParseMediaTitle(c, canon)
         == Ok(MediaTitle(TrimSpace(c.text[c.pos..]), map[], TitleShape(TrimSpace(c.text[c.pos..]))), Cursor(c.text, |c.text|, false))
  {
    var t := c.text[c.pos..];
    assert c.text[c.pos..c.pos + |t|] == t;
    TitleRunFrom(c, "", canon, t);
    TitleEnd(Ahead(c, |t|), t, canon);
    assert [] + t == t;
  }

  /** At a '?' that starts advanced arguments the title loop stops with
      them. */
  lemma {:induction false} TitleAdvStop(e: Cur, content: string, canon: Canon, adv: map<string, string>, next: Cur)
    requires e.pos < |e.text| && e.text[e.pos] == AdvArgStart
    requires ParseAdvArgs(Cursor(e.text, e.pos + 1, true), canon) == Ok(adv, next)
    ensures TitleFrom(e, content, canon) == Ok(Title(content, adv), next)
  {
    assert TitleStep(e, content, canon) == TitleDone(Ok(Title(content, adv), next));
  }

  lemma {:induction false} TitleAdvAt(e: Cur, content: string, canon: Canon, ps: seq<AdvPair>)
    requires e.pos < |e.text| && e.text[e.pos] == AdvArgStart
    requires |ps| > 0 && e.text[e.pos + 1..] == PairsText(ps) && forall i :: 0 <= i < |ps| ==> PairOk(ps[i])
    ensures TitleFrom(e, content, canon) == Ok(Title(content, PairsMap(map[], ps)), Cursor(e.text, |e.text|, false))
  {
    AdvPairsRead(Cursor(e.text, e.pos + 1, true), canon, ps);
    TitleAdvStop(e, content, canon, PairsMap(map[], ps), Cursor(e.text, |e.text|, false));
  }

  /** A title followed by advanced arguments: the content before the '?'
      is the title, and the arguments are those the text describes. */
  lemma {:induction false} TitleWithAdv(c: Cur, canon: Canon, t: string, ps: seq<AdvPair>)
    requires |ps| > 0 && forall i :: 0 <= i < |ps| ==> PairOk(ps[i])
    requires TitlePlain(t) && c.text[c.pos..] == t + [AdvArgStart] + PairsText(ps)
    ensures ParseMediaTitle(c, canon)
         == Ok(MediaTitle(TrimSpace(t), PairsMap(map[], ps), TitleShape(TrimSpace(t))), Cursor(c.text, |c.text|, false))
  {
    TitleLoopAdv(c, canon, t, ps);
    MediaTitleOf(c, canon, t, PairsMap(map[], ps), Cursor(c.text, |c.text|, false));
  }

  /** The title loop over plain content and a '?' tail. */
  lemma {:induction false} TitleLoopAdv(c: Cur, canon: Canon, t: string, ps: seq<AdvPair>)
    requires |ps| > 0 && forall i :: 0 <= i < |ps| ==> PairOk(ps[i])
    requires TitlePlain(t) && c.text[c.pos..] == t + [AdvArgStart] + PairsText(ps)
    ensures TitleFrom(c, "", canon) == Ok(Title(t, PairsMap(map[], ps)), Cursor(c.text, |c.text|, false))
  {
    AdvTailText(c.text, c.pos, t, PairsText(ps));
    TitleLoopAdvAt(c, canon, t, ps);
  }

  lemma {:induction false} TitleLoopAdvAt(c: Cur, canon: Canon, t: string, ps: seq<AdvPair>)
    requires |ps| > 0 && forall i :: 0 <= i < |ps| ==> PairOk(ps[i])
    requires TitlePlain(t) && c.pos + |t| < |c.text| && c.text[c.pos..c.pos + |t|] == t
    requires c.text[c.pos + |t|] == AdvArgStart && c.text[c.pos + |t| + 1..] == PairsText(ps)
    ensures TitleFrom(c, "", canon) == Ok(Title(t, PairsMap(map[], ps)), Cursor(c.text, |c.text|, false))
  {
    assert "" + t == t;
    TitleAdvAt(Ahead(c, |t|), t, canon, ps);
    TitleRunFrom(c, "", canon, t);
  }

  /** The title command's result is the trimmed content the loop collected. */
  lemma {:induction false} MediaTitleOf(c: Cur, canon: Canon, content: string, adv: map<string, string>, next: Cur)
    requires TitleFrom(c, "", canon) == Ok(Title(content, adv), next)
    ensures ParseMediaTitle(c, canon) == Ok(MediaTitle(TrimSpace(content), adv, TitleShape(TrimSpace(content))), next)
  {
  }


  /** A title ends at "||"; both pipes are consumed. */
  lemma {:induction false} TitleAtChainEnd(c: Cur, canon: Canon, t: string, u: string)
    requires TitlePlain(t) && c.text[c.pos..] == t + [CmdSep, CmdSep] + u
    ensures ParseMediaTitle(c, canon)
         == Ok(MediaTitle(TrimSpace(t), map[], TitleShape(TrimSpace(t))), Cursor(c.text, c.pos + |t| + 2, true))
  {
    PipesText(c.text, c.pos, t, u);
    TitleRunFrom(c, "", canon, t);
    var e := Ahead(c, |t|);
    assert TitleStep(e, t, canon) == TitleDone(Ok(Title(t, map[]), Cursor(c.text, c.pos + |t| + 2, true)));
    assert [] + t == t;
  }

  lemma {:induction false} PipesText(text: string, pos: nat, t: string, u: string)
    requires pos <= |text| && text[pos..] == t + [CmdSep, CmdSep] + u
    ensures pos + |t| + 2 <= |text| && text[pos..pos + |t|] == t
    ensures text[pos + |t|] == CmdSep && text[pos + |t| + 1] == CmdSep && text[pos + |t| + 2..] == u
  {
    assert text[pos..][..|t|] == t;
    assert text[pos..][|t|] == CmdSep && text[pos..][|t| + 1] == CmdSep;
    assert text[pos..][|t| + 2..] == u;
  }

  // ---- commands ----

  /** The command scanner's outcome once the name is known: an empty name
      is an error, any other name is lower-cased. */
  function FinishCmd(name: string, args: seq<string>, adv: map<string, string>, c: Cur): Scan<Command> {
    if name == "" then Fail(EmptyCmdName) else Ok(Command(ToLowerAscii(name), args, AdvOf(adv)), c)
  }

  /** One turn of the command scanner: the name read so far and every
      character consumed, which is the fallback text. */
  datatype CmdMove = CmdMore(cur: Cur, name: string, buf: string) | CmdDone(result: Scan<Command>)

  function CmdStep(c: Cur, name: string, buf: string, onlyOneArg: bool, canon: Canon): (m: CmdMove)
    ensures m.CmdMore? ==> m.cur.text == c.text && c.pos < m.cur.pos
    ensures m.CmdDone? ==> m.result.Within(c)
    ensures m.CmdDone? && m.result.Fail? ==> ArgError(m.result.err) || m.result.err == UnmatchedInputMacroExt || m.result.err == EmptyCmdName
  {
    var s := Read(c);
    if s.ch == EOF then CmdDone(FinishCmd(name, [], map[], s.cur))
    else
      var buf' := buf + [s.ch];
      var eoc := CheckEndOfCmd(s.ch, s.cur);
      if eoc.isEnd then CmdDone(FinishCmd(name, [], map[], eoc.cur))
      else if IsCmdName(s.ch) then CmdMore(eoc.cur, name + [s.ch], buf')
      else if s.ch == ArgStart || s.ch == AdvArgStart then
        if name == "" then CmdDone(Fail(EmptyCmdName))
        else
          var onlyAdvArgs := s.ch == AdvArgStart;
          var start := if onlyAdvArgs then Unread(eoc.cur) else Success(eoc.cur);
          if start.Failure? then CmdDone(Fail(InvalidUnreadRune))
          else
            var a :=
              if IsInputMacroCmd(name) then ParseInputMacroArg(start.value, canon)
              else ParseArgs(start.value, "", onlyAdvArgs, onlyOneArg, canon);
            if a.Fail? then CmdDone(Fail(a.err))
            else CmdDone(FinishCmd(name, a.value.args, a.value.advArgs, a.cur))
      else CmdDone(Fallback(buf', eoc.cur))
  }

  function CmdFrom(c: Cur, name: string, buf: string, onlyOneArg: bool, canon: Canon): (r: Scan<Command>)
    ensures r.Within(c)
    ensures r.Fail? ==> ArgError(r.err) || r.err == UnmatchedInputMacroExt || r.err == EmptyCmdName
    decreases |c.text| - c.pos
  {
    match CmdStep(c, name, buf, onlyOneArg, canon)
    case CmdMore(next, name', buf') => CmdFrom(next, name', buf', onlyOneArg, canon)
    case CmdDone(r) => r
  }

  /** Called after "**". Reads a command name (letters, digits, '.'); ':'
      or '?' hands the rest of the command to the argument scanner (the
      input-macro one for the two input commands), and the end of the
      command gives a command without arguments. Any other character gives
      up with the text consumed (`Fallback`), which the caller turns into
      a launch. */
  function ParseCommand(c: Cur, onlyOneArg: bool, canon: Canon): (r: Scan<Command>)
    ensures r.Within(c)
    ensures r.Fail? ==> ArgError(r.err) || r.err == UnmatchedInputMacroExt || r.err == EmptyCmdName
    ensures r.Fallback? ==> |r.raw| > 0
  {
    CmdFallbackNonEmpty(c, "", "", onlyOneArg, canon);
    CmdFrom(c, "", "", onlyOneArg, canon)
  }

  lemma {:induction false} CmdFallbackNonEmpty(c: Cur, name: string, buf: string, onlyOneArg: bool, canon: Canon)
    ensures CmdFrom(c, name, buf, onlyOneArg, canon).Fallback? ==> |CmdFrom(c, name, buf, onlyOneArg, canon).raw| > |buf|
    decreases |c.text| - c.pos
  {
    match CmdStep(c, name, buf, onlyOneArg, canon)
    case CmdMore(next, name', buf') =>
      CmdFallbackNonEmpty(next, name', buf', onlyOneArg, canon);
    case CmdDone(r) =>
  }

  predicate CmdNameText(n: string) {
    forall i :: 0 <= i < |n| ==> IsCmdName(n[i])
  }

  /** A name character extends the name and the fallback text. */
  lemma {:induction false} CmdNameStep(c: Cur, name: string, buf: string, onlyOneArg: bool, canon: Canon)
    requires c.pos < |c.text| && IsCmdName(c.text[c.pos])
    ensures CmdFrom(c, name, buf, onlyOneArg, canon)
         == CmdFrom(Cursor(c.text, c.pos + 1, true), name + [c.text[c.pos]], buf + [c.text[c.pos]], onlyOneArg, canon)
  {
    var ch := c.text[c.pos];
    var next := Cursor(c.text, c.pos + 1, true);
    assert CheckEndOfCmd(ch, next) == EndCheck(false, next);
    assert CmdStep(c, name, buf, onlyOneArg, canon) == CmdMore(next, name + [ch], buf + [ch]);
  }

  /** The command scanner as a function of cursor, name and fallback text. */
  type CmdLoop = (Cur, string, string) -> Scan<Command>

  function CmdLoopOf(onlyOneArg: bool, canon: Canon): CmdLoop {
    (c: Cur, name: string, buf: string) => CmdFrom(c, name, buf, onlyOneArg, canon)
  }

  ghost predicate CmdMovesAt(f: CmdLoop, c: Cur, name: string, buf: string) {
    c.pos < |c.text| && IsCmdName(c.text[c.pos]) ==>
      f(c, name, buf) == f(Cursor(c.text, c.pos + 1, true), name + [c.text[c.pos]], buf + [c.text[c.pos]])
  }

  ghost predicate CmdMoves(f: CmdLoop) {
    forall c: Cur, name: string, buf: string :: CmdMovesAt(f, c, name, buf)
  }

  lemma {:induction false} CmdLoopSteps(onlyOneArg: bool, canon: Canon)
    ensures CmdMoves(CmdLoopOf(onlyOneArg, canon))
  {
    var f := CmdLoopOf(onlyOneArg, canon);
    forall c: Cur, name: string, buf: string ensures CmdMovesAt(f, c, name, buf) {
      if c.pos < |c.text| && IsCmdName(c.text[c.pos]) {
        CmdNameStep(c, name, buf, onlyOneArg, canon);
      }
    }
  }

  lemma {:induction false} UseCmdMoves(f: CmdLoop, c: Cur, name: string, buf: string)
    requires CmdMoves(f)
    ensures CmdMovesAt(f, c, name, buf)
  {
  }

  /** A run of name characters is appended to both the name and the
      fallback text. */
  lemma {:induction false} CmdRun(f: CmdLoop, c: Cur, name: string, buf: string, n: string)
    requires CmdMoves(f)
    requires c.pos + |n| <= |c.text| && c.text[c.pos..c.pos + |n|] == n && CmdNameText(n)
    ensures f(c, name, buf) == f(Ahead(c, |n|), name + n, buf + n)
    decreases |n|
  {
    if n != [] {
      PlainHead(c.text, c.pos, n);
      assert IsCmdName(n[0]);
      UseCmdMoves(f, c, name, buf);
      var next := Cursor(c.text, c.pos + 1, true);
      assert CmdNameText(n[1..]) by {
        assert forall i :: 0 <= i < |n[1..]| ==> n[1..][i] == n[i + 1];
      }
      CmdRun(f, next, name + [n[0]], buf + [n[0]], n[1..]);
      AppendHead(name, n);
      AppendHead(buf, n);
      assert Ahead(next, |n[1..]|) == Ahead(c, |n|);
    } else {
      assert name + n == name && buf + n == buf;
    }
  }

  /** After the name, the scanner is where the character following it
      decides. */
  lemma {:induction false} CmdAfterName(c: Cur, onlyOneArg: bool, canon: Canon, n: string)
    requires c.pos + |n| <= |c.text| && c.text[c.pos..c.pos + |n|] == n && CmdNameText(n)
    ensures ParseCommand(c, onlyOneArg, canon) == CmdFrom(Ahead(c, |n|), n, n, onlyOneArg, canon)
  {
    CmdLoopSteps(onlyOneArg, canon);
    CmdRun(CmdLoopOf(onlyOneArg, canon), c, "", "", n);
    assert [] + n == n;
  }

  lemma {:induction false} NameText(text: string, pos: nat, n: string, u: string)
    requires pos <= |text| && text[pos..] == n + u
    ensures pos + |n| <= |text| && text[pos..pos + |n|] == n && text[pos + |n|..] == u
  {
    assert text[pos..][..|n|] == n;
    assert text[pos..][|n|..] == u;
  }

  lemma {:induction false} NameHead(text: string, pos: nat, n: string, ch: char, u: string)
    requires pos <= |text| && text[pos..] == n + [ch] + u
    ensures pos + |n| < |text| && text[pos..pos + |n|] == n && text[pos + |n|] == ch
  {
    assert text[pos..][..|n|] == n;
    assert text[pos..][|n|] == ch;
  }

  /** A name alone, up to the end of the input or of the command, is a
      command without arguments; the name is lower-cased. */
  lemma {:induction false} CmdWithoutArgs(c: Cur, onlyOneArg: bool, canon: Canon, n: string, u: string)
    requires n != [] && CmdNameText(n)
    requires c.text[c.pos..] == n || c.text[c.pos..] == n + [CmdSep, CmdSep] + u
    ensures ParseCommand(c, onlyOneArg, canon).Ok?
    ensures ParseCommand(c, onlyOneArg, canon).value == Command(ToLowerAscii(n), [], NoAdvArgs)
    ensures ParseCommand(c, onlyOneArg, canon).cur.pos == if c.text[c.pos..] == n then |c.text| else c.pos + |n| + 2
  {
    if c.text[c.pos..] == n {
      CmdAtEnd(c, onlyOneArg, canon, n);
    } else {
      CmdBeforePipes(c, onlyOneArg, canon, n, u);
    }
  }

  lemma {:induction false} CmdAtEnd(c: Cur, onlyOneArg: bool, canon: Canon, n: string)
    requires n != [] && CmdNameText(n) && c.text[c.pos..] == n
    ensures ParseCommand(c, onlyOneArg, canon) == Ok(Command(ToLowerAscii(n), [], NoAdvArgs), Cursor(c.text, |c.text|, false))
  {
    NameText(c.text, c.pos, n, []);
    CmdAfterName(c, onlyOneArg, canon, n);
    var e := Ahead(c, |n|);
    CmdEndStep(e, n, onlyOneArg, canon);
  }

  lemma {:induction false} CmdBeforePipes(c: Cur, onlyOneArg: bool, canon: Canon, n: string, u: string)
    requires n != [] && CmdNameText(n) && c.text[c.pos..] == n + [CmdSep, CmdSep] + u
    ensures ParseCommand(c, onlyOneArg, canon) == Ok(Command(ToLowerAscii(n), [], NoAdvArgs), Cursor(c.text, c.pos + |n| + 2, true))
  {
    CmdNameBeforePipes(c, onlyOneArg, canon, n, u);
    CmdPipesAfterName(c, onlyOneArg, canon, n, u);
  }

  lemma {:induction false} CmdNameBeforePipes(c: Cur, onlyOneArg: bool, canon: Canon, n: string, u: string)
    requires n != [] && CmdNameText(n) && c.text[c.pos..] == n + [CmdSep, CmdSep] + u
    ensures c.pos + |n| <= |c.text|
    ensures ParseCommand(c, onlyOneArg, canon) == CmdFrom(Ahead(c, |n|), n, n, onlyOneArg, canon)
  {
    PipesText(c.text, c.pos, n, u);
    CmdAfterName(c, onlyOneArg, canon, n);
  }

  lemma {:induction false} CmdPipesAfterName(c: Cur, onlyOneArg: bool, canon: Canon, n: string, u: string)
    requires n != [] && c.text[c.pos..] == n + [CmdSep, CmdSep] + u
    ensures c.pos + |n| <= |c.text|
    ensures CmdFrom(Ahead(c, |n|), n, n, onlyOneArg, canon) == Ok(Command(ToLowerAscii(n), [], NoAdvArgs), Cursor(c.text, c.pos + |n| + 2, true))
  {
    PipesText(c.text, c.pos, n, u);
    CmdPipesStep(Ahead(c, |n|), n, onlyOneArg, canon);
  }

  lemma {:induction false} CmdEndStep(e: Cur, n: string, onlyOneArg: bool, canon: Canon)
    requires n != [] && e.pos == |e.text|
    ensures CmdFrom(e, n, n, onlyOneArg, canon) == Ok(Command(ToLowerAscii(n), [], NoAdvArgs), e.(canUnread := false))
  {
    assert CmdStep(e, n, n, onlyOneArg, canon) == CmdDone(FinishCmd(n, [], map[], e.(canUnread := false)));
  }

  lemma {:induction false} CmdPipesStep(e: Cur, n: string, onlyOneArg: bool, canon: Canon)
    requires n != [] && e.pos + 1 < |e.text| && e.text[e.pos] == CmdSep && e.text[e.pos + 1] == CmdSep
    ensures CmdFrom(e, n, n, onlyOneArg, canon) == Ok(Command(ToLowerAscii(n), [], NoAdvArgs), Cursor(e.text, e.pos + 2, true))
  {
    var next := Cursor(e.text, e.pos + 1, true);
    assert CheckEndOfCmd(CmdSep, next) == EndCheck(true, Cursor(e.text, e.pos + 2, true));
    assert CmdStep(e, n, n, onlyOneArg, canon) == CmdDone(FinishCmd(n, [], map[], Cursor(e.text, e.pos + 2, true)));
  }

  /** A name followed by ':': the arguments are whatever the positional
      scanner (or, for the two input commands, the input-macro scanner)
      makes of the rest, and an error there is the command's error. */
  lemma {:induction false} CmdWithArgs(c: Cur, onlyOneArg: bool, canon: Canon, n: string, u: string, a: Scan<ArgsOut>)
    requires n != [] && CmdNameText(n) && c.text[c.pos..] == n + [ArgStart] + u
    requires a == if IsInputMacroCmd(n) then ParseInputMacroArg(Cursor(c.text, c.pos + |n| + 1, true), canon)
                  else ParseArgs(Cursor(c.text, c.pos + |n| + 1, true), "", false, onlyOneArg, canon)
    ensures a.Fail? ==> ParseCommand(c, onlyOneArg, canon) == Fail(a.err)
    ensures a.Ok? ==> ParseCommand(c, onlyOneArg, canon) == Ok(Command(ToLowerAscii(n), a.value.args, AdvOf(a.value.advArgs)), a.cur)
  {
    CmdNameBefore(c, onlyOneArg, canon, n, ArgStart, u);
    CmdArgsAfterName(c, onlyOneArg, canon, n, u, a);
  }

  /** The scanner state right after a name that some other character
      follows. */
  lemma {:induction false} CmdNameBefore(c: Cur, onlyOneArg: bool, canon: Canon, n: string, ch: char, u: string)
    requires CmdNameText(n) && c.text[c.pos..] == n + [ch] + u
    ensures c.pos + |n| < |c.text| && c.text[c.pos + |n|] == ch
    ensures ParseCommand(c, onlyOneArg, canon) == CmdFrom(Ahead(c, |n|), n, n, onlyOneArg, canon)
  {
    NameHead(c.text, c.pos, n, ch, u);
    CmdAfterName(c, onlyOneArg, canon, n);
  }

  lemma {:induction false} CmdArgsAfterName(c: Cur, onlyOneArg: bool, canon: Canon, n: string, u: string, a: Scan<ArgsOut>)
    requires n != [] && c.text[c.pos..] == n + [ArgStart] + u
    requires a == if IsInputMacroCmd(n) then ParseInputMacroArg(Cursor(c.text, c.pos + |n| + 1, true), canon)
                  else ParseArgs(Cursor(c.text, c.pos + |n| + 1, true), "", false, onlyOneArg, canon)
    ensures c.pos + |n| <= |c.text|
    ensures a.Fail? ==> CmdFrom(Ahead(c, |n|), n, n, onlyOneArg, canon) == Fail(a.err)
    ensures a.Ok? ==> CmdFrom(Ahead(c, |n|), n, n, onlyOneArg, canon) == Ok(Command(ToLowerAscii(n), a.value.args, AdvOf(a.value.advArgs)), a.cur)
  {
    NameHead(c.text, c.pos, n, ArgStart, u);
    CmdArgsStep(Ahead(c, |n|), n, onlyOneArg, canon, a, Cursor(c.text, c.pos + |n| + 1, true));
  }

  lemma {:induction false} CmdArgsStep(e: Cur, n: string, onlyOneArg: bool, canon: Canon, a: Scan<ArgsOut>, next: Cur)
    requires n != [] && e.pos < |e.text| && e.text[e.pos] == ArgStart && next == Cursor(e.text, e.pos + 1, true)
    requires a == if IsInputMacroCmd(n) then ParseInputMacroArg(next, canon)
                  else ParseArgs(next, "", false, onlyOneArg, canon)
    ensures a.Fail? ==> CmdFrom(e, n, n, onlyOneArg, canon) == Fail(a.err)
    ensures a.Ok? ==> CmdFrom(e, n, n, onlyOneArg, canon) == Ok(Command(ToLowerAscii(n), a.value.args, AdvOf(a.value.advArgs)), a.cur)
  {
    assert Read(e) == Step(ArgStart, next);
    assert CheckEndOfCmd(ArgStart, next) == EndCheck(false, next);
  }

  /** A name followed by '?': the '?' is pushed back and the positional
      scanner runs in the mode that keeps only a non-empty last argument,
      so a command with only advanced arguments gets no positional ones. */
  lemma {:induction false} CmdWithAdvArgs(c: Cur, onlyOneArg: bool, canon: Canon, n: string, u: string, a: Scan<ArgsOut>)
    requires n != [] && CmdNameText(n) && c.text[c.pos..] == n + [AdvArgStart] + u
    requires a == if IsInputMacroCmd(n) then ParseInputMacroArg(Cursor(c.text, c.pos + |n|, false), canon)
                  else ParseArgs(Cursor(c.text, c.pos + |n|, false), "", true, onlyOneArg, canon)
    ensures a.Fail? ==> ParseCommand(c, onlyOneArg, canon) == Fail(a.err)
    ensures a.Ok? ==> ParseCommand(c, onlyOneArg, canon) == Ok(Command(ToLowerAscii(n), a.value.args, AdvOf(a.value.advArgs)), a.cur)
  {
    CmdNameBefore(c, onlyOneArg, canon, n, AdvArgStart, u);
    CmdAdvAfterName(c, onlyOneArg, canon, n, u, a);
  }

  lemma {:induction false} CmdAdvAfterName(c: Cur, onlyOneArg: bool, canon: Canon, n: string, u: string, a: Scan<ArgsOut>)
    requires n != [] && c.text[c.pos..] == n + [AdvArgStart] + u
    requires a == if IsInputMacroCmd(n) then ParseInputMacroArg(Cursor(c.text, c.pos + |n|, false), canon)
                  else ParseArgs(Cursor(c.text, c.pos + |n|, false), "", true, onlyOneArg, canon)
    ensures c.pos + |n| <= |c.text|
    ensures a.Fail? ==> CmdFrom(Ahead(c, |n|), n, n, onlyOneArg, canon) == Fail(a.err)
    ensures a.Ok? ==> CmdFrom(Ahead(c, |n|), n, n, onlyOneArg, canon) == Ok(Command(ToLowerAscii(n), a.value.args, AdvOf(a.value.advArgs)), a.cur)
  {
    NameHead(c.text, c.pos, n, AdvArgStart, u);
    CmdAdvStep(Ahead(c, |n|), n, onlyOneArg, canon, a, Cursor(c.text, c.pos + |n|, false));
  }

  lemma {:induction false} CmdAdvStep(e: Cur, n: string, onlyOneArg: bool, canon: Canon, a: Scan<ArgsOut>, back: Cur)
    requires n != [] && e.pos < |e.text| && e.text[e.pos] == AdvArgStart && back == Cursor(e.text, e.pos, false)
    requires a == if IsInputMacroCmd(n) then ParseInputMacroArg(back, canon)
                  else ParseArgs(back, "", true, onlyOneArg, canon)
    ensures a.Fail? ==> CmdFrom(e, n, n, onlyOneArg, canon) == Fail(a.err)
    ensures a.Ok? ==> CmdFrom(e, n, n, onlyOneArg, canon) == Ok(Command(ToLowerAscii(n), a.value.args, AdvOf(a.value.advArgs)), a.cur)
  {
    var next := Cursor(e.text, e.pos + 1, true);
    assert Read(e) == Step(AdvArgStart, next);
    assert CheckEndOfCmd(AdvArgStart, next) == EndCheck(false, next);
    assert Unread(next) == Success(back);
  }

  /** A character that is neither a name character, ':', '?', the end of
      the input nor a command terminator makes the scanner give up with
      the name and that character as the fallback text. */
  lemma {:induction false} CmdInvalidName(c: Cur, onlyOneArg: bool, canon: Canon, n: string, ch: char, u: string)
    requires CmdNameText(n) && c.text[c.pos..] == n + [ch] + u
    requires ch != EOF && !IsCmdName(ch) && ch != ArgStart && ch != AdvArgStart && ch != CmdSep
    ensures ParseCommand(c, onlyOneArg, canon) == Fallback(n + [ch], Cursor(c.text, c.pos + |n| + 1, true))
  {
    NameText(c.text, c.pos, n, [ch] + u);
    CmdAfterName(c, onlyOneArg, canon, n);
    var e := Ahead(c, |n|);
    var next := Cursor(c.text, c.pos + |n| + 1, true);
    assert Read(e) == Step(ch, next);
    assert CheckEndOfCmd(ch, next) == EndCheck(false, next);
    assert CmdStep(e, n, n, onlyOneArg, canon) == CmdDone(Fallback(n + [ch], next));
  }

  /** No name before ':', '?' or the end is an error. */
  lemma {:induction false} CmdEmptyName(c: Cur, onlyOneArg: bool, canon: Canon)
    requires AtEnd(c) || c.text[c.pos] == ArgStart || c.text[c.pos] == AdvArgStart
    ensures ParseCommand(c, onlyOneArg, canon) == Fail(EmptyCmdName)
  {
    if !AtEnd(c) {
      var next := Cursor(c.text, c.pos + 1, true);
      assert CheckEndOfCmd(c.text[c.pos], next) == EndCheck(false, next);
    }
  }

  /** A name lower-cased stays made of name characters and has no
      upper-case letter. */
  lemma {:induction false} LowerName(n: string)
    requires CmdNameText(n)
    ensures CmdNameText(ToLowerAscii(n))
    ensures forall i :: 0 <= i < |n| ==> !('A' <= ToLowerAscii(n)[i] <= 'Z')
  {
  }

  /** Every command the scanner returns has a non-empty lower-case name
      made of name characters. */
  lemma {:induction false} CmdNameShape(c: Cur, name: string, buf: string, onlyOneArg: bool, canon: Canon)
    requires CmdNameText(name)
    ensures var r := CmdFrom(c, name, buf, onlyOneArg, canon);
      r.Ok? ==> (r.value.name != [] && CmdNameText(r.value.name)
                 && forall i :: 0 <= i < |r.value.name| ==> !('A' <= r.value.name[i] <= 'Z'))
    decreases |c.text| - c.pos
  {
    match CmdStep(c, name, buf, onlyOneArg, canon)
    case CmdMore(next, name', buf') =>
      assert CmdNameText(name') by {
        assert name' == name + [c.text[c.pos]];
        assert IsCmdName(c.text[c.pos]);
      }
      CmdNameShape(next, name', buf', onlyOneArg, canon);
    case CmdDone(r) =>
      LowerName(name);
  }

  /** The commands `ParseCommand` returns are named in lower case. */
  lemma {:induction false} CommandNamesLower(c: Cur, onlyOneArg: bool, canon: Canon)
    ensures var r := ParseCommand(c, onlyOneArg, canon);
      r.Ok? ==> (r.value.name != [] && CmdNameText(r.value.name)
                 && forall i :: 0 <= i < |r.value.name| ==> !('A' <= r.value.name[i] <= 'Z'))
  {
    CmdNameShape(c, "", "", onlyOneArg, canon);
  }

  // ---- the script ----

  /** One turn of the script loop: the commands so far, or the final
      outcome. */
  datatype ScriptMove = ScriptMore(cur: Cur, cmds: seq<Command>) | ScriptDone(result: Result<Script>)

  /** The auto-launch path: the rest of the segment, after `prefix`, is one
      argument of a launch command; advanced arguments are honoured. */
  function AutoLaunch(c: Cur, prefix: string, cmds: seq<Command>, canon: Canon): (m: ScriptMove)
    ensures m.ScriptMore? ==> m.cur.text == c.text && c.pos <= m.cur.pos
    ensures m.ScriptMore? ==> |m.cmds| == |cmds| + 1 && cmds <= m.cmds && m.cmds[|cmds|].name == CmdLaunch
    ensures m.ScriptMore? && !AtEnd(c) ==> c.pos < m.cur.pos
    ensures m.ScriptDone? ==> m.result.Failure? && ArgError(m.result.error)
  {
    ArgsProgress(c, ArgsState([], prefix, c.pos), false, true, canon);
    var a := ParseArgs(c, prefix, false, true, canon);
    if a.Fail? then ScriptDone(Failure(a.err))
    else ScriptMore(a.cur, cmds + [Command(CmdLaunch, a.value.args, AdvOf(a.value.advArgs))])
  }

  function ScriptStep(c: Cur, cmds: seq<Command>, canon: Canon): (m: ScriptMove)
    ensures m.ScriptMore? ==> m.cur.text == c.text && c.pos < m.cur.pos && cmds <= m.cmds
    ensures m.ScriptDone? && m.result.Success? ==> m.result.value.cmds == cmds && cmds != []
  {
    var s := Read(c);
    if s.ch == EOF then ScriptDone(if cmds == [] then Failure(EmptyZapScript) else Success(Script(cmds)))
    else if IsWhitespace(s.ch) then ScriptMore(s.cur, cmds)
    else if s.cur.pos == 1 && s.ch == JSONStart then ScriptDone(Failure(InvalidJSON))
    else if s.ch == MediaTitleStart then
      var t := ParseMediaTitle(s.cur, canon);
      if t.Fail? then ScriptDone(Failure(t.err))
      else if !t.value.valid then AutoLaunch(t.cur, [MediaTitleStart] + t.value.rawContent, cmds, canon)
      else ScriptMore(t.cur, cmds + [Command(CmdLaunchTitle, [t.value.rawContent], AdvOf(t.value.advArgs))])
    else if s.ch == CmdStart then
      var p := Peek(s.cur);
      if p.ch == EOF then ScriptDone(Failure(UnexpectedEOF))
      else if p.ch == CmdStart then
        match ParseCommand(Skip(p.cur), false, canon)
        case Fallback(buf, next) => AutoLaunch(next, [CmdStart, CmdStart] + buf, cmds, canon)
        case Fail(e) => ScriptDone(Failure(e))
        case Ok(cmd, next) => ScriptMore(next, cmds + [cmd])
      else AutoLaunch(p.cur, [CmdStart], cmds, canon)
    else
      var back := Unread(s.cur);
      if back.Failure? then ScriptDone(Failure(InvalidUnreadRune))
      else AutoLaunch(back.value, "", cmds, canon)
  }

  function ScriptFrom(c: Cur, cmds: seq<Command>, canon: Canon): (r: Result<Script>)
    ensures r.Success? ==> |r.value.cmds| > 0 && cmds <= r.value.cmds
    decreases |c.text| - c.pos
  {
    match ScriptStep(c, cmds, canon)
    case ScriptMore(next, cmds') => ScriptFrom(next, cmds', canon)
    case ScriptDone(r) => r
  }

  /** Parses a whole script. Whitespace before a segment is skipped; '@'
      starts a media title, "**" a command, '*' followed by anything else
      and every other character an auto-launch; '{' as the very first
      character is reserved for JSON scripts and rejected. A script with
      no commands is an error. */
  function ParseScript(text: string, canon: Canon): (r: Result<Script>)
    ensures r.Success? ==> |r.value.cmds| > 0
  {
    ScriptFrom(NewParser(text), [], canon)
  }
}
