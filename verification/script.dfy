/** What the script loop makes of whole inputs: blank text, the JSON
    marker, commands, media titles and auto-launch text, and how segments
    chain. Each segment lemma relates one turn of the loop to the scanner
    that handles it; the whole-script lemmas compose them. */
module ScriptRuns {
  import opened Symbols
  import opened GoStrings
  import opened Reader
  import opened Arguments
  import opened Commands
  import opened Parser

  /** The outcome at the end of the input: the commands gathered, or an
      error when there are none. */
  lemma {:induction false} ScriptAtEnd(c: Cur, cmds: seq<Command>, canon: Canon)
    requires c.pos == |c.text|
    ensures cmds == [] ==> ScriptFrom(c, cmds, canon) == Failure(EmptyZapScript)
    ensures cmds != [] ==> ScriptFrom(c, cmds, canon) == Success(Script(cmds))
  {
    assert Read(c).ch == EOF;
  }

  /** A turn of the loop that leaves more to scan hands over to the next. */
  lemma {:induction false} ScriptGoesOn(c: Cur, cmds: seq<Command>, canon: Canon, next: Cur, cmds': seq<Command>)
    requires ScriptStep(c, cmds, canon) == ScriptMore(next, cmds')
    ensures ScriptFrom(c, cmds, canon) == ScriptFrom(next, cmds', canon)
  {
  }

  /** A whitespace character between segments is skipped. */
  lemma {:induction false} ScriptBlankStep(c: Cur, cmds: seq<Command>, canon: Canon)
    requires c.pos < |c.text| && IsWhitespace(c.text[c.pos])
    ensures ScriptFrom(c, cmds, canon) == ScriptFrom(Cursor(c.text, c.pos + 1, true), cmds, canon)
  {
    assert ScriptStep(c, cmds, canon) == ScriptMore(Cursor(c.text, c.pos + 1, true), cmds);
  }

  predicate Blank(w: string) {
    forall i :: 0 <= i < |w| ==> IsWhitespace(w[i])
  }

  type ScriptLoop = (Cur, seq<Command>) -> Result<Script>

  function ScriptLoopOf(canon: Canon): ScriptLoop {
    (c: Cur, cmds: seq<Command>) => ScriptFrom(c, cmds, canon)
  }

  ghost predicate BlankMovesAt(f: ScriptLoop, c: Cur, cmds: seq<Command>) {
    c.pos < |c.text| && IsWhitespace(c.text[c.pos]) ==>
      f(c, cmds) == f(Cursor(c.text, c.pos + 1, true), cmds)
  }

  ghost predicate BlankMoves(f: ScriptLoop) {
    forall c: Cur, cmds: seq<Command> :: BlankMovesAt(f, c, cmds)
  }

  lemma {:induction false} BlankLoopSteps(canon: Canon)
    ensures BlankMoves(ScriptLoopOf(canon))
  {
    var f := ScriptLoopOf(canon);
    forall c: Cur, cmds: seq<Command> ensures BlankMovesAt(f, c, cmds) {
      if c.pos < |c.text| && IsWhitespace(c.text[c.pos]) {
        ScriptBlankStep(c, cmds, canon);
      }
    }
  }

  lemma {:induction false} UseBlankMoves(f: ScriptLoop, c: Cur, cmds: seq<Command>)
    requires BlankMoves(f)
    ensures BlankMovesAt(f, c, cmds)
  {
  }

  lemma {:induction false} BlankRun(f: ScriptLoop, c: Cur, cmds: seq<Command>, w: string)
    requires BlankMoves(f)
    requires c.pos + |w| <= |c.text| && c.text[c.pos..c.pos + |w|] == w && Blank(w)
    ensures f(c, cmds) == f(Ahead(c, |w|), cmds)
    decreases |w|
  {
    if w != [] {
      PlainHead(c.text, c.pos, w);
      UseBlankMoves(f, c, cmds);
      var d := Cursor(c.text, c.pos + 1, true);
      assert Blank(w[1..]) by {
        assert forall i :: 0 <= i < |w[1..]| ==> w[1..][i] == w[i + 1];
      }
      BlankRun(f, d, cmds, w[1..]);
      assert Ahead(d, |w[1..]|) == Ahead(c, |w|);
    }
  }

  /** A run of whitespace is skipped as a whole. */
  lemma {:induction false} ScriptSkipsBlanks(c: Cur, cmds: seq<Command>, canon: Canon, w: string)
    requires c.pos + |w| <= |c.text| && c.text[c.pos..c.pos + |w|] == w && Blank(w)
    ensures ScriptFrom(c, cmds, canon) == ScriptFrom(Ahead(c, |w|), cmds, canon)
  {
    BlankLoopSteps(canon);
    BlankRun(ScriptLoopOf(canon), c, cmds, w);
  }

  /** Input made only of whitespace (or nothing) holds no command. */
  lemma {:induction false} ScriptBlank(text: string, canon: Canon)
    requires Blank(text)
    ensures ParseScript(text, canon) == Failure(EmptyZapScript)
  {
    var c := NewParser(text);
    assert text[0..|text|] == text;
    ScriptSkipsBlanks(c, [], canon, text);
    ScriptAtEnd(Ahead(c, |text|), [], canon);
  }

  /** '{' as the very first character is reserved for JSON scripts. */
  lemma {:induction false} ScriptJSON(text: string, canon: Canon)
    requires |text| > 0 && text[0] == JSONStart
    ensures ParseScript(text, canon) == Failure(InvalidJSON)
  {
    var c := NewParser(text);
    assert ScriptStep(c, [], canon) == ScriptDone(Failure(InvalidJSON));
  }

  /** A lone '*' at the end of the input is an unexpected end. */
  lemma {:induction false} ScriptStarAtEnd(c: Cur, cmds: seq<Command>, canon: Canon)
    requires c.text[c.pos..] == [CmdStart]
    ensures ScriptFrom(c, cmds, canon) == Failure(UnexpectedEOF)
  {
    assert c.text[c.pos] == CmdStart && c.pos + 1 == |c.text|;
    assert ScriptStep(c, cmds, canon) == ScriptDone(Failure(UnexpectedEOF));
  }

  /** A character that starts no other kind of segment is pushed back and
      the segment is read as the argument of a "launch" command. */
  lemma {:induction false} ScriptPlainStep(c: Cur, cmds: seq<Command>, canon: Canon)
    requires c.pos < |c.text| && c.text[c.pos] != EOF
    requires !IsWhitespace(c.text[c.pos]) && c.text[c.pos] != MediaTitleStart && c.text[c.pos] != CmdStart
    requires !(c.pos == 0 && c.text[c.pos] == JSONStart)
    ensures ScriptStep(c, cmds, canon) == AutoLaunch(Cursor(c.text, c.pos, false), "", cmds, canon)
  {
    var s := Read(c);
    assert s == Step(c.text[c.pos], Cursor(c.text, c.pos + 1, true));
    assert Unread(s.cur) == Success(Cursor(c.text, c.pos, false));
  }

  /** The launch command made from plain text that runs to the end of the
      input: the whole text, trimmed, is its one argument; commas do not
      split it. */
  lemma {:induction false} AutoLaunchToEnd(c: Cur, prefix: string, cmds: seq<Command>, canon: Canon, t: string)
    requires c.text[c.pos..] == t && PlainArgs(t, true) && (t != [] ==> !OpensLiteral(t[0]))
    ensures AutoLaunch(c, prefix, cmds, canon)
         == ScriptMore(Cursor(c.text, |c.text|, false), cmds + [Command(CmdLaunch, [TrimSpace(prefix + t)], NoAdvArgs)])
  {
    PlainArgsRead(c, prefix, false, true, canon);
  }

  /** Plain text to the end of the input becomes one "launch" command. */
  lemma {:induction false} ScriptAutoLaunch(c: Cur, cmds: seq<Command>, canon: Canon)
    requires c.pos < |c.text| && PlainArgs(c.text[c.pos..], true)
    requires !IsWhitespace(c.text[c.pos]) && c.text[c.pos] != MediaTitleStart && c.text[c.pos] != CmdStart
    requires !OpensLiteral(c.text[c.pos])
    ensures ScriptFrom(c, cmds, canon) == Success(Script(cmds + [Command(CmdLaunch, [TrimSpace(c.text[c.pos..])], NoAdvArgs)]))
  {
    ScriptPlainStep(c, cmds, canon);
    var b := Cursor(c.text, c.pos, false);
    AutoLaunchToEnd(b, "", cmds, canon, c.text[c.pos..]);
    assert "" + c.text[c.pos..] == c.text[c.pos..];
    ScriptAtEnd(Cursor(c.text, |c.text|, false), cmds + [Command(CmdLaunch, [TrimSpace(c.text[c.pos..])], NoAdvArgs)], canon);
  }

  /** A script that is just plain text is one "launch" of that text,
      trimmed. */
  lemma {:induction false} ParseAutoLaunch(text: string, canon: Canon)
    requires |text| > 0 && PlainArgs(text, true)
    requires !IsWhitespace(text[0]) && text[0] != MediaTitleStart && text[0] != CmdStart && !OpensLiteral(text[0])
    ensures ParseScript(text, canon) == Success(Script([Command(CmdLaunch, [TrimSpace(text)], NoAdvArgs)]))
  {
    var c := NewParser(text);
    assert text[0..] == text;
    ScriptAutoLaunch(c, [], canon);
    assert [] + [Command(CmdLaunch, [TrimSpace(text)], NoAdvArgs)] == [Command(CmdLaunch, [TrimSpace(text)], NoAdvArgs)];
  }

  // ---- commands ----

  /** "**" hands the rest to the command scanner: a command is appended, an
      error ends the script, and a name that turns out not to be one is
      read back as auto-launch text that starts with "**". */
  lemma {:induction false} ScriptCmdStep(c: Cur, cmds: seq<Command>, canon: Canon, r: Scan<Command>)
    requires c.pos + 1 < |c.text| && c.text[c.pos] == CmdStart && c.text[c.pos + 1] == CmdStart
    requires r == ParseCommand(Cursor(c.text, c.pos + 2, true), false, canon)
    ensures && (r.Ok? ==> ScriptStep(c, cmds, canon) == ScriptMore(r.cur, cmds + [r.value]))
      && (r.Fail? ==> ScriptStep(c, cmds, canon) == ScriptDone(Failure(r.err)))
      && (r.Fallback? ==> ScriptStep(c, cmds, canon) == AutoLaunch(r.cur, [CmdStart, CmdStart] + r.raw, cmds, canon))
  {
    var s := Read(c);
    assert s == Step(CmdStart, Cursor(c.text, c.pos + 1, true));
    var p := Peek(s.cur);
    assert p == Step(CmdStart, Cursor(c.text, c.pos + 1, false));
    assert Skip(p.cur) == Cursor(c.text, c.pos + 2, true);
  }

  /** '*' followed by anything but a second '*' or the end is auto-launch
      text that keeps the '*'. */
  lemma {:induction false} ScriptStarStep(c: Cur, cmds: seq<Command>, canon: Canon)
    requires c.pos + 1 < |c.text| && c.text[c.pos] == CmdStart
    requires c.text[c.pos + 1] != CmdStart && c.text[c.pos + 1] != EOF
    ensures ScriptStep(c, cmds, canon) == AutoLaunch(Cursor(c.text, c.pos + 1, false), [CmdStart], cmds, canon)
  {
    var s := Read(c);
    assert s == Step(CmdStart, Cursor(c.text, c.pos + 1, true));
    assert Peek(s.cur) == Step(c.text[c.pos + 1], Cursor(c.text, c.pos + 1, false));
  }

  lemma {:induction false} CmdText(text: string, pos: nat, t: string)
    requires pos <= |text| && text[pos..] == [CmdStart, CmdStart] + t
    ensures pos + 2 <= |text| && text[pos] == CmdStart && text[pos + 1] == CmdStart && text[pos + 2..] == t
  {
    assert text[pos..][0] == text[pos] && text[pos..][1] == text[pos + 1];
    assert text[pos + 2..] == text[pos..][2..];
  }

  /** "**name" at the end of the input is one command without arguments. */
  lemma {:induction false} ScriptCmdAlone(c: Cur, cmds: seq<Command>, canon: Canon, n: string)
    requires n != [] && CmdNameText(n) && c.text[c.pos..] == [CmdStart, CmdStart] + n
    ensures ScriptFrom(c, cmds, canon) == Success(Script(cmds + [Command(ToLowerAscii(n), [], NoAdvArgs)]))
  {
    CmdText(c.text, c.pos, n);
    var d := Cursor(c.text, c.pos + 2, true);
    CmdAtEnd(d, false, canon, n);
    ScriptCmdStep(c, cmds, canon, ParseCommand(d, false, canon));
    ScriptAtEnd(Cursor(c.text, |c.text|, false), cmds + [Command(ToLowerAscii(n), [], NoAdvArgs)], canon);
  }

  /** "**name||" ends a command; the script goes on after the pipes. */
  lemma {:induction false} ScriptCmdChain(c: Cur, cmds: seq<Command>, canon: Canon, n: string, u: string)
    requires n != [] && CmdNameText(n) && c.text[c.pos..] == [CmdStart, CmdStart] + n + [CmdSep, CmdSep] + u
    ensures ScriptFrom(c, cmds, canon)
         == ScriptFrom(Cursor(c.text, c.pos + |n| + 4, true), cmds + [Command(ToLowerAscii(n), [], NoAdvArgs)], canon)
  {
    assert [CmdStart, CmdStart] + n + [CmdSep, CmdSep] + u == [CmdStart, CmdStart] + (n + [CmdSep, CmdSep] + u);
    CmdText(c.text, c.pos, n + [CmdSep, CmdSep] + u);
    var d := Cursor(c.text, c.pos + 2, true);
    var e := Cursor(c.text, c.pos + |n| + 4, true);
    var cmd := Command(ToLowerAscii(n), [], NoAdvArgs);
    assert ParseCommand(d, false, canon) == Ok(cmd, e) by {
      CmdBeforePipes(d, false, canon, n, u);
      assert Cursor(c.text, d.pos + |n| + 2, true) == e;
    }
    ScriptCmdStep(c, cmds, canon, Ok(cmd, e));
    ScriptGoesOn(c, cmds, canon, e, cmds + [cmd]);
  }

  lemma {:induction false} TailAfter(text: string, pos: nat, n: string, ch: char, u: string)
    requires pos <= |text| && text[pos..] == n + [ch] + u
    ensures pos + |n| + 1 <= |text| && text[pos + |n| + 1..] == u
  {
    assert text[pos + |n| + 1..] == text[pos..][|n| + 1..];
  }

  /** Plain arguments after a name and ':' are read to the end of the input. */
  lemma {:induction false} ArgsAfterName(d: Cur, canon: Canon, n: string, u: string)
    requires d.text[d.pos..] == n + [ArgStart] + u
    requires PlainArgs(u, false) && (u != [] ==> !OpensLiteral(u[0]))
    ensures d.pos + |n| + 1 <= |d.text|
    ensures ParseArgs(Cursor(d.text, d.pos + |n| + 1, true), "", false, false, canon)
         == Ok(ArgsOut(Pieces(u, false), map[]), Cursor(d.text, |d.text|, false))
  {
    TailAfter(d.text, d.pos, n, ArgStart, u);
    ArgsPlainRest(Cursor(d.text, d.pos + |n| + 1, true), canon, u);
  }

  lemma {:induction false} ArgsPlainRest(c: Cur, canon: Canon, u: string)
    requires c.text[c.pos..] == u
    requires PlainArgs(u, false) && (u != [] ==> !OpensLiteral(u[0]))
    ensures ParseArgs(c, "", false, false, canon) == Ok(ArgsOut(Pieces(u, false), map[]), Cursor(c.text, |c.text|, false))
  {
    assert c.pos < |c.text| ==> c.text[c.pos] == u[0];
    PlainArgsRead(c, "", false, false, canon);
    PiecesOfRest(c.text, c.pos, u);
  }

  lemma {:induction false} PiecesOfRest(text: string, pos: nat, u: string)
    requires pos <= |text| && text[pos..] == u
    ensures |Pieces("" + text[pos..], false)| > 0
    ensures KeepPieces(Pieces("" + text[pos..], false), false) == Pieces(u, false)
  {
    assert "" + text[pos..] == u;
    PiecesNonEmpty(u, false);
  }

  /** The command scanner on a name, ':' and plain arguments to the end of
      the input. */
  lemma {:induction false} CmdPlainArgsRead(d: Cur, canon: Canon, n: string, u: string)
    requires n != [] && CmdNameText(n) && !IsInputMacroCmd(n)
    requires d.text[d.pos..] == n + [ArgStart] + u
    requires PlainArgs(u, false) && (u != [] ==> !OpensLiteral(u[0]))
    ensures |Pieces(u, false)| > 0
    ensures ParseCommand(d, false, canon) == Ok(Command(ToLowerAscii(n), Pieces(u, false), NoAdvArgs), Cursor(d.text, |d.text|, false))
  {
    PiecesNonEmpty(u, false);
    ArgsAfterName(d, canon, n, u);
    assert AdvOf(map[]) == NoAdvArgs;
    CmdWithArgs(d, false, canon, n, u, Ok(ArgsOut(Pieces(u, false), map[]), Cursor(d.text, |d.text|, false)));
  }

  /** "**name:args" with plain arguments to the end of the input: one
      command whose arguments are the ','-separated pieces, trimmed. */
  lemma {:induction false} ScriptCmdPlainArgs(c: Cur, cmds: seq<Command>, canon: Canon, n: string, u: string)
    requires n != [] && CmdNameText(n) && !IsInputMacroCmd(n)
    requires c.text[c.pos..] == [CmdStart, CmdStart] + n + [ArgStart] + u
    requires PlainArgs(u, false) && (u != [] ==> !OpensLiteral(u[0]))
    ensures |Pieces(u, false)| > 0
    ensures ScriptFrom(c, cmds, canon) == Success(Script(cmds + [Command(ToLowerAscii(n), Pieces(u, false), NoAdvArgs)]))
  {
    assert [CmdStart, CmdStart] + n + [ArgStart] + u == [CmdStart, CmdStart] + (n + [ArgStart] + u);
    CmdText(c.text, c.pos, n + [ArgStart] + u);
    var d := Cursor(c.text, c.pos + 2, true);
    CmdPlainArgsRead(d, canon, n, u);
    ScriptCmdStep(c, cmds, canon, ParseCommand(d, false, canon));
    ScriptAtEnd(Cursor(c.text, |c.text|, false), cmds + [Command(ToLowerAscii(n), Pieces(u, false), NoAdvArgs)], canon);
  }

  /** The turn of the script loop that meets "**" and a name followed by
      a character that cannot follow a name. */
  lemma {:induction false} NotANameStep(c: Cur, cmds: seq<Command>, canon: Canon, n: string, ch: char, u: string)
    requires CmdNameText(n) && c.text[c.pos..] == [CmdStart, CmdStart] + n + [ch] + u
    requires ch != EOF && !IsCmdName(ch) && ch != ArgStart && ch != AdvArgStart && ch != CmdSep
    ensures ScriptStep(c, cmds, canon) == AutoLaunch(Cursor(c.text, c.pos + 2 + |n| + 1, true), [CmdStart, CmdStart] + (n + [ch]), cmds, canon)
  {
    InvalidNameAfterStars(c, canon, n, ch, u);
    ScriptCmdStep(c, cmds, canon, Fallback(n + [ch], Cursor(c.text, c.pos + 2 + |n| + 1, true)));
  }

  lemma {:induction false} InvalidNameAfterStars(c: Cur, canon: Canon, n: string, ch: char, u: string)
    requires CmdNameText(n) && c.text[c.pos..] == [CmdStart, CmdStart] + n + [ch] + u
    requires ch != EOF && !IsCmdName(ch) && ch != ArgStart && ch != AdvArgStart && ch != CmdSep
    ensures c.pos + 1 < |c.text| && c.text[c.pos] == CmdStart && c.text[c.pos + 1] == CmdStart
    ensures ParseCommand(Cursor(c.text, c.pos + 2, true), false, canon) == Fallback(n + [ch], Cursor(c.text, c.pos + 2 + |n| + 1, true))
  {
    assert [CmdStart, CmdStart] + n + [ch] + u == [CmdStart, CmdStart] + (n + [ch] + u);
    CmdText(c.text, c.pos, n + [ch] + u);
    CmdInvalidName(Cursor(c.text, c.pos + 2, true), false, canon, n, ch, u);
  }

  /** The fallback of the command scanner, launched with the text after
      it. */
  lemma {:induction false} LaunchNotAName(c: Cur, cmds: seq<Command>, canon: Canon, n: string, ch: char, u: string)
    requires c.text[c.pos..] == [CmdStart, CmdStart] + n + [ch] + u
    requires PlainArgs(u, true) && (u != [] ==> !OpensLiteral(u[0]))
    ensures c.pos + 2 + |n| + 1 <= |c.text|
    ensures AutoLaunch(Cursor(c.text, c.pos + 2 + |n| + 1, true), [CmdStart, CmdStart] + (n + [ch]), cmds, canon)
         == ScriptMore(Cursor(c.text, |c.text|, false), cmds + [Command(CmdLaunch, [TrimSpace([CmdStart, CmdStart] + n + [ch] + u)], NoAdvArgs)])
  {
    assert [CmdStart, CmdStart] + n + [ch] + u == [CmdStart, CmdStart] + (n + [ch] + u);
    CmdText(c.text, c.pos, n + [ch] + u);
    TailAfter(c.text, c.pos + 2, n, ch, u);
    assert [CmdStart, CmdStart] + (n + [ch]) == [CmdStart, CmdStart] + n + [ch];
    AutoLaunchToEnd(Cursor(c.text, c.pos + 2 + |n| + 1, true), [CmdStart, CmdStart] + n + [ch], cmds, canon, u);
  }

  /** "**" followed by a name and a character that cannot follow a name is
      not a command: the text, "**" included, is launched as it is. */
  lemma {:induction false} ScriptCmdNotAName(c: Cur, cmds: seq<Command>, canon: Canon, n: string, ch: char, u: string)
    requires CmdNameText(n) && c.text[c.pos..] == [CmdStart, CmdStart] + n + [ch] + u
    requires ch != EOF && !IsCmdName(ch) && ch != ArgStart && ch != AdvArgStart && ch != CmdSep
    requires PlainArgs(u, true) && (u != [] ==> !OpensLiteral(u[0]))
    ensures ScriptFrom(c, cmds, canon)
         == Success(Script(cmds + [Command(CmdLaunch, [TrimSpace([CmdStart, CmdStart] + n + [ch] + u)], NoAdvArgs)]))
  {
    NotANameStep(c, cmds, canon, n, ch, u);
    LaunchNotAName(c, cmds, canon, n, ch, u);
    ScriptAtEnd(Cursor(c.text, |c.text|, false), cmds + [Command(CmdLaunch, [TrimSpace([CmdStart, CmdStart] + n + [ch] + u)], NoAdvArgs)], canon);
  }

  /** A single '*' before other text is part of the launched text. */
  lemma {:induction false} ScriptStarLaunch(c: Cur, cmds: seq<Command>, canon: Canon, t: string)
    requires c.text[c.pos..] == [CmdStart] + t
    requires t != [] && t[0] != CmdStart && !OpensLiteral(t[0]) && PlainArgs(t, true)
    ensures ScriptFrom(c, cmds, canon) == Success(Script(cmds + [Command(CmdLaunch, [TrimSpace([CmdStart] + t)], NoAdvArgs)]))
  {
    assert c.text[c.pos..][1..] == t;
    assert c.text[c.pos + 1..] == t;
    assert ArgChar(t[0]);
    ScriptStarStep(c, cmds, canon);
    AutoLaunchToEnd(Cursor(c.text, c.pos + 1, false), [CmdStart], cmds, canon, t);
    ScriptAtEnd(Cursor(c.text, |c.text|, false), cmds + [Command(CmdLaunch, [TrimSpace([CmdStart] + t)], NoAdvArgs)], canon);
  }

  // ---- media titles ----

  /** '@' hands the rest to the title scanner: a title of the
      "system/title" shape becomes a "launch.title" command, any other
      content is launched as text that starts with '@', and the title's
      advanced arguments go with the first kind only. */
  lemma {:induction false} ScriptTitleStep(c: Cur, cmds: seq<Command>, canon: Canon, t: Scan<MediaTitle>)
    requires c.pos < |c.text| && c.text[c.pos] == MediaTitleStart
    requires t == ParseMediaTitle(Cursor(c.text, c.pos + 1, true), canon)
    ensures t.Fail? ==> ScriptStep(c, cmds, canon) == ScriptDone(Failure(t.err))
    ensures t.Ok? && t.value.valid
         ==> ScriptStep(c, cmds, canon) == ScriptMore(t.cur, cmds + [Command(CmdLaunchTitle, [t.value.rawContent], AdvOf(t.value.advArgs))])
    ensures t.Ok? && !t.value.valid
         ==> ScriptStep(c, cmds, canon) == AutoLaunch(t.cur, [MediaTitleStart] + t.value.rawContent, cmds, canon)
  {
    assert Read(c) == Step(MediaTitleStart, Cursor(c.text, c.pos + 1, true));
  }

  /** '@' in front of trimmed text stays trimmed. */
  lemma {:induction false} AtTrimmed(t: string)
    ensures TrimSpace([MediaTitleStart] + TrimSpace(t)) == [MediaTitleStart] + TrimSpace(t)
  {
    var s := [MediaTitleStart] + TrimSpace(t);
    assert !IsSpace(MediaTitleStart);
    assert s[|s| - 1] == if TrimSpace(t) == [] then MediaTitleStart else TrimSpace(t)[|TrimSpace(t)| - 1];
    TrimSpaceFixed(s);
  }

  lemma {:induction false} AtText(text: string, pos: nat, t: string)
    requires pos <= |text| && text[pos..] == [MediaTitleStart] + t
    ensures pos < |text| && text[pos] == MediaTitleStart && text[pos + 1..] == t
  {
    assert text[pos..][0] == text[pos];
    assert text[pos + 1..] == text[pos..][1..];
  }

  /** "@system/title" to the end of the input is one "launch.title"
      command whose argument is the trimmed title text. */
  lemma {:induction false} ScriptTitle(c: Cur, cmds: seq<Command>, canon: Canon, t: string)
    requires c.text[c.pos..] == [MediaTitleStart] + t && TitlePlain(t) && TitleShape(TrimSpace(t))
    ensures ScriptFrom(c, cmds, canon) == Success(Script(cmds + [Command(CmdLaunchTitle, [TrimSpace(t)], NoAdvArgs)]))
  {
    AtText(c.text, c.pos, t);
    var d := Cursor(c.text, c.pos + 1, true);
    TitleReadsPlain(d, canon);
    ScriptTitleStep(c, cmds, canon, ParseMediaTitle(d, canon));
    assert AdvOf(map[]) == NoAdvArgs;
    ScriptAtEnd(Cursor(c.text, |c.text|, false), cmds + [Command(CmdLaunchTitle, [TrimSpace(t)], NoAdvArgs)], canon);
  }

  /** '@' text without the title shape is launched as it is, '@'
      included. */
  lemma {:induction false} ScriptTitleNotShaped(c: Cur, cmds: seq<Command>, canon: Canon, t: string)
    requires c.text[c.pos..] == [MediaTitleStart] + t && TitlePlain(t) && !TitleShape(TrimSpace(t))
    ensures ScriptFrom(c, cmds, canon) == Success(Script(cmds + [Command(CmdLaunch, [[MediaTitleStart] + TrimSpace(t)], NoAdvArgs)]))
  {
    AtText(c.text, c.pos, t);
    var d := Cursor(c.text, c.pos + 1, true);
    TitleReadsPlain(d, canon);
    var e := Cursor(c.text, |c.text|, false);
    ScriptTitleStep(c, cmds, canon, ParseMediaTitle(d, canon));
    AtLaunchAtEnd(e, cmds, canon, t);
    ScriptAtEnd(e, cmds + [Command(CmdLaunch, [[MediaTitleStart] + TrimSpace(t)], NoAdvArgs)], canon);
  }

  /** The title scanner after '@' on a title and advanced arguments. */
  lemma {:induction false} TitleAdvAfterAt(c: Cur, canon: Canon, t: string, ps: seq<AdvPair>)
    requires |ps| > 0 && forall i :: 0 <= i < |ps| ==> PairOk(ps[i])
    requires TitlePlain(t) && c.text[c.pos..] == [MediaTitleStart] + t + [AdvArgStart] + PairsText(ps)
    ensures c.pos < |c.text| && c.text[c.pos] == MediaTitleStart
    ensures ParseMediaTitle(Cursor(c.text, c.pos + 1, true), canon)
         == Ok(MediaTitle(TrimSpace(t), PairsMap(map[], ps), TitleShape(TrimSpace(t))), Cursor(c.text, |c.text|, false))
  {
    AtThenMark(c.text, c.pos, t, AdvArgStart, PairsText(ps));
    TitleWithAdv(Cursor(c.text, c.pos + 1, true), canon, t, ps);
  }

  lemma {:induction false} AtThenMark(text: string, pos: nat, t: string, mark: char, p: string)
    requires pos <= |text| && text[pos..] == [MediaTitleStart] + t + [mark] + p
    ensures pos < |text| && text[pos] == MediaTitleStart && text[pos + 1..] == t + [mark] + p
  {
    assert [MediaTitleStart] + t + [mark] + p == [MediaTitleStart] + (t + [mark] + p);
    AtText(text, pos, t + [mark] + p);
  }

  /** A media title with advanced arguments keeps them. */
  lemma {:induction false} ScriptTitleAdv(c: Cur, cmds: seq<Command>, canon: Canon, t: string, ps: seq<AdvPair>)
    requires |ps| > 0 && forall i :: 0 <= i < |ps| ==> PairOk(ps[i])
    requires TitlePlain(t) && TitleShape(TrimSpace(t))
    requires c.text[c.pos..] == [MediaTitleStart] + t + [AdvArgStart] + PairsText(ps)
    ensures ScriptFrom(c, cmds, canon)
         == Success(Script(cmds + [Command(CmdLaunchTitle, [TrimSpace(t)], AdvOf(PairsMap(map[], ps)))]))
  {
    TitleAdvAfterAt(c, canon, t, ps);
    var e := Cursor(c.text, |c.text|, false);
    ScriptTitleStep(c, cmds, canon, Ok(MediaTitle(TrimSpace(t), PairsMap(map[], ps), true), e));
    ScriptAtEnd(e, cmds + [Command(CmdLaunchTitle, [TrimSpace(t)], AdvOf(PairsMap(map[], ps)))], canon);
  }

  /** Text without the title shape is launched as it is and the advanced
      arguments after it are dropped. */
  lemma {:induction false} ScriptTitleAdvDropped(c: Cur, cmds: seq<Command>, canon: Canon, t: string, ps: seq<AdvPair>)
    requires |ps| > 0 && forall i :: 0 <= i < |ps| ==> PairOk(ps[i])
    requires TitlePlain(t) && !TitleShape(TrimSpace(t))
    requires c.text[c.pos..] == [MediaTitleStart] + t + [AdvArgStart] + PairsText(ps)
    ensures ScriptFrom(c, cmds, canon)
         == Success(Script(cmds + [Command(CmdLaunch, [[MediaTitleStart] + TrimSpace(t)], NoAdvArgs)]))
  {
    TitleAdvAfterAt(c, canon, t, ps);
    var e := Cursor(c.text, |c.text|, false);
    ScriptTitleStep(c, cmds, canon, Ok(MediaTitle(TrimSpace(t), PairsMap(map[], ps), false), e));
    AtLaunchAtEnd(e, cmds, canon, t);
    ScriptAtEnd(e, cmds + [Command(CmdLaunch, [[MediaTitleStart] + TrimSpace(t)], NoAdvArgs)], canon);
  }

  /** The auto-launch of '@' text at the end of the input. */
  lemma {:induction false} AtLaunchAtEnd(e: Cur, cmds: seq<Command>, canon: Canon, t: string)
    requires e.pos == |e.text|
    ensures AutoLaunch(e, [MediaTitleStart] + TrimSpace(t), cmds, canon)
         == ScriptMore(Cursor(e.text, |e.text|, false), cmds + [Command(CmdLaunch, [[MediaTitleStart] + TrimSpace(t)], NoAdvArgs)])
  {
    AutoLaunchToEnd(e, [MediaTitleStart] + TrimSpace(t), cmds, canon, []);
    assert [MediaTitleStart] + TrimSpace(t) + [] == [MediaTitleStart] + TrimSpace(t);
    AtTrimmed(t);
  }

  /** The title scanner after '@' on a title that "||" ends. */
  lemma {:induction false} TitleChainText(text: string, pos: nat, t: string, u: string)
    requires pos <= |text| && text[pos..] == [MediaTitleStart] + t + [CmdSep, CmdSep] + u
    ensures pos + |t| + 3 <= |text| && text[pos] == MediaTitleStart && text[pos + |t| + 3..] == u
    ensures text[pos + 1..] == t + [CmdSep, CmdSep] + u
  {
    assert [MediaTitleStart] + t + [CmdSep, CmdSep] + u == [MediaTitleStart] + (t + [CmdSep, CmdSep] + u);
    AtText(text, pos, t + [CmdSep, CmdSep] + u);
    PipesText(text, pos + 1, t, u);
  }

  lemma {:induction false} TitleChainAfterAt(c: Cur, canon: Canon, t: string, u: string)
    requires TitlePlain(t) && c.text[c.pos..] == [MediaTitleStart] + t + [CmdSep, CmdSep] + u
    ensures c.pos + |t| + 3 <= |c.text| && c.text[c.pos] == MediaTitleStart && c.text[c.pos + |t| + 3..] == u
    ensures ParseMediaTitle(Cursor(c.text, c.pos + 1, true), canon)
         == Ok(MediaTitle(TrimSpace(t), map[], TitleShape(TrimSpace(t))), Cursor(c.text, c.pos + |t| + 3, true))
  {
    TitleChainText(c.text, c.pos, t, u);
    var d := Cursor(c.text, c.pos + 1, true);
    TitleAtChainEnd(d, canon, t, u);
    assert Cursor(c.text, d.pos + |t| + 2, true) == Cursor(c.text, c.pos + |t| + 3, true);
  }


  /** "@system/title||" ends the title command; the script goes on after
      the pipes. */
  lemma {:induction false} ScriptTitleChain(c: Cur, cmds: seq<Command>, canon: Canon, t: string, u: string)
    requires TitlePlain(t) && TitleShape(TrimSpace(t))
    requires c.text[c.pos..] == [MediaTitleStart] + t + [CmdSep, CmdSep] + u
    ensures ScriptFrom(c, cmds, canon)
         == ScriptFrom(Cursor(c.text, c.pos + |t| + 3, true), cmds + [Command(CmdLaunchTitle, [TrimSpace(t)], NoAdvArgs)], canon)
  {
    var e := Cursor(c.text, c.pos + |t| + 3, true);
    var cmds' := cmds + [Command(CmdLaunchTitle, [TrimSpace(t)], NoAdvArgs)];
    assert ScriptStep(c, cmds, canon) == ScriptMore(e, cmds') by {
      TitleChainAfterAt(c, canon, t, u);
      ScriptTitleStep(c, cmds, canon, Ok(MediaTitle(TrimSpace(t), map[], true), e));
      assert AdvOf(map[]) == NoAdvArgs;
    }
    ScriptGoesOn(c, cmds, canon, e, cmds');
  }

  /** What follows the pipes is read to the end as launch text. */
  lemma {:induction false} TitleTailLaunch(text: string, pos: nat, cmds: seq<Command>, canon: Canon, t: string, u: string)
    requires pos <= |text| && text[pos..] == [MediaTitleStart] + t + [CmdSep, CmdSep] + u
    requires PlainArgs(u, true) && (u != [] ==> !OpensLiteral(u[0]))
    ensures pos + |t| + 3 <= |text|
    ensures AutoLaunch(Cursor(text, pos + |t| + 3, true), [MediaTitleStart] + TrimSpace(t), cmds, canon)
         == ScriptMore(Cursor(text, |text|, false),
                       cmds + [Command(CmdLaunch, [TrimSpace([MediaTitleStart] + TrimSpace(t) + u)], NoAdvArgs)])
  {
    TitleChainText(text, pos, t, u);
    AutoLaunchToEnd(Cursor(text, pos + |t| + 3, true), [MediaTitleStart] + TrimSpace(t), cmds, canon, u);
  }

  /** An invalid title falls back to an auto-launch after the title. */
  lemma {:induction false} ScriptTitleFallback(c: Cur, cmds: seq<Command>, canon: Canon, raw: string, next: Cur)
    requires c.pos < |c.text| && c.text[c.pos] == MediaTitleStart
    requires ParseMediaTitle(Cursor(c.text, c.pos + 1, true), canon) == Ok(MediaTitle(raw, map[], false), next)
    ensures ScriptStep(c, cmds, canon) == AutoLaunch(next, [MediaTitleStart] + raw, cmds, canon)
  {
    ScriptTitleStep(c, cmds, canon, Ok(MediaTitle(raw, map[], false), next));
  }

  /** "@" and a title without the title shape, ended by "||": the script
      falls back to an auto-launch right after the pipes. */
  lemma {:induction false} TitleFallbackStep(c: Cur, cmds: seq<Command>, canon: Canon, t: string, u: string)
    requires TitlePlain(t) && !TitleShape(TrimSpace(t))
    requires c.text[c.pos..] == [MediaTitleStart] + t + [CmdSep, CmdSep] + u
    ensures ScriptStep(c, cmds, canon)
         == AutoLaunch(Cursor(c.text, c.pos + |t| + 3, true), [MediaTitleStart] + TrimSpace(t), cmds, canon)
  {
    TitleChainAfterAt(c, canon, t, u);
    ScriptTitleFallback(c, cmds, canon, TrimSpace(t), Cursor(c.text, c.pos + |t| + 3, true));
  }

  /** The step behind ScriptTitleAbsorbs: the fallback launch reads to
      the end of the input. */
  lemma {:induction false} TitleAbsorbsStep(c: Cur, cmds: seq<Command>, canon: Canon, t: string, u: string)
    requires TitlePlain(t) && !TitleShape(TrimSpace(t))
    requires c.text[c.pos..] == [MediaTitleStart] + t + [CmdSep, CmdSep] + u
    requires PlainArgs(u, true) && (u != [] ==> !OpensLiteral(u[0]))
    ensures ScriptStep(c, cmds, canon)
         == ScriptMore(Cursor(c.text, |c.text|, false),
                       cmds + [Command(CmdLaunch, [TrimSpace([MediaTitleStart] + TrimSpace(t) + u)], NoAdvArgs)])
  {
    TitleTailLaunch(c.text, c.pos, cmds, canon, t, u);
    TitleFallbackStep(c, cmds, canon, t, u);
  }

  /** Text after '@' that lacks the title shape does not end at "||": the
      rest of the input joins the launched text. */
  lemma {:induction false} ScriptTitleAbsorbs(c: Cur, cmds: seq<Command>, canon: Canon, t: string, u: string)
    requires TitlePlain(t) && !TitleShape(TrimSpace(t))
    requires c.text[c.pos..] == [MediaTitleStart] + t + [CmdSep, CmdSep] + u
    requires PlainArgs(u, true) && (u != [] ==> !OpensLiteral(u[0]))
    ensures ScriptFrom(c, cmds, canon)
         == Success(Script(cmds + [Command(CmdLaunch, [TrimSpace([MediaTitleStart] + TrimSpace(t) + u)], NoAdvArgs)]))
  {
    var end := Cursor(c.text, |c.text|, false);
    var cmds' := cmds + [Command(CmdLaunch, [TrimSpace([MediaTitleStart] + TrimSpace(t) + u)], NoAdvArgs)];
    TitleAbsorbsStep(c, cmds, canon, t, u);
    ScriptGoesOn(c, cmds, canon, end, cmds');
    ScriptAtEnd(end, cmds', canon);
  }

  // ---- whole scripts ----

  /** Two commands chained with "||" come out in order. */
  lemma {:induction false} TwoCommandsText(text: string, n: string, m: string)
    requires text == [CmdStart, CmdStart] + n + [CmdSep, CmdSep] + [CmdStart, CmdStart] + m
    ensures text[0..] == [CmdStart, CmdStart] + n + [CmdSep, CmdSep] + ([CmdStart, CmdStart] + m)
    ensures |n| + 4 <= |text| && text[|n| + 4..] == [CmdStart, CmdStart] + m
  {
    assert text == [CmdStart, CmdStart] + n + [CmdSep, CmdSep] + ([CmdStart, CmdStart] + m);
    assert text[0..] == text;
  }

  lemma {:induction false} ParseTwoCommands(text: string, canon: Canon, n: string, m: string)
    requires n != [] && CmdNameText(n) && m != [] && CmdNameText(m)
    requires text == [CmdStart, CmdStart] + n + [CmdSep, CmdSep] + [CmdStart, CmdStart] + m
    ensures ParseScript(text, canon)
         == Success(Script([Command(ToLowerAscii(n), [], NoAdvArgs), Command(ToLowerAscii(m), [], NoAdvArgs)]))
  {
    var c := NewParser(text);
    var first := Command(ToLowerAscii(n), [], NoAdvArgs);
    var second := Command(ToLowerAscii(m), [], NoAdvArgs);
    TwoCommandsText(text, n, m);
    ScriptCmdChain(c, [], canon, n, [CmdStart, CmdStart] + m);
    var d := Cursor(text, c.pos + |n| + 4, true);
    ScriptCmdAlone(d, [] + [first], canon, m);
    assert [] + [first] + [second] == [first, second];
  }


  /** Whitespace in front of a script changes nothing but the position at
      which the first segment starts. */
  lemma {:induction false} ParseLeadingBlanks(w: string, t: string, canon: Canon)
    requires Blank(w) && w != []
    ensures ParseScript(w + t, canon) == ScriptFrom(Cursor(w + t, |w|, true), [], canon)
  {
    var c := NewParser(w + t);
    assert (w + t)[0..|w|] == w;
    ScriptSkipsBlanks(c, [], canon, w);
  }
}
