/** Tag filters: the normalisation applied to both halves of a
    `type:value` tag, and the parser of a comma-separated filter list with
    its operator prefixes and its de-duplication. */
module TagFilters {
  import opened Symbols
  import opened GoStrings

  // ---- normalisation ----

  /** The `\s` class of Go's regular expressions: ASCII blanks only. */
  predicate IsReSpace(ch: char) {
    ch == '\t' || ch == '\n' || ch == '\U{C}' || ch == '\r' || ch == ' '
  }

  /** The characters a normalised tag is made of. */
  predicate TagChar(ch: char) {
    ('a' <= ch <= 'z') || ('0' <= ch <= '9') || ch == ':' || ch == ',' || ch == '+' || ch == '-'
  }

  predicate TagText(s: string) {
    forall i :: 0 <= i < |s| ==> TagChar(s[i])
  }

  /** Number of `\s` characters at the front of `s`. */
  function ReSpaces(s: string): (n: nat)
    ensures n <= |s|
  {
    if s != [] && IsReSpace(s[0]) then 1 + ReSpaces(s[1..]) else 0
  }

  /** The run is made of blanks and is not followed by one. */
  lemma {:induction false} ReSpacesRun(s: string)
    ensures forall k :: 0 <= k < ReSpaces(s) ==> IsReSpace(s[k])
    ensures ReSpaces(s) < |s| ==> !IsReSpace(s[ReSpaces(s)])
    decreases |s|
  {
    if s != [] && IsReSpace(s[0]) {
      ReSpacesRun(s[1..]);
      assert forall k :: 0 < k < ReSpaces(s) ==> s[k] == s[1..][k - 1];
    }
  }

  /** Replacing every match of `\s*:\s*` by ":". Matches are found left to
      right and do not overlap: the leftmost match starts at the first
      blank of a run that ends in ':', and the greedy trailing `\s*` takes
      every blank after it. */
  function ColonSpacing(s: string): (r: string)
    ensures |r| <= |s|
    decreases |s|
  {
    if s == [] then []
    else
      var n := ReSpaces(s);
      if n < |s| && s[n] == ':' then
        var after := s[n + 1..];
        [':'] + ColonSpacing(after[ReSpaces(after)..])
      else [s[0]] + ColonSpacing(s[1..])
  }

  /** `unicode.ToLower` on every character whose lower-case form is ASCII:
      the ASCII capitals, LATIN CAPITAL LETTER I WITH DOT ABOVE and KELVIN
      SIGN. Any other character is left as it is; its true lower-case form
      is not ASCII either, and the last step of `NormalizeTag` removes both. */
  function LowerRune(ch: char): (r: char)
    ensures ('a' <= r <= 'z') ==> ('a' <= ch <= 'z' || 'A' <= ch <= 'Z' || ch == '\U{130}' || ch == '\U{212A}')
    ensures !('a' <= r <= 'z') ==> r == ch
  {
    if 'A' <= ch <= 'Z' then (ch as int + 32) as char
    else if ch == '\U{130}' then 'i'
    else if ch == '\U{212A}' then 'k'
    else ch
  }

  function ToLowerTag(s: string): (r: string)
    ensures |r| == |s|
  {
    if s == [] then [] else [LowerRune(s[0])] + ToLowerTag(s[1..])
  }

  lemma {:induction false} ToLowerTagAt(s: string)
    ensures forall i :: 0 <= i < |s| ==> ToLowerTag(s)[i] == LowerRune(s[i])
    decreases |s|
  {
    if s != [] {
      ToLowerTagAt(s[1..]);
    }
  }

  /** `strings.ReplaceAll` with one-character old and new strings. */
  function ReplaceChar(s: string, from: char, to: char): (r: string)
    ensures |r| == |s|
  {
    if s == [] then [] else [if s[0] == from then to else s[0]] + ReplaceChar(s[1..], from, to)
  }

  /** Every `from` becomes `to` and every other character stays. */
  lemma {:induction false} ReplaceCharAt(s: string, from: char, to: char)
    ensures forall i :: 0 <= i < |s| ==> ReplaceChar(s, from, to)[i] == if s[i] == from then to else s[i]
    decreases |s|
  {
    if s != [] {
      ReplaceCharAt(s[1..], from, to);
    }
  }

  /** Removing every match of `[^a-z0-9:,+\-]`. */
  function KeepTagChars(s: string): (r: string)
    ensures |r| <= |s| && TagText(r)
  {
    if s == [] then []
    else if TagChar(s[0]) then [s[0]] + KeepTagChars(s[1..])
    else KeepTagChars(s[1..])
  }

  /** Trim, tighten the blanks around ':', lower-case, turn ' ' and '.' into
      '-', and drop everything outside the tag alphabet. */
  function NormalizeTag(s: string): (r: string)
    ensures TagText(r)
  {
    KeepTagChars(ReplaceChar(ReplaceChar(ToLowerTag(ColonSpacing(TrimSpace(s))), ' ', '-'), '.', '-'))
  }

  // ---- the steps leave normalised text alone ----

  lemma {:induction false} KeepFixed(s: string)
    requires TagText(s)
    ensures KeepTagChars(s) == s
  {
    if s != [] {
      KeepFixed(s[1..]);
    }
  }

  lemma {:induction false} ReplaceFixed(s: string, from: char, to: char)
    requires from !in s
    ensures ReplaceChar(s, from, to) == s
  {
    ReplaceCharAt(s, from, to);
  }

  lemma {:induction false} LowerFixed(s: string)
    requires TagText(s)
    ensures ToLowerTag(s) == s
  {
    ToLowerTagAt(s);
  }

  /** Text without blanks has nothing for the colon rule to remove. */
  lemma {:induction false} ColonSpacingNoBlanks(s: string)
    requires forall i :: 0 <= i < |s| ==> !IsReSpace(s[i])
    ensures ColonSpacing(s) == s
    decreases |s|
  {
    if s != [] {
      ColonSpacingNoBlanks(s[1..]);
      if s[0] == ':' {
        assert s[1..][ReSpaces(s[1..])..] == s[1..];
      }
    }
  }

  lemma {:induction false} TrimTagText(s: string)
    requires TagText(s)
    ensures TrimSpace(s) == s
  {
    if s != [] {
      assert TagChar(s[0]) && TagChar(s[|s| - 1]);
    }
    TrimSpaceFixed(s);
  }

  /** Normalised text is its own normal form. */
  lemma {:induction false} NormalizeFixed(s: string)
    requires TagText(s)
    ensures NormalizeTag(s) == s
  {
    calc {
      NormalizeTag(s);
    == { TrimTagText(s); }
      KeepTagChars(ReplaceChar(ReplaceChar(ToLowerTag(ColonSpacing(s)), ' ', '-'), '.', '-'));
    == { ColonSpacingNoBlanks(s); LowerFixed(s); }
      KeepTagChars(ReplaceChar(ReplaceChar(s, ' ', '-'), '.', '-'));
    == { ReplaceFixed(s, ' ', '-'); ReplaceFixed(s, '.', '-'); }
      KeepTagChars(s);
    == { KeepFixed(s); }
      s;
    }
  }

  /** Normalising twice is normalising once. */
  lemma {:induction false} NormalizeTagIdempotent(s: string)
    ensures NormalizeTag(NormalizeTag(s)) == NormalizeTag(s)
  {
    NormalizeFixed(NormalizeTag(s));
  }

  // ---- what the colon rule does ----

  /** `s` without its `\s` characters. */
  function Unblanked(s: string): string {
    if s == [] then [] else (if IsReSpace(s[0]) then [] else [s[0]]) + Unblanked(s[1..])
  }

  lemma {:induction false} UnblankedRun(s: string, n: nat)
    requires n <= |s| && forall k :: 0 <= k < n ==> IsReSpace(s[k])
    ensures Unblanked(s) == Unblanked(s[n..])
    decreases n
  {
    if n > 0 {
      UnblankedRun(s[1..], n - 1);
      assert s[1..][n - 1..] == s[n..];
    }
  }

  /** The colon rule removes blanks and nothing else: every other
      character is kept, in order. */
  lemma {:induction false} ColonSpacingKeepsText(s: string)
    ensures Unblanked(ColonSpacing(s)) == Unblanked(s)
    decreases |s|
  {
    if s != [] {
      var n := ReSpaces(s);
      if n < |s| && s[n] == ':' {
        var after := s[n + 1..];
        var m := ReSpaces(after);
        ColonSpacingKeepsText(after[m..]);
        ReSpacesRun(s);
        ReSpacesRun(after);
        UnblankedRun(s, n);
        UnblankedRun(after, m);
        assert s[n..] == [':'] + after;
      } else {
        ColonSpacingKeepsText(s[1..]);
      }
    }
  }

  /** Where a result of the colon rule starts: a ':' when the input starts
      with blanks and a ':', and otherwise the input's first character. */
  lemma {:induction false} ColonSpacingHead(s: string)
    requires s != []
    ensures ColonSpacing(s) != []
    ensures var n := ReSpaces(s);
            ColonSpacing(s)[0] == if n < |s| && s[n] == ':' then ':' else s[0]
  {
  }

  /** No blank stands right before or right after a ':'. */
  predicate Tight(r: string) {
    forall i :: 0 <= i < |r| - 1 ==> !(IsReSpace(r[i]) && r[i + 1] == ':') && !(r[i] == ':' && IsReSpace(r[i + 1]))
  }

  lemma {:induction false} TightCons(c: char, r: string)
    requires Tight(r)
    requires r != [] ==> !(IsReSpace(c) && r[0] == ':') && !(c == ':' && IsReSpace(r[0]))
    ensures Tight([c] + r)
  {
    var s := [c] + r;
    assert forall i :: 0 < i < |s| ==> s[i] == r[i - 1];
  }

  /** No blank is left next to a ':'. */
  lemma {:induction false} ColonSpacingTight(s: string)
    ensures Tight(ColonSpacing(s))
    decreases |s|
  {
    if s != [] {
      var n := ReSpaces(s);
      if n < |s| && s[n] == ':' {
        var after := s[n + 1..];
        var t := after[ReSpaces(after)..];
        ColonSpacingTight(t);
        if t != [] {
          ColonSpacingHead(t);
          ReSpacesRun(after);
          assert !IsReSpace(t[0]);
        }
        TightCons(':', ColonSpacing(t));
      } else {
        ColonSpacingTight(s[1..]);
        if |s| > 1 {
          ColonSpacingHead(s[1..]);
          TightFirst(s, n);
        }
        TightCons(s[0], ColonSpacing(s[1..]));
      }
    }
  }

  /** When the blanks at the front of `s` do not end in ':', the rest after
      the first character does not start with blanks and a ':' either. */
  lemma {:induction false} TightFirst(s: string, n: nat)
    requires |s| > 1 && n == ReSpaces(s) && !(n < |s| && s[n] == ':')
    ensures var m := ReSpaces(s[1..]);
            IsReSpace(s[0]) ==> !(m < |s[1..]| && s[1..][m] == ':')
    ensures s[0] == ':' ==> false
  {
    if IsReSpace(s[0]) {
      assert ReSpaces(s) == 1 + ReSpaces(s[1..]);
    }
  }

  /** Text without ':' passes the colon rule unchanged. */
  lemma {:induction false} ColonSpacingColonFree(s: string)
    requires ':' !in s
    ensures ColonSpacing(s) == s
    decreases |s|
  {
    if s != [] {
      assert s[ReSpaces(s)..] != [] ==> s[ReSpaces(s)] != ':';
      ColonSpacingColonFree(s[1..]);
    }
  }

  /** Normalisation never creates a ':'. */
  lemma {:induction false} NormalizeNoColon(s: string)
    requires ':' !in s
    ensures ':' !in NormalizeTag(s)
  {
    TrimSpaceFree(s, ':');
    var t := TrimSpace(s);
    ColonSpacingColonFree(t);
    ToLowerTagAt(t);
    ReplaceCharAt(ToLowerTag(t), ' ', '-');
    ReplaceCharAt(ReplaceChar(ToLowerTag(t), ' ', '-'), '.', '-');
    var u := ReplaceChar(ReplaceChar(ToLowerTag(t), ' ', '-'), '.', '-');
    assert ':' !in u;
    KeepSubset(u, ':');
  }

  /** Normalisation never creates a ','. */
  lemma {:induction false} NormalizeNoComma(s: string)
    requires ',' !in s
    ensures ',' !in NormalizeTag(s)
  {
    TrimSpaceFree(s, ',');
    var t := TrimSpace(s);
    ColonSpacingKeepsChar(t, ',');
    var l := ToLowerTag(ColonSpacing(t));
    ToLowerTagAt(ColonSpacing(t));
    ReplaceCharAt(l, ' ', '-');
    ReplaceCharAt(ReplaceChar(l, ' ', '-'), '.', '-');
    var u := ReplaceChar(ReplaceChar(l, ' ', '-'), '.', '-');
    assert ',' !in u;
    KeepSubset(u, ',');
  }

  lemma {:induction false} KeepSubset(s: string, ch: char)
    requires ch !in s
    ensures ch !in KeepTagChars(s)
  {
    if s != [] {
      KeepSubset(s[1..], ch);
    }
  }

  /** The colon rule only ever writes ':' or a character of its input. */
  lemma {:induction false} ColonSpacingKeepsChar(s: string, ch: char)
    requires ch !in s && ch != ':'
    ensures ch !in ColonSpacing(s)
    decreases |s|, 1
  {
    if s != [] {
      if ReSpaces(s) < |s| && s[ReSpaces(s)] == ':' {
        KeepsCharAtColon(s, ch);
      } else {
        KeepsCharElsewhere(s, ch);
      }
    }
  }

  lemma {:induction false} KeepsCharAtColon(s: string, ch: char)
    requires ch !in s && ch != ':'
    requires ReSpaces(s) < |s| && s[ReSpaces(s)] == ':'
    ensures ch !in ColonSpacing(s)
    decreases |s|, 0
  {
    var after := s[ReSpaces(s) + 1..];
    var t := after[ReSpaces(after)..];
    SliceFree(s, ch, ReSpaces(s) + 1);
    SliceFree(after, ch, ReSpaces(after));
    ColonSpacingKeepsChar(t, ch);
    NotInCons(':', ColonSpacing(t), ch);
    ColonStep(s);
  }

  lemma {:induction false} KeepsCharElsewhere(s: string, ch: char)
    requires ch !in s && ch != ':' && s != []
    requires !(ReSpaces(s) < |s| && s[ReSpaces(s)] == ':')
    ensures ch !in ColonSpacing(s)
    decreases |s|, 0
  {
    SliceFree(s, ch, 1);
    ColonSpacingKeepsChar(s[1..], ch);
    NotInCons(s[0], ColonSpacing(s[1..]), ch);
    PlainStep(s);
  }

  /** One turn of the colon rule at a blank run ending in ':'. */
  lemma {:induction false} ColonStep(s: string)
    requires ReSpaces(s) < |s| && s[ReSpaces(s)] == ':'
    ensures var after := s[ReSpaces(s) + 1..];
            ColonSpacing(s) == [':'] + ColonSpacing(after[ReSpaces(after)..])
  {
  }

  /** One turn of the colon rule anywhere else. */
  lemma {:induction false} PlainStep(s: string)
    requires s != [] && !(ReSpaces(s) < |s| && s[ReSpaces(s)] == ':')
    ensures ColonSpacing(s) == [s[0]] + ColonSpacing(s[1..])
  {
  }

  lemma {:induction false} NotInCons(c: char, r: string, ch: char)
    requires ch != c && ch !in r
    ensures ch !in [c] + r
  {
  }

  // ---- filters ----

  datatype TagOperator = And | Not | Or

  datatype TagFilter = TagFilter(typ: string, value: string, op: TagOperator)

  /** The two rejections, each carrying the offending piece as written. */
  datatype TagError = InvalidFormat(tag: string) | EmptyAfterNormalization(tag: string)

  datatype TagsResult = Filters(filters: seq<TagFilter>) | TagsFailure(error: TagError)

  const FilterSep: char := ','
  const TypeSep: char := ':'

  /** The operator named by a leading '+', '-' or '~' (AND when there is
      none), and the text after it. */
  function SplitOperator(t: string): (r: (TagOperator, string))
    ensures |r.1| <= |t|
  {
    if t != [] && t[0] == '+' then (And, t[1..])
    else if t != [] && t[0] == '-' then (Not, t[1..])
    else if t != [] && t[0] == '~' then (Or, t[1..])
    else (And, t)
  }

  function OperatorPrefix(op: TagOperator): char {
    match op
    case And => '+'
    case Not => '-'
    case Or => '~'
  }

  /** Each prefix gives its operator and is removed; a text with no prefix
      is AND and kept whole. */
  lemma {:induction false} SplitOperatorPrefix(op: TagOperator, body: string)
    ensures SplitOperator([OperatorPrefix(op)] + body) == (op, body)
    ensures body == [] || (body[0] != '+' && body[0] != '-' && body[0] != '~') ==> SplitOperator(body) == (And, body)
  {
    assert ([OperatorPrefix(op)] + body)[1..] == body;
  }

  /** What one piece between commas contributes. */
  datatype TagStep = Skip | One(filter: TagFilter) | Bad(error: TagError)

  /** A filter as the parser can produce it: both halves non-empty and
      normalised, no ',' in either, and no ':' in the type. */
  predicate WellFormed(f: TagFilter) {
    f.typ != [] && f.value != [] && TagText(f.typ) && TagText(f.value)
    && TypeSep !in f.typ && FilterSep !in f.typ && FilterSep !in f.value
  }

  /** One piece: blank pieces are skipped, a piece whose text after the
      operator has no ':' is an invalid format, and a piece with a half
      that normalises to nothing is rejected too. */
  function ParseTag(piece: string): TagStep {
    var t := TrimSpace(piece);
    if t == [] then Skip
    else
      var (op, body) := SplitOperator(t);
      var i := IndexOf(body, TypeSep);
      if i < 0 then Bad(InvalidFormat(piece))
      else
        var typ := NormalizeTag(TrimSpace(body[..i]));
        var value := NormalizeTag(TrimSpace(body[i + 1..]));
        if typ == [] || value == [] then Bad(EmptyAfterNormalization(piece))
        else One(TagFilter(typ, value, op))
  }

  /** A piece is skipped exactly when it is blank; a rejected piece is
      reported as written; the format is invalid exactly when no ':'
      follows the operator. */
  lemma {:induction false} ParseTagShape(piece: string)
    ensures ParseTag(piece).Skip? <==> TrimSpace(piece) == []
    ensures ParseTag(piece).Bad? ==> ParseTag(piece).error.tag == piece
    ensures ParseTag(piece).Bad? && ParseTag(piece).error.InvalidFormat?
        <==> TrimSpace(piece) != [] && TypeSep !in SplitOperator(TrimSpace(piece)).1
  {
  }

  /** A piece with an operator prefix and a ':' after a type without ':'
      gives the normalised halves with that operator. */
  lemma {:induction false} ParseTagOf(piece: string, op: TagOperator, a: string, b: string)
    requires TrimSpace(piece) == [OperatorPrefix(op)] + (a + [TypeSep] + b) && TypeSep !in a
    requires NormalizeTag(TrimSpace(a)) != [] && NormalizeTag(TrimSpace(b)) != []
    ensures ParseTag(piece) == One(TagFilter(NormalizeTag(TrimSpace(a)), NormalizeTag(TrimSpace(b)), op))
  {
    var body := a + [TypeSep] + b;
    assert body[..|a|] == a && body[|a| + 1..] == b;
    SplitOperatorPrefix(op, body);
    assert SplitOperator(TrimSpace(piece)) == (op, body);
    IndexOfAt(a, TypeSep, b);
    assert IndexOf(body, TypeSep) == |a|;
  }

  /** The halves of a piece without ',' lose no ',' and the type gains no ':'. */
  lemma {:induction false} OneWellFormed(piece: string, t: string, body: string, i: int)
    requires t == TrimSpace(piece) && body == SplitOperator(t).1 && 0 <= i == IndexOf(body, TypeSep)
    ensures TypeSep !in NormalizeTag(TrimSpace(body[..i]))
    ensures FilterSep !in piece ==> FilterSep !in NormalizeTag(TrimSpace(body[..i])) && FilterSep !in NormalizeTag(TrimSpace(body[i + 1..]))
  {
    TrimSpaceFree(body[..i], TypeSep);
    NormalizeNoColon(TrimSpace(body[..i]));
    if FilterSep !in piece {
      TrimSpaceFree(piece, FilterSep);
      if t != [] {
        SliceFree(t, FilterSep, 1);
      }
      SliceFree(body, FilterSep, i);
      SliceFree(body, FilterSep, i + 1);
      TrimSpaceFree(body[..i], FilterSep);
      TrimSpaceFree(body[i + 1..], FilterSep);
      NormalizeNoComma(TrimSpace(body[..i]));
      NormalizeNoComma(TrimSpace(body[i + 1..]));
    }
  }

  /** Every filter parsed from a piece without ',' is well formed. */
  lemma {:induction false} ParseTagWellFormed(piece: string)
    requires FilterSep !in piece && ParseTag(piece).One?
    ensures WellFormed(ParseTag(piece).filter)
  {
    var t := TrimSpace(piece);
    var body := SplitOperator(t).1;
    OneWellFormed(piece, t, body, IndexOf(body, TypeSep));
  }

  predicate NoDup(fs: seq<TagFilter>) {
    forall i, j :: 0 <= i < j < |fs| ==> fs[i] != fs[j]
  }

  /** The kept filters after meeting `f`: unchanged when an equal filter
      (same type, value and operator) is already kept, `f` appended
      otherwise. */
  function Keep(kept: seq<TagFilter>, f: TagFilter): (r: seq<TagFilter>)
    requires NoDup(kept)
    ensures NoDup(r)
  {
    if f in kept then kept
    else
      assert forall i :: 0 <= i < |kept| ==> (kept + [f])[i] == kept[i];
      kept + [f]
  }

  /** The outcome of every piece, in order. */
  function ParseTags(pieces: seq<string>): (steps: seq<TagStep>)
    ensures |steps| == |pieces|
  {
    if pieces == [] then [] else [ParseTag(pieces[0])] + ParseTags(pieces[1..])
  }

  /** The outcome at each position is the parse of the piece there. */
  lemma {:induction false} ParseTagsAt(pieces: seq<string>)
    ensures forall k :: 0 <= k < |pieces| ==> ParseTags(pieces)[k] == ParseTag(pieces[k])
    decreases |pieces|
  {
    if pieces != [] {
      ParseTagsAt(pieces[1..]);
      forall k | 0 < k < |pieces|
        ensures ParseTags(pieces)[k] == ParseTag(pieces[k])
      {
        assert ParseTags(pieces)[k] == ParseTags(pieces[1..])[k - 1];
        assert pieces[1..][k - 1] == pieces[k];
      }
    }
  }

  /** The outcomes in order: each accepted filter is kept unless an equal
      one already is, and the first rejected piece ends the parse. Parsing
      a piece has no effect besides its outcome, so parsing every piece
      first and collecting afterwards is the parser's single loop. */
  function CollectTags(steps: seq<TagStep>, kept: seq<TagFilter>): (r: TagsResult)
    requires NoDup(kept)
    ensures r.Filters? ==> NoDup(r.filters)
    decreases |steps|
  {
    if steps == [] then Filters(kept)
    else
      match steps[0]
      case Skip => CollectTags(steps[1..], kept)
      case Bad(e) => TagsFailure(e)
      case One(f) => CollectTags(steps[1..], Keep(kept, f))
  }

  /** `ParseTagFilters`: the empty text has no filters; otherwise the text
      is cut at every ',' and the pieces are collected. */
  function ParseTagFilters(raw: string): (r: TagsResult)
    ensures r.Filters? ==> NoDup(r.filters)
  {
    if raw == [] then Filters([])
    else CollectTags(ParseTags(Split(raw, FilterSep)), [])
  }

  /** The loop of the parser, with its `seen` set beside the result list.
      Parsing a piece has no effect besides its outcome, so the pieces are
      parsed first and the loop then runs over the outcomes. */
  method ParseTagFiltersLoop(raw: string) returns (r: TagsResult)
    ensures r == ParseTagFilters(raw)
  {
    if raw == [] {
      return Filters([]);
    }
    var steps := ParseTags(Split(raw, FilterSep));
    r := CollectLoop(steps);
  }

  /** The loop over the outcomes: the first rejected piece ends it, and
      an accepted filter is kept unless already seen. */
  method CollectLoop(steps: seq<TagStep>) returns (r: TagsResult)
    ensures r == CollectTags(steps, [])
  {
    var seen: set<TagFilter> := {};
    var result: seq<TagFilter> := [];
    var i := 0;
    while i < |steps|
      invariant 0 <= i <= |steps|
      invariant NoDup(result) && forall f :: f in seen <==> f in result
      invariant CollectTags(steps, []) == CollectTags(steps[i..], result)
    {
      CollectFront(steps, i, result);
      match steps[i] {
        case Skip =>
        case Bad(e) =>
          return TagsFailure(e);
        case One(f) =>
          seen, result := KeepUnseen(seen, result, f);
      }
      i := i + 1;
    }
    assert steps[i..] == [];
    return Filters(result);
  }

  /** The `seen` check of the loop: a filter already in the set is
      dropped, a new one is added to both. */
  method KeepUnseen(seen: set<TagFilter>, result: seq<TagFilter>, f: TagFilter)
    returns (seen': set<TagFilter>, result': seq<TagFilter>)
    requires NoDup(result) && forall g :: g in seen <==> g in result
    ensures NoDup(result') && result' == Keep(result, f)
    ensures forall g :: g in seen' <==> g in result'
  {
    seen', result' := seen, result;
    if f !in seen {
      seen' := seen + {f};
      result' := Keep(result, f);
      assert result' == result + [f];
    }
  }

  /** One turn of the loop: the outcome at `i` is consumed. */
  lemma {:induction false} CollectFront(steps: seq<TagStep>, i: nat, kept: seq<TagFilter>)
    requires i < |steps| && NoDup(kept)
    ensures steps[i].Skip? ==> CollectTags(steps[i..], kept) == CollectTags(steps[i + 1..], kept)
    ensures steps[i].Bad? ==> CollectTags(steps[i..], kept) == TagsFailure(steps[i].error)
    ensures steps[i].One? ==> CollectTags(steps[i..], kept) == CollectTags(steps[i + 1..], Keep(kept, steps[i].filter))
  {
    assert steps[i..][0] == steps[i] && steps[i..][1..] == steps[i + 1..];
  }

  // ---- properties of the parse ----

  /** The accepted filters, in order, repeats included. */
  function Accepted(steps: seq<TagStep>): seq<TagFilter> {
    if steps == [] then []
    else (match steps[0] case One(f) => [f] case _ => []) + Accepted(steps[1..])
  }

  lemma {:induction false} AcceptedFront(steps: seq<TagStep>)
    requires steps != []
    ensures !steps[0].One? ==> Accepted(steps) == Accepted(steps[1..])
    ensures steps[0].One? ==> Accepted(steps) == [steps[0].filter] + Accepted(steps[1..])
  {
    if !steps[0].One? {
      assert [] + Accepted(steps[1..]) == Accepted(steps[1..]);
    }
  }

  /** Collecting keeps the first occurrence of every accepted filter. */
  lemma {:induction false} CollectDedups(steps: seq<TagStep>, pre: seq<TagFilter>)
    ensures CollectTags(steps, Dedup(pre)).Filters? ==> CollectTags(steps, Dedup(pre)).filters == Dedup(pre + Accepted(steps))
    decreases |steps|
  {
    if steps == [] {
      assert pre + [] == pre;
    } else {
      AcceptedFront(steps);
      match steps[0] {
        case Skip =>
          CollectDedups(steps[1..], pre);
        case Bad(_) =>
        case One(f) =>
          DedupStep(pre, f);
          CollectDedups(steps[1..], pre + [f]);
          AppendAssoc(pre, [f], Accepted(steps[1..]));
      }
    }
  }

  lemma {:induction false} AppendAssoc(a: seq<TagFilter>, b: seq<TagFilter>, c: seq<TagFilter>)
    ensures a + b + c == a + (b + c)
  {
  }

  /** With no rejected piece the parse succeeds. */
  lemma {:induction false} CollectAccepts(steps: seq<TagStep>, kept: seq<TagFilter>)
    requires NoDup(kept) && forall k :: 0 <= k < |steps| ==> !steps[k].Bad?
    ensures CollectTags(steps, kept).Filters?
    decreases |steps|
  {
    if steps != [] {
      assert !steps[0].Bad?;
      var next := if steps[0].One? then Keep(kept, steps[0].filter) else kept;
      assert forall k :: 0 <= k < |steps| - 1 ==> steps[1..][k] == steps[k + 1];
      CollectAccepts(steps[1..], next);
    }
  }

  /** The first rejected piece decides the error, whatever follows it. */
  lemma {:induction false} FirstErrorWins(steps: seq<TagStep>, kept: seq<TagFilter>, k: nat)
    requires NoDup(kept) && k < |steps| && steps[k].Bad?
    requires forall j :: 0 <= j < k ==> !steps[j].Bad?
    ensures CollectTags(steps, kept) == TagsFailure(steps[k].error)
    decreases k
  {
    if k > 0 {
      assert !steps[0].Bad?;
      var next := if steps[0].One? then Keep(kept, steps[0].filter) else kept;
      assert forall j :: 0 <= j < k ==> steps[1..][j] == steps[j + 1];
      FirstErrorWins(steps[1..], next, k - 1);
    }
  }

  /** A rejected piece anywhere makes the parse fail. */
  lemma {:induction false} CollectRejects(steps: seq<TagStep>, kept: seq<TagFilter>, k: nat)
    requires NoDup(kept) && k < |steps| && steps[k].Bad?
    ensures CollectTags(steps, kept).TagsFailure?
    decreases k
  {
    if !steps[0].Bad? {
      var next := if steps[0].One? then Keep(kept, steps[0].filter) else kept;
      assert steps[1..][k - 1] == steps[k];
      CollectRejects(steps[1..], next, k - 1);
    }
  }

  /** Collecting a list of outcomes succeeds exactly when none of them is a
      rejection, and then gives the first occurrences of the accepted
      filters; otherwise the error is the first rejection's. */
  lemma {:induction false} CollectSpec(steps: seq<TagStep>)
    ensures CollectTags(steps, []).Filters? <==> forall k :: 0 <= k < |steps| ==> !steps[k].Bad?
    ensures CollectTags(steps, []).Filters? ==> CollectTags(steps, []).filters == Dedup(Accepted(steps))
    ensures forall k :: 0 <= k < |steps| && steps[k].Bad? && (forall j :: 0 <= j < k ==> !steps[j].Bad?)
              ==> CollectTags(steps, []) == TagsFailure(steps[k].error)
  {
    if forall k :: 0 <= k < |steps| ==> !steps[k].Bad? {
      CollectAccepts(steps, []);
    } else {
      var k :| 0 <= k < |steps| && steps[k].Bad?;
      CollectRejects(steps, [], k);
    }
    CollectDedups(steps, []);
    assert [] + Accepted(steps) == Accepted(steps);
    forall k | 0 <= k < |steps| && steps[k].Bad? && (forall j :: 0 <= j < k ==> !steps[j].Bad?)
      ensures CollectTags(steps, []) == TagsFailure(steps[k].error)
    {
      FirstErrorWins(steps, [], k);
    }
  }

  /** A non-empty text parses if and only if none of its pieces is
      rejected, and then to the first occurrences of the accepted filters;
      otherwise the error is the first rejected piece's. */
  lemma {:induction false} ParseTagFiltersSpec(raw: string)
    requires raw != []
    ensures var pieces := Split(raw, FilterSep);
            ParseTagFilters(raw).Filters? <==> forall k :: 0 <= k < |pieces| ==> !ParseTag(pieces[k]).Bad?
    ensures ParseTagFilters(raw).Filters? ==> ParseTagFilters(raw).filters == Dedup(Accepted(ParseTags(Split(raw, FilterSep))))
    ensures var pieces := Split(raw, FilterSep);
            forall k :: 0 <= k < |pieces| && ParseTag(pieces[k]).Bad? && (forall j :: 0 <= j < k ==> !ParseTag(pieces[j]).Bad?)
              ==> ParseTagFilters(raw) == TagsFailure(ParseTag(pieces[k]).error)
  {
    PiecesSpec(Split(raw, FilterSep));
  }

  /** `CollectSpec` stated for the pieces rather than their outcomes. */
  lemma {:induction false} PiecesSpec(pieces: seq<string>)
    ensures CollectTags(ParseTags(pieces), []).Filters? <==> forall k :: 0 <= k < |pieces| ==> !ParseTag(pieces[k]).Bad?
    ensures CollectTags(ParseTags(pieces), []).Filters? ==> CollectTags(ParseTags(pieces), []).filters == Dedup(Accepted(ParseTags(pieces)))
    ensures forall k :: 0 <= k < |pieces| && ParseTag(pieces[k]).Bad? && (forall j :: 0 <= j < k ==> !ParseTag(pieces[j]).Bad?)
              ==> CollectTags(ParseTags(pieces), []) == TagsFailure(ParseTag(pieces[k]).error)
  {
    ParseTagsAt(pieces);
    CollectSpec(ParseTags(pieces));
  }

  /** Every filter the parser returns is well formed. */
  lemma {:induction false} ParseTagFiltersWellFormed(raw: string)
    ensures ParseTagFilters(raw).Filters? ==> forall f :: f in ParseTagFilters(raw).filters ==> WellFormed(f)
  {
    if raw != [] && ParseTagFilters(raw).Filters? {
      var pieces := Split(raw, FilterSep);
      var steps := ParseTags(pieces);
      ParseTagsAt(pieces);
      forall k | 0 <= k < |steps| && steps[k].One?
        ensures WellFormed(steps[k].filter)
      {
        assert steps[k] == ParseTag(pieces[k]);
        ParseTagWellFormed(pieces[k]);
      }
      ParseTagFiltersSpec(raw);
      AcceptedWellFormed(steps);
      DedupSameMembers(Accepted(steps));
    }
  }

  lemma {:induction false} AcceptedWellFormed(steps: seq<TagStep>)
    requires forall k :: 0 <= k < |steps| && steps[k].One? ==> WellFormed(steps[k].filter)
    ensures forall f :: f in Accepted(steps) ==> WellFormed(f)
    decreases |steps|
  {
    if steps != [] {
      assert forall k :: 0 <= k < |steps| - 1 ==> steps[1..][k] == steps[k + 1];
      AcceptedWellFormed(steps[1..]);
    }
  }

  predicate BlankList(s: string) {
    forall i :: 0 <= i < |s| ==> IsSpace(s[i]) || s[i] == FilterSep
  }

  /** Text made only of blanks and commas has no filters and no error. */
  lemma {:induction false} BlankListEmpty(raw: string)
    requires BlankList(raw)
    ensures ParseTagFilters(raw) == Filters([])
  {
    if raw != [] {
      var pieces := Split(raw, FilterSep);
      BlankPieces(raw);
      BlankSteps(pieces);
      CollectSkips(ParseTags(pieces), []);
    }
  }

  /** A piece with nothing but spaces. */
  predicate Blank(piece: string) {
    TrimSpace(piece) == []
  }

  /** Blank pieces are all skipped. */
  lemma {:induction false} BlankSteps(pieces: seq<string>)
    requires forall k :: 0 <= k < |pieces| ==> Blank(pieces[k])
    ensures forall k :: 0 <= k < |pieces| ==> ParseTags(pieces)[k].Skip?
  {
    ParseTagsAt(pieces);
  }

  /** Every piece of such a text is blank. */
  lemma {:induction false} BlankPieces(s: string)
    requires BlankList(s)
    ensures forall k :: 0 <= k < |Split(s, FilterSep)| ==> Blank(Split(s, FilterSep)[k])
  {
    var parts := Split(s, FilterSep);
    SplitChars(s, FilterSep);
    forall k | 0 <= k < |parts|
      ensures Blank(parts[k])
    {
      var p := parts[k];
      forall j | 0 <= j < |p|
        ensures IsSpace(p[j])
      {
        assert p[j] in s && p[j] != FilterSep;
        var m :| 0 <= m < |s| && s[m] == p[j];
      }
      TrimSpaceAllSpaces(p);
    }
  }

  lemma {:induction false} CollectSkips(steps: seq<TagStep>, kept: seq<TagFilter>)
    requires NoDup(kept) && forall k :: 0 <= k < |steps| ==> steps[k].Skip?
    ensures CollectTags(steps, kept) == Filters(kept)
    decreases |steps|
  {
    if steps != [] {
      assert forall k :: 0 <= k < |steps| - 1 ==> steps[1..][k] == steps[k + 1];
      CollectSkips(steps[1..], kept);
    }
  }

  // ---- de-duplication ----

  /** The first occurrence of every filter, in the order of first
      occurrence: the reference for the parser's `seen` set. */
  function Dedup(fs: seq<TagFilter>): (r: seq<TagFilter>)
    ensures NoDup(r)
  {
    if fs == [] then [] else Keep(Dedup(fs[..|fs| - 1]), fs[|fs| - 1])
  }

  /** De-duplication keeps every filter and adds none. */
  lemma {:induction false} DedupSameMembers(fs: seq<TagFilter>)
    ensures forall f :: f in Dedup(fs) <==> f in fs
    decreases |fs|
  {
    if fs != [] {
      var init := fs[..|fs| - 1];
      DedupSameMembers(init);
      assert fs == init + [fs[|fs| - 1]];
    }
  }

  /** A list without repeats is its own de-duplication. */
  lemma {:induction false} DedupNoDup(fs: seq<TagFilter>)
    requires NoDup(fs)
    ensures Dedup(fs) == fs
    decreases |fs|
  {
    if fs != [] {
      var init := fs[..|fs| - 1];
      var x := fs[|fs| - 1];
      assert fs == init + [x];
      assert forall i :: 0 <= i < |init| ==> init[i] == fs[i];
      DedupNoDup(init);
      DedupSameMembers(init);
    }
  }

  /** Position of the first occurrence of `f` in `fs`. */
  function FirstIndex(fs: seq<TagFilter>, f: TagFilter): (i: nat)
    requires f in fs
    ensures i < |fs| && fs[i] == f && f !in fs[..i]
  {
    if fs[0] == f then 0
    else
      var k := FirstIndex(fs[1..], f);
      assert fs[..k + 1] == [fs[0]] + fs[1..][..k];
      1 + k
  }

  lemma {:induction false} FirstIndexPrefix(fs: seq<TagFilter>, x: TagFilter, f: TagFilter)
    requires f in fs
    ensures FirstIndex(fs + [x], f) == FirstIndex(fs, f)
    decreases |fs|
  {
    if fs[0] != f {
      assert (fs + [x])[1..] == fs[1..] + [x];
      FirstIndexPrefix(fs[1..], x, f);
    }
  }

  lemma {:induction false} FirstIndexLast(fs: seq<TagFilter>, x: TagFilter)
    requires x !in fs
    ensures FirstIndex(fs + [x], x) == |fs|
    decreases |fs|
  {
    if fs != [] {
      assert (fs + [x])[1..] == fs[1..] + [x];
      FirstIndexLast(fs[1..], x);
    }
  }

  /** Kept filters come in the order of their first occurrences. */
  lemma {:induction false} DedupOrder(fs: seq<TagFilter>)
    ensures var r := Dedup(fs);
            forall i, j :: 0 <= i < j < |r| ==> r[i] in fs && r[j] in fs && FirstIndex(fs, r[i]) < FirstIndex(fs, r[j])
    decreases |fs|
  {
    if fs != [] {
      var init := fs[..|fs| - 1];
      var x := fs[|fs| - 1];
      assert fs == init + [x];
      DedupOrder(init);
      DedupSameMembers(init);
      var r := Dedup(fs);
      assert r == Keep(Dedup(init), x);
      var d := Dedup(init);
      assert NoDup(d) && forall f :: f in d <==> f in init;
      assert forall i, j :: 0 <= i < j < |d| ==> d[i] in init && d[j] in init && FirstIndex(init, d[i]) < FirstIndex(init, d[j]);
      forall i, j | 0 <= i < j < |r|
        ensures r[i] in fs && r[j] in fs && FirstIndex(fs, r[i]) < FirstIndex(fs, r[j])
      {
        DedupOrderPair(init, x, d, i, j);
      }
    }
  }

  /** One pair of `DedupOrder`'s step: the order of the kept filters of
      `init` carries over to `init + [x]`, and `x`, when new, comes last. */
  lemma {:induction false} DedupOrderPair(init: seq<TagFilter>, x: TagFilter, d: seq<TagFilter>, i: nat, j: nat)
    requires NoDup(d) && forall f :: f in d <==> f in init
    requires forall i, j :: 0 <= i < j < |d| ==> d[i] in init && d[j] in init && FirstIndex(init, d[i]) < FirstIndex(init, d[j])
    requires i < j < |Keep(d, x)|
    ensures var r := Keep(d, x);
            r[i] in init + [x] && r[j] in init + [x] && FirstIndex(init + [x], r[i]) < FirstIndex(init + [x], r[j])
  {
    var r := Keep(d, x);
    assert i < |d| && r[i] == d[i] && d[i] in init;
    FirstIndexPrefix(init, x, r[i]);
    if j < |d| {
      assert r[j] == d[j];
      FirstIndexPrefix(init, x, r[j]);
    } else {
      assert x !in init && r[j] == x;
      FirstIndexLast(init, x);
    }
  }

  /** Adding one filter to the first occurrences already kept is
      de-duplicating the longer list. */
  lemma {:induction false} DedupStep(pre: seq<TagFilter>, f: TagFilter)
    ensures Dedup(pre + [f]) == Keep(Dedup(pre), f)
  {
    assert (pre + [f])[..|pre|] == pre;
  }

  // ---- formatting: the inverse of parsing ----

  /** A filter written back as `<prefix><type>:<value>`; AND is written
      with its explicit '+'. */
  function FormatFilter(f: TagFilter): string {
    [OperatorPrefix(f.op)] + (f.typ + [TypeSep] + f.value)
  }

  function FormatPieces(fs: seq<TagFilter>): (ps: seq<string>)
    ensures |ps| == |fs| && forall k :: 0 <= k < |fs| ==> ps[k] == FormatFilter(fs[k])
  {
    if fs == [] then [] else [FormatFilter(fs[0])] + FormatPieces(fs[1..])
  }

  /** The text of a filter list: the formatted filters joined by ','. */
  function FormatFilters(fs: seq<TagFilter>): string {
    if fs == [] then [] else Join(FormatPieces(fs), FilterSep)
  }

  /** A formatted filter starts with its prefix and ends with a tag
      character, so trimming leaves it alone. */
  lemma {:induction false} FormattedTrim(f: TagFilter)
    requires WellFormed(f)
    ensures TrimSpace(FormatFilter(f)) == FormatFilter(f)
  {
    var s := FormatFilter(f);
    assert s[|s| - 1] == f.value[|f.value| - 1];
    assert TagChar(f.value[|f.value| - 1]);
    TrimSpaceFixed(s);
  }

  /** A well-formed filter, formatted, parses back to itself. */
  lemma {:induction false} ParseFormatted(f: TagFilter)
    requires WellFormed(f)
    ensures ParseTag(FormatFilter(f)) == One(f)
  {
    FormattedTrim(f);
    TrimTagText(f.typ);
    TrimTagText(f.value);
    NormalizeFixed(f.typ);
    NormalizeFixed(f.value);
    ParseTagOf(FormatFilter(f), f.op, f.typ, f.value);
  }

  lemma {:induction false} AcceptedOnes(steps: seq<TagStep>, fs: seq<TagFilter>)
    requires |steps| == |fs| && forall k :: 0 <= k < |fs| ==> steps[k] == One(fs[k])
    ensures Accepted(steps) == fs
    decreases |fs|
  {
    if fs != [] {
      assert forall k :: 0 <= k < |fs| - 1 ==> steps[1..][k] == steps[k + 1] && fs[1..][k] == fs[k + 1];
      AcceptedOnes(steps[1..], fs[1..]);
    }
  }

  /** `strings.Split` undoes `Join` when no piece holds the separator. */
  lemma {:induction false} SplitJoin(ps: seq<string>, sep: char)
    requires |ps| > 0 && forall k :: 0 <= k < |ps| ==> sep !in ps[k]
    ensures Split(Join(ps, sep), sep) == ps
    decreases |ps|
  {
    if |ps| == 1 {
      SplitNone(ps[0], sep);
    } else {
      SplitJoin(ps[1..], sep);
      SplitAtFirst(ps[0], Join(ps[1..], sep), sep);
    }
  }

  lemma {:induction false} JoinHead(ps: seq<string>, sep: char)
    requires |ps| > 0
    ensures |Join(ps, sep)| >= |ps[0]|
  {
  }

  lemma {:induction false} FormatNoComma(f: TagFilter)
    requires WellFormed(f)
    ensures FilterSep !in FormatFilter(f)
  {
  }

  lemma {:induction false} ParseTagFiltersOf(raw: string, pieces: seq<string>)
    requires raw != [] && Split(raw, FilterSep) == pieces
    ensures ParseTagFilters(raw) == CollectTags(ParseTags(pieces), [])
  {
  }

  /** The pieces of a formatted list are the formatted filters. */
  lemma {:induction false} FormattedSplit(fs: seq<TagFilter>)
    requires fs != [] && forall k :: 0 <= k < |fs| ==> WellFormed(fs[k])
    ensures FormatFilters(fs) != [] && Split(FormatFilters(fs), FilterSep) == FormatPieces(fs)
  {
    var ps := FormatPieces(fs);
    forall k | 0 <= k < |ps|
      ensures FilterSep !in ps[k]
    {
      FormatNoComma(fs[k]);
    }
    SplitJoin(ps, FilterSep);
    JoinHead(ps, FilterSep);
  }

  /** Each formatted piece is accepted as its filter. */
  lemma {:induction false} FormattedSteps(fs: seq<TagFilter>)
    requires forall k :: 0 <= k < |fs| ==> WellFormed(fs[k])
    ensures var steps := ParseTags(FormatPieces(fs));
            |steps| == |fs| && forall k :: 0 <= k < |fs| ==> steps[k] == One(fs[k])
  {
    var ps := FormatPieces(fs);
    ParseTagsAt(ps);
    forall k | 0 <= k < |fs|
      ensures ParseTags(ps)[k] == One(fs[k])
    {
      ParseFormatted(fs[k]);
    }
  }

  /** Formatting a list of well-formed filters and parsing the text gives
      the list back, each filter at its first occurrence. */
  lemma {:induction false} FormatParseRoundTrip(fs: seq<TagFilter>)
    requires forall k :: 0 <= k < |fs| ==> WellFormed(fs[k])
    ensures ParseTagFilters(FormatFilters(fs)) == Filters(Dedup(fs))
  {
    if fs == [] {
      assert FormatFilters(fs) == [] && Dedup(fs) == [];
    } else {
      FormattedSplit(fs);
      FormattedSteps(fs);
      ParseTagFiltersOf(FormatFilters(fs), FormatPieces(fs));
      CollectOnes(ParseTags(FormatPieces(fs)), fs);
    }
  }

  /** Outcomes that all accept collect to the de-duplicated filters. */
  lemma {:induction false} CollectOnes(steps: seq<TagStep>, fs: seq<TagFilter>)
    requires |steps| == |fs| && forall k :: 0 <= k < |fs| ==> steps[k] == One(fs[k])
    ensures CollectTags(steps, []) == Filters(Dedup(fs))
  {
    CollectSpec(steps);
    AcceptedOnes(steps, fs);
  }

  /** A list without repeats comes back exactly. */
  lemma {:induction false} FormatParseExact(fs: seq<TagFilter>)
    requires NoDup(fs) && forall k :: 0 <= k < |fs| ==> WellFormed(fs[k])
    ensures ParseTagFilters(FormatFilters(fs)) == Filters(fs)
  {
    FormatParseRoundTrip(fs);
    DedupNoDup(fs);
  }
}
