/** The predicates that interpret the "action" and "mode" advanced
    arguments. Comparison is Go's simple case folding, so besides the ASCII
    case pairs, KELVIN SIGN matches 'k' and LONG S matches 's'. */
module Actions {
  import opened GoStrings

  const ActionRun: string := "run"
  const ActionDetails: string := "details"
  const ModeShuffle: string := "shuffle"

  predicate IsActionDetails(action: string) {
    EqualFoldAscii(action, ActionDetails)
  }

  /** An absent action means "run". */
  predicate IsActionRun(action: string) {
    action == "" || EqualFoldAscii(action, ActionRun)
  }

  predicate IsModeShuffle(mode: string) {
    EqualFoldAscii(mode, ModeShuffle)
  }

  /** Text made of code points below 128. */
  predicate IsAscii(s: string) {
    forall i :: 0 <= i < |s| ==> s[i] as int < 128
  }

  /** On ASCII text, folding against a lower-case word is lower-casing and
      comparing. */
  lemma {:induction false} FoldIsLower(s: string, word: string)
    requires IsAscii(s)
    requires forall i :: 0 <= i < |word| ==> !('A' <= word[i] <= 'Z')
    ensures EqualFoldAscii(s, word) <==> ToLowerAscii(s) == word
  {
    var low := ToLowerAscii(s);
    if EqualFoldAscii(s, word) {
      forall i | 0 <= i < |s| ensures low[i] == word[i] {
        assert FoldsTo(s[i], word[i]);
      }
    }
    if low == word {
      forall i | 0 <= i < |s| ensures FoldsTo(s[i], word[i]) {
        assert low[i] == word[i];
      }
    }
  }

  /** The action predicates on ASCII text, stated with lower-casing. */
  lemma {:induction false} ActionsOnAscii(action: string)
    requires IsAscii(action)
    ensures IsActionRun(action) <==> action == "" || ToLowerAscii(action) == "run"
    ensures IsActionDetails(action) <==> ToLowerAscii(action) == "details"
    ensures IsModeShuffle(action) <==> ToLowerAscii(action) == "shuffle"
  {
    FoldIsLower(action, ActionRun);
    FoldIsLower(action, ActionDetails);
    FoldIsLower(action, ModeShuffle);
  }

  /** No action is both "run" and "details"; in particular the empty action
      is "run" and not "details". */
  lemma {:induction false} RunAndDetailsExclusive(action: string)
    ensures !(IsActionRun(action) && IsActionDetails(action))
    ensures IsActionRun("") && !IsActionDetails("")
  {
  }

  /** Mixed case is accepted, longer words are not, and the non-ASCII fold
      partner of 's' counts. */
  lemma {:induction false} ActionExamples()
    ensures IsActionRun("RUN") && IsActionRun("Run") && !IsActionRun("running")
    ensures IsActionDetails("DeTaIlS") && !IsActionDetails("detail")
    ensures IsModeShuffle("SHUFFLE") && IsModeShuffle("ſhuffle") && !IsModeShuffle("shuffled")
  {
    assert FoldsTo('R', 'r') && FoldsTo('U', 'u') && FoldsTo('N', 'n');
    assert FoldsTo('ſ', 's');
    assert |"running"| != |ActionRun|;
  }
}
