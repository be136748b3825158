/**
 * Where the commit message comes from: the text generated by the remote
 * service when the call succeeds, or the deterministic fallback of
 * `GitCommitHelper.generate_fallback_message` when it fails.
 */
module Messages {
  import opened Optional
  import opened Text
  import opened StagedChanges

  const UpdatePrefix: string := "Update "
  const FilesSuffix: string := " files"

  /** `generate_fallback_message`: "Update <path>" for a single change,
      "Update <count> files" for any other number of changes. */
  function FallbackMessage(changes: seq<Change>): (m: string)
    ensures |m| >= |UpdatePrefix| && m[..|UpdatePrefix|] == UpdatePrefix
    ensures |changes| != 1 ==> |m| > |UpdatePrefix| + |FilesSuffix|
  {
    DecimalWellFormed(|changes|);
    if |changes| == 1 then UpdatePrefix + changes[0].path
    else UpdatePrefix + Decimal(|changes|) + FilesSuffix
  }

  /** `get_commit_message_from_claude`: the generated text, or the fallback
      when the remote call failed (None). */
  function SelectMessage(changes: seq<Change>, generated: Option<string>): (m: string)
    ensures generated.None? ==> m == FallbackMessage(changes)
    ensures generated.Some? ==> m == generated.value
  {
    match generated
    case Some(text) => text
    case None => FallbackMessage(changes)
  }

  /** A single change is named by its path. */
  lemma FallbackForOneChange(c: Change)
    ensures FallbackMessage([c]) == "Update " + c.path
  {
  }

  /** For any other number of changes, including none, the text between
      "Update " and " files" is the count written in decimal: digits only, no
      leading zero, and reading it back gives the count. */
  lemma FallbackCountReadBack(changes: seq<Change>)
    requires |changes| != 1
    ensures |FallbackMessage(changes)| > |UpdatePrefix| + |FilesSuffix|
    ensures var m := FallbackMessage(changes);
            && m[..|UpdatePrefix|] == UpdatePrefix
            && m[|m| - |FilesSuffix|..] == FilesSuffix
            && ParseDecimal(m[|UpdatePrefix|..|m| - |FilesSuffix|]) == |changes|
    ensures var m := FallbackMessage(changes);
            var d := m[|UpdatePrefix|..|m| - |FilesSuffix|];
            && |d| >= 1
            && (forall i :: 0 <= i < |d| ==> IsDigit(d[i]))
            && (d[0] == '0' <==> |changes| == 0)
            && (|changes| == 0 ==> d == "0")
  {
    var digits := Decimal(|changes|);
    DecimalWellFormed(|changes|);
    ParseDecimalOfDecimal(|changes|);
    var m := FallbackMessage(changes);
    assert m == UpdatePrefix + digits + FilesSuffix;
    assert m[|UpdatePrefix|..|m| - |FilesSuffix|] == digits;
  }

  /** No changes give exactly "Update 0 files". */
  lemma FallbackForNoChanges()
    ensures FallbackMessage([]) == "Update 0 files"
  {
  }

  /** Three changes give exactly "Update 3 files". */
  lemma FallbackForThreeChanges(a: Change, b: Change, c: Change)
    ensures FallbackMessage([a, b, c]) == "Update 3 files"
  {
  }

  /** Two lists of changes that are not single changes get the same fallback
      message exactly when they are equally long. */
  lemma FallbackDeterminedByCount(a: seq<Change>, b: seq<Change>)
    requires |a| != 1 && |b| != 1
    ensures FallbackMessage(a) == FallbackMessage(b) <==> |a| == |b|
  {
    if FallbackMessage(a) == FallbackMessage(b) {
      FallbackCountReadBack(a);
      FallbackCountReadBack(b);
    }
  }
}
