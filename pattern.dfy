/**
 * The archive-name pattern. A pattern without a leading `^` gets `.*` in front, and one
 * without a trailing `$` gets `.*` behind, so that it matches whole names. Compiling and
 * matching the regular expression are not part of this model.
 */
module Pattern {
  import opened Wrappers
  import opened Text

  datatype PatternError = EmptyPattern

  /** The anchoring step of `main`; an empty pattern is refused. */
  function AnchorPattern(regex: string): (r: Result<string, PatternError>)
    ensures r.Failure? <==> regex == ""
  {
    if regex == "" then Failure(EmptyPattern)
    else
      var head := if regex[0] != '^' then ".*" + regex else regex;
      Success(if head[|head| - 1] != '$' then head + ".*" else head)
  }

  /**
   * The anchored pattern starts with `^` or `.*`, ends with `$` or `.*`, holds the user's
   * pattern, and is the user's pattern itself exactly when that was anchored at both ends.
   */
  lemma AnchoredShape(regex: string)
    requires regex != ""
    ensures var r := AnchorPattern(regex).value;
      (r[0] == '^' || r[..2] == ".*") &&
      (r[|r| - 1] == '$' || r[|r| - 2..] == ".*") &&
      Contains(r, regex) &&
      (r == regex <==> regex[0] == '^' && regex[|regex| - 1] == '$')
  {
    var r := AnchorPattern(regex).value;
    var head := if regex[0] == '^' then regex else ".*" + regex;
    assert head[|head| - 1] == regex[|regex| - 1];
    assert r == if regex[|regex| - 1] == '$' then head else head + ".*";
    var offset := if regex[0] == '^' then 0 else 2;
    assert Contains(r, regex) by {
      assert r[offset..offset + |regex|] == regex;
      assert OccursAt(r, regex, offset);
      ContainsIff(r, regex);
    }
    if regex[0] != '^' || regex[|regex| - 1] != '$' {
      assert |r| > |regex|;
    }
  }
}
