/** The payload check the score-submission endpoint runs before storing anything. */
module Validate {
  import opened JsValues

  const MaxNameLength := 16

  /** `isValidRecord(name, score)`: guards tried in order, the first failing one rejects. */
  function IsValidRecord(name: Value, score: Value): (ok: bool)
    // each guard on its own rejects
    ensures !name.Str? ==> !ok
    ensures name.Str? && (|name.s| < 1 || |name.s| > MaxNameLength) ==> !ok
    ensures !score.Num? ==> !ok
    ensures score.Num? && score.num.NonInteger? ==> !ok
    ensures score.Num? && score.num.Integer? && score.num.value < 0 ==> !ok
    // and the payload is accepted exactly when it is a 1..16 character name with a non-negative integer score
    ensures ok <==> exists n: string, k: nat ::
                      name == Str(n) && 1 <= |n| <= MaxNameLength && score == Num(Integer(k))
  {
    if !name.Str? then false
    else if |name.s| < 1 || |name.s| > MaxNameLength then false
    else if !score.Num? then false
    else if !score.num.Integer? || score.num.value < 0 then false
    else
      assert name == Str(name.s) && score == Num(Integer(score.num.value as nat));
      true
  }

  /** The smallest payloads the check lets through: one character, score zero. */
  lemma AcceptsShortestNameAndZeroScore(c: char)
    ensures IsValidRecord(Str([c]), Num(Integer(0)))
  {
  }
}
