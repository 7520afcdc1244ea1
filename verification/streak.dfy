/** Points and streaks earned in the math games: each checked answer earns
    ten points and extends the streak when it matches the expected answer,
    and resets the streak otherwise. */
module Streak {
  import opened Wrappers

  /** A student's stored totals. */
  datatype Record = Record(streak: nat, points: nat)

  /** Points for one matching answer. */
  const PointsPerMatch: nat := 10

  /** The record created for a student who has none yet. */
  const NewRecord: Record := Record(0, 0)

  /** A field of the request body: absent, or a value shown as text the way
      Python's `str` shows it. */
  datatype Field = Missing | Given(text: string)

  /** Python's `str` of the field; an absent field is `None`. */
  function Render(f: Field): string {
    match f
    case Missing => "None"
    case Given(t) => t
  }

  /** The answer matches when the two fields render to the same text: equal
      fields match, two given values match exactly when their texts agree,
      and a missing field matches only the text "None". */
  predicate Matches(answer: Field, correct: Field): (b: bool)
    ensures answer == correct ==> b
    ensures answer.Given? && correct.Given? ==> (b <==> answer.text == correct.text)
    ensures answer.Missing? && correct.Given? ==> (b <==> correct.text == "None")
    ensures answer.Given? && correct.Missing? ==> (b <==> answer.text == "None")
  {
    Render(answer) == Render(correct)
  }

  /** A request with neither field counts as a match, and so does an answer
      of `None` against a missing expected answer. */
  lemma MissingFieldsMatch()
    ensures Matches(Missing, Missing)
    ensures Matches(Given("None"), Missing)
    ensures !Matches(Given("3"), Given("3.0"))
  {
  }

  /** One checked answer, starting from the stored record or a new one. */
  function Update(stored: Option<Record>, matched: bool): (r: Record)
    ensures var base := stored.GetOr(NewRecord);
            && r.points >= base.points
            && (matched <==> r.points > base.points)
            && (matched <==> r.streak > 0)
            && (matched ==> r.points - base.points == PointsPerMatch && r.streak == base.streak + 1)
  {
    var base := stored.GetOr(NewRecord);
    var earned := if matched then PointsPerMatch else 0;
    Record(if earned > 0 then base.streak + 1 else 0, base.points + earned)
  }

  /** What the answer check reports back to the game. */
  datatype Response = Response(correct: bool, pointsEarned: nat, totalPoints: nat, streak: nat)

  /** Checks one answer and reports the new totals, which are also the
      record stored for the student. */
  function CheckAnswer(stored: Option<Record>, answer: Field, correct: Field): (r: Response)
    ensures r.correct <==> Matches(answer, correct)
    ensures r.totalPoints == stored.GetOr(NewRecord).points + r.pointsEarned
    ensures r.pointsEarned == if r.correct then PointsPerMatch else 0
    ensures Record(r.streak, r.totalPoints) == Update(stored, r.correct)
  {
    var matched := Matches(answer, correct);
    var next := Update(stored, matched);
    Response(matched, next.points - stored.GetOr(NewRecord).points, next.points, next.streak)
  }

  /** The record after a run of checked answers, oldest first. */
  function Replay(start: Record, outcomes: seq<bool>): Record
    decreases |outcomes|
  {
    if outcomes == [] then start
    else Update(Some(Replay(start, outcomes[..|outcomes| - 1])), outcomes[|outcomes| - 1])
  }

  /** How many of the answers matched. */
  function CountMatches(outcomes: seq<bool>): (n: nat)
    ensures n <= |outcomes|
    decreases |outcomes|
  {
    if outcomes == [] then 0
    else CountMatches(outcomes[..|outcomes| - 1]) + (if outcomes[|outcomes| - 1] then 1 else 0)
  }

  /** The number of matching answers at the end of the run, since the last
      miss. */
  function TrailingRun(outcomes: seq<bool>): (n: nat)
    ensures n <= |outcomes|
    ensures forall k :: |outcomes| - n <= k < |outcomes| ==> outcomes[k]
    ensures n < |outcomes| ==> !outcomes[|outcomes| - n - 1]
    decreases |outcomes|
  {
    if outcomes == [] || !outcomes[|outcomes| - 1] then 0
    else TrailingRun(outcomes[..|outcomes| - 1]) + 1
  }

  /** After a run, the points are ten per match on top of the start, and the
      streak is the trailing run of matches, added to the starting streak
      when no answer of the run missed. */
  lemma {:induction false} ReplayTotals(start: Record, outcomes: seq<bool>)
    ensures Replay(start, outcomes).points == start.points + PointsPerMatch * CountMatches(outcomes)
    ensures Replay(start, outcomes).streak ==
              if TrailingRun(outcomes) == |outcomes| then start.streak + |outcomes| else TrailingRun(outcomes)
    decreases |outcomes|
  {
    if outcomes != [] {
      ReplayTotals(start, outcomes[..|outcomes| - 1]);
    }
  }

  /** From a new record the streak never exceeds the matches and the points
      are exactly ten per match. */
  lemma FromNewRecord(outcomes: seq<bool>)
    ensures Replay(NewRecord, outcomes).points == PointsPerMatch * CountMatches(outcomes)
    ensures Replay(NewRecord, outcomes).streak == TrailingRun(outcomes)
    ensures Replay(NewRecord, outcomes).streak <= CountMatches(outcomes)
  {
    ReplayTotals(NewRecord, outcomes);
    TrailingRunCounted(outcomes);
  }

  lemma {:induction false} TrailingRunCounted(outcomes: seq<bool>)
    ensures TrailingRun(outcomes) <= CountMatches(outcomes)
    decreases |outcomes|
  {
    if outcomes != [] {
      TrailingRunCounted(outcomes[..|outcomes| - 1]);
    }
  }
}
