/** Scoring of one quiz submission: the overall percentage, a per-topic
    tally of right and total answers kept in first-encounter order, and the
    topics recommended for revision because they fall below the mastery
    threshold. */
module Scoring {
  import opened Wrappers
  import Text

  /** A stored quiz question. Only `id`, `answerIndex` and `topic` take part
      in scoring; `topic` is absent when the column is NULL. */
  datatype Question = Question(
    id: nat,
    prompt: string,
    options: seq<string>,
    answerIndex: int,
    topic: Option<string>)

  /** The submitted answers, keyed by the decimal text of a question id. */
  type Answers = map<string, int>

  /** The choice assumed for a question the submission does not answer. */
  const NoAnswer: int := -1

  /** The topic a question without a (non-empty) topic label is filed under. */
  const DefaultTopic: string := "general"

  /** Topics scoring strictly below this percentage are recommended. */
  const MasteryThreshold: nat := 70

  datatype Tally = Tally(right: nat, total: nat)

  datatype TopicEntry = TopicEntry(topic: string, tally: Tally)

  /** A recommendation: a weak topic and its percentage. */
  datatype Rec = Rec(topic: string, percent: real)

  datatype ScoreResult = ScoreResult(
    correct: nat,
    percent: real,
    topics: seq<TopicEntry>,
    recs: seq<Rec>)

  /** `q['topic'] or 'general'`: both a missing and an empty label fall back
      to the default topic. */
  function TopicOf(q: Question): (t: string)
    ensures t != []
    ensures t == DefaultTopic || q.topic == Some(t)
    ensures q.topic.Some? && q.topic.value != "" ==> t == q.topic.value
  {
    match q.topic
    case Some(t) => if t == "" then DefaultTopic else t
    case None => DefaultTopic
  }

  /** The option index submitted for `q`, or `NoAnswer`: an answer is only
      ever read under the decimal rendering of the question's own id. */
  function Chosen(q: Question, answers: Answers): (c: int)
    ensures Text.DecimalString(q.id) !in answers ==> c == NoAnswer
    ensures Text.DecimalString(q.id) in answers ==> c == answers[Text.DecimalString(q.id)]
    ensures c != NoAnswer ==> c in answers.Values
    ensures c == NoAnswer || answers[Text.DecimalString(q.id)] == c
  {
    var key := Text.DecimalString(q.id);
    if key in answers then answers[key] else NoAnswer
  }

  predicate IsRight(q: Question, answers: Answers) {
    Chosen(q, answers) == q.answerIndex
  }

  /** `part` out of `whole` as a percentage, 0 for an empty whole. */
  function Percent(part: nat, whole: nat): (p: real)
    ensures whole > 0 ==> p * (whole as real) == 100.0 * (part as real)
    ensures whole == 0 ==> p == 0.0
  {
    PercentScales(part, whole);
    if whole > 0 then (part as real / whole as real) * 100.0 else 0.0
  }

  // ---------------------------------------------------------------------
  // Reference counts over the question list, independent of the tally.
  // ---------------------------------------------------------------------

  function CountRight(qs: seq<Question>, answers: Answers): nat {
    if qs == [] then 0
    else CountRight(qs[..|qs| - 1], answers)
         + (if IsRight(qs[|qs| - 1], answers) then 1 else 0)
  }

  function CountTopic(qs: seq<Question>, t: string): nat {
    if qs == [] then 0
    else CountTopic(qs[..|qs| - 1], t) + (if TopicOf(qs[|qs| - 1]) == t then 1 else 0)
  }

  function CountTopicRight(qs: seq<Question>, answers: Answers, t: string): nat {
    if qs == [] then 0
    else CountTopicRight(qs[..|qs| - 1], answers, t)
         + (if TopicOf(qs[|qs| - 1]) == t && IsRight(qs[|qs| - 1], answers) then 1 else 0)
  }

  /** Position of the first question filed under `t`; `|qs|` when none is. */
  function FirstAt(qs: seq<Question>, t: string): nat {
    if qs == [] then 0
    else if TopicOf(qs[0]) == t then 0
    else 1 + FirstAt(qs[1..], t)
  }

  // ---------------------------------------------------------------------
  // The topic table: a dictionary kept as a list in insertion order.
  // ---------------------------------------------------------------------

  predicate DistinctTopics(ts: seq<TopicEntry>) {
    forall j, k :: 0 <= j < k < |ts| ==> ts[j].topic != ts[k].topic
  }

  predicate HasTopic(ts: seq<TopicEntry>, t: string) {
    exists j :: 0 <= j < |ts| && ts[j].topic == t
  }

  function SumTotals(ts: seq<TopicEntry>): nat {
    if ts == [] then 0 else ts[0].tally.total + SumTotals(ts[1..])
  }

  function SumRights(ts: seq<TopicEntry>): nat {
    if ts == [] then 0 else ts[0].tally.right + SumRights(ts[1..])
  }

  function Add(c: Tally, hit: bool): Tally {
    Tally(c.right + (if hit then 1 else 0), c.total + 1)
  }

  /** `topic_scores.setdefault(t, {right: 0, total: 0})` followed by the
      increments for one question. */
  function Bump(ts: seq<TopicEntry>, t: string, hit: bool): (r: seq<TopicEntry>)
    ensures |r| == if HasTopic(ts, t) then |ts| else |ts| + 1
    ensures HasTopic(r, t)
  {
    if HasTopic(ts, t) then
      var r := seq(|ts|, j requires 0 <= j < |ts| =>
        if ts[j].topic == t then TopicEntry(t, Add(ts[j].tally, hit)) else ts[j]);
      assert HasTopic(r, t) by {
        var j :| 0 <= j < |ts| && ts[j].topic == t;
        assert r[j].topic == t;
      }
      r
    else
      var r := ts + [TopicEntry(t, Add(Tally(0, 0), hit))];
      assert r[|ts|].topic == t;
      r
  }

  /** Bumping counts the entry for `t` once more (once more right when
      `hit`), gives a new topic a fresh entry at the end and leaves every
      other entry as it was. */
  lemma BumpShape(ts: seq<TopicEntry>, t: string, hit: bool)
    ensures forall j :: 0 <= j < |ts| ==>
              Bump(ts, t, hit)[j].topic == ts[j].topic &&
              Bump(ts, t, hit)[j].tally ==
                (if ts[j].topic == t then Add(ts[j].tally, hit) else ts[j].tally)
    ensures !HasTopic(ts, t) ==> Bump(ts, t, hit)[|ts|] == TopicEntry(t, Add(Tally(0, 0), hit))
  {
  }

  lemma BumpDistinct(ts: seq<TopicEntry>, t: string, hit: bool)
    requires DistinctTopics(ts)
    ensures DistinctTopics(Bump(ts, t, hit))
  {
    BumpShape(ts, t, hit);
  }

  lemma {:induction false} SumsAppend(a: seq<TopicEntry>, b: seq<TopicEntry>)
    ensures SumTotals(a + b) == SumTotals(a) + SumTotals(b)
    ensures SumRights(a + b) == SumRights(a) + SumRights(b)
    decreases |a|
  {
    if a != [] {
      assert (a + b)[1..] == a[1..] + b;
      SumsAppend(a[1..], b);
    } else {
      assert a + b == b;
    }
  }

  /** Each question adds exactly one to the totals, and one to the rights
      when answered correctly. */
  lemma BumpSums(ts: seq<TopicEntry>, t: string, hit: bool)
    requires DistinctTopics(ts)
    ensures SumTotals(Bump(ts, t, hit)) == SumTotals(ts) + 1
    ensures SumRights(Bump(ts, t, hit)) == SumRights(ts) + (if hit then 1 else 0)
  {
    var r := Bump(ts, t, hit);
    if HasTopic(ts, t) {
      var k :| 0 <= k < |ts| && ts[k].topic == t;
      var e := TopicEntry(t, Add(ts[k].tally, hit));
      BumpShape(ts, t, hit);
      assert r == ts[k := e];
      SumsUpdate(ts, k, e);
    } else {
      SumsAppend(ts, [TopicEntry(t, Add(Tally(0, 0), hit))]);
    }
  }

  lemma {:induction false} SumsUpdate(ts: seq<TopicEntry>, k: nat, e: TopicEntry)
    requires k < |ts|
    ensures SumTotals(ts[k := e]) + ts[k].tally.total == SumTotals(ts) + e.tally.total
    ensures SumRights(ts[k := e]) + ts[k].tally.right == SumRights(ts) + e.tally.right
    decreases |ts|
  {
    if k == 0 {
      assert ts[k := e][1..] == ts[1..];
    } else {
      assert ts[k := e][1..] == ts[1..][k - 1 := e];
      SumsUpdate(ts[1..], k - 1, e);
    }
  }

  /** Every tallied topic holds its true counts, at least one question. */
  predicate CountsAgree(ts: seq<TopicEntry>, qs: seq<Question>, answers: Answers) {
    forall j :: 0 <= j < |ts| ==>
      && ts[j].tally.total == CountTopic(qs, ts[j].topic) > 0
      && ts[j].tally.right == CountTopicRight(qs, answers, ts[j].topic)
  }

  /** Every question's topic is tallied, and every tallied topic belongs to
      some question. */
  predicate CoversTopics(ts: seq<TopicEntry>, qs: seq<Question>) {
    && (forall p :: 0 <= p < |qs| ==> HasTopic(ts, TopicOf(qs[p])))
    && (forall j :: 0 <= j < |ts| ==> FirstAt(qs, ts[j].topic) < |qs|)
  }

  /** Topics are listed in the order they were first met. */
  predicate FirstEncounterOrder(ts: seq<TopicEntry>, qs: seq<Question>) {
    forall j, k :: 0 <= j < k < |ts| ==> FirstAt(qs, ts[j].topic) < FirstAt(qs, ts[k].topic)
  }

  /** What the topic table `ts` must hold after the questions `qs`: one
      entry per topic met, each with its true counts, in the order the
      topics were first met. */
  predicate Tallied(ts: seq<TopicEntry>, qs: seq<Question>, answers: Answers) {
    && DistinctTopics(ts)
    && CountsAgree(ts, qs, answers)
    && CoversTopics(ts, qs)
    && FirstEncounterOrder(ts, qs)
  }

  datatype Tallies = Tallies(correct: nat, topics: seq<TopicEntry>)

  /** A non-empty list is its front followed by its last question. */
  lemma SplitLast(qs: seq<Question>)
    requires qs != []
    ensures qs == qs[..|qs| - 1] + [qs[|qs| - 1]]
  {
  }

  /** Dropping the question just appended gives back the list. */
  lemma InitOfSnoc(ps: seq<Question>, q: Question)
    ensures (ps + [q])[..|ps + [q]| - 1] == ps && (ps + [q])[|ps + [q]| - 1] == q
  {
  }

  /** The loop of the submission handler over the questions, in order. */
  function TallyAll(qs: seq<Question>, answers: Answers): (r: Tallies)
    ensures r.correct == CountRight(qs, answers)
    ensures Tallied(r.topics, qs, answers)
    ensures SumTotals(r.topics) == |qs|
    ensures SumRights(r.topics) == r.correct
    decreases |qs|
  {
    if qs == [] then Tallies(0, [])
    else
      var ps := qs[..|qs| - 1];
      var q := qs[|qs| - 1];
      var prev := TallyAll(ps, answers);
      var hit := IsRight(q, answers);
      SplitLast(qs);
      TallyAllStep(ps, q, answers, prev);
      Tallies(prev.correct + (if hit then 1 else 0), Bump(prev.topics, TopicOf(q), hit))
  }

  /** The inductive step of `TallyAll`'s contract. */
  lemma TallyAllStep(ps: seq<Question>, q: Question, answers: Answers, prev: Tallies)
    requires prev.correct == CountRight(ps, answers) && Tallied(prev.topics, ps, answers)
    requires SumTotals(prev.topics) == |ps| && SumRights(prev.topics) == prev.correct
    ensures var hit := IsRight(q, answers);
            var r := Tallies(prev.correct + (if hit then 1 else 0), Bump(prev.topics, TopicOf(q), hit));
            && r.correct == CountRight(ps + [q], answers)
            && Tallied(r.topics, ps + [q], answers)
            && SumTotals(r.topics) == |ps + [q]|
            && SumRights(r.topics) == r.correct
  {
    InitOfSnoc(ps, q);
    TallyStep(ps, q, answers, prev.topics);
    BumpSums(prev.topics, TopicOf(q), IsRight(q, answers));
  }

  lemma {:induction false} FirstAtBound(qs: seq<Question>, t: string)
    ensures FirstAt(qs, t) <= |qs|
    ensures FirstAt(qs, t) < |qs| ==> TopicOf(qs[FirstAt(qs, t)]) == t
    ensures forall p :: 0 <= p < FirstAt(qs, t) ==> TopicOf(qs[p]) != t
    decreases |qs|
  {
    if qs != [] && TopicOf(qs[0]) != t {
      FirstAtBound(qs[1..], t);
      forall p | 0 < p < FirstAt(qs, t) ensures TopicOf(qs[p]) != t {
        assert qs[p] == qs[1..][p - 1];
      }
    }
  }

  lemma {:induction false} FirstAtSnoc(ps: seq<Question>, q: Question, t: string)
    ensures FirstAt(ps + [q], t) ==
            if FirstAt(ps, t) < |ps| then FirstAt(ps, t)
            else if TopicOf(q) == t then |ps|
            else |ps| + 1
    decreases |ps|
  {
    FirstAtBound(ps, t);
    if ps == [] {
    } else {
      assert (ps + [q])[0] == ps[0];
      assert (ps + [q])[1..] == ps[1..] + [q];
      FirstAtSnoc(ps[1..], q, t);
    }
  }

  /** A topic no question carries has zero counts and no first position. */
  lemma {:induction false} AbsentTopic(qs: seq<Question>, answers: Answers, t: string)
    requires forall p :: 0 <= p < |qs| ==> TopicOf(qs[p]) != t
    ensures CountTopic(qs, t) == 0 && CountTopicRight(qs, answers, t) == 0
    ensures FirstAt(qs, t) == |qs|
    decreases |qs|
  {
    FirstAtBound(qs, t);
    if qs != [] {
      AbsentTopic(qs[..|qs| - 1], answers, t);
    }
  }

  /** A topic missing from a table that covers the questions is one no
      question carries. */
  lemma NewTopic(ts: seq<TopicEntry>, ps: seq<Question>, answers: Answers, t: string)
    requires CoversTopics(ts, ps) && !HasTopic(ts, t)
    ensures CountTopic(ps, t) == 0 && CountTopicRight(ps, answers, t) == 0
    ensures FirstAt(ps, t) == |ps|
  {
    forall p | 0 <= p < |ps| ensures TopicOf(ps[p]) != t {
      assert HasTopic(ts, TopicOf(ps[p]));
    }
    AbsentTopic(ps, answers, t);
  }

  /** The counts after one more question. */
  lemma CountsSnoc(ps: seq<Question>, q: Question, answers: Answers, u: string)
    ensures CountTopic(ps + [q], u) == CountTopic(ps, u) + (if TopicOf(q) == u then 1 else 0)
    ensures CountTopicRight(ps + [q], answers, u) ==
            CountTopicRight(ps, answers, u) + (if TopicOf(q) == u && IsRight(q, answers) then 1 else 0)
  {
    InitOfSnoc(ps, q);
  }

  lemma TallyStepCounts(ps: seq<Question>, q: Question, answers: Answers, ts: seq<TopicEntry>)
    requires CountsAgree(ts, ps, answers) && CoversTopics(ts, ps)
    ensures CountsAgree(Bump(ts, TopicOf(q), IsRight(q, answers)), ps + [q], answers)
  {
    var t := TopicOf(q);
    var hit := IsRight(q, answers);
    var r := Bump(ts, t, hit);
    BumpShape(ts, t, hit);
    if !HasTopic(ts, t) {
      NewTopic(ts, ps, answers, t);
    }
    forall j | 0 <= j < |r|
      ensures r[j].tally.total == CountTopic(ps + [q], r[j].topic) > 0
      ensures r[j].tally.right == CountTopicRight(ps + [q], answers, r[j].topic)
    {
      CountsSnoc(ps, q, answers, r[j].topic);
    }
  }

  lemma TallyStepCovers(ps: seq<Question>, q: Question, answers: Answers, ts: seq<TopicEntry>)
    requires CoversTopics(ts, ps)
    ensures CoversTopics(Bump(ts, TopicOf(q), IsRight(q, answers)), ps + [q])
  {
    var qs := ps + [q];
    var t := TopicOf(q);
    var r := Bump(ts, t, IsRight(q, answers));
    BumpShape(ts, t, IsRight(q, answers));
    forall j | 0 <= j < |r| ensures FirstAt(qs, r[j].topic) < |qs| {
      FirstAtSnoc(ps, q, r[j].topic);
    }
    forall p | 0 <= p < |qs| ensures HasTopic(r, TopicOf(qs[p])) {
      if p < |ps| {
        assert qs[p] == ps[p];
        var j :| 0 <= j < |ts| && ts[j].topic == TopicOf(ps[p]);
        assert r[j].topic == TopicOf(ps[p]);
      }
    }
  }

  lemma TallyStepOrder(ps: seq<Question>, q: Question, answers: Answers, ts: seq<TopicEntry>)
    requires CoversTopics(ts, ps) && FirstEncounterOrder(ts, ps)
    ensures FirstEncounterOrder(Bump(ts, TopicOf(q), IsRight(q, answers)), ps + [q])
  {
    var qs := ps + [q];
    var t := TopicOf(q);
    var r := Bump(ts, t, IsRight(q, answers));
    BumpShape(ts, t, IsRight(q, answers));
    forall j, k | 0 <= j < k < |r| ensures FirstAt(qs, r[j].topic) < FirstAt(qs, r[k].topic) {
      FirstAtSnoc(ps, q, r[j].topic);
      FirstAtSnoc(ps, q, r[k].topic);
      if k == |ts| {
        NewTopic(ts, ps, answers, t);
      }
    }
  }

  /** One iteration of the loop keeps `Tallied`. */
  lemma TallyStep(ps: seq<Question>, q: Question, answers: Answers, ts: seq<TopicEntry>)
    requires Tallied(ts, ps, answers)
    ensures Tallied(Bump(ts, TopicOf(q), IsRight(q, answers)), ps + [q], answers)
  {
    BumpDistinct(ts, TopicOf(q), IsRight(q, answers));
    TallyStepCounts(ps, q, answers, ts);
    TallyStepCovers(ps, q, answers, ts);
    TallyStepOrder(ps, q, answers, ts);
  }

  lemma {:induction false} CountTopicRightLe(qs: seq<Question>, answers: Answers, t: string)
    ensures CountTopicRight(qs, answers, t) <= CountTopic(qs, t)
    decreases |qs|
  {
    if qs != [] {
      CountTopicRightLe(qs[..|qs| - 1], answers, t);
    }
  }

  lemma {:induction false} CountRightLe(qs: seq<Question>, answers: Answers)
    ensures CountRight(qs, answers) <= |qs|
    decreases |qs|
  {
    if qs != [] {
      CountRightLe(qs[..|qs| - 1], answers);
    }
  }

  // ---------------------------------------------------------------------
  // Percentages and recommendations.
  // ---------------------------------------------------------------------

  /** A percentage of a part of a whole lies in [0, 100] and is 100 exactly
      when the part is the whole. */
  lemma PercentBounds(part: nat, whole: nat)
    requires part <= whole
    ensures 0.0 <= Percent(part, whole) <= 100.0
    ensures whole > 0 ==> (Percent(part, whole) == 100.0 <==> part == whole)
  {
    if whole > 0 {
      var w := whole as real;
      var p := part as real;
      var q := p / w;
      assert q * w == p;
      assert q <= 1.0;
      assert Percent(part, whole) == q * 100.0;
      if q == 1.0 {
        assert p == w;
      }
    }
  }

  /** A percentage is the share of the whole, scaled to 100: multiplying
      it back by the whole gives a hundred times the part. */
  lemma PercentScales(part: nat, whole: nat)
    ensures whole > 0 ==> (part as real / whole as real) * 100.0 * (whole as real) == 100.0 * (part as real)
  {
    if whole > 0 {
      var w := whole as real;
      var q := part as real / w;
      assert q * w == part as real;
    }
  }

  /** The real-valued threshold test is the integer comparison
      `part * 100 < threshold * whole`. */
  lemma PercentBelowIff(part: nat, whole: nat, threshold: nat)
    requires whole > 0
    ensures Percent(part, whole) < threshold as real <==> part * 100 < threshold * whole
  {
    var w := whole as real;
    var q := part as real / w;
    assert q * w == part as real;
    var pc := Percent(part, whole);
    assert pc == q * 100.0;
    assert pc * w == (part * 100) as real;
    if pc < threshold as real {
      assert pc * w < threshold as real * w;
    }
    if part * 100 < threshold * whole {
      assert pc * w < (threshold * whole) as real;
      assert (threshold * whole) as real == threshold as real * w;
    }
  }

  /** A topic is weak when its percentage is under the mastery threshold. */
  predicate IsWeak(e: TopicEntry) {
    Percent(e.tally.right, e.tally.total) < MasteryThreshold as real
  }

  function RecOf(e: TopicEntry): Rec {
    Rec(e.topic, Percent(e.tally.right, e.tally.total))
  }

  function RecsOf(ts: seq<TopicEntry>): seq<Rec> {
    seq(|ts|, j requires 0 <= j < |ts| => RecOf(ts[j]))
  }

  /** The recommendation loop over the topic table. */
  function Recommend(ts: seq<TopicEntry>): (rs: seq<Rec>)
    ensures |rs| <= |ts|
    ensures forall k :: 0 <= k < |rs| ==> rs[k].percent < MasteryThreshold as real
  {
    if ts == [] then []
    else (if IsWeak(ts[0]) then [RecOf(ts[0])] else []) + Recommend(ts[1..])
  }

  /** Every weak topic is recommended. */
  lemma {:induction false} RecommendComplete(ts: seq<TopicEntry>)
    ensures forall j :: 0 <= j < |ts| && IsWeak(ts[j]) ==> RecOf(ts[j]) in Recommend(ts)
    decreases |ts|
  {
    if ts != [] {
      RecommendComplete(ts[1..]);
      forall j | 0 < j < |ts| && IsWeak(ts[j]) ensures RecOf(ts[j]) in Recommend(ts) {
        assert ts[j] == ts[1..][j - 1];
      }
    }
  }

  /** Only weak topics are recommended. */
  lemma {:induction false} RecommendSound(ts: seq<TopicEntry>)
    ensures forall x :: x in Recommend(ts) ==>
              exists j :: 0 <= j < |ts| && IsWeak(ts[j]) && x == RecOf(ts[j])
    decreases |ts|
  {
    if ts != [] {
      RecommendSound(ts[1..]);
      forall x | x in Recommend(ts)
        ensures exists j :: 0 <= j < |ts| && IsWeak(ts[j]) && x == RecOf(ts[j])
      {
        if x in Recommend(ts[1..]) {
          var j :| 0 <= j < |ts[1..]| && IsWeak(ts[1..][j]) && x == RecOf(ts[1..][j]);
          assert ts[j + 1] == ts[1..][j];
        } else {
          assert IsWeak(ts[0]) && x == RecOf(ts[0]);
        }
      }
    }
  }

  /** Recommendations keep the order of the topic table. */
  lemma {:induction false} RecommendOrdered(ts: seq<TopicEntry>)
    ensures Text.IsSubsequence(Recommend(ts), RecsOf(ts))
    decreases |ts|
  {
    if ts != [] {
      RecommendOrdered(ts[1..]);
      var rest := Recommend(ts[1..]);
      assert RecsOf(ts)[1..] == RecsOf(ts[1..]);
      if IsWeak(ts[0]) {
        assert Recommend(ts) == [RecOf(ts[0])] + rest;
        assert Recommend(ts)[1..] == rest;
      } else {
        assert Recommend(ts) == rest;
      }
    }
  }

  /** A topic of the table is recommended exactly when it scores below the
      mastery threshold. */
  lemma RecommendIff(ts: seq<TopicEntry>, j: nat)
    requires DistinctTopics(ts) && j < |ts| && ts[j].tally.total > 0
    ensures RecOf(ts[j]) in Recommend(ts) <==>
            ts[j].tally.right * 100 < MasteryThreshold * ts[j].tally.total
  {
    var e := ts[j];
    RecommendComplete(ts);
    RecommendSound(ts);
    PercentBelowIff(e.tally.right, e.tally.total, MasteryThreshold);
    if RecOf(e) in Recommend(ts) {
      var i :| 0 <= i < |ts| && IsWeak(ts[i]) && RecOf(e) == RecOf(ts[i]);
      assert ts[i].topic == e.topic;
    }
  }

  /** Scores one submission. */
  function Score(qs: seq<Question>, answers: Answers): (r: ScoreResult)
    ensures r.correct == CountRight(qs, answers) <= |qs|
    ensures Tallied(r.topics, qs, answers)
    ensures SumTotals(r.topics) == |qs| && SumRights(r.topics) == r.correct
    ensures |qs| == 0 ==> r.percent == 0.0 && r.topics == [] && r.recs == []
    ensures r.percent == Percent(r.correct, |qs|)
    ensures 0.0 <= r.percent <= 100.0
    ensures |qs| > 0 ==> (r.percent == 100.0 <==> r.correct == |qs|)
    ensures forall j :: 0 <= j < |r.topics| ==>
              (RecOf(r.topics[j]) in r.recs <==>
               r.topics[j].tally.right * 100 < MasteryThreshold * r.topics[j].tally.total)
    ensures forall x :: x in r.recs ==> exists j :: 0 <= j < |r.topics| && x == RecOf(r.topics[j])
    ensures Text.IsSubsequence(r.recs, RecsOf(r.topics))
  {
    var t := TallyAll(qs, answers);
    CountRightLe(qs, answers);
    PercentBounds(t.correct, |qs|);
    RecommendSound(t.topics);
    RecommendOrdered(t.topics);
    forall j | 0 <= j < |t.topics|
      ensures RecOf(t.topics[j]) in Recommend(t.topics) <==>
              t.topics[j].tally.right * 100 < MasteryThreshold * t.topics[j].tally.total
    {
      RecommendIff(t.topics, j);
    }
    ScoreResult(t.correct, Percent(t.correct, |qs|), t.topics, Recommend(t.topics))
  }

  /** Each tallied topic has no more right answers than questions. */
  lemma ScoreTopicBounds(qs: seq<Question>, answers: Answers)
    ensures forall j :: 0 <= j < |Score(qs, answers).topics| ==>
              Score(qs, answers).topics[j].tally.right <= Score(qs, answers).topics[j].tally.total
  {
    var ts := Score(qs, answers).topics;
    forall j | 0 <= j < |ts| ensures ts[j].tally.right <= ts[j].tally.total {
      CountTopicRightLe(qs, answers, ts[j].topic);
    }
  }

  /** An unanswered question is scored with the choice -1, so it is wrong
      whenever its answer index is a real option index, yet it still counts
      once towards its topic's total. */
  lemma UnansweredQuestion(qs: seq<Question>, q: Question, answers: Answers)
    requires Text.DecimalString(q.id) !in answers && q.answerIndex >= 0
    ensures Score(qs + [q], answers).correct == Score(qs, answers).correct
    ensures HasTopic(Score(qs + [q], answers).topics, TopicOf(q))
    ensures forall j :: 0 <= j < |Score(qs + [q], answers).topics| &&
                        Score(qs + [q], answers).topics[j].topic == TopicOf(q) ==>
              Score(qs + [q], answers).topics[j].tally ==
                Tally(CountTopicRight(qs, answers, TopicOf(q)), CountTopic(qs, TopicOf(q)) + 1)
  {
    var all := qs + [q];
    assert all[..|all| - 1] == qs;
    assert all[|all| - 1] == q;
    assert !IsRight(q, answers);
    assert |all| > 0 && TopicOf(all[|all| - 1]) == TopicOf(q);
  }

  lemma TallyAllSnoc(ps: seq<Question>, q: Question, answers: Answers)
    ensures TallyAll(ps + [q], answers) ==
            var prev := TallyAll(ps, answers);
            var hit := IsRight(q, answers);
            Tallies(prev.correct + (if hit then 1 else 0), Bump(prev.topics, TopicOf(q), hit))
  {
    InitOfSnoc(ps, q);
    TallyAllUnfold(ps + [q], answers);
  }

  /** One unfolding of `TallyAll`: the last question scored on top of the
      tallies of the others. */
  lemma TallyAllUnfold(qs: seq<Question>, answers: Answers)
    requires qs != []
    ensures TallyAll(qs, answers) ==
            var prev := TallyAll(qs[..|qs| - 1], answers);
            var hit := IsRight(qs[|qs| - 1], answers);
            Tallies(prev.correct + (if hit then 1 else 0), Bump(prev.topics, TopicOf(qs[|qs| - 1]), hit))
  {
  }

  /** The questions and answers of the worked example below. */
  function ExampleQuestions(): seq<Question> {
    [Question(1, "", [], 0, Some("fractions")), Question(2, "", [], 0, Some("fractions")),
     Question(3, "", [], 0, Some("fractions")), Question(4, "", [], 0, Some("decimal"))]
  }

  function ExampleAnswers(): Answers {
    map["1" := 0, "2" := 1, "3" := 0, "4" := 0]
  }

  /** The tallies after `n + 1` questions: those after `n`, with question
      `n` scored on top. */
  lemma TallyPrefix(qs: seq<Question>, answers: Answers, n: nat)
    requires n < |qs|
    ensures TallyAll(qs[..n + 1], answers) ==
            var prev := TallyAll(qs[..n], answers);
            var hit := IsRight(qs[n], answers);
            Tallies(prev.correct + (if hit then 1 else 0), Bump(prev.topics, TopicOf(qs[n]), hit))
  {
    assert qs[..n + 1] == qs[..n] + [qs[n]];
    TallyAllSnoc(qs[..n], qs[n], answers);
  }

  /** The example's answers are right, wrong, right, right. */
  lemma ExampleMarks()
    ensures IsRight(ExampleQuestions()[0], ExampleAnswers())
    ensures !IsRight(ExampleQuestions()[1], ExampleAnswers())
    ensures IsRight(ExampleQuestions()[2], ExampleAnswers())
    ensures IsRight(ExampleQuestions()[3], ExampleAnswers())
  {
    assert Text.DecimalString(1) == "1";
    assert Text.DecimalString(2) == "2";
    assert Text.DecimalString(3) == "3";
    assert Text.DecimalString(4) == "4";
  }

  /** Bumping the only entry of a one-topic table. */
  lemma BumpSingle(t: string, tally: Tally, hit: bool)
    ensures Bump([TopicEntry(t, tally)], t, hit) == [TopicEntry(t, Add(tally, hit))]
  {
    var ts := [TopicEntry(t, tally)];
    assert HasTopic(ts, t) by {
      assert ts[0].topic == t;
    }
    BumpShape(ts, t, hit);
  }

  /** The tallies after the first question: one topic, counted once. */
  lemma FirstQuestionTally(qs: seq<Question>, answers: Answers)
    requires qs != []
    ensures TallyAll(qs[..1], answers) ==
            var hit := IsRight(qs[0], answers);
            Tallies(if hit then 1 else 0, [TopicEntry(TopicOf(qs[0]), Add(Tally(0, 0), hit))])
  {
    assert qs[..0] == [];
    TallyPrefix(qs, answers, 0);
    assert !HasTopic([], TopicOf(qs[0]));
  }

  /** While every question so far has had topic `t`, the next question
      with topic `t` bumps the one entry. */
  lemma SameTopicTally(qs: seq<Question>, answers: Answers, n: nat, correct: nat, t: string, tally: Tally)
    requires n < |qs| && TopicOf(qs[n]) == t
    requires TallyAll(qs[..n], answers) == Tallies(correct, [TopicEntry(t, tally)])
    ensures TallyAll(qs[..n + 1], answers) ==
            var hit := IsRight(qs[n], answers);
            Tallies(correct + (if hit then 1 else 0), [TopicEntry(t, Add(tally, hit))])
  {
    TallyPrefix(qs, answers, n);
    BumpSingle(t, tally, IsRight(qs[n], answers));
  }

  /** The example's last question opens the second topic. */
  lemma ExampleLastStep(qs: seq<Question>, answers: Answers)
    requires |qs| == 4
    requires TallyAll(qs[..3], answers) == Tallies(2, [TopicEntry("fractions", Tally(2, 3))])
    requires IsRight(qs[3], answers) && TopicOf(qs[3]) == "decimal"
    ensures TallyAll(qs, answers) ==
            Tallies(3, [TopicEntry("fractions", Tally(2, 3)), TopicEntry("decimal", Tally(1, 1))])
  {
    var t3 := [TopicEntry("fractions", Tally(2, 3))];
    assert !HasTopic(t3, "decimal") by {
      assert t3[0].topic != "decimal";
    }
    assert Bump(t3, "decimal", true) == t3 + [TopicEntry("decimal", Tally(1, 1))];
  }

  /** The example's tallies, one question at a time. */
  lemma ExampleTallies()
    ensures TallyAll(ExampleQuestions(), ExampleAnswers()) ==
            Tallies(3, [TopicEntry("fractions", Tally(2, 3)), TopicEntry("decimal", Tally(1, 1))])
  {
    var qs, answers := ExampleQuestions(), ExampleAnswers();
    ExampleMarks();
    assert TopicOf(qs[0]) == TopicOf(qs[1]) == TopicOf(qs[2]) == "fractions";
    assert TopicOf(qs[3]) == "decimal";
    FirstQuestionTally(qs, answers);
    SameTopicTally(qs, answers, 1, 1, "fractions", Tally(1, 1));
    SameTopicTally(qs, answers, 2, 1, "fractions", Tally(1, 2));
    ExampleLastStep(qs, answers);
  }

  /** The scored submission reports the loop's tallies. */
  lemma ScoreFromTallies(qs: seq<Question>, answers: Answers, correct: nat, ts: seq<TopicEntry>)
    requires TallyAll(qs, answers) == Tallies(correct, ts)
    ensures Score(qs, answers) == ScoreResult(correct, Percent(correct, |qs|), ts, Recommend(ts))
  {
  }

  /** Of the example's two topics only fractions, at 200/3 percent, falls
      below the mastery threshold. */
  lemma ExampleRecommend()
    ensures Recommend([TopicEntry("fractions", Tally(2, 3)), TopicEntry("decimal", Tally(1, 1))]) ==
            [Rec("fractions", 200.0 / 3.0)]
  {
    var t4 := [TopicEntry("fractions", Tally(2, 3)), TopicEntry("decimal", Tally(1, 1))];
    assert Percent(1, 1) == 100.0;
    assert Percent(2, 3) == 200.0 / 3.0;
    assert t4[1..][1..] == [];
    assert Recommend(t4[1..]) == [];
  }

  /** Three fractions questions and one decimal question answered right,
      wrong, right, right: 75 percent overall, fractions at 2 of 3 and
      recommended at 200/3 percent, decimal at 1 of 1 and not recommended. */
  lemma WorkedExample()
    ensures Score(ExampleQuestions(), ExampleAnswers()).percent == 75.0
    ensures Score(ExampleQuestions(), ExampleAnswers()).topics ==
            [TopicEntry("fractions", Tally(2, 3)), TopicEntry("decimal", Tally(1, 1))]
    ensures Score(ExampleQuestions(), ExampleAnswers()).recs == [Rec("fractions", 200.0 / 3.0)]
  {
    var qs, answers := ExampleQuestions(), ExampleAnswers();
    var t4 := [TopicEntry("fractions", Tally(2, 3)), TopicEntry("decimal", Tally(1, 1))];
    ExampleTallies();
    ScoreFromTallies(qs, answers, 3, t4);
    ExampleRecommend();
    assert |qs| == 4 && Percent(3, 4) == 75.0;
  }
}
