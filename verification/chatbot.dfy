/** The tutoring assistant: a cascade of stages over the lower-cased,
    stripped input, where the first stage that fires decides the reply. */
module Chatbot {
  import opened Wrappers
  import opened Text
  import opened Corpus

  /** The TF-IDF similarity search, kept abstract: for a normalised input,
      the index of the best-scoring corpus question and its cosine score, or
      `None` when the search raised. */
  type Similarity = string -> Option<(nat, real)>

  /** `user_input.lower().strip()`: empty exactly for blank input, with no
      whitespace at either end and no upper-case letter left. */
  function Normalize(input: string): (ui: string)
    ensures ui == [] <==> AllSpace(input)
    ensures ui == [] || (!IsSpace(ui[0]) && !IsSpace(ui[|ui| - 1]))
    ensures forall i :: 0 <= i < |ui| ==> !('A' <= ui[i] <= 'Z')
  {
    StripLower(input);
    Strip(Lower(input))
  }

  /** Lower-casing changes no whitespace, and stripping adds no letter. */
  lemma StripLower(input: string)
    ensures Strip(Lower(input)) == [] <==> AllSpace(input)
    ensures forall i :: 0 <= i < |Strip(Lower(input))| ==> !('A' <= Strip(Lower(input))[i] <= 'Z')
  {
    LowerKeepsSpace(input);
    StripEmptyIff(Lower(input));
    LowerCases(input);
    StripKeepsNoUpper(Lower(input));
  }

  /** The stages of the cascade. `Keyword(i)` and `Similar(i)` answer with
      corpus entry `i`. */
  datatype Stage =
    | EmptyInput
    | Greeting
    | Thanks
    | Distress
    | Compliment
    | Keyword(entry: nat)
    | Similar(entry: nat)
    | MathMenu
    | HelpMenu
    | Fallback

  /** Position of a stage in the cascade. */
  function Rank(st: Stage): (r: nat)
    ensures r <= 9
  {
    match st
    case EmptyInput => 0
    case Greeting => 1
    case Thanks => 2
    case Distress => 3
    case Compliment => 4
    case Keyword(_) => 5
    case Similar(_) => 6
    case MathMenu => 7
    case HelpMenu => 8
    case Fallback => 9
  }

  /** `a` is tried before `b`: an earlier stage, or an earlier corpus entry
      within the keyword stage. */
  predicate Precedes(a: Stage, b: Stage) {
    Rank(a) < Rank(b) || (a.Keyword? && b.Keyword? && a.entry < b.entry)
  }

  /** Some topic of the synonym table has a synonym in the input and its name
      in the (lower-cased) corpus question. */
  predicate TopicMatch(question: string, ui: string) {
    exists k :: 0 <= k < |TopicKeywords| &&
      ContainsAny(ui, TopicKeywords[k].1) && Contains(Lower(question), TopicKeywords[k].0)
  }

  /** A corpus question qualifies for the keyword stage. */
  predicate Qualifies(question: string, ui: string) {
    |WordSet(Lower(question)) * WordSet(ui)| >= MinCommonWords || TopicMatch(question, ui)
  }

  /** The rule stages: whether each, taken on its own, would answer. */
  predicate RuleFires(st: Stage, ui: string)
    requires Rank(st) <= 4
  {
    match st
    case EmptyInput => ui == []
    case Greeting => ContainsAny(ui, GreetingWords)
    case Thanks => ContainsAny(ui, ThanksWords)
    case Distress => ContainsAny(ui, DistressWords)
    case Compliment => ContainsAny(ui, ComplimentWords) && ContainsAny(ui, SelfWords)
  }

  /** When each stage, taken on its own, would answer the normalised input. */
  predicate Fires(st: Stage, ui: string, sim: Similarity) {
    match st
    case Keyword(i) => i < |FaqQuestions| && Qualifies(FaqQuestions[i], ui)
    case Similar(i) =>
      i < |FaqQuestions| && sim(ui).Some? && sim(ui).value.0 == i &&
      sim(ui).value.1 > SimilarityThreshold
    case MathMenu => ContainsAny(ui, MathWords)
    case HelpMenu => Contains(ui, HelpWord)
    case Fallback => true
    case _ => RuleFires(st, ui)
  }

  /** The rule stages in order: the first that fires, if any. */
  function RuleStage(ui: string): (r: Option<Stage>)
    ensures r.Some? ==> Rank(r.value) <= 4 && RuleFires(r.value, ui)
    ensures forall st :: Rank(st) <= 4 && (r.None? || Rank(st) < Rank(r.value)) ==> !RuleFires(st, ui)
  {
    if ui == [] then Some(EmptyInput)
    else if ContainsAny(ui, GreetingWords) then Some(Greeting)
    else if ContainsAny(ui, ThanksWords) then Some(Thanks)
    else if ContainsAny(ui, DistressWords) then Some(Distress)
    else if ContainsAny(ui, ComplimentWords) && ContainsAny(ui, SelfWords) then Some(Compliment)
    else None
  }

  /** The keyword stage's scan of the questions from entry `from` on: the
      first qualifying entry, or `None` when no later entry qualifies. */
  function FirstKeyword(questions: seq<string>, ui: string, from: nat): (r: Option<nat>)
    requires from <= |questions|
    ensures r.Some? ==> from <= r.value < |questions| && Qualifies(questions[r.value], ui)
    ensures r.Some? ==> forall k :: from <= k < r.value ==> !Qualifies(questions[k], ui)
    ensures r.None? ==> forall k :: from <= k < |questions| ==> !Qualifies(questions[k], ui)
    decreases |questions| - from
  {
    if from == |questions| then None
    else if Qualifies(questions[from], ui) then Some(from)
    else FirstKeyword(questions, ui, from + 1)
  }

  /** The similarity stage: answers with the best entry only when its score
      is strictly above the threshold; a failed search, or an index outside
      the corpus, falls through. */
  function SimilarEntry(ui: string, sim: Similarity): (r: Option<nat>)
    ensures r.Some? <==> exists i :: Fires(Similar(i), ui, sim)
    ensures r.Some? ==> Fires(Similar(r.value), ui, sim)
  {
    match sim(ui)
    case None => None
    case Some(best) =>
      if best.1 > SimilarityThreshold && best.0 < |FaqQuestions| then
        assert Fires(Similar(best.0), ui, sim);
        Some(best.0)
      else None
  }

  /** The stages after the corpus: the maths menu, the help menu, and the
      fallback. */
  function MenuStage(ui: string): (st: Stage)
    ensures Rank(st) >= 7
    ensures st == MathMenu <==> ContainsAny(ui, MathWords)
    ensures st == HelpMenu <==> !ContainsAny(ui, MathWords) && Contains(ui, HelpWord)
  {
    if ContainsAny(ui, MathWords) then MathMenu
    else if Contains(ui, HelpWord) then HelpMenu
    else Fallback
  }

  /** The cascade: the stage that answers the normalised input `ui`. */
  function Classify(ui: string, sim: Similarity): (st: Stage)
    ensures Fires(st, ui, sim)
    ensures st.Keyword? ==> st.entry < |FaqQuestions|
    ensures st.Similar? ==> st.entry < |FaqQuestions|
  {
    match RuleStage(ui)
    case Some(rule) => rule
    case None =>
      match FirstKeyword(FaqQuestions, ui, 0)
      case Some(i) => Keyword(i)
      case None =>
        match SimilarEntry(ui, sim)
        case Some(i) => Similar(i)
        case None => MenuStage(ui)
  }

  /** No stage tried before the chosen one fires: the first stage that fires
      wins. */
  lemma ClassifyIsFirstMatch(ui: string, sim: Similarity, other: Stage)
    requires Precedes(other, Classify(ui, sim))
    ensures !Fires(other, ui, sim)
  {
    match other
    case Keyword(_) => EarlierKeywordSilent(ui, sim, other);
    case Similar(_) => EarlierSimilarSilent(ui, sim, other);
    case MathMenu => EarlierMathSilent(ui, sim);
    case HelpMenu => EarlierHelpSilent(ui, sim);
    case Fallback => assert false;
    case _ => EarlierRuleSilent(ui, sim, other);
  }

  /** A rule stage tried before the chosen stage does not fire. */
  lemma EarlierRuleSilent(ui: string, sim: Similarity, other: Stage)
    requires Rank(other) <= 4 && Precedes(other, Classify(ui, sim))
    ensures !RuleFires(other, ui)
  {
    var rule := RuleStage(ui);
    assert rule.None? || Rank(other) < Rank(rule.value);
  }

  /** A corpus entry tried before the chosen stage does not qualify. */
  lemma EarlierKeywordSilent(ui: string, sim: Similarity, other: Stage)
    requires other.Keyword? && Precedes(other, Classify(ui, sim))
    ensures !Fires(other, ui, sim)
  {
    assert RuleStage(ui).None?;
    var kw := FirstKeyword(FaqQuestions, ui, 0);
    assert kw.None? || other.entry < kw.value;
    if other.entry < |FaqQuestions| {
      assert !Qualifies(FaqQuestions[other.entry], ui);
    }
  }

  /** The similarity stage, tried before a menu stage, does not fire. */
  lemma EarlierSimilarSilent(ui: string, sim: Similarity, other: Stage)
    requires other.Similar? && Precedes(other, Classify(ui, sim))
    ensures !Fires(other, ui, sim)
  {
    PastCorpus(ui, sim);
    assert SimilarEntry(ui, sim).None?;
    assert !exists i :: Fires(Similar(i), ui, sim);
  }

  /** When the cascade answers after the maths menu, the maths menu did
      not fire. */
  lemma EarlierMathSilent(ui: string, sim: Similarity)
    requires Rank(Classify(ui, sim)) > Rank(MathMenu)
    ensures !ContainsAny(ui, MathWords)
  {
    PastSimilarity(ui, sim);
  }

  /** When the cascade answers after the help menu, the help menu did not
      fire. */
  lemma EarlierHelpSilent(ui: string, sim: Similarity)
    requires Rank(Classify(ui, sim)) > Rank(HelpMenu)
    ensures !Contains(ui, HelpWord)
  {
    PastSimilarity(ui, sim);
    FallbackMenu(ui);
  }

  /** The menu stages fall back only when neither menu fires. */
  lemma FallbackMenu(ui: string)
    requires Rank(MenuStage(ui)) > Rank(HelpMenu)
    ensures !ContainsAny(ui, MathWords) && !Contains(ui, HelpWord)
  {
    var menu := MenuStage(ui);
    assert menu != MathMenu && menu != HelpMenu;
  }


  /** When the cascade gets past the similarity stage, a menu stage
      answers. */
  lemma PastSimilarity(ui: string, sim: Similarity)
    requires Rank(Classify(ui, sim)) >= 7
    ensures Classify(ui, sim) == MenuStage(ui)
  {
    ClassifySteps(ui, sim);
  }

  /** When the cascade gets past the keyword stage, no rule stage and no
      corpus entry answered. */
  lemma PastCorpus(ui: string, sim: Similarity)
    requires Rank(Classify(ui, sim)) >= 6
    ensures RuleStage(ui).None? && FirstKeyword(FaqQuestions, ui, 0).None?
  {
    ClassifySteps(ui, sim);
  }

  /** The cascade step by step: each stage answers when every earlier one
      has passed and it has an answer. */
  lemma ClassifySteps(ui: string, sim: Similarity)
    ensures RuleStage(ui).Some? ==> Classify(ui, sim) == RuleStage(ui).value
    ensures RuleStage(ui).None? && FirstKeyword(FaqQuestions, ui, 0).Some? ==>
              Classify(ui, sim) == Keyword(FirstKeyword(FaqQuestions, ui, 0).value)
    ensures RuleStage(ui).None? && FirstKeyword(FaqQuestions, ui, 0).None? && SimilarEntry(ui, sim).Some? ==>
              Classify(ui, sim) == Similar(SimilarEntry(ui, sim).value)
    ensures RuleStage(ui).None? && FirstKeyword(FaqQuestions, ui, 0).None? && SimilarEntry(ui, sim).None? ==>
              Classify(ui, sim) == MenuStage(ui)
  {
  }





  /** Conversely, a stage that fires with no earlier stage firing is the one
      the cascade picks. */
  lemma ClassifyUnique(ui: string, sim: Similarity, st: Stage)
    requires Fires(st, ui, sim)
    requires forall other :: Precedes(other, st) ==> !Fires(other, ui, sim)
    ensures Classify(ui, sim) == st
  {
    if Precedes(st, Classify(ui, sim)) {
      ClassifyIsFirstMatch(ui, sim, st);
    }
  }

  /** A reply: one fixed text, or a uniform random pick among several. */
  datatype Reply = Fixed(text: string) | OneOf(choices: seq<string>)

  /** The texts a reply can turn out to be. */
  function Outcomes(r: Reply): set<string> {
    match r
    case Fixed(t) => {t}
    case OneOf(cs) => set c | c in cs
  }

  /** The reply each stage gives, from the text table `t`. */
  function ReplyFor(st: Stage, t: Texts): (r: Reply)
    requires Complete(t)
    requires st.Keyword? ==> st.entry < |FaqQuestions|
    requires st.Similar? ==> st.entry < |FaqQuestions|
    ensures r.OneOf? <==> st == Greeting || st == Thanks || st == Fallback
    ensures st.Keyword? || st.Similar? ==> r.Fixed? && StartsWith(r.text, t.answers[st.entry])
  {
    match st
    case EmptyInput => Fixed(t.emptyInput)
    case Greeting => OneOf(t.greetings)
    case Thanks => OneOf(t.thanks)
    case Distress => Fixed(t.distress)
    case Compliment => Fixed(t.compliment)
    case Keyword(i) => Fixed(t.answers[i] + t.needMoreHelp)
    case Similar(i) => Fixed(t.answers[i] + t.wasHelpful)
    case MathMenu => Fixed(t.mathMenu)
    case HelpMenu => Fixed(t.helpMenu)
    case Fallback => OneOf(t.fallbacks)
  }

  /** Every stage has at least one reply text, and none is empty. */
  lemma ReplyNonEmpty(st: Stage, t: Texts)
    requires Complete(t)
    requires st.Keyword? ==> st.entry < |FaqQuestions|
    requires st.Similar? ==> st.entry < |FaqQuestions|
    ensures Outcomes(ReplyFor(st, t)) != {}
    ensures forall s :: s in Outcomes(ReplyFor(st, t)) ==> |s| > 0
  {
    var r := ReplyFor(st, t);
    if r.OneOf? {
      assert r.choices[0] in Outcomes(r);
    }
  }

  /** The assistant's answer to a raw input: never an error, always at
      least one possible text, and every possible text non-empty. */
  function Respond(input: string, sim: Similarity, t: Texts): (r: Reply)
    requires Complete(t)
    ensures Outcomes(r) != {}
    ensures forall s :: s in Outcomes(r) ==> |s| > 0
  {
    var st := Classify(Normalize(input), sim);
    ReplyNonEmpty(st, t);
    ReplyFor(st, t)
  }

  /** `random.choice` with the random source made explicit: `choice` picks
      among the possible texts. */
  function Pick(r: Reply, choice: nat): (s: string)
    requires r.OneOf? ==> |r.choices| > 0
    ensures s in Outcomes(r)
  {
    match r
    case Fixed(s) => s
    case OneOf(cs) => cs[choice % |cs|]
  }

  /** `chatbot_answer`, answering from the text table `t` (the portal's own
      table is `Canned`, which `CannedComplete` shows is complete): always a
      non-empty text, one of those the cascade allows for the input. */
  function Answer(input: string, sim: Similarity, t: Texts, choice: nat): (s: string)
    requires Complete(t)
    ensures |s| > 0
    ensures s in Outcomes(Respond(input, sim, t))
  {
    var r := Respond(input, sim, t);
    assert r.OneOf? ==> r.choices[0] in Outcomes(r);
    Pick(r, choice)
  }

  /** An input that is empty or all whitespace gets the fixed prompt. */
  lemma BlankInputGetsPrompt(input: string, sim: Similarity, t: Texts)
    requires AllSpace(input) && Complete(t)
    ensures Classify(Normalize(input), sim) == EmptyInput
    ensures Respond(input, sim, t) == Fixed(t.emptyInput)
  {
    assert AllSpace(Lower(input));
    StripEmptyIff(Lower(input));
  }

  /** A greeting word anywhere in the normalised input wins over every later
      stage: the reply is one of the greeting replies and the corpus is not
      consulted. */
  lemma GreetingPreempts(input: string, sim: Similarity, t: Texts)
    requires ContainsAny(Normalize(input), GreetingWords) && Complete(t)
    ensures Classify(Normalize(input), sim) == Greeting
    ensures Respond(input, sim, t) == OneOf(t.greetings)
  {
    var ui := Normalize(input);
    var k :| 0 <= k < |GreetingWords| && Contains(ui, GreetingWords[k]);
    ContainsNonEmpty(ui, GreetingWords[k]);
    assert RuleStage(ui) == Some(Greeting);
  }

  /** The first rule stage to fire answers with its own text: the prompt
      for blank input, a random greeting or thanks, or the fixed distress or
      compliment reply. */
  lemma RuleStageReplies(input: string, sim: Similarity, t: Texts)
    requires Complete(t)
    ensures RuleStage(Normalize(input)) == Some(EmptyInput) ==> Respond(input, sim, t) == Fixed(t.emptyInput)
    ensures RuleStage(Normalize(input)) == Some(Greeting) ==> Respond(input, sim, t) == OneOf(t.greetings)
    ensures RuleStage(Normalize(input)) == Some(Thanks) ==> Respond(input, sim, t) == OneOf(t.thanks)
    ensures RuleStage(Normalize(input)) == Some(Distress) ==> Respond(input, sim, t) == Fixed(t.distress)
    ensures RuleStage(Normalize(input)) == Some(Compliment) ==> Respond(input, sim, t) == Fixed(t.compliment)
  {
  }

  lemma {:induction false} ContainsNonEmpty(s: string, sub: string)
    requires Contains(s, sub) && sub != []
    ensures s != []
  {
  }

  /** Greeting words are matched as substrings, not as words: "hi" inside
      "this" makes the input a greeting. */
  lemma ThisIsAGreeting(sim: Similarity, t: Texts)
    requires Complete(t)
    ensures Respond("This", sim, t) == OneOf(t.greetings)
  {
    var ui := "this";
    assert Lower("This") == ui;
    StripOfStripped(ui);
    assert ui[1..] == "his";
    assert StartsWith(ui[1..], "hi");
    assert Contains(ui, GreetingWords[1]);
    GreetingPreempts("This", sim, t);
  }

  /** The scan stops at the first qualifying question. */
  lemma FirstKeywordIs(questions: seq<string>, ui: string, i: nat)
    requires i < |questions| && Qualifies(questions[i], ui)
    requires forall k :: 0 <= k < i ==> !Qualifies(questions[k], ui)
    ensures FirstKeyword(questions, ui, 0) == Some(i)
  {
    var r := FirstKeyword(questions, ui, 0);
    assert r.Some?;
    assert r.value <= i;
  }

  /** The keyword stage answers with the first qualifying corpus entry, in
      corpus order, followed by the "need more help" suffix; later entries
      that also qualify are ignored. */
  lemma KeywordAnswer(input: string, sim: Similarity, t: Texts, i: nat)
    requires Complete(t)
    requires var ui := Normalize(input);
      && RuleStage(ui).None?
      && i < |FaqQuestions| && Qualifies(FaqQuestions[i], ui)
      && forall k :: 0 <= k < i ==> !Qualifies(FaqQuestions[k], ui)
    ensures Classify(Normalize(input), sim) == Keyword(i)
    ensures Respond(input, sim, t) == Fixed(t.answers[i] + t.needMoreHelp)
  {
    FirstKeywordIs(FaqQuestions, Normalize(input), i);
  }

  /** The similarity stage answers only with a score strictly above the
      threshold, and always with the "was this helpful" suffix. */
  lemma SimilarityGate(input: string, sim: Similarity, t: Texts)
    requires Complete(t)
    requires Classify(Normalize(input), sim).Similar?
    ensures var i := Classify(Normalize(input), sim).entry;
      && sim(Normalize(input)).Some?
      && sim(Normalize(input)).value.0 == i
      && sim(Normalize(input)).value.1 > SimilarityThreshold
      && Respond(input, sim, t) == Fixed(t.answers[i] + t.wasHelpful)
  {
    var st := Classify(Normalize(input), sim);
    assert Fires(st, Normalize(input), sim);
  }

  /** With no rule stage, no corpus entry and no confident similarity match,
      the reply is the maths menu, else the help menu, else a fallback. */
  lemma NoMatchFallsThrough(input: string, sim: Similarity, t: Texts)
    requires Complete(t)
    requires forall st :: Rank(st) <= 6 ==> !Fires(st, Normalize(input), sim)
    ensures Outcomes(Respond(input, sim, t)) ==
      if ContainsAny(Normalize(input), MathWords) then {t.mathMenu}
      else if Contains(Normalize(input), HelpWord) then {t.helpMenu}
      else set s | s in t.fallbacks
  {
    var ui := Normalize(input);
    var st := Classify(ui, sim);
    assert Fires(st, ui, sim);
    assert Rank(st) > 6;
    assert st == MenuStage(ui);
  }

  /** Asking a corpus question verbatim (any letter case, any surrounding
      whitespace) is answered at the keyword stage or earlier, so the
      similarity stage never sees it, provided the question has two distinct
      words. */
  lemma CorpusQuestionNeverReachesSimilarity(i: nat, sim: Similarity)
    requires i < |FaqQuestions| && |WordSet(Lower(FaqQuestions[i]))| >= MinCommonWords
    ensures Rank(Classify(Normalize(FaqQuestions[i]), sim)) <= 5
  {
    var q := FaqQuestions[i];
    var ui := Normalize(q);
    WordsOfStrip(Lower(q));
    assert WordSet(ui) == WordSet(Lower(q));
    assert WordSet(Lower(q)) * WordSet(ui) == WordSet(ui);
    assert Fires(Keyword(i), ui, sim);
    if Rank(Classify(ui, sim)) > 5 {
      ClassifyIsFirstMatch(ui, sim, Keyword(i));
    }
  }
}
