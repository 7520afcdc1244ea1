/** Reading a quiz out of the teacher's authoring form: each question comes
    with a text of options separated by semicolons or line breaks, an
    answer-index field and a topic field. The create and edit forms share
    this logic. */
module Authoring {
  import opened Wrappers
  import opened Text

  /** A question accepted from the form, as it is then stored. */
  datatype Draft = Draft(prompt: string, options: seq<string>, answerIndex: nat, topic: string)

  /** A question is kept only with at least this many options. */
  const MinOptions: nat := 2

  /** The topic given to a question whose topic field is missing. */
  const FormDefaultTopic: string := "general"

  /** Non-empty, with no whitespace at either end: what `strip` leaves of
      a string that is not all whitespace. */
  predicate Trimmed(o: string) {
    o != [] && !IsSpace(o[0]) && !IsSpace(o[|o| - 1])
  }

  /** No string of `xs` holds `c`. */
  predicate Avoid(xs: seq<string>, c: char) {
    forall k :: 0 <= k < |xs| ==> c !in xs[k]
  }

  /** An option as the parser leaves it: non-empty, no surrounding
      whitespace, no separator inside. */
  predicate IsCleanOption(o: string) {
    Trimmed(o) && ';' !in o && '\n' !in o
  }

  predicate AllClean(opts: seq<string>) {
    forall k :: 0 <= k < |opts| ==> IsCleanOption(opts[k])
  }

  /** Stripping adds no character. */
  lemma StripKeepsOut(s: string, c: char)
    ensures c !in s ==> c !in Strip(s)
  {
    var r := Strip(s);
    forall k | 0 <= k < |r| ensures r[k] == s[Lead(s) + k] {
    }
  }

  /** Every piece, stripped, in order. */
  function StripAll(parts: seq<string>): seq<string> {
    seq(|parts|, k requires 0 <= k < |parts| => Strip(parts[k]))
  }

  /** How many of the pieces are not all whitespace. */
  function CountNonBlank(parts: seq<string>): nat
    decreases |parts|
  {
    if parts == [] then 0
    else (if AllSpace(parts[0]) then 0 else 1) + CountNonBlank(parts[1..])
  }

  /** Strips every piece and drops the pieces left empty. What is kept is
      non-empty and has no surrounding whitespace, and it holds no separator
      the pieces did not hold. It is the strips of the pieces in their
      order with some left out: every piece that is not all whitespace
      contributes its strip, and every option is the strip of some piece.
      There is one option per such piece, so equal pieces are not merged. */
  function KeepStripped(parts: seq<string>): (opts: seq<string>)
    ensures |opts| <= |parts|
    ensures |opts| == CountNonBlank(parts)
    ensures forall k :: 0 <= k < |opts| ==> Trimmed(opts[k])
    ensures forall c :: Avoid(parts, c) ==> Avoid(opts, c)
    ensures IsSubsequence(opts, StripAll(parts))
    ensures forall k :: 0 <= k < |parts| && !AllSpace(parts[k]) ==> Strip(parts[k]) in opts
    ensures forall o :: o in opts ==> exists k :: 0 <= k < |parts| && o == Strip(parts[k])
    decreases |parts|
  {
    if parts == [] then []
    else
      var o := Strip(parts[0]);
      var rest := KeepStripped(parts[1..]);
      KeepStrippedStep(parts, o, rest);
      KeepStrippedOrder(parts, o, rest);
      StripEmptyIff(parts[0]);
      if o != [] then [o] + rest else rest
  }

  /** The inductive step of the order, completeness and soundness clauses of
      `KeepStripped`'s contract. */
  lemma KeepStrippedOrder(parts: seq<string>, o: string, rest: seq<string>)
    requires parts != [] && o == Strip(parts[0])
    requires IsSubsequence(rest, StripAll(parts[1..]))
    requires forall k :: 0 <= k < |parts[1..]| && !AllSpace(parts[1..][k]) ==> Strip(parts[1..][k]) in rest
    requires forall x :: x in rest ==> exists k :: 0 <= k < |parts[1..]| && x == Strip(parts[1..][k])
    ensures var opts := if o != [] then [o] + rest else rest;
            && IsSubsequence(opts, StripAll(parts))
            && (forall k :: 0 <= k < |parts| && !AllSpace(parts[k]) ==> Strip(parts[k]) in opts)
            && (forall x :: x in opts ==> exists k :: 0 <= k < |parts| && x == Strip(parts[k]))
  {
    var opts := if o != [] then [o] + rest else rest;
    var all := StripAll(parts);
    assert all[0] == o;
    assert all[1..] == StripAll(parts[1..]);
    if o != [] {
      assert opts[0] == all[0] && opts[1..] == rest;
    }
    forall k | 0 <= k < |parts| && !AllSpace(parts[k]) ensures Strip(parts[k]) in opts {
      if k == 0 {
        StripEmptyIff(parts[0]);
      } else {
        assert parts[k] == parts[1..][k - 1];
      }
    }
    forall x | x in opts ensures exists k :: 0 <= k < |parts| && x == Strip(parts[k]) {
      if x in rest {
        var j :| 0 <= j < |parts[1..]| && x == Strip(parts[1..][j]);
        assert parts[1..][j] == parts[j + 1];
      } else {
        assert x == Strip(parts[0]);
      }
    }
  }

  /** The inductive step of `KeepStripped`'s contract. */
  lemma KeepStrippedStep(parts: seq<string>, o: string, rest: seq<string>)
    requires parts != [] && o == Strip(parts[0])
    requires forall k :: 0 <= k < |rest| ==> Trimmed(rest[k])
    requires forall c :: Avoid(parts[1..], c) ==> Avoid(rest, c)
    ensures var opts := if o != [] then [o] + rest else rest;
            && (forall k :: 0 <= k < |opts| ==> Trimmed(opts[k]))
            && (forall c :: Avoid(parts, c) ==> Avoid(opts, c))
  {
    var opts := if o != [] then [o] + rest else rest;
    forall c | Avoid(parts, c) ensures Avoid(opts, c) {
      assert c !in parts[0];
      StripKeepsOut(parts[0], c);
      forall k | 0 <= k < |parts[1..]| ensures c !in parts[1..][k] {
        assert parts[1..][k] == parts[k + 1];
      }
      assert Avoid(rest, c);
      if o != [] {
        forall k | 0 <= k < |opts| ensures c !in opts[k] {
          if k > 0 {
            assert opts[k] == rest[k - 1];
          } else {
            assert opts[k] == o;
          }
        }
      }
    }
    if o != [] {
      assert Trimmed(o);
      forall k | 0 <= k < |opts| ensures Trimmed(opts[k]) {
        if k > 0 {
          assert opts[k] == rest[k - 1];
        } else {
          assert opts[k] == o;
        }
      }
    }
  }

  /** The pieces of an options text, line breaks counting as semicolons:
      joined back with semicolons they give the text, and none holds a
      separator. */
  function Pieces(text: string): (parts: seq<string>)
    ensures Join(parts, ';') == ReplaceChar(text, '\n', ';')
    ensures Avoid(parts, ';') && Avoid(parts, '\n')
  {
    var parts := Split(ReplaceChar(text, '\n', ';'), ';');
    JoinSplit(ReplaceChar(text, '\n', ';'), ';');
    assert Avoid(parts, '\n') by {
      forall k | 0 <= k < |parts| ensures '\n' !in parts[k] {
        JoinHolds(parts, ';', k);
      }
    }
    parts
  }

  /** `[opt.strip() for opt in text.replace('\n', ';').split(';') if opt.strip()]`:
      clean options, being the strips of the pieces that are not all
      whitespace, one per such piece, in the order of the text. */
  function ParseOptions(text: string): (opts: seq<string>)
    ensures AllClean(opts)
    ensures |opts| == CountNonBlank(Pieces(text))
    ensures IsSubsequence(opts, StripAll(Pieces(text)))
    ensures forall k :: 0 <= k < |Pieces(text)| && !AllSpace(Pieces(text)[k]) ==>
              Strip(Pieces(text)[k]) in opts
    ensures forall o :: o in opts ==>
              exists k :: 0 <= k < |Pieces(text)| && o == Strip(Pieces(text)[k])
  {
    var parts := Pieces(text);
    var opts := KeepStripped(parts);
    assert Avoid(opts, ';') && Avoid(opts, '\n');
    opts
  }

  /** Every piece of a join is a part of the joined text. */
  lemma {:induction false} JoinHolds(parts: seq<string>, sep: char, k: nat)
    requires k < |parts|
    ensures forall c :: c in parts[k] ==> c in Join(parts, sep)
    decreases |parts|
  {
    if |parts| > 1 {
      if k > 0 {
        JoinHolds(parts[1..], sep, k - 1);
      }
    }
  }

  /** Joining pieces that avoid `c` with a separator other than `c` gives a
      text without `c`. */
  lemma {:induction false} JoinAvoids(parts: seq<string>, sep: char, c: char)
    requires c != sep
    requires forall k :: 0 <= k < |parts| ==> c !in parts[k]
    ensures c !in Join(parts, sep)
    decreases |parts|
  {
    if |parts| > 1 {
      JoinAvoids(parts[1..], sep, c);
    }
  }

  lemma {:induction false} KeepStrippedClean(opts: seq<string>)
    requires AllClean(opts)
    ensures KeepStripped(opts) == opts
    decreases |opts|
  {
    if opts != [] {
      assert IsCleanOption(opts[0]);
      StripOfStripped(opts[0]);
      assert AllClean(opts[1..]) by {
        forall k | 0 <= k < |opts[1..]| ensures IsCleanOption(opts[1..][k]) {
          assert opts[1..][k] == opts[k + 1];
        }
      }
      KeepStrippedClean(opts[1..]);
    }
  }

  /** Writing clean options one per semicolon and parsing the text back
      gives the same options. */
  lemma OptionsRoundTrip(opts: seq<string>)
    requires AllClean(opts)
    ensures ParseOptions(Join(opts, ';')) == opts
  {
    var text := Join(opts, ';');
    JoinAvoids(opts, ';', '\n');
    ReplaceAbsent(text, '\n', ';');
    if opts == [] {
      assert Split(text, ';') == [""];
      StripOfStripped("");
    } else {
      SplitJoin(opts, ';');
      KeepStrippedClean(opts);
    }
  }

  /** `int(a) if a.isdigit() else 0`: the answer-index field; anything that
      is not a plain digit string, including a negative number or an empty
      field, reads as option 0. */
  function ParseAnswerIndex(a: string): (n: nat)
    ensures !IsDigits(a) ==> n == 0
  {
    if IsDigits(a) then DigitsValue(a) else 0
  }

  /** A rendered index reads back as itself. */
  lemma AnswerIndexRoundTrip(n: nat)
    ensures ParseAnswerIndex(DecimalString(n)) == n
  {
    DecimalRoundTrip(n);
  }

  /** `int` ignores leading zeros: "05" reads as option 5, like "5". */
  lemma AnswerIndexLeadingZero(a: string)
    requires IsDigits(a)
    ensures ParseAnswerIndex("0" + a) == ParseAnswerIndex(a)
  {
    DigitsLeadingZero(a);
    assert IsDigits("0" + a) by {
      forall k | 0 <= k < |"0" + a| ensures IsDigitChar(("0" + a)[k]) {
        if k > 0 { assert ("0" + a)[k] == a[k - 1]; }
      }
    }
  }

  /** Any number of leading zeros before a rendered index: it still reads
      back as the index. */
  lemma {:induction false} AnswerIndexPadded(zeros: nat, n: nat)
    ensures ParseAnswerIndex(seq(zeros, _ => '0') + DecimalString(n)) == n
    decreases zeros
  {
    if zeros == 0 {
      assert seq(zeros, _ => '0') + DecimalString(n) == DecimalString(n);
      AnswerIndexRoundTrip(n);
    } else {
      var rest := seq(zeros - 1, _ => '0') + DecimalString(n);
      AnswerIndexPadded(zeros - 1, n);
      assert IsDigits(rest) by {
        forall k | 0 <= k < |rest| ensures IsDigitChar(rest[k]) {
          if k >= zeros - 1 { assert rest[k] == DecimalString(n)[k - (zeros - 1)]; }
        }
      }
      AnswerIndexLeadingZero(rest);
      assert seq(zeros, _ => '0') + DecimalString(n) == "0" + rest;
    }
  }

  /** The `i`-th entry of a form list, or `default` past its end. */
  function FieldAt(fields: seq<string>, i: nat, default: string): string {
    if i < |fields| then fields[i] else default
  }

  /** The draft the form yields for question `i`, if it is kept: its text is
      not blank and its options text parses to at least two options. */
  function DraftAt(questions: seq<string>, options: seq<string>, answers: seq<string>,
                   topics: seq<string>, i: nat): (d: Option<Draft>)
    requires i < |questions|
    ensures d.Some? <==> Strip(questions[i]) != [] && |ParseOptions(FieldAt(options, i, ""))| >= MinOptions
    ensures d.Some? ==> d.value.prompt == questions[i] && |d.value.options| >= MinOptions
    ensures d.Some? ==> AllClean(d.value.options)
    ensures d.Some? && i >= |topics| ==> d.value.topic == FormDefaultTopic
    ensures d.Some? ==> d.value.options == ParseOptions(FieldAt(options, i, ""))
    ensures d.Some? ==> d.value.topic == FieldAt(topics, i, FormDefaultTopic)
    ensures d.Some? ==> d.value.answerIndex == if i < |answers| then ParseAnswerIndex(answers[i]) else 0
    ensures d.Some? && i >= |answers| ==> d.value.answerIndex == 0
  {
    if Strip(questions[i]) == [] then None
    else
      var opts := ParseOptions(FieldAt(options, i, ""));
      if |opts| < MinOptions then None
      else
        var answer := if i < |answers| then ParseAnswerIndex(answers[i]) else 0;
        Some(Draft(questions[i], opts, answer, FieldAt(topics, i, FormDefaultTopic)))
  }

  /** The values held by the present entries, in order. */
  function Present(xs: seq<Option<Draft>>): (ds: seq<Draft>)
    ensures |ds| <= |xs|
    decreases |xs|
  {
    if xs == [] then []
    else Present(xs[..|xs| - 1]) + (if xs[|xs| - 1].Some? then [xs[|xs| - 1].value] else [])
  }

  lemma {:induction false} PresentComplete(xs: seq<Option<Draft>>, i: nat)
    requires i < |xs| && xs[i].Some?
    ensures xs[i].value in Present(xs)
    decreases |xs|
  {
    if i < |xs| - 1 {
      PresentComplete(xs[..|xs| - 1], i);
    }
  }

  lemma {:induction false} PresentSound(xs: seq<Option<Draft>>, d: Draft)
    requires d in Present(xs)
    ensures exists i :: 0 <= i < |xs| && xs[i] == Some(d)
    decreases |xs|
  {
    var init := xs[..|xs| - 1];
    if d in Present(init) {
      PresentSound(init, d);
      var i :| 0 <= i < |init| && init[i] == Some(d);
      assert xs[i] == init[i];
    } else {
      assert xs[|xs| - 1] == Some(d);
    }
  }

  /** The outcome of the form for each of its questions. */
  function Slots(questions: seq<string>, options: seq<string>, answers: seq<string>,
                 topics: seq<string>): (xs: seq<Option<Draft>>)
    ensures |xs| == |questions|
    ensures forall i :: 0 <= i < |xs| ==> xs[i] == DraftAt(questions, options, answers, topics, i)
  {
    seq(|questions|, i requires 0 <= i < |questions| => DraftAt(questions, options, answers, topics, i))
  }

  /** The drafts the form yields: a draft for each question kept and nothing
      else, every one with a non-blank text and at least two options. */
  lemma FormDrafts(questions: seq<string>, options: seq<string>, answers: seq<string>,
                   topics: seq<string>)
    ensures var ds := Present(Slots(questions, options, answers, topics));
            && (forall i :: 0 <= i < |questions| && DraftAt(questions, options, answers, topics, i).Some? ==>
                  DraftAt(questions, options, answers, topics, i).value in ds)
            && (forall d :: d in ds ==>
                  exists i :: 0 <= i < |questions| && DraftAt(questions, options, answers, topics, i) == Some(d))
            && (forall d :: d in ds ==> |d.options| >= MinOptions && Strip(d.prompt) != [])
  {
    var xs := Slots(questions, options, answers, topics);
    var ds := Present(xs);
    forall i | 0 <= i < |questions| && DraftAt(questions, options, answers, topics, i).Some?
      ensures DraftAt(questions, options, answers, topics, i).value in ds
    {
      PresentComplete(xs, i);
    }
    forall d | d in ds
      ensures exists i :: 0 <= i < |questions| && DraftAt(questions, options, answers, topics, i) == Some(d)
    {
      PresentSound(xs, d);
    }
    forall d | d in ds
      ensures |d.options| >= MinOptions && Strip(d.prompt) != []
    {
      PresentSound(xs, d);
      var i :| 0 <= i < |questions| && DraftAt(questions, options, answers, topics, i) == Some(d);
    }
  }

  /** The loop over the submitted questions (the same loop serves the create
      and edit forms). */
  method BuildDrafts(questions: seq<string>, options: seq<string>, answers: seq<string>,
                     topics: seq<string>) returns (drafts: seq<Draft>)
    ensures drafts == Present(Slots(questions, options, answers, topics))
  {
    ghost var xs := Slots(questions, options, answers, topics);
    drafts := [];
    for i := 0 to |questions|
      invariant drafts == Present(xs[..i])
    {
      var d := DraftAt(questions, options, answers, topics, i);
      PresentExtend(xs, i);
      assert d == xs[i];
      if d.Some? {
        drafts := drafts + [d.value];
      }
    }
    assert xs[..|questions|] == xs;
  }

  /** One more entry adds its value when it is present. */
  lemma PresentExtend(xs: seq<Option<Draft>>, i: nat)
    requires i < |xs|
    ensures Present(xs[..i + 1]) == Present(xs[..i]) + (if xs[i].Some? then [xs[i].value] else [])
  {
    assert xs[..i + 1][..i] == xs[..i];
  }

  /** The present entries are none exactly when every entry is absent. */
  lemma PresentEmptyIff(xs: seq<Option<Draft>>)
    ensures Present(xs) == [] <==> forall i :: 0 <= i < |xs| ==> xs[i].None?
  {
    if Present(xs) != [] {
      PresentSound(xs, Present(xs)[0]);
    }
    if Present(xs) == [] {
      forall i | 0 <= i < |xs| ensures xs[i].None? {
        if xs[i].Some? {
          PresentComplete(xs, i);
        }
      }
    }
  }

  /** Creating a quiz: the kept drafts, or a refusal (the new quiz is deleted
      again) when the form yields none. Editing stores the drafts without
      this check. */
  function CreateQuiz(questions: seq<string>, options: seq<string>, answers: seq<string>,
                      topics: seq<string>): (r: Option<seq<Draft>>)
    ensures r.None? <==> forall i :: 0 <= i < |questions| ==> DraftAt(questions, options, answers, topics, i).None?
    ensures r.Some? ==> r.value == Present(Slots(questions, options, answers, topics)) && |r.value| >= 1
  {
    var xs := Slots(questions, options, answers, topics);
    PresentEmptyIff(xs);
    var ds := Present(xs);
    if ds == [] then None else Some(ds)
  }

  lemma TwoOptions()
    ensures ParseOptions("a;b") == ["a", "b"]
  {
    assert Join(["a", "b"], ';') == "a;b";
    assert IsCleanOption("a") && IsCleanOption("b");
    OptionsRoundTrip(["a", "b"]);
  }

  /** A kept question's draft, field by field. */
  lemma KeptDraft(questions: seq<string>, options: seq<string>, answers: seq<string>,
                  topics: seq<string>, i: nat, opts: seq<string>, answer: nat, topic: string)
    requires i < |questions| && Strip(questions[i]) != []
    requires opts == ParseOptions(FieldAt(options, i, "")) && |opts| >= MinOptions
    requires i < |answers| && answer == ParseAnswerIndex(answers[i])
    requires topic == FieldAt(topics, i, FormDefaultTopic)
    ensures DraftAt(questions, options, answers, topics, i) == Some(Draft(questions[i], opts, answer, topic))
  {
  }

  /** A one-question form with no topic field. */
  lemma SingleDraft(q: string, o: string, a: string, opts: seq<string>, answer: nat)
    requires Strip(q) != [] && opts == ParseOptions(o) && |opts| >= MinOptions
    requires answer == ParseAnswerIndex(a)
    ensures DraftAt([q], [o], [a], [], 0) == Some(Draft(q, opts, answer, FormDefaultTopic))
  {
    assert FieldAt([o], 0, "") == o;
    KeptDraft([q], [o], [a], [], 0, opts, answer, FormDefaultTopic);
  }

  /** The answer index is not checked against the number of options: a
      two-option question can be stored with correct option 5, which no
      option button can select. */
  lemma AnswerIndexUnchecked()
    ensures DraftAt(["Q"], ["a;b"], ["5"], [], 0) == Some(Draft("Q", ["a", "b"], 5, FormDefaultTopic))
  {
    TwoOptions();
    FiveReadsAsFive();
    StripOfStripped("Q");
    SingleDraft("Q", "a;b", "5", ["a", "b"], 5);
  }

  lemma FiveReadsAsFive()
    ensures ParseAnswerIndex("5") == 5
  {
    assert IsDigits("5");
    assert DigitsValue("5") == 5;
  }
}
