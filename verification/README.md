# Education portal: quiz scoring and tutoring assistant, modelled in Dafny

The portal is a Flask web application. Teachers publish lessons and quizzes;
students take the quizzes, play math games and chat with a scripted tutoring
assistant. Two pieces of it hold real logic, and this project models both.

- **Quiz scorer.** It scores one quiz submission and tallies right and total
  answers per topic, keeping topics in the order they were first met. It then
  recommends every topic below 70 % mastery.
- **Tutoring assistant.** It answers one line of student text through a
  cascade. The stages are: empty input, greeting, thanks, distress,
  compliment, keyword/topic overlap with the FAQ corpus, TF-IDF similarity to
  the corpus, the maths menu, the help menu, and finally a random fallback.
  The first stage that fires decides the reply.

The project also models three small rules next to them:

- how the quiz authoring forms turn a block of option text into an option
  list, together with the answer-index and topic fields;
- the video-upload file-name whitelist;
- the points and streak update of the math-game answer check.

Modules, one file each:

- `Wrappers` (`wrappers.dfy`): `Option`.
- `Text` (`text.dfy`): the Python string operations the code relies on, each
  with its own properties. These are `lower`, `strip`, the substring `in`
  test, `re.findall(r'\w+', …)`, `split`/`join` on one character, `replace`,
  `str(n)`/`int(s)`/`isdigit`.
- `Scoring` (`scoring.dfy`): `submit_quiz`.
- `Corpus` (`corpus.dfy`): the FAQ pairs, kept as two parallel lists of
  questions and answers, the vocabularies and every reply text, copied from
  the code literally. The reply texts are gathered in a table `Texts`, and
  `Canned` is the portal's own table.
- `Chatbot` (`chatbot.dfy`): `chatbot_answer`.
- `Authoring` (`authoring.dfy`): the question loop of `create_quiz` and
  `edit_quiz`.
- `Uploads` (`uploads.dfy`): `allowed_file`.
- `Streak` (`streak.dfy`): `check_answer`.

The cascade is specified twice:

- `Classify` follows the code's `if` chain.
- `Fires` says, for each stage on its own, when that stage would answer.
  `Precedes` orders the stages.

The lemmas `ClassifyIsFirstMatch` and `ClassifyUnique` connect the two in
both directions: the chosen stage fires, no earlier stage fires, and a firing
stage with no earlier firing stage is the one chosen.

The replies are read from a `Texts` table that is `Complete`: no fixed text
is empty, every random list has a non-empty entry to pick, and every corpus
question has an answer. The reply lemmas hold for every complete table.
`Corpus.CannedComplete` shows that the portal's table is complete, so they
hold for the portal's own replies.

`random.choice` is modelled by making the reply a `Reply` value, either
`Fixed` or `OneOf`, whose possible texts are `Outcomes`. `Pick` takes the
random source as an explicit number.

The TF-IDF search is an abstract parameter `Similarity`. For the normalised
input it returns the best index and its cosine score, or `None` when the
search raised.

## Model

| member | source | states |
|---|---|---|
| Text.Lead | app.py:221 | counts the leading whitespace: everything before the count is whitespace, and the character at the count is not |
| Text.Trail | app.py:221 | counts the trailing whitespace: everything after the count from the end is whitespace, and the character just before it is not |
| Text.Strip | app.py:221 | removes exactly the leading and trailing Python whitespace: the result is a contiguous slice of the input, whitespace lies on both cut sides, and neither end of the result is whitespace |
| Text.LowerCases | app.py:221 | lower-casing leaves no upper-case ASCII letter, turns each one into the same letter in lower case and keeps every other character in place, so whitespace is still whitespace |
| Text.StripEmptyIff | app.py:221-224 | the stripped input is empty exactly when every character is whitespace, which is when the empty-input prompt is given |
| Text.Contains | app.py:229 | the substring test: a contained word is no longer than the text, and the empty word and every prefix are contained |
| Text.ContainsIff | app.py:229 | the substring test used by every rule stage holds exactly when the word occurs at some position of the input |
| Text.ContainsTransitive | app.py:229 | a text containing a word contains every substring of that word |
| Text.Words | app.py:259-260 | every token of `\w+` is a non-empty run of word characters |
| Text.WordsOfRun | app.py:259-260 | a run of word characters is one token, never split into several: tokens are maximal |
| Text.WordsCoverWordChars | app.py:259-260 | the tokens, concatenated, are exactly the word characters of the text in order: nothing is lost or invented |
| Text.WordsSplitAtSeparator | app.py:259-260 | a non-word character splits the token list: the tokens of `a c b` are those of `a` followed by those of `b` |
| Text.WordsOfStrip | app.py:259-260 | stripping whitespace does not change the tokens |
| Text.Split | app.py:637 | splitting gives at least one piece and no piece contains the separator |
| Text.JoinSplit | app.py:637 | joining the pieces of a split gives back the text |
| Text.SplitJoin | app.py:637 | splitting the join of separator-free pieces gives back the pieces |
| Text.ReplaceChar | app.py:637 | replacing keeps the length, puts the new character at exactly the positions of the old one, keeps every other character, and leaves no occurrence of the replaced character |
| Text.DecimalString | app.py:509 | the rendering of a number is a non-empty string of digits in canonical form: it starts with `0` only for 0, which renders as "0" |
| Text.DigitsRoundTrip | app.py:509 | rendering the value of a canonical digit string gives the string back, the converse of `DecimalRoundTrip` |
| Text.DecimalInjective | app.py:509 | distinct question ids have distinct answer keys |
| Text.DecimalRoundTrip | app.py:509 | reading the rendering of a number back gives the number, so the answer key `str(q['id'])` names question `id` |
| Scoring.TopicOf | app.py:511 | a question's non-empty label is kept as its topic; a missing or empty label becomes "general"; the topic is never empty |
| Scoring.Chosen | app.py:509-512 | the submitted option is the value stored under the question's own id key when that key is present, and -1 when it is missing |
| Scoring.Bump | app.py:513-517 | a tally step keeps the table's length when the topic is already listed and adds one entry otherwise; afterwards the topic is listed |
| Scoring.BumpShape | app.py:513-517 | one tally step adds one to the topic's total, and one to its right count on a hit. It appends the topic when it is new and changes no other entry |
| Scoring.BumpDistinct | app.py:513-514 | a tally step keeps every topic listed once |
| Scoring.BumpSums | app.py:513-517 | a tally step adds one to the total of all topics, and one to the right answers of all topics on a hit |
| Scoring.TallyAll | app.py:506-517 | the correct count equals an independent recount of questions answered right. Each topic is listed once, in the order first met, with total and right equal to independent recounts for that topic. Totals sum to the number of questions; right answers sum to the correct count |
| Scoring.SameTopicTally | app.py:513-517 | while every question so far has had one topic, another question with that topic bumps the one entry and adds no new one |
| Scoring.CountRightLe | app.py:515-516 | there are never more correct answers than questions |
| Scoring.Percent | app.py:518 | a percentage multiplied by the whole gives a hundred times the part, and it is 0.0 for an empty whole |
| Scoring.PercentBounds | app.py:518 | the score lies in [0, 100] and is 100 exactly when every question is right |
| Scoring.PercentBelowIff | app.py:526-527 | a topic's percentage is below a threshold exactly when `right * 100 < threshold * total` |
| Scoring.Recommend | app.py:524-528 | no more recommendations than tallied topics, each with a percentage below 70; with `RecommendOrdered` and the distinct topics of `TallyAll`, at most one per topic |
| Scoring.RecommendComplete | app.py:525-528 | every topic below the mastery threshold is recommended, with its percentage |
| Scoring.RecommendSound | app.py:525-528 | every recommendation is a topic below the threshold |
| Scoring.RecommendOrdered | app.py:525-528 | recommendations keep the topics' first-encounter order |
| Scoring.RecommendIff | app.py:525-528 | a tallied topic is recommended exactly when fewer than 70 % of its questions were right |
| Scoring.Score | app.py:505-528 | the whole submission: correct count, per-topic tallies in first-encounter order, a score that is the percentage of right answers, in [0, 100] and 100 exactly when all are right, 0.0 and nothing for an empty quiz, and recommendations exactly the topics under 70 %, in order |
| Scoring.ScoreTopicBounds | app.py:513-517 | no topic has more right answers than questions |
| Scoring.UnansweredQuestion | app.py:512-515 | a question without an answer key is marked wrong (the default -1 never equals a stored index of 0 or more) but still counts in its topic's total |
| Scoring.WorkedExample | app.py:505-528 | a four-question quiz with one wrong answer in "fractions" scores 75, tallies fractions 2/3 and decimal 1/1, and recommends fractions at 200/3 % |
| Corpus.CannedComplete | app.py:185-309 | the portal's reply table is complete: every fixed reply is non-empty, each random list has exactly three entries, all non-empty, and each of the 20 corpus questions has an answer |
| Chatbot.Normalize | app.py:221 | the normalised input is empty exactly when the raw input is blank, has no whitespace at either end and holds no upper-case letter |
| Chatbot.RuleStage | app.py:224-255 | the rule stages answer with the first of empty input, greeting, thanks, distress and compliment that fires, and with none when none fires |
| Chatbot.FirstKeyword | app.py:258-280 | the keyword scan returns the first qualifying corpus entry, or nothing when no entry qualifies |
| Chatbot.FirstKeywordIs | app.py:258-280 | when entry i qualifies and no earlier one does, the scan answers with entry i |
| Chatbot.SimilarEntry | app.py:283-293 | the similarity stage answers exactly when the search succeeded with an in-corpus index scoring strictly above 0.3 |
| Chatbot.Classify | app.py:220-309 | the stage chosen for an input fires for that input, and its corpus index is valid |
| Chatbot.MenuStage | app.py:295-309 | after the corpus stages the maths menu answers exactly when a maths word occurs, the help menu exactly when "help" occurs and no maths word does, and the fallback otherwise |
| Chatbot.ClassifyIsFirstMatch | app.py:220-309 | no stage tried before the chosen one fires for the input |
| Chatbot.ClassifyUnique | app.py:220-309 | a stage that fires with no earlier stage firing is the stage chosen |
| Chatbot.ReplyFor | app.py:225-309 | the reply is a random pick exactly for the greeting, thanks and fallback stages, and a corpus stage's reply starts with that entry's answer; the text of each stage is stated by `RuleStageReplies`, `KeywordAnswer`, `SimilarityGate` and `NoMatchFallsThrough` |
| Chatbot.ReplyNonEmpty | app.py:225-309 | every stage has at least one reply text and no reply text is empty |
| Chatbot.Respond | app.py:220-309 | from a complete reply table, every input, including empty and hostile ones, yields a reply with at least one possible text, all non-empty |
| Chatbot.Pick | app.py:235 | the random pick is one of the reply's possible texts |
| Chatbot.Answer | app.py:220-309 | the assistant's answer is never empty and is one of the texts the cascade allows for the input |
| Chatbot.BlankInputGetsPrompt | app.py:221-225 | empty or all-whitespace input gets the fixed prompt |
| Chatbot.RuleStageReplies | app.py:222-255 | the first rule stage to fire answers with its own text: the prompt for blank input, a random greeting, a random thanks, the fixed encouragement for distress, the fixed compliment reply |
| Chatbot.GreetingPreempts | app.py:228-235 | a greeting word anywhere in the input makes the reply one of the three greetings, whatever else the input says |
| Chatbot.ThisIsAGreeting | app.py:228-235 | greeting words are matched as substrings: "This" is answered with a greeting, since it contains "hi" |
| Chatbot.KeywordAnswer | app.py:258-280 | when no rule stage fires, the reply is the first qualifying corpus entry's answer plus the "need more help" suffix |
| Chatbot.SimilarityGate | app.py:283-291 | the similarity stage answers only for a score strictly above 0.3, with the best entry's answer plus the "was this helpful" suffix |
| Chatbot.NoMatchFallsThrough | app.py:295-309 | when stages up to similarity all stay silent, the reply is the maths menu if "math" occurs, else the help menu if "help" occurs, else one of the three fallbacks |
| Chatbot.CorpusQuestionNeverReachesSimilarity | app.py:258-293 | a corpus question typed verbatim, in any letter case or with surrounding whitespace, is answered at the keyword stage or earlier whenever it has two distinct words, so the similarity stage never sees it |
| Authoring.KeepStripped | app.py:637 | the kept options are the strips of the pieces, in piece order with some left out, one option per piece that is not all whitespace, so equal pieces stay separate options. Every such piece contributes its strip, and every option is the strip of some piece. Options are non-empty, have no surrounding whitespace, and hold no character that no piece held |
| Authoring.Pieces | app.py:637 | the pieces of an options text, joined back with semicolons, give the text with its line breaks turned into semicolons, and no piece holds a separator |
| Authoring.ParseOptions | app.py:636-637 | the parsed options are the strips of the non-blank pieces in text order, one per such piece (so "a;a" gives two options), each non-empty, stripped, and free of semicolons and line breaks |
| Authoring.OptionsRoundTrip | app.py:636-637 | writing clean options separated by semicolons and parsing the text gives back exactly those options |
| Authoring.ParseAnswerIndex | app.py:640 | a field that is not a plain digit string, such as a negative number or an empty field, reads as option 0 |
| Authoring.AnswerIndexRoundTrip | app.py:640 | a rendered index reads back as itself |
| Authoring.AnswerIndexLeadingZero | app.py:640 | a leading zero does not change the index read from a digit field: "05" reads as 5 |
| Authoring.AnswerIndexPadded | app.py:640 | a rendered index with any number of leading zeros reads back as the index |
| Authoring.DraftAt | app.py:634-641 | a question is kept exactly when its text is not blank and its options parse to at least two. A kept question keeps its text unstripped. A kept question stores the options parsed from its own options field, its own topic field, and the index read from its own answer field; a missing topic becomes "general" and a missing answer field becomes option 0 |
| Authoring.PresentComplete | app.py:634-647 | every kept question's draft is stored |
| Authoring.PresentSound | app.py:634-647 | every stored draft comes from one of the questions |
| Authoring.FormDrafts | app.py:634-647 | the stored drafts are exactly the kept questions' drafts, each with a non-blank text and at least two options |
| Authoring.BuildDrafts | app.py:690-702 | the form loop stores the kept drafts in form order |
| Authoring.PresentEmptyIff | app.py:649 | nothing is stored exactly when no question is kept |
| Authoring.CreateQuiz | app.py:634-657 | creating a quiz is refused exactly when no question is kept; otherwise it stores at least one draft |
| Authoring.AnswerIndexUnchecked | app.py:639-641 | a two-option question is stored with correct option 5: the index is not checked against the option count |
| Uploads.LastDot | app.py:42 | finds the last dot, or reports that there is none |
| Uploads.Extension | app.py:42 | the extension is the dot-free text after the last dot, and the name is the stem, a dot and that extension |
| Uploads.LastDotOf | app.py:42 | in `stem.ext` with a dot-free `ext`, the last dot follows the stem, however many dots the stem holds |
| Uploads.ExtensionOf | app.py:42 | the extension of `stem.ext` is `ext` |
| Uploads.AllowedFile | app.py:41-42 | a name without a dot is refused, and an accepted name has at least four characters and does not end with its dot |
| Uploads.AllowedFileIff | app.py:34-42 | a name with an extension is accepted exactly when the lower-cased extension is one of mp4, avi, mov, wmv, flv, webm |
| Uploads.UpperCaseAccepted | app.py:34-42 | "lesson.v1.MP4" is accepted: the case of the extension does not matter, nor do dots in the stem |
| Uploads.InnerExtensionIgnored | app.py:34-42 | "lesson.mp4.exe" is refused: only the text after the last dot counts |
| Uploads.NoDotRefused | app.py:41-42 | "mp4", a name without a dot, is refused |
| Streak.Matches | app.py:910 | equal fields match, two given answers match exactly when their texts agree, and a missing field matches only the text "None" |
| Streak.MissingFieldsMatch | app.py:910 | answers compare as their Python `str` renderings: two missing fields match, and "3" does not match "3.0" |
| Streak.Update | app.py:902-912 | starting from the stored record, or a zero record for a new student, a match adds 10 points and extends the streak by one; a miss keeps the points and resets the streak to 0 |
| Streak.CheckAnswer | app.py:910-923 | the response reports whether the answer matched, the points earned (10 or 0), and the new totals, which are the stored record |
| Streak.ReplayTotals | app.py:909-912 | after a run of answers the points grow by 10 per match. The streak is the trailing run of matches, added to the starting streak when the run has no miss |
| Streak.FromNewRecord | app.py:902-912 | from a new record, points are exactly 10 per match and the streak, being the trailing run of matches, never exceeds the number of matches |
| Streak.TrailingRunCounted | app.py:910-911 | the current streak never exceeds the number of matches |

## Left out

- Scoring.Score: the scores are exact rationals. The code rounds them to two
  decimals and computes them in floating point. The below-70 test is exact
  here; near the boundary the code's floating-point value can differ.
- Scoring.Score: `int(chosen)` on a non-numeric answer raises in the code. The
  model takes answers as integers already, so that error path is not modelled.
- The attempt log (the `attempts` row and its JSON detail), the database, Flask
  routing, sessions and templates are left out. They are persistence and
  presentation.
- Text.Lower: only ASCII letters are lower-cased. Python lower-cases all of
  Unicode. The upload whitelist and the chatbot vocabularies are ASCII, but a
  non-ASCII letter in a student's text keeps its case here.
- Text.Words: `\w` is taken as ASCII letters, digits and `_`. Python's
  Unicode `\w` also accepts other letters and digits.
- Chatbot.Classify: the TF-IDF vectoriser and cosine similarity are an
  abstract parameter. The corpus vocabulary, the IDF weights and the argmax
  tie-break (lowest index) are not modelled. The model only requires that the
  search returns an index and a score, or fails.
- Chatbot.Pick: `random.choice` is replaced by an explicit choice number.
  Uniformity of the pick is not modelled.
- Authoring.ParseAnswerIndex: `isdigit` is ASCII digits only. Python also
  accepts other Unicode digits, some of which `int` then rejects.
- The quiz title, lesson lookup, the deletion of old questions on edit, and
  the exception handler that flashes an error are left out. They are database
  and presentation steps.
- Uploads: saving the file, `secure_filename`, the 500 MB limit and the
  empty-file-name check are left out. They are request handling.
- Streak: the `last_activity` timestamp is not modelled. It is a clock value.
- Streak.Matches: the request's JSON values are taken as their `str`
  renderings. Python's rendering of numbers, lists and booleans is not
  modelled.

## Notes on the code's behaviour

- An input identical to a corpus prompt never reaches the similarity stage
  when the prompt has two or more distinct words: the keyword stage always
  answers it first, as `Chatbot.CorpusQuestionNeverReachesSimilarity`
  shows. The similarity stage only ever sees inputs that differ from every
  such prompt.
- Nothing in the authoring code checks that a question's correct index lies
  within its option list, as `Authoring.AnswerIndexUnchecked` shows. A
  stored index past the last option can never be selected. `Scoring`
  therefore accepts any integer index.
- Every rule stage, and the "math" and "help" tests, match substrings, not
  words. `Chatbot.ThisIsAGreeting` shows one consequence.
- Several vocabulary entries contain a shorter entry of the same list and so
  never change an outcome: "mathematics" contains "math", "thanks" and
  "thank you" contain "thank", "fractions" contains "fraction", "decimals"
  contains "decimal". `Text.ContainsTransitive` is the fact behind this.
