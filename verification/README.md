# quiz-ink session model

A Dafny model of the quiz session in `src/app.tsx` of quiz-ink, a terminal
trivia quiz built on Ink. The `App` component fetches a batch of questions,
shows them one at a time with labelled answers, records one boolean per
answered question from single keypresses and finally shows `correct/total`.

The model is functional. An immutable `App.State` record holds the four
pieces of component state: `loading`, `questions`, `idx` and `answers`.
Pure transitions model the three places where that state changes:
`Init`, `BeginFetch`, `FetchOk` and `Key`. `Key` routes one keypress
through both input handlers. The global handler requests exit on `q`/`Q`.
The question handler is active only while `questions[idx]` exists; it
appends `true` for `a`, `false` for `b`/`c`/`d`, and advances the index.
Observers derive the screen from the state: `Current`, `IsComplete`,
`Score`, `ShownTally`, `PhaseOf` and `QuestionView.Slots`.
The `Session` module folds keys over a state and proves the lifecycle
properties: the invariant, completion after one answer per question,
ignored keys, and the stop at a quit key.

Modules:

- `Trivia` (`trivia.dfy`): the `Question` record and `Option`.
- `QuestionView` (`question_view.dfy`): the `Question` component. It holds
  the answer-line layout, the `AnswerMap` labels and the answer-key routing.
- `App` (`app.dfy`): the state record, the transitions, the quit handler,
  the score and tally, the invariant and the phase.
- `Session` (`session.dfy`): sequences of keypresses and the lemmas about them.

Four behaviours of the code worth knowing:

- The answer lines are not padded to four. A boolean question shows two lines.
- The fetched payload is not validated. Whatever list arrives becomes the
  batch, and an empty list completes the session at once with `0/0`.
- There is no restart. The fetch effect runs once, so there is no
  cancellation of a superseded fetch to model.
- Answer keys are lower case only. `A`–`D` do nothing; only `Q` is
  accepted in upper case.

## Model

| member | source | states |
|---|---|---|
| QuestionView.LabelsDistinct | src/app.tsx:93 | the `AnswerMap` labels are pairwise distinct, so each key names at most one displayed line |
| QuestionView.Slots | src/app.tsx:116-121 | one line per answer, `1 + |incorrect|` lines, with line `i` labelled from `AnswerMap` |
| QuestionView.SlotsTexts | src/app.tsx:117 | reading the texts back off the lines gives `[correct] + incorrect` in order: nothing dropped, added or reordered |
| QuestionView.CorrectIsSlotA | src/app.tsx:117-119 | the correct answer is always line `a` |
| QuestionView.BooleanShowsTwoLines | src/app.tsx:117-121 | a question with one incorrect answer shows exactly the two lines `a` and `b`, without padding |
| QuestionView.Response | src/app.tsx:98-107 | key `a` yields `true`, exactly `b`/`c`/`d` yield `false`; every other input yields no response |
| QuestionView.LabelKeyScoresLine | src/app.tsx:98-119 | pressing the label of displayed line `i` records `i == 0`, i.e. whether the line is the correct answer |
| QuestionView.ResponseKeysAreLabels | src/app.tsx:93-107 | every key that records something is one of the four labels and records `true` exactly for the first |
| QuestionView.BooleanPhantomKeys | src/app.tsx:102-121 | on a boolean question `c` and `d` label no displayed line yet still record `false` |
| App.Current | src/app.tsx:109-114 | a question is current exactly when `0 <= idx < |questions|`, and it is a member of the batch |
| App.Init | src/app.tsx:17-21 | the mounted state is loading, has no answers, no current question and is not complete |
| App.BeginFetch | src/app.tsx:37-38 | fetch start sets loading and index -1, so there is no current question and no tally, and keeps batch and answers |
| App.FetchOk | src/app.tsx:43-47 | fetch success adopts the results as the batch, ends loading and sets index 0; the first result is current, or the session is complete exactly when the results are empty |
| App.AnswerFn | src/app.tsx:23-32 | a response is appended after the earlier answers, which are unchanged, and the index advances by one |
| App.Key | src/app.tsx:59-110 | exit is requested exactly on `q`/`Q`; on a current question `a` appends `true` and `b`/`c`/`d` append `false` with the index one on; without a current question, or for any other key, the state is unchanged |
| App.CountTrue | src/app.tsx:79 | the count of `true` entries is at most the number of answers, equals it exactly when all are `true` and is 0 exactly when none is |
| App.CountTrueIsMultiplicity | src/app.tsx:79 | the left-to-right count equals the multiplicity of `true` in the answers |
| App.Score | src/app.tsx:79 | the score never exceeds the number of answers |
| App.IsComplete | src/app.tsx:77 | the completion test `idx == |questions|`; a complete session has no current question |
| App.IsQuit | src/app.tsx:59-66 | the quit handler's keys `q`/`Q`; a quit key never records an answer |
| App.ShownTally | src/app.tsx:77-80 | the tally is shown exactly when `idx == |questions|`, and it is the score over the batch size |
| App.PhaseOf | src/app.tsx:70-81 | under the invariant, exactly one of loading, a current question and the tally is on screen; a presented question is the next unanswered one |
| App.ScoreBounds | src/app.tsx:77-80 | after loading, `0 <= score <= |answers| == idx <= |questions|` |
| App.InitIsLoading | src/app.tsx:17-38 | the mounted state keeps the invariant in the loading phase, and fetch start leaves it unchanged |
| App.BeginFetchKeepsInv | src/app.tsx:37-38 | fetch start before any answer yields a loading state that keeps the invariant; fetch start is idempotent |
| App.FetchOkKeepsInv | src/app.tsx:43-47 | a successful fetch while loading keeps the invariant and presents question 0, or shows `0/0` for an empty batch |
| App.KeyKeepsInv | src/app.tsx:96-110 | every keypress keeps the invariant and only appends; an answer key moves a presented question one on or completes; outside presenting nothing changes |
| Session.Keys | src/app.tsx:96-110 | keys handled one at a time never change the batch or the loading flag, only append to the answers, and advance the index by as many answers as they append; `Session.KeysEffect` gives the closed form |
| Session.Run | src/app.tsx:59-66 | a run ending at exit keeps batch and loading flag, and requests exit exactly when some key is `q`/`Q`; `Session.RunStopsAtQuit` shows no key after it is seen |
| Session.RunStopsAtQuit | src/app.tsx:59-66 | handling keys until exit equals handling the keys before the first quit key, with exit requested exactly when a quit key occurs |
| Session.ResponsesOfAnswerKeys | src/app.tsx:98-107 | a run of answer keys carries one response per key, `true` exactly for `a` |
| Session.KeyStep | src/app.tsx:96-110 | after loading, one key appends its response and advances the index exactly when a question remains and the key is an answer key; otherwise the state is unchanged |
| Session.KeysEffect | src/app.tsx:23-110 | after loading, any keys append their responses in order up to the batch end, advance the index by as many, and change nothing else |
| Session.KeysWhileLoading | src/app.tsx:37-38 | while the index is -1, no key changes the state |
| Session.StrayKeysAfterCompletion | src/app.tsx:109-114 | once complete, no key changes the state |
| Session.KeysKeepInv | src/app.tsx:23-29 | any keys keep the invariant and leave earlier answers unchanged |
| Session.Fetched | src/app.tsx:34-47 | after mount and a successful fetch, the session keeps the invariant at index 0 with no answers and the results as batch |
| Session.AnswerAll | src/app.tsx:77-80 | after one answer key per question the session is complete, with answer `i` true exactly when key `i` was `a`, and the tally is the score over the batch size |
| Session.PartialAnswers | src/app.tsx:76-80 | after fewer answer keys than questions, the next unanswered question is presented and no tally is shown |
| Session.ScenarioOneCorrect | src/app.tsx:77-80 | one question answered `a` shows `1/1` |
| Session.ScenarioTwoQuestions | src/app.tsx:77-80 | two questions answered `b` then `a` show `1/2` |
| Session.ScenarioEmptyBatch | src/app.tsx:43-47 | an empty batch goes from loading straight to complete with `0/0` |
| Session.ScenarioQuitWhileLoading | src/app.tsx:59-66 | `q` while loading requests exit, and neither it nor any earlier key changes the state |

## Left out

- The HTTP fetch, JSON parsing and the `AbortController` (lines 35–56) are network I/O. A fetch result enters the model only as the argument of `FetchOk`. A failed fetch rethrows or is swallowed, and touches no state; it is not a transition here.
- React hook mechanics (`useState`, `useEffect`, `useCallback`, batching) are left out. So is the in-place `push` that returns the same array (lines 25–28); it is modelled as a plain append. The model assumes each keypress sees the state its predecessor left. A second key arriving before the question handler re-renders is not modelled.
- Ink rendering, the spinner, text colour and the hint line (lines 68–85, 123–128) are terminal output. Only which part is on screen is modelled, by `PhaseOf` and `ShownTally`. The tally is a pair of numbers, not the rendered text.
- `decodeHTML` (lines 119, 125) is a foreign text transform. Question and answer texts are opaque strings.
- `exit()` (line 63) is process lifecycle. It appears only as the `exit` flag of `App.Key`, and `Session.Run` stops processing at it.
- The payload is typed `any` and its shape is not checked (line 44). A missing or malformed `results` field is not modelled; the batch is always a sequence of questions.
