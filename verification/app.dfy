/** The `App` component as a state machine: the four pieces of state it keeps,
    the transitions at fetch start, fetch success and keypress, and the
    observers the screen is derived from (current question, completion,
    score). The fetch itself, rendering and process exit are outside; a
    fetch result enters as an argument of `FetchOk`, and an exit request is a
    flag in the outcome of `Key`. */
module App {
  import opened Trivia
  import QuestionView

  /** The component state: the loading flag, the question batch, the index
      of the question on screen (-1 before the batch arrives) and the
      recorded answers, one boolean per answered question. */
  datatype State = State(
    loading: bool,
    questions: seq<Question>,
    idx: int,
    answers: seq<bool>
  )

  /** What a keypress yields: the next state and whether exit was requested. */
  datatype Outcome = Outcome(state: State, exit: bool)

  /** The displayable phase of a session, as the screen shows it. */
  datatype Phase = Loading | Presenting(index: nat) | Complete

  /** The question on screen: the entry at `idx` when there is one. Before
      the batch arrives (`idx == -1`) and after the last answer
      (`idx == |questions|`) there is none. */
  function Current(s: State): (r: Option<Question>)
    ensures r.Some? <==> 0 <= s.idx < |s.questions|
    ensures r.Some? ==> r.value in s.questions
  {
    if 0 <= s.idx < |s.questions| then Some(s.questions[s.idx]) else None
  }

  /** The completion test guarding the final tally. */
  predicate IsComplete(s: State)
    ensures IsComplete(s) ==> Current(s).None?
  {
    s.idx == |s.questions|
  }

  /** The state on mount: loading, no questions, no current question, no
      answers. */
  function Init(): (s: State)
    ensures s.loading && s.answers == []
    ensures Current(s) == None && !IsComplete(s)
  {
    State(true, [], -1, [])
  }

  /** Fetch start: back to loading with no current question. The batch and
      the answers are left as they were. */
  function BeginFetch(s: State): (r: State)
    ensures r.loading && r.idx == -1
    ensures Current(r) == None && !IsComplete(r)
    ensures r.questions == s.questions && r.answers == s.answers
  {
    s.(loading := true, idx := -1)
  }

  /** Fetch success: the results become the batch, as delivered (nothing
      validates or pads them), loading ends and the first question is
      current. An empty batch is complete at once. */
  function FetchOk(s: State, results: seq<Question>): (r: State)
    ensures !r.loading && r.idx == 0 && r.questions == results && r.answers == s.answers
    ensures results != [] ==> Current(r) == Some(results[0])
    ensures results == [] <==> IsComplete(r)
  {
    s.(questions := results, loading := false, idx := 0)
  }

  /** Recording one response: the boolean is appended to the answers and the
      index advances to the next question. */
  function AnswerFn(s: State, response: bool): (r: State)
    ensures |r.answers| == |s.answers| + 1
    ensures r.answers[..|s.answers|] == s.answers
    ensures r.answers[|s.answers|] == response
    ensures r.idx == s.idx + 1
    ensures r.loading == s.loading && r.questions == s.questions
  {
    s.(answers := s.answers + [response], idx := s.idx + 1)
  }

  /** The global quit handler's test, active in every state. */
  predicate IsQuit(input: string)
    ensures IsQuit(input) ==> QuestionView.Response(input).None?
  {
    input == "q" || input == "Q"
  }

  /** One keypress, seen by both handlers: the quit handler requests exit
      on `q`/`Q`; the question handler, active only while a question is
      current, records the key's response. */
  function Key(s: State, input: string): (o: Outcome)
    ensures o.exit <==> input in {"q", "Q"}
    ensures Current(s).Some? && input == "a" ==>
              o.state == s.(answers := s.answers + [true], idx := s.idx + 1)
    ensures Current(s).Some? && input in {"b", "c", "d"} ==>
              o.state == s.(answers := s.answers + [false], idx := s.idx + 1)
    ensures Current(s).None? || input !in {"a", "b", "c", "d"} ==> o.state == s
  {
    var next :=
      if Current(s).Some? then
        match QuestionView.Response(input)
        case Some(b) => AnswerFn(s, b)
        case None => s
      else s;
    Outcome(next, IsQuit(input))
  }

  /** The number of `true` answers, counted left to right as the tally's
      reduction does. */
  function CountTrue(bs: seq<bool>): (n: nat)
    ensures n <= |bs|
    ensures n == |bs| <==> forall i :: 0 <= i < |bs| ==> bs[i]
    ensures n == 0 <==> forall i :: 0 <= i < |bs| ==> !bs[i]
  {
    if bs == [] then 0
    else
      var front := bs[..|bs| - 1];
      assert forall i :: 0 <= i < |front| ==> front[i] == bs[i];
      CountTrue(front) + (if bs[|bs| - 1] then 1 else 0)
  }

  /** The count of `true` entries equals the multiplicity of `true` in the
      answers, so it does not depend on the order of the answers. */
  lemma {:induction false} CountTrueIsMultiplicity(bs: seq<bool>)
    ensures CountTrue(bs) == multiset(bs)[true]
  {
    if bs != [] {
      var front := bs[..|bs| - 1];
      assert bs == front + [bs[|bs| - 1]];
      CountTrueIsMultiplicity(front);
    }
  }

  /** The score: the number of correct answers so far. */
  function Score(s: State): (n: nat)
    ensures n <= |s.answers|
  {
    CountTrue(s.answers)
  }

  /** The final tally line: correct answers over batch size. */
  datatype Tally = Tally(correct: nat, total: nat)

  /** The tally on screen: present exactly when the session is complete. */
  function ShownTally(s: State): (r: Option<Tally>)
    ensures r.Some? <==> IsComplete(s)
    ensures r.Some? ==> r.value == Tally(Score(s), |s.questions|)
    ensures r.Some? ==> r.value.correct <= |s.answers|
  {
    if s.idx == |s.questions| then Some(Tally(Score(s), |s.questions|)) else None
  }

  /** The session invariant: while loading nothing has been answered and no
      question is current; afterwards one answer has been recorded per
      question passed, and the index stays within the batch. */
  predicate Inv(s: State) {
    if s.loading then s.idx == -1 && s.answers == []
    else 0 <= s.idx <= |s.questions| && |s.answers| == s.idx
  }

  /** The phase of a state that keeps the invariant. Exactly one of the
      loading indicator, a current question and the tally is on screen, and
      the phase names which. */
  function PhaseOf(s: State): (p: Phase)
    requires Inv(s)
    ensures p == Loading <==> s.loading
    ensures p.Presenting? <==> Current(s).Some?
    ensures p.Presenting? ==>
              p.index < |s.questions| && Current(s) == Some(s.questions[p.index]) && p.index == |s.answers|
    ensures p == Complete <==> ShownTally(s).Some?
  {
    if s.loading then Loading
    else if s.idx < |s.questions| then Presenting(s.idx)
    else Complete
  }

  /** The score never exceeds the answers given, which never exceed the
      batch once it has arrived. */
  lemma ScoreBounds(s: State)
    requires Inv(s) && !s.loading
    ensures 0 <= Score(s) <= |s.answers| == s.idx <= |s.questions|
  {
  }

  /** The initial state keeps the invariant and is in the loading phase;
      fetch start from it changes nothing. */
  lemma InitIsLoading()
    ensures Inv(Init()) && PhaseOf(Init()) == Loading
    ensures BeginFetch(Init()) == Init()
  {
  }

  /** Fetch start from a state that keeps the invariant while loading keeps
      it; fetch start is idempotent. */
  lemma BeginFetchKeepsInv(s: State)
    requires s.answers == []
    ensures Inv(BeginFetch(s)) && PhaseOf(BeginFetch(s)) == Loading
    ensures BeginFetch(BeginFetch(s)) == BeginFetch(s)
  {
  }

  /** A fetch that succeeds while loading establishes the invariant: the
      first question is presented, or an empty batch is complete with the
      tally 0/0. */
  lemma FetchOkKeepsInv(s: State, results: seq<Question>)
    requires Inv(s) && s.loading
    ensures Inv(FetchOk(s, results))
    ensures results != [] ==> PhaseOf(FetchOk(s, results)) == Presenting(0)
    ensures results == [] ==>
              PhaseOf(FetchOk(s, results)) == Complete &&
              ShownTally(FetchOk(s, results)) == Some(Tally(0, 0))
  {
  }

  /** Every keypress keeps the invariant, and an answer key on a current
      question moves the phase one question on. */
  lemma KeyKeepsInv(s: State, input: string)
    requires Inv(s)
    ensures Inv(Key(s, input).state)
    ensures Key(s, input).state.answers[..|s.answers|] == s.answers
    ensures PhaseOf(s).Presenting? && input in {"a", "b", "c", "d"} ==>
              var p := PhaseOf(Key(s, input).state);
              if PhaseOf(s).index + 1 < |s.questions| then p == Presenting(PhaseOf(s).index + 1)
              else p == Complete
    ensures !PhaseOf(s).Presenting? ==> Key(s, input).state == s
  {
  }
}
