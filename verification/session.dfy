/** A session as a sequence of events: the keypresses the application
    receives, one at a time, each seeing the state the previous one left.
    The lemmas follow the session from mount to the final tally. */
module Session {
  import opened Trivia
  import opened App
  import QuestionView

  /** The state after a sequence of keypresses, every key handled in order. */
  function Keys(s: State, ks: seq<string>): (r: State)
    ensures r.loading == s.loading && r.questions == s.questions
    ensures |s.answers| <= |r.answers| && r.answers[..|s.answers|] == s.answers
    ensures r.idx - s.idx == |r.answers| - |s.answers|
    decreases |ks|
  {
    if ks == [] then s else Keys(Key(s, ks[0]).state, ks[1..])
  }

  /** The index of the first quit key, or `|ks|` when there is none. */
  function FirstQuit(ks: seq<string>): (n: nat)
    ensures n <= |ks|
    ensures forall i :: 0 <= i < n ==> !IsQuit(ks[i])
    ensures n < |ks| ==> IsQuit(ks[n])
  {
    if ks == [] then 0
    else if IsQuit(ks[0]) then 0
    else 1 + FirstQuit(ks[1..])
  }

  /** Handling keypresses until one requests exit: the application unmounts
      on exit, so later keys are never seen. */
  function Run(s: State, ks: seq<string>): (o: Outcome)
    ensures o.state.loading == s.loading && o.state.questions == s.questions
    ensures o.exit <==> exists i :: 0 <= i < |ks| && IsQuit(ks[i])
    decreases |ks|
  {
    if ks == [] then Outcome(s, false)
    else
      var o := Key(s, ks[0]);
      if o.exit then o else Run(o.state, ks[1..])
  }

  /** A run stops at the first quit key, which itself leaves the state as
      it is: the final state is that of the keys before it, and exit is
      requested exactly when there is a quit key. */
  lemma {:induction false} RunStopsAtQuit(s: State, ks: seq<string>)
    ensures Run(s, ks) == Outcome(Keys(s, ks[..FirstQuit(ks)]), FirstQuit(ks) < |ks|)
    decreases |ks|
  {
    if ks != [] {
      if IsQuit(ks[0]) {
        assert ks[..0] == [];
      } else {
        RunStopsAtQuit(Key(s, ks[0]).state, ks[1..]);
        var n := FirstQuit(ks[1..]);
        assert ks[..1 + n][1..] == ks[1..][..n];
      }
    }
  }

  /** The responses a sequence of keys carries, in order: one per answer
      key, `true` for `a`, `false` for `b`, `c`, `d`; other keys carry none. */
  function Responses(ks: seq<string>): (r: seq<bool>)
    ensures |r| <= |ks|
    decreases |ks|
  {
    if ks == [] then []
    else
      match QuestionView.Response(ks[0])
      case Some(b) => [b] + Responses(ks[1..])
      case None => Responses(ks[1..])
  }

  /** Keys that are all answer keys carry one response each, `true` exactly
      for the `a` keys. */
  lemma {:induction false} ResponsesOfAnswerKeys(ks: seq<string>)
    requires forall i :: 0 <= i < |ks| ==> ks[i] in {"a", "b", "c", "d"}
    ensures |Responses(ks)| == |ks|
    ensures forall i :: 0 <= i < |ks| ==> Responses(ks)[i] == (ks[i] == "a")
    decreases |ks|
  {
    if ks != [] {
      ResponsesOfAnswerKeys(ks[1..]);
    }
  }

  /** The number of responses a session past loading still accepts from
      `ks`: all of them, up to the questions left. */
  function Accepted(s: State, ks: seq<string>): (n: nat)
    requires Inv(s) && !s.loading
    ensures n <= |Responses(ks)| && s.idx + n <= |s.questions|
    ensures n == |Responses(ks)| || s.idx + n == |s.questions|
  {
    if |Responses(ks)| <= |s.questions| - s.idx then |Responses(ks)|
    else |s.questions| - s.idx
  }

  /** One key on a session past loading, in terms of its response. */
  lemma KeyStep(s: State, k: string)
    requires Inv(s) && !s.loading
    ensures Key(s, k).state ==
              if s.idx < |s.questions| && QuestionView.Response(k).Some?
              then s.(answers := s.answers + [QuestionView.Response(k).value], idx := s.idx + 1)
              else s
  {
  }

  /** The effect of any keys on a session past loading: the responses they
      carry are appended in order until the batch is exhausted, the index
      advances by the number appended, and everything after the last
      question is ignored. Quit keys and all other keys change nothing. */
  lemma {:induction false} KeysEffect(s: State, ks: seq<string>)
    requires Inv(s) && !s.loading
    ensures Keys(s, ks) == s.(answers := s.answers + Responses(ks)[..Accepted(s, ks)],
                              idx := s.idx + Accepted(s, ks))
    decreases |ks|
  {
    if ks == [] {
      assert Responses(ks)[..0] == [];
    } else {
      var s1 := Key(s, ks[0]).state;
      KeyStep(s, ks[0]);
      KeyKeepsInv(s, ks[0]);
      KeysEffect(s1, ks[1..]);
      var rest := Responses(ks[1..]);
      var r := QuestionView.Response(ks[0]);
      if r.Some? && s.idx < |s.questions| {
        assert Responses(ks) == [r.value] + rest;
        assert Accepted(s, ks) == Accepted(s1, ks[1..]) + 1;
        assert s.answers + [r.value] + rest[..Accepted(s1, ks[1..])]
            == s.answers + Responses(ks)[..Accepted(s, ks)];
      } else if r.Some? {
        assert Accepted(s, ks) == 0 && Accepted(s1, ks[1..]) == 0;
        assert Responses(ks)[..0] == [] == rest[..0];
      } else {
        assert Responses(ks) == rest;
      }
    }
  }

  /** While loading, keypresses do not reach the session: no question is
      current, so answers and index stay as they are. */
  lemma {:induction false} KeysWhileLoading(s: State, ks: seq<string>)
    requires s.idx == -1
    ensures Keys(s, ks) == s
    decreases |ks|
  {
    if ks != [] {
      KeysWhileLoading(Key(s, ks[0]).state, ks[1..]);
    }
  }

  /** Once complete, a session ignores every further key. */
  lemma StrayKeysAfterCompletion(s: State, ks: seq<string>)
    requires Inv(s) && !s.loading && IsComplete(s)
    ensures Keys(s, ks) == s
  {
  }

  /** Any keys keep the invariant and only ever append to the answers. */
  lemma {:induction false} KeysKeepInv(s: State, ks: seq<string>)
    requires Inv(s)
    ensures Inv(Keys(s, ks))
    ensures |s.answers| <= |Keys(s, ks).answers|
    ensures Keys(s, ks).answers[..|s.answers|] == s.answers
    decreases |ks|
  {
    if ks != [] {
      var s1 := Key(s, ks[0]).state;
      KeyKeepsInv(s, ks[0]);
      KeysKeepInv(s1, ks[1..]);
      assert Keys(s1, ks[1..]).answers[..|s.answers|] == Keys(s1, ks[1..]).answers[..|s1.answers|][..|s.answers|];
    }
  }

  /** The state once a batch has been fetched after mount. */
  function Fetched(results: seq<Question>): (s: State)
    ensures Inv(s) && !s.loading && s.idx == 0 && s.answers == []
    ensures s.questions == results
  {
    FetchOk(BeginFetch(Init()), results)
  }

  /** Answering every question of a fetched batch completes the session: one
      answer per question, `true` exactly where the key was `a`, and the
      tally shows the number of `a` keys over the batch size. */
  lemma AnswerAll(results: seq<Question>, ks: seq<string>)
    requires |ks| == |results|
    requires forall i :: 0 <= i < |ks| ==> ks[i] in {"a", "b", "c", "d"}
    ensures var s := Keys(Fetched(results), ks);
            && Inv(s) && IsComplete(s) && PhaseOf(s) == Complete
            && |s.answers| == |results|
            && (forall i :: 0 <= i < |ks| ==> s.answers[i] == (ks[i] == "a"))
            && ShownTally(s) == Some(Tally(CountTrue(s.answers), |results|))
  {
    var s0 := Fetched(results);
    ResponsesOfAnswerKeys(ks);
    KeysEffect(s0, ks);
    KeysKeepInv(s0, ks);
    assert Responses(ks)[..|ks|] == Responses(ks);
  }

  /** Before the last question is answered, the session is still presenting
      the next unanswered question; the tally is not shown. */
  lemma PartialAnswers(results: seq<Question>, ks: seq<string>)
    requires |ks| < |results|
    requires forall i :: 0 <= i < |ks| ==> ks[i] in {"a", "b", "c", "d"}
    ensures var s := Keys(Fetched(results), ks);
            && Inv(s) && PhaseOf(s) == Presenting(|ks|)
            && Current(s) == Some(results[|ks|])
            && ShownTally(s) == None
  {
    var s0 := Fetched(results);
    ResponsesOfAnswerKeys(ks);
    KeysEffect(s0, ks);
    KeysKeepInv(s0, ks);
  }

  /** One question with `Paris` correct: pressing `a` completes the session
      with the tally 1/1. */
  lemma ScenarioOneCorrect()
    ensures var q := Question(Multiple, "Capital of France?", "Paris", ["London", "Berlin", "Madrid"]);
            var s := Keys(Fetched([q]), ["a"]);
            IsComplete(s) && ShownTally(s) == Some(Tally(1, 1))
  {
  }

  /** Two questions answered `b` then `a`: the tally is 1/2. */
  lemma ScenarioTwoQuestions(q1: Question, q2: Question)
    ensures var s := Keys(Fetched([q1, q2]), ["b", "a"]);
            IsComplete(s) && ShownTally(s) == Some(Tally(1, 2))
  {
  }

  /** An empty batch goes straight from loading to complete, showing 0/0. */
  lemma ScenarioEmptyBatch()
    ensures ShownTally(Fetched([])) == Some(Tally(0, 0))
    ensures PhaseOf(BeginFetch(Init())) == Loading && PhaseOf(Fetched([])) == Complete
  {
  }

  /** Quitting while loading requests exit and leaves the state as it is;
      keys typed before the quit key are ignored too. */
  lemma ScenarioQuitWhileLoading(ks: seq<string>)
    requires forall i :: 0 <= i < |ks| ==> !IsQuit(ks[i])
    ensures Run(BeginFetch(Init()), ks + ["q"]) == Outcome(BeginFetch(Init()), true)
  {
    var all := ks + ["q"];
    RunStopsAtQuit(BeginFetch(Init()), all);
    assert forall i :: 0 <= i < |ks| ==> all[i] == ks[i];
    assert FirstQuit(all) == |ks| by {
      assert IsQuit(all[|ks|]);
    }
    assert all[..|ks|] == ks;
    KeysWhileLoading(BeginFetch(Init()), ks);
  }
}
