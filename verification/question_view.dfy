/** The `Question` component: how one question is laid out as labelled answer
    lines, and which keys it turns into a response while it is on screen. */
module QuestionView {
  import opened Trivia

  /** The labels of the first four answer lines, in display order. */
  const AnswerMap: seq<char> := ['a', 'b', 'c', 'd']

  /** The label of line `i`. Past the fourth line the label lookup yields
      nothing, so such a line would carry no label. */
  function Label(i: nat): (l: Option<char>)
    ensures l.Some? <==> i < 4
    ensures i < 4 ==> l.value == AnswerMap[i]
  {
    if i < |AnswerMap| then Some(AnswerMap[i]) else None
  }

  /** Distinct lines carry distinct labels, so each key names at most one
      line. */
  lemma LabelsDistinct(i: nat, j: nat)
    requires Label(i).Some? && Label(i) == Label(j)
    ensures i == j
  {
  }

  /** One displayed answer line: its label and its (undecoded) text. */
  datatype Slot = Slot(letter: Option<char>, text: string)

  /** The answer lines of a question: the correct answer first, then the
      incorrect answers in payload order, with no shuffling, padding or
      truncation. */
  function Slots(q: Question): (r: seq<Slot>)
    ensures |r| == 1 + |q.incorrect|
    ensures forall i :: 0 <= i < |r| ==> r[i].letter == Label(i)
  {
    var texts := [q.correct] + q.incorrect;
    seq(|texts|, i requires 0 <= i < |texts| => Slot(Label(i), texts[i]))
  }

  /** The texts of a list of lines, top to bottom. */
  function Texts(lines: seq<Slot>): (r: seq<string>)
    ensures |r| == |lines|
  {
    seq(|lines|, i requires 0 <= i < |lines| => lines[i].text)
  }

  /** The layout loses and reorders nothing: reading the texts back off the
      lines gives the correct answer followed by the incorrect ones. */
  lemma SlotsTexts(q: Question)
    ensures Texts(Slots(q)) == [q.correct] + q.incorrect
  {
  }

  /** The correct answer is always the first line, labelled `a`. */
  lemma CorrectIsSlotA(q: Question)
    ensures Slots(q)[0] == Slot(Some('a'), q.correct)
  {
  }

  /** A boolean question with its single incorrect answer shows two lines,
      `a` and `b`; the lines `c` and `d` are not filled in. */
  lemma BooleanShowsTwoLines(q: Question)
    requires |q.incorrect| == 1
    ensures |Slots(q)| == 2
    ensures Slots(q) == [Slot(Some('a'), q.correct), Slot(Some('b'), q.incorrect[0])]
  {
  }

  /** The response a key produces while a question is on screen: `a` records
      a correct answer, `b`, `c` and `d` an incorrect one, and every other
      input (upper-case letters and multi-character input included) none. */
  function Response(input: string): (r: Option<bool>)
    ensures r == Some(true) <==> input == "a"
    ensures r == Some(false) <==> input in {"b", "c", "d"}
  {
    match input
    case "a" => Some(true)
    case "b" => Some(false)
    case "c" => Some(false)
    case "d" => Some(false)
    case _ => None
  }

  /** Pressing the label of a displayed line records whether that line is the
      correct answer, i.e. whether it is the first line. */
  lemma LabelKeyScoresLine(q: Question, i: nat)
    requires i < |Slots(q)|
    requires Slots(q)[i].letter.Some?
    ensures Response([Slots(q)[i].letter.value]) == Some(i == 0)
  {
  }

  /** Every key that records an answer is the label of one of the four line
      positions, and it records `true` exactly for the first. */
  lemma ResponseKeysAreLabels(input: string)
    requires Response(input).Some?
    ensures exists i :: 0 <= i < 4 && input == [AnswerMap[i]] && Response(input) == Some(i == 0)
  {
    if input == "a" {
      assert input == [AnswerMap[0]];
    } else if input == "b" {
      assert input == [AnswerMap[1]];
    } else if input == "c" {
      assert input == [AnswerMap[2]];
    } else {
      assert input == [AnswerMap[3]];
    }
  }

  /** On a boolean question the keys `c` and `d` label no displayed line, yet
      they still record an incorrect answer. */
  lemma BooleanPhantomKeys(q: Question, input: string)
    requires |q.incorrect| == 1
    requires input in {"c", "d"}
    ensures forall i :: 0 <= i < |Slots(q)| ==> Slots(q)[i].letter != Some(input[0])
    ensures Response(input) == Some(false)
  {
  }
}
