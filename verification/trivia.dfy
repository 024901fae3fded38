/** The data the quiz works on: one trivia question as the remote endpoint
    delivers it, keeping only the fields the application reads. The texts are
    opaque strings; HTML-entity decoding happens at display time and is not
    part of this model. */
module Trivia {

  /** An optional value: the question on screen when there is one, the
      response a key records when it records any, a line's label. */
  datatype Option<+T> = None | Some(value: T)

  /** Whether the question offers several answers or only true/false. It is
      informational: nothing in the session or the layout branches on it. */
  datatype Kind = Multiple | Boolean

  /** One question. `incorrect` keeps the order the payload gives; nothing
      checks its length (three for `Multiple`, one for `Boolean` in practice). */
  datatype Question = Question(
    kind: Kind,
    prompt: string,
    correct: string,
    incorrect: seq<string>
  )
}
