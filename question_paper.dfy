/** The record that extraction produces and the paper layout consumes. */
module QuestionPaper {
  import opened Wrappers

  /** A question's box on the page. The optional page number is left out when
      the box is unknown. */
  datatype Position = Position(x: int, y: int, width: int, height: int, pageNum: Option<int>)

  /** The box extraction attaches to every question: all zeros, no page. */
  const ZeroPosition := Position(0, 0, 0, 0, None)

  /** One extracted sub-question: `id` is `"q"` + number + sub-part letter. */
  datatype Question = Question(
    id: string,
    text: string,
    marks: int,
    position: Position,
    alternatives: seq<string>)
}
