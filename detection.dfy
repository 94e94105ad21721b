/** The part of `show_language_detector` that decides whether a request is
    sent and builds the prompt text it carries. The request itself and the
    handling of the reply are outside this model. */
module Detection {
  import opened Wrappers
  import opened Feedback
  import opened Text

  /** The text before the quoted input: the question, a blank line and the
      opening quote. */
  const Question: string := "What language is this sentence written in?\n\n\""
  const EmptyInputMessage: string := "\U{26A0}\U{FE0F} Please enter some text."

  /** A click on Detect Language either warns and sends nothing, or sends one
      request with this prompt. */
  datatype Outcome = Warn(notice: Notice) | Request(prompt: string)

  /** The prompt for `input`: the question followed by the input in double
      quotes. */
  function Prompt(input: string): (p: string)
    ensures |p| == |Question| + |input| + 1
    ensures p[..|Question|] == Question
    ensures p[|Question|..|p| - 1] == input
    ensures p[|p| - 1] == '"'
  {
    Question + input + "\""
  }

  /** The input quoted inside a prompt, if `p` has the prompt's shape. */
  function Unquote(p: string): Option<string> {
    if |p| > |Question| && p[..|Question|] == Question && p[|p| - 1] == '"'
    then Some(p[|Question|..|p| - 1])
    else None
  }

  /** The input can be read back out of its prompt, so distinct inputs give
      distinct prompts. */
  lemma UnquotePrompt(input: string)
    ensures Unquote(Prompt(input)) == Some(input)
  {
  }

  /** Every string of the prompt's shape is the prompt of the text it quotes. */
  lemma PromptUnquote(p: string)
    requires Unquote(p).Some?
    ensures Prompt(Unquote(p).value) == p
  {
  }

  /** Whitespace-only input gives the warning and no request; any other input
      is sent verbatim, unstripped, inside the prompt. */
  function Detect(input: string): (o: Outcome)
    ensures o.Warn? <==> IsBlank(input)
    ensures o.Warn? ==> o.notice == Warning(EmptyInputMessage)
    ensures o.Request? ==> Unquote(o.prompt) == Some(input)
  {
    if Strip(input) != [] then Request(Prompt(input)) else Warn(Warning(EmptyInputMessage))
  }
}
