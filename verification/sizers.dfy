/**
  The `Sizer` capability: a size metric mapping a text to a non-negative cost. The
  built-in character and word metrics are modelled exactly; a tokenizer-backed metric
  (Hugging Face or tiktoken) is an arbitrary function that may fail.
*/
module Sizers {
  import opened Results
  import Chars
  import Words

  datatype Sizer =
    | CharCounter
    | WordCounter
    | Tokenizer(count: string -> Result<nat>)

  /** `Sizer::size`: the cost of a text under the metric. */
  function Size(sizer: Sizer, text: string): (r: Result<nat>)
    ensures !sizer.Tokenizer? ==> r.Ok?
    ensures !sizer.Tokenizer? && |text| == 0 ==> r == Ok(0)
  {
    match sizer
    case CharCounter => Ok(Chars.Count(text))
    case WordCounter => Ok(Words.Count(text))
    case Tokenizer(count) => count(text)
  }
}
