/** The output-token budget of a translation request in
    subtitle/background.js: a rough token count of the prompt and the text
    (`approxTokens`) and the `max_output_tokens` chosen from it
    (`pickMaxOut`). */
module TokenBudget {
  import opened Wrappers
  import opened Seqs
  import opened JsText

  /** `approxTokens(str)`: a quarter of the string's UTF-16 length, rounded
      up; a missing string counts as "". */
  function ApproxTokens(str: Option<string>): (n: nat)
    ensures str.None? ==> n == 0
    ensures str.Some? ==> 4 * n - 4 < Utf16Length(str.value) <= 4 * n
  {
    var len := match str case Some(s) => Utf16Length(s) case None => 0;
    (len + 3) / 4
  }

  /** The options of `pickMaxOut`: the context window, the model's output
      cap, the wanted output size and a safety margin, in tokens. */
  datatype Budget = Budget(ctx: int, modelMax: int, desired: int, safety: int)

  /** The values `pickMaxOut` uses when called without options, as
      `streamTranslateWholeWithOpenAI` calls it. */
  const Defaults := Budget(400000, 128000, 12000, 1500)

  /** The smallest output budget ever requested. */
  const Floor := 512

  /** The prompt's and the text's estimated tokens. */
  function InputTokens(systemPrompt: string, userText: string): nat
  {
    ApproxTokens(Some(systemPrompt)) + ApproxTokens(Some(userText))
  }

  /** What is left of the context window after the input and the margin,
      never negative. */
  function Available(systemPrompt: string, userText: string, b: Budget): (r: int)
    ensures r >= 0
    ensures r >= b.ctx - InputTokens(systemPrompt, userText) - b.safety
    ensures r == 0 || r == b.ctx - InputTokens(systemPrompt, userText) - b.safety
  {
    Max(0, b.ctx - InputTokens(systemPrompt, userText) - b.safety)
  }

  /** `pickMaxOut(systemPrompt, userText, options)`: the wanted size, cut
      down to what is available and to the model's cap, but never below
      the floor. */
  function PickMaxOut(systemPrompt: string, userText: string, b: Budget): (r: int)
    ensures Floor <= r <= Max(Floor, Min(b.desired, b.modelMax))
    ensures r <= Max(Floor, Available(systemPrompt, userText, b))
    ensures Available(systemPrompt, userText, b) >= b.desired && b.modelMax >= b.desired >= Floor
            ==> r == b.desired
    ensures Available(systemPrompt, userText, b) < Floor ==> r == Floor
    ensures r >= Min(b.desired, Min(Available(systemPrompt, userText, b), b.modelMax))
    ensures r == Floor || r == Min(b.desired, Min(Available(systemPrompt, userText, b), b.modelMax))
  {
    Max(Floor, Min(b.desired, Min(Available(systemPrompt, userText, b), b.modelMax)))
  }

  /** With the default options the budget lies between 512 and 12000. */
  lemma DefaultsRange(systemPrompt: string, userText: string)
    ensures 512 <= PickMaxOut(systemPrompt, userText, Defaults) <= 12000
  {
  }

  /** A longer string never counts as fewer tokens. */
  lemma ApproxTokensMonotone(s: string, t: string)
    requires Utf16Length(s) <= Utf16Length(t)
    ensures ApproxTokens(Some(s)) <= ApproxTokens(Some(t))
  {
  }

  /** A longer text never gets a larger output budget. */
  lemma PickMaxOutNonIncreasing(systemPrompt: string, userText: string, longer: string, b: Budget)
    requires Utf16Length(userText) <= Utf16Length(longer)
    ensures PickMaxOut(systemPrompt, longer, b) <= PickMaxOut(systemPrompt, userText, b)
  {
    ApproxTokensMonotone(userText, longer);
  }
}
