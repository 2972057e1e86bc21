/**
 * The request handler of the web front end, reduced to its guard: a missing
 * or empty `input` is answered with a fixed message, any other text goes to
 * `get_sentiment` and its label is the response.
 */
module App {
  import opened Pipeline

  datatype Option<T> = None | Some(value: T)

  /** The response to a request without usable input. */
  const NoInputMessage: string := "No input value found"

  /**
   * `predict()` after the `input` value has been read. `None` stands for a
   * GET without the `input` parameter or a JSON body whose `input` is `null`
   * (a JSON body without the key fails before the guard). `if not input`
   * rejects only `None` and the empty string: whitespace-only text is
   * classified like any other.
   */
  method Predict(ctx: Context, input: Option<string>) returns (response: string)
    ensures input.None? || input.value == "" ==> response == NoInputMessage
    ensures input.Some? && input.value != "" ==>
      response == ctx.classify(Bag(ExtractFeatures(ctx, input.value)))
  {
    if input.None? || input.value == "" {
      return NoInputMessage;
    }
    response := GetSentiment(ctx, input.value);
  }
}
