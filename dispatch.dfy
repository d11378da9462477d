/** The check the front end makes when "Analyse" is pressed, before any
    request is sent: the API key first, then the prompt, both after
    stripping whitespace. */
module Dispatch {
  import opened Text

  /** The three ways the check ends: an error about the key, an error about
      the prompt, or going on to build the client and send the prompt. */
  datatype Gate = KeyMissing | PromptMissing | Proceed

  function CheckInputs(apiKey: string, prompt: string): (g: Gate)
    ensures g == KeyMissing <==> AllSpace(apiKey)
    ensures g == PromptMissing <==> !AllSpace(apiKey) && AllSpace(prompt)
    ensures g == Proceed <==> !AllSpace(apiKey) && !AllSpace(prompt)
  {
    if Strip(apiKey) == [] then KeyMissing
    else if Strip(prompt) == [] then PromptMissing
    else Proceed
  }

  /** Surrounding whitespace on either input never changes the decision. */
  lemma CheckIgnoresPadding(w1: string, apiKey: string, w2: string, w3: string, prompt: string, w4: string)
    requires AllSpace(w1) && AllSpace(w2) && AllSpace(w3) && AllSpace(w4)
    ensures CheckInputs(w1 + apiKey + w2, w3 + prompt + w4) == CheckInputs(apiKey, prompt)
  {
    StripPadding(w1, apiKey, w2);
    StripPadding(w3, prompt, w4);
  }
}
