/** Tokens as texts. */
module TokenTexts {

  type Token = t: string | |t| > 0 witness "a"

  /** The token a word makes, if there is a word. */
  function Flush(word: string): seq<Token> {
    if word == "" then [] else [word]
  }
}
