/**
 * The foreign collaborators that the spell-checking pass calls. Their code is
 * not part of this model, so each one is an uninterpreted total function,
 * bundled into one value that is passed explicitly to every operation (the
 * application builds its spell checker and detokenizer once, at start-up).
 */
module Library {

  datatype Toolkit = Toolkit(
    /** nltk.word_tokenize: splits a document into tokens */
    tokenize: string -> seq<string>,
    /** str.isalpha: whether a token is an alphabetic word */
    isAlpha: string -> bool,
    /** SpellChecker.correction: the suggested spelling of a word (assumed total) */
    correct: string -> string,
    /** str.lower: used only to compare a correction with its original */
    lower: string -> string,
    /** TreebankWordDetokenizer.detokenize: joins tokens back into text */
    detokenize: seq<string> -> string
  )
}
