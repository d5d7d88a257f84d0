/**
 * The per-document correction-and-counting pass (process_text) and the
 * zero-guarded error rate of one document.
 */
module SpellCheck {
  import opened Library

  /** A token counts as a spelling error when it is a word whose correction
      differs from it other than in letter case. */
  predicate IsError(lib: Toolkit, t: string)
  {
    lib.isAlpha(t) && lib.lower(lib.correct(t)) != lib.lower(t)
  }

  /** The corrected token list, built left to right: words are replaced by
      the corrector's suggestion, every other token is kept as it is. */
  function CorrectAll(lib: Toolkit, ts: seq<string>): (r: seq<string>)
    ensures |r| == |ts|
    ensures forall i :: 0 <= i < |ts| && lib.isAlpha(ts[i]) ==> r[i] == lib.correct(ts[i])
    ensures forall i :: 0 <= i < |ts| && !lib.isAlpha(ts[i]) ==> r[i] == ts[i]
  {
    if ts == [] then []
    else
      var last := ts[|ts| - 1];
      CorrectAll(lib, ts[..|ts| - 1]) + [if lib.isAlpha(last) then lib.correct(last) else last]
  }

  /** The alphabetic tokens, in order (the list comprehension whose length is total_words). */
  function AlphaTokens(lib: Toolkit, ts: seq<string>): (r: seq<string>)
    ensures |r| <= |ts|
    ensures forall k :: 0 <= k < |r| ==> lib.isAlpha(r[k])
  {
    if ts == [] then []
    else
      var last := ts[|ts| - 1];
      AlphaTokens(lib, ts[..|ts| - 1]) + (if lib.isAlpha(last) then [last] else [])
  }

  /** The number of errors counted by the loop over the tokens. */
  function CountErrors(lib: Toolkit, ts: seq<string>): (n: nat)
    ensures n <= |AlphaTokens(lib, ts)|
  {
    if ts == [] then 0
    else CountErrors(lib, ts[..|ts| - 1]) + (if IsError(lib, ts[|ts| - 1]) then 1 else 0)
  }

  /** Independent reference for total_words: the positions holding a word. */
  ghost function WordPositions(lib: Toolkit, ts: seq<string>): set<int>
  {
    set i | 0 <= i < |ts| && lib.isAlpha(ts[i])
  }

  /** Independent reference for error_count: the positions holding an error. */
  ghost function ErrorPositions(lib: Toolkit, ts: seq<string>): set<int>
  {
    set i | 0 <= i < |ts| && IsError(lib, ts[i])
  }

  lemma {:induction false} WordCountIsWordPositions(lib: Toolkit, ts: seq<string>)
    ensures |AlphaTokens(lib, ts)| == |WordPositions(lib, ts)|
  {
    if ts != [] {
      var pre, n := ts[..|ts| - 1], |ts| - 1;
      WordCountIsWordPositions(lib, pre);
      var extra := if lib.isAlpha(ts[n]) then {n} else {};
      assert WordPositions(lib, ts) == WordPositions(lib, pre) + extra;
      assert n !in WordPositions(lib, pre);
    }
  }

  lemma {:induction false} ErrorCountIsErrorPositions(lib: Toolkit, ts: seq<string>)
    ensures CountErrors(lib, ts) == |ErrorPositions(lib, ts)|
  {
    if ts != [] {
      var pre, n := ts[..|ts| - 1], |ts| - 1;
      ErrorCountIsErrorPositions(lib, pre);
      var extra := if IsError(lib, ts[n]) then {n} else {};
      assert ErrorPositions(lib, ts) == ErrorPositions(lib, pre) + extra;
      assert n !in ErrorPositions(lib, pre);
    }
  }

  /** The error positions are among the word positions: only words are ever counted. */
  lemma ErrorsAreWords(lib: Toolkit, ts: seq<string>)
    ensures ErrorPositions(lib, ts) <= WordPositions(lib, ts)
    ensures CountErrors(lib, ts) <= |WordPositions(lib, ts)|
  {
    WordCountIsWordPositions(lib, ts);
  }

  /** No error is counted exactly when every word's correction equals it up to case. */
  lemma {:induction false} NoErrorsIff(lib: Toolkit, ts: seq<string>)
    ensures CountErrors(lib, ts) == 0 <==>
      forall i :: 0 <= i < |ts| && lib.isAlpha(ts[i]) ==> lib.lower(lib.correct(ts[i])) == lib.lower(ts[i])
  {
    if ts != [] {
      var pre := ts[..|ts| - 1];
      NoErrorsIff(lib, pre);
      assert forall i :: 0 <= i < |pre| ==> pre[i] == ts[i];
    }
  }

  /** A corrector that returns every word unchanged leaves the token list as it was and counts nothing. */
  lemma IdentityCorrectorChangesNothing(lib: Toolkit, ts: seq<string>)
    requires forall i :: 0 <= i < |ts| && lib.isAlpha(ts[i]) ==> lib.correct(ts[i]) == ts[i]
    ensures CorrectAll(lib, ts) == ts
    ensures CountErrors(lib, ts) == 0
  {
  }

  /** The corrector is consulted only on words: two toolkits that classify the
      tokens alike and agree on the corrections of the words give the same
      corrected list and the same counts, whatever they do on the other tokens. */
  lemma {:induction false} CorrectorConsultedOnlyOnWords(a: Toolkit, b: Toolkit, ts: seq<string>)
    requires forall i :: 0 <= i < |ts| ==> a.isAlpha(ts[i]) == b.isAlpha(ts[i])
    requires forall i :: 0 <= i < |ts| && a.isAlpha(ts[i]) ==> a.correct(ts[i]) == b.correct(ts[i])
    requires forall i :: 0 <= i < |ts| && a.isAlpha(ts[i]) ==>
      a.lower(a.correct(ts[i])) == b.lower(b.correct(ts[i])) && a.lower(ts[i]) == b.lower(ts[i])
    ensures CorrectAll(a, ts) == CorrectAll(b, ts)
    ensures AlphaTokens(a, ts) == AlphaTokens(b, ts)
    ensures CountErrors(a, ts) == CountErrors(b, ts)
  {
    if ts != [] {
      var pre := ts[..|ts| - 1];
      assert forall i :: 0 <= i < |pre| ==> pre[i] == ts[i];
      CorrectorConsultedOnlyOnWords(a, b, pre);
    }
  }

  /** The corrected text that process_text produces for a document. */
  function CorrectedText(lib: Toolkit, text: string): string
  {
    lib.detokenize(CorrectAll(lib, lib.tokenize(text)))
  }

  /** process_text: tokenize, correct each word while counting the corrections
      that change more than letter case, detokenize, and count the words. */
  method ProcessText(lib: Toolkit, text: string) returns (correctedText: string, errorCount: nat, totalWords: nat)
    ensures correctedText == CorrectedText(lib, text)
    ensures errorCount == CountErrors(lib, lib.tokenize(text))
    ensures totalWords == |AlphaTokens(lib, lib.tokenize(text))|
    ensures errorCount <= totalWords
  {
    var tokens := lib.tokenize(text);
    var correctedTokens: seq<string> := [];
    errorCount := 0;
    for i := 0 to |tokens|
      invariant correctedTokens == CorrectAll(lib, tokens[..i])
      invariant errorCount == CountErrors(lib, tokens[..i])
    {
      var token := tokens[i];
      if lib.isAlpha(token) {
        var corrected := lib.correct(token);
        if lib.lower(corrected) != lib.lower(token) {
          errorCount := errorCount + 1;
        }
        correctedTokens := correctedTokens + [corrected];
      } else {
        correctedTokens := correctedTokens + [token];
      }
      assert tokens[..i + 1][..i] == tokens[..i];
    }
    assert tokens[..|tokens|] == tokens;
    correctedText := lib.detokenize(correctedTokens);
    totalWords := |AlphaTokens(lib, tokens)|;
  }

  /** The error rate in percent, 0 for a document without words (no division then). */
  function ErrorRate(errorCount: nat, totalWords: nat): (r: real)
    ensures totalWords == 0 ==> r == 0.0
    ensures totalWords > 0 ==> r * totalWords as real == 100.0 * errorCount as real
    ensures errorCount <= totalWords ==> 0.0 <= r <= 100.0
    ensures r == 0.0 <==> errorCount == 0 || totalWords == 0
  {
    if totalWords > 0 then errorCount as real / totalWords as real * 100.0 else 0.0
  }
}
