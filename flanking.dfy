/**
 * Whether a delimiter run can open and/or close emphasis (scanDelimiters, following the
 * left- and right-flanking rules of section 6.2 of the CommonMark specification). The
 * character classes come from commonmark-java's Parsing and enter as parameters; the text
 * boundary (END) counts as both whitespace and punctuation.
 */
module Flanking {
  import opened Scanning

  type CharClass = char -> bool

  function IsPunctuationAt(n: Peeked, isPunctuation: CharClass): bool
  {
    n.End? || isPunctuation(n.c)
  }

  function IsWhitespaceAt(n: Peeked, isWhitespace: CharClass): bool
  {
    n.End? || isWhitespace(n.c)
  }

  /** A left-flanking run is not followed by whitespace, nor by punctuation unless preceded by
      whitespace or punctuation. */
  function LeftFlanking(before: Peeked, after: Peeked, isPunctuation: CharClass, isWhitespace: CharClass): bool
  {
    !IsWhitespaceAt(after, isWhitespace) &&
    (!IsPunctuationAt(after, isPunctuation) || IsWhitespaceAt(before, isWhitespace) || IsPunctuationAt(before, isPunctuation))
  }

  /** The mirror image of LeftFlanking. */
  function RightFlanking(before: Peeked, after: Peeked, isPunctuation: CharClass, isWhitespace: CharClass): bool
  {
    !IsWhitespaceAt(before, isWhitespace) &&
    (!IsPunctuationAt(before, isPunctuation) || IsWhitespaceAt(after, isWhitespace) || IsPunctuationAt(after, isPunctuation))
  }

  datatype Flags = Flags(canOpen: bool, canClose: bool)

  /**
   * The canOpen/canClose flags of a run of delimiterChar between `before` and `after`, for a
   * processor with the given opening and closing characters. '_' follows the stricter
   * intraword rule; any other character opens only as the opening and closes only as the
   * closing character of its processor.
   */
  function Classify(delimiterChar: char, opening: char, closing: char, before: Peeked, after: Peeked,
                    isPunctuation: CharClass, isWhitespace: CharClass): Flags
  {
    var left := LeftFlanking(before, after, isPunctuation, isWhitespace);
    var right := RightFlanking(before, after, isPunctuation, isWhitespace);
    if delimiterChar == '_' then
      Flags(left && (!right || IsPunctuationAt(before, isPunctuation)),
            right && (!left || IsPunctuationAt(after, isPunctuation)))
    else
      Flags(left && delimiterChar == opening, right && delimiterChar == closing)
  }

  /** Left and right flanking are mirror images: swap what is before and after the run. */
  lemma FlankingMirror(before: Peeked, after: Peeked, isPunctuation: CharClass, isWhitespace: CharClass)
    ensures LeftFlanking(before, after, isPunctuation, isWhitespace) ==
            RightFlanking(after, before, isPunctuation, isWhitespace)
  {
  }

  /**
   * For '_' and for a processor whose opening and closing character are the run's character,
   * a run can open exactly when its mirror image can close.
   */
  lemma ClassifyMirror(delimiterChar: char, opening: char, closing: char, before: Peeked, after: Peeked,
                       isPunctuation: CharClass, isWhitespace: CharClass)
    requires delimiterChar == '_' || (opening == delimiterChar && closing == delimiterChar)
    ensures Classify(delimiterChar, opening, closing, before, after, isPunctuation, isWhitespace).canOpen ==
            Classify(delimiterChar, opening, closing, after, before, isPunctuation, isWhitespace).canClose
  {
  }

  /** A run at the end of the text never opens; one at the start never closes. */
  lemma ClassifyAtEnds(delimiterChar: char, opening: char, closing: char, before: Peeked, after: Peeked,
                       isPunctuation: CharClass, isWhitespace: CharClass)
    ensures after.End? ==> !Classify(delimiterChar, opening, closing, before, after, isPunctuation, isWhitespace).canOpen
    ensures before.End? ==> !Classify(delimiterChar, opening, closing, before, after, isPunctuation, isWhitespace).canClose
  {
  }

  /**
   * Inside a word (letters or digits on both sides): '_' neither opens nor closes, while a
   * symmetric processor's character such as '*' does both.
   */
  lemma Intraword(opening: char, before: char, after: char, isPunctuation: CharClass, isWhitespace: CharClass)
    requires !isPunctuation(before) && !isWhitespace(before) && !isPunctuation(after) && !isWhitespace(after)
    ensures Classify('_', '_', '_', Char(before), Char(after), isPunctuation, isWhitespace) == Flags(false, false)
    ensures opening != '_' ==>
      Classify(opening, opening, opening, Char(before), Char(after), isPunctuation, isWhitespace) == Flags(true, true)
  {
  }

  /** A run can open only if it is left-flanking, and close only if it is right-flanking. */
  lemma ClassifyNeedsFlanking(delimiterChar: char, opening: char, closing: char, before: Peeked, after: Peeked,
                              isPunctuation: CharClass, isWhitespace: CharClass)
    ensures Classify(delimiterChar, opening, closing, before, after, isPunctuation, isWhitespace).canOpen ==>
      LeftFlanking(before, after, isPunctuation, isWhitespace)
    ensures Classify(delimiterChar, opening, closing, before, after, isPunctuation, isWhitespace).canClose ==>
      RightFlanking(before, after, isPunctuation, isWhitespace)
  {
  }
}
