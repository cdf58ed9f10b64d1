/**
 * Delimiter processors as the inline parser sees them. A processor is known by its identity,
 * its opening and closing characters and the minimum run length it accepts; what it does
 * when it matches an opener with a closer is computed by code outside this model and enters
 * as a function of that identity and the two runs (see ProcessFn).
 */
module Processors {

  datatype DelimiterProcessor = DelimiterProcessor(id: nat, opening: char, closing: char, minLength: nat)

  /** What a processor is told about a delimiter run (commonmark-java's DelimiterRun). */
  datatype RunView = RunView(length: nat, originalLength: nat, canOpen: bool, canClose: bool)

  /**
   * DelimiterProcessor.process(opener, closer): how many delimiter characters the processor
   * with the given identity uses from each run; 0 means the pair does not match.
   */
  type ProcessFn = (nat, RunView, RunView) -> nat

  /** A processor never claims more characters than either run has left. */
  ghost predicate ProcessBounded(process: ProcessFn)
  {
    forall id: nat, opener: RunView, closer: RunView ::
      process(id, opener, closer) <= opener.length && process(id, opener, closer) <= closer.length
  }

  /** commonmark-java's AsteriskDelimiterProcessor: '*' on both sides, runs of at least one. */
  const Asterisk := DelimiterProcessor(0, '*', '*', 1)

  /** commonmark-java's UnderscoreDelimiterProcessor: '_' on both sides, runs of at least one. */
  const Underscore := DelimiterProcessor(1, '_', '_', 1)
}
