/**
 * Plain-text runs and line breaks (parseText and parseLineBreak). A text run that stops
 * before a newline loses its trailing spaces, and their number decides whether that newline
 * is a hard or a soft line break (sections 6.7 and 6.8 of the CommonMark specification); the
 * run that stops at the end of the input loses its trailing spaces and tabs.
 */
module TextRuns {
  import opened Wrappers
  import opened Scanning

  /** Number of consecutive characters at the end of `s` that satisfy `strip`
      (Parsing.skipBackwards / skipSpaceTabBackwards, counted from the end). */
  function TrailingCount(s: string, strip: char -> bool): (n: nat)
    ensures n <= |s|
    ensures forall k :: |s| - n <= k < |s| ==> strip(s[k])
    ensures n == |s| || !strip(s[|s| - n - 1])
    decreases |s|
  {
    if s != [] && strip(s[|s| - 1]) then 1 + TrailingCount(s[..|s| - 1], strip) else 0
  }

  predicate IsSpace(c: char) { c == ' ' }

  predicate IsSpaceOrTab(c: char) { c == ' ' || c == '\t' }

  /** `s` without its trailing characters that satisfy `strip`. */
  function TrimEnd(s: string, strip: char -> bool): string
  {
    s[..|s| - TrailingCount(s, strip)]
  }

  /** Trimming splits the run into a prefix that does not end in a stripped character and
      a tail made only of stripped characters; nothing else is lost. */
  lemma TrimEndSplit(s: string, strip: char -> bool)
    ensures s == TrimEnd(s, strip) + s[|TrimEnd(s, strip)|..]
    ensures |s| - |TrimEnd(s, strip)| == TrailingCount(s, strip)
    ensures TrimEnd(s, strip) == [] || !strip(TrimEnd(s, strip)[|TrimEnd(s, strip)| - 1])
    ensures forall k :: |TrimEnd(s, strip)| <= k < |s| ==> strip(s[k])
  {
  }

  /** Trimming twice removes nothing more. */
  lemma {:induction false} TrimEndIdempotent(s: string, strip: char -> bool)
    ensures TrimEnd(TrimEnd(s, strip), strip) == TrimEnd(s, strip)
  {
    var t := TrimEnd(s, strip);
    assert TrailingCount(t, strip) == 0;
    assert t[..|t|] == t;
  }

  /**
   * The literal of a text run `raw` and the trailing-space count it records, given what
   * stopped the run: before a newline, trailing spaces are removed and counted; at the end
   * of the input, trailing spaces and tabs are removed and nothing is counted; before any
   * other special character the run is kept as it is.
   */
  datatype RunResult = RunResult(literal: string, recorded: Option<nat>)

  function TextRunResult(raw: string, next: Peeked): (r: RunResult)
  {
    if next == Char('\n') then RunResult(TrimEnd(raw, IsSpace), Some(TrailingCount(raw, IsSpace)))
    else if next.End? then RunResult(TrimEnd(raw, IsSpaceOrTab), None)
    else RunResult(raw, None)
  }

  /** What the run keeps is always a prefix of what was scanned, and a newline follows a run
      only when its recorded count is exactly the spaces removed from it. */
  lemma TextRunResultShape(raw: string, next: Peeked)
    ensures var r := TextRunResult(raw, next);
      r.literal <= raw &&
      (r.recorded.Some? <==> next == Char('\n')) &&
      (r.recorded.Some? ==> r.recorded.value == |raw| - |r.literal| &&
                            forall k :: |r.literal| <= k < |raw| ==> raw[k] == ' ') &&
      (next.End? ==> forall k :: |r.literal| <= k < |raw| ==> raw[k] == ' ' || raw[k] == '\t') &&
      (next.Char? && next.c != '\n' ==> r.literal == raw)
  {
    TrimEndSplit(raw, IsSpace);
    TrimEndSplit(raw, IsSpaceOrTab);
  }

  /**
   * What the line-break decision depends on, as a sequence of parse events: a text run that
   * stopped before `next` and whose scanned text ended with `trailing` spaces; a newline; any
   * other node (delimiter run, bracket, code span, math span, ...).
   */
  datatype Event = TextRun(next: Peeked, trailing: nat) | Newline | OtherNode

  /** One Boolean per Newline event, true for a hard line break, as the parser is written:
      the count is set by a run that stops before a newline and never reset. */
  function BreaksAsWritten(events: seq<Event>, trailingSpaces: nat): seq<bool>
  {
    if events == [] then []
    else match events[0]
      case TextRun(next, n) =>
        BreaksAsWritten(events[1..], if next == Char('\n') then n else trailingSpaces)
      case Newline => [trailingSpaces >= 2] + BreaksAsWritten(events[1..], trailingSpaces)
      case OtherNode => BreaksAsWritten(events[1..], trailingSpaces)
  }

  /** The same decision when a line break consumes the count (resets it to 0). */
  function BreaksCorrected(events: seq<Event>, i: nat, trailingSpaces: nat): seq<bool>
    requires i <= |events|
    decreases |events| - i
  {
    if i == |events| then []
    else match events[i]
      case TextRun(next, n) =>
        BreaksCorrected(events, i + 1, if next == Char('\n') then n else trailingSpaces)
      case Newline => [trailingSpaces >= 2] + BreaksCorrected(events, i + 1, 0)
      case OtherNode => BreaksCorrected(events, i + 1, trailingSpaces)
  }

  /** A newline is hard exactly when the event right before it is a text run that stopped at
      that newline with at least two trailing spaces. */
  predicate HardAt(events: seq<Event>, i: nat)
    requires i <= |events|
  {
    i > 0 && events[i - 1].TextRun? && events[i - 1].next == Char('\n') && events[i - 1].trailing >= 2
  }

  /** The reference decision, one Boolean per Newline event from index `i` on. */
  function BreaksIntended(events: seq<Event>, i: nat): seq<bool>
    requires i <= |events|
    decreases |events| - i
  {
    if i == |events| then []
    else (if events[i].Newline? then [HardAt(events, i)] else []) + BreaksIntended(events, i + 1)
  }

  /** Event sequences the scanner can produce: a run that stops before a newline is always
      followed by that newline. */
  predicate Realistic(events: seq<Event>)
  {
    forall i :: 0 <= i < |events| && events[i].TextRun? && events[i].next == Char('\n') ==>
      i + 1 < |events| && events[i + 1].Newline?
  }

  /** The count the corrected parser holds just before event `i`. */
  function CountBefore(events: seq<Event>, i: nat): nat
    requires i <= |events|
  {
    if i > 0 && events[i - 1].TextRun? && events[i - 1].next == Char('\n') then events[i - 1].trailing else 0
  }

  lemma {:induction false} CorrectedFrom(events: seq<Event>, i: nat)
    requires Realistic(events)
    requires i <= |events|
    ensures BreaksCorrected(events, i, CountBefore(events, i)) == BreaksIntended(events, i)
    decreases |events| - i
  {
    if i < |events| {
      CorrectedFrom(events, i + 1);
      match events[i]
      case TextRun(next, n) =>
      case Newline =>
      case OtherNode =>
    }
  }

  /** With the reset, every line break of a realistic event sequence is decided by the text
      right before its newline, from the start of the paragraph (count 0). */
  lemma BreaksCorrectedIntended(events: seq<Event>)
    requires Realistic(events)
    ensures BreaksCorrected(events, 0, 0) == BreaksIntended(events, 0)
  {
    CorrectedFrom(events, 0);
  }

  /** "a  \n*\nc": the first newline follows two trailing spaces, the second follows a
      delimiter run. As written both become hard line breaks; the second should be soft. */
  lemma StaleTrailingSpaces()
    ensures var events := [TextRun(Char('\n'), 2), Newline, OtherNode, Newline, TextRun(End, 0)];
      Realistic(events) &&
      BreaksAsWritten(events, 0) == [true, true] &&
      BreaksIntended(events, 0) == [true, false] &&
      BreaksCorrected(events, 0, 0) == [true, false]
  {
    var events := [TextRun(Char('\n'), 2), Newline, OtherNode, Newline, TextRun(End, 0)];
    assert events[1..] == [Newline, OtherNode, Newline, TextRun(End, 0)];
    assert events[2..] == [OtherNode, Newline, TextRun(End, 0)];
    assert events[3..] == [Newline, TextRun(End, 0)];
    assert events[4..] == [TextRun(End, 0)];
    assert events[5..] == [];
    assert BreaksIntended(events, 4) == [];
    assert BreaksIntended(events, 3) == [false];
    assert BreaksIntended(events, 1) == [true, false];
    assert BreaksCorrected(events, 3, 0) == [false];
  }
}
