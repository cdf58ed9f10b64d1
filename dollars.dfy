/**
 * DollarsInlineParser: a math span delimited by runs of '$', read the way section 6.1 of the
 * CommonMark specification reads code spans. The opening run of n dollars is closed by the
 * first later run of exactly n dollars; the content between them becomes a Latex node with
 * line feeds turned into spaces and one space stripped from each side when both ends are
 * spaces and the content is not all spaces. Without a closing run, the opening run is text.
 */
module Dollars {
  import opened Wrappers
  import opened Scanning
  import opened Nodes

  /**
   * The search loop of tryParse from position p: find the next '$' (stopping unless it lies
   * more than zero characters ahead), take its whole run, and stop at the first run of
   * exactly n; the result is where that run starts.
   */
  function ClosingRun(s: seq<char>, p: nat, n: nat): (r: Option<nat>)
    requires p <= |s|
    ensures r.Some? ==> p < r.value && r.value + n <= |s|
    decreases |s| - p
  {
    match FindFrom(s, p, '$')
    case None => None
    case Some(j) =>
      if j - p <= 0 then None
      else
        var count := RunLength(s, j, '$');
        if count == n then Some(j) else ClosingRun(s, j + count, n)
  }

  /** A maximal run of '$' starts at j: j holds '$' and the character before it does not. */
  predicate RunStart(s: seq<char>, j: nat)
  {
    0 < j < |s| && s[j] == '$' && s[j - 1] != '$'
  }

  /**
   * What the search finds, stated without the loop: from a position that is not inside a
   * run, the result is the first run start after p whose run has exactly n dollars, or
   * nothing when no run after p has n dollars.
   */
  lemma {:induction false} ClosingRunIsFirstMatch(s: seq<char>, p: nat, n: nat)
    requires p <= |s| && (p == |s| || s[p] != '$')
    ensures ClosingRun(s, p, n).Some? ==>
      var j := ClosingRun(s, p, n).value;
      p < j && RunStart(s, j) && RunLength(s, j, '$') == n &&
      forall k :: p < k < j && RunStart(s, k) ==> RunLength(s, k, '$') != n
    ensures ClosingRun(s, p, n).None? ==>
      forall k :: p < k < |s| && RunStart(s, k) ==> RunLength(s, k, '$') != n
    decreases |s| - p
  {
    FindFromFirst(s, p, '$');
    match FindFrom(s, p, '$')
    case None =>
    case Some(j) =>
      var count := RunLength(s, j, '$');
      RunLengthRun(s, j, '$');
      assert j > p;
      assert RunStart(s, j);
      if count != n {
        var q := j + count;
        ClosingRunIsFirstMatch(s, q, n);
        forall k | p < k < q && RunStart(s, k) ensures k == j {
        }
      }
  }

  /** content.replace('\n', ' '). */
  function NewlinesToSpaces(s: string): (r: string)
    ensures |r| == |s|
    ensures forall i :: 0 <= i < |s| ==> r[i] == if s[i] == '\n' then ' ' else s[i]
  {
    seq(|s|, i requires 0 <= i < |s| => if s[i] == '\n' then ' ' else s[i])
  }

  /** Parsing.hasNonSpace. */
  predicate HasNonSpace(s: string)
  {
    exists i :: 0 <= i < |s| && s[i] != ' '
  }

  /** The literal of the Latex node made from the raw content between the two runs. */
  function LatexContent(raw: string): string
  {
    var content := NewlinesToSpaces(raw);
    if |content| >= 3 && content[0] == ' ' && content[|content| - 1] == ' ' && HasNonSpace(content) then
      content[1..|content| - 1]
    else
      content
  }

  /** The literal never holds a line feed. */
  lemma LatexContentNoNewline(raw: string)
    ensures '\n' !in LatexContent(raw)
  {
    var content := NewlinesToSpaces(raw);
    assert '\n' !in content;
  }

  /**
   * The literal is the raw content with line feeds as spaces, less one space on each side
   * exactly when it has at least three characters, starts and ends with a space or line feed,
   * and holds a character that is neither.
   */
  lemma LatexContentStrip(raw: string)
    ensures var content := NewlinesToSpaces(raw);
      var strip := |raw| >= 3 && content[0] == ' ' && content[|raw| - 1] == ' ' &&
                   exists i :: 0 <= i < |raw| && raw[i] != ' ' && raw[i] != '\n';
      LatexContent(raw) == if strip then content[1..|raw| - 1] else content
  {
    NonSpaceSurvives(raw);
  }

  lemma NonSpaceSurvives(raw: string)
    ensures HasNonSpace(NewlinesToSpaces(raw)) <==> exists i :: 0 <= i < |raw| && raw[i] != ' ' && raw[i] != '\n'
  {
    var content := NewlinesToSpaces(raw);
    if exists i :: 0 <= i < |raw| && raw[i] != ' ' && raw[i] != '\n' {
      var i :| 0 <= i < |raw| && raw[i] != ' ' && raw[i] != '\n';
      assert content[i] != ' ';
    }
    if HasNonSpace(content) {
      var i :| 0 <= i < |content| && content[i] != ' ';
      assert raw[i] != ' ' && raw[i] != '\n';
    }
  }

  /** Padding a line of content with one space on each side is undone. */
  lemma PaddingRemoved(x: string)
    requires '\n' !in x && HasNonSpace(x)
    ensures LatexContent(" " + x + " ") == x
  {
    var raw := " " + x + " ";
    var content := NewlinesToSpaces(raw);
    assert content == raw by {
      forall i | 0 <= i < |raw| ensures content[i] == raw[i] {
        assert raw[i] != '\n' by {
          if 0 < i < |raw| - 1 {
            assert raw[i] == x[i - 1];
          }
        }
      }
    }
    var i :| 0 <= i < |x| && x[i] != ' ';
    assert content[i + 1] != ' ';
    assert content[1..|content| - 1] == x;
  }

  /** Content with no line feed, not starting with a space, is taken as it is. */
  lemma UnpaddedKept(x: string)
    requires '\n' !in x && (x == [] || x[0] != ' ')
    ensures LatexContent(x) == x
  {
    var content := NewlinesToSpaces(x);
    assert content == x;
  }

  /**
   * What tryParse produces from position `start`: the node and the position the scanner is
   * moved to. The opening run has n dollars; a closing run of n gives a Latex node over the
   * content between the runs, its absence gives the opening run back as text.
   */
  function TryParseResult(s: seq<char>, start: nat): (r: (Inline, nat))
    requires start <= |s|
    ensures start < r.1 <= |s| || (r.1 == start && (start == |s| || s[start] != '$'))
  {
    var n := RunLength(s, start, '$');
    match ClosingRun(s, start + n, n)
    case Some(j) => (Latex(LatexContent(s[start + n..j])), j + n)
    case None => (Text(0, s[start..start + n]), start + n)
  }

  /** TryParseResult when the search finds the closing run at j. */
  lemma TryParseFound(s: seq<char>, start: nat, n: nat, j: nat)
    requires start <= |s| && n == RunLength(s, start, '$')
    requires ClosingRun(s, start + n, n) == Some(j)
    ensures TryParseResult(s, start).0 == Latex(LatexContent(s[start + n..j]))
    ensures TryParseResult(s, start).1 == j + n
  {
  }

  /** TryParseResult when the search finds no closing run. */
  lemma TryParseNotFound(s: seq<char>, start: nat, n: nat)
    requires start <= |s| && n == RunLength(s, start, '$')
    requires ClosingRun(s, start + n, n).None?
    ensures TryParseResult(s, start).0 == Text(0, s[start..start + n])
    ensures TryParseResult(s, start).1 == start + n
  {
  }

  /**
   * The search loop of tryParse: from the scanner's position, look for the closing run of
   * `openingTicks` dollars. When it is found, the scanner stands right after it.
   */
  method FindClosingRun(scanner: Scanner, openingTicks: nat) returns (beforeClosing: Option<nat>)
    requires scanner.Valid()
    modifies scanner`pos
    ensures scanner.Valid()
    ensures beforeClosing == ClosingRun(scanner.text, old(scanner.pos), openingTicks)
    ensures beforeClosing.Some? ==> scanner.pos == beforeClosing.value + openingTicks
  {
    ghost var expected := ClosingRun(scanner.text, scanner.pos, openingTicks);
    while true
      invariant scanner.Valid()
      invariant ClosingRun(scanner.text, scanner.pos, openingTicks) == expected
      decreases |scanner.text| - scanner.pos
    {
      ghost var here := scanner.pos;
      var offset := scanner.Find('$');
      if offset == -1 || offset == 0 {
        return None;
      }
      var start := scanner.pos;
      var count := scanner.MatchMultiple('$');
      if count == openingTicks {
        return Some(start);
      }
    }
  }

  /**
   * tryParse at a '$': parse a math span, or give back the opening run as text. `node` and
   * `position` are what ParsedInline.of carries; the caller moves the scanner to `position`.
   */
  method TryParse(scanner: Scanner) returns (node: Inline, position: nat)
    requires scanner.Valid()
    modifies scanner`pos
    ensures scanner.Valid()
    ensures node == TryParseResult(scanner.text, old(scanner.pos)).0
    ensures position == TryParseResult(scanner.text, old(scanner.pos)).1
  {
    var start := scanner.pos;
    var openingTicks := scanner.MatchMultiple('$');
    var afterOpening := scanner.pos;
    var closing := FindClosingRun(scanner, openingTicks);
    if closing.Some? {
      TryParseFound(scanner.text, start, openingTicks, closing.value);
      var content := LatexContent(scanner.Source(afterOpening, closing.value));
      return Latex(content), scanner.pos;
    }
    // no closing run: the opening run is literal text
    TryParseNotFound(scanner.text, start, openingTicks);
    node := Text(0, scanner.Source(start, afterOpening));
    position := afterOpening;
  }
}
