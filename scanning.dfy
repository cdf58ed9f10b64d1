/**
 * The cursor the inline parser reads its input through. commonmark-java's Scanner is
 * not part of this model; it is represented by what the parser relies on: the block's
 * lines joined by '\n' into one character sequence, a position in it, and END past the
 * last character. Every character is taken to be one code point.
 */
module Scanning {
  import opened Wrappers

  /** What peek() returns: a character, or the END sentinel past the last one. */
  datatype Peeked = End | Char(c: char)

  /** Number of consecutive copies of `c` in `s` starting at index `i`. */
  function RunLength(s: seq<char>, i: nat, c: char): (n: nat)
    requires i <= |s|
    ensures i + n <= |s|
    decreases |s| - i
  {
    if i < |s| && s[i] == c then 1 + RunLength(s, i + 1, c) else 0
  }

  /** The run is made of `c` and is maximal. */
  lemma {:induction false} RunLengthRun(s: seq<char>, i: nat, c: char)
    requires i <= |s|
    ensures forall k :: i <= k < i + RunLength(s, i, c) ==> s[k] == c
    ensures i + RunLength(s, i, c) == |s| || s[i + RunLength(s, i, c)] != c
    decreases |s| - i
  {
    if i < |s| && s[i] == c {
      RunLengthRun(s, i + 1, c);
    }
  }

  /** Index of the first `c` at or after `i`, if any. */
  function FindFrom(s: seq<char>, i: nat, c: char): (r: Option<nat>)
    requires i <= |s|
    ensures r.Some? ==> i <= r.value < |s| && s[r.value] == c
    decreases |s| - i
  {
    if i == |s| then None else if s[i] == c then Some(i) else FindFrom(s, i + 1, c)
  }

  /** FindFrom skips only characters other than `c`. */
  lemma {:induction false} FindFromFirst(s: seq<char>, i: nat, c: char)
    requires i <= |s|
    ensures FindFrom(s, i, c).Some? ==> forall k :: i <= k < FindFrom(s, i, c).value ==> s[k] != c
    ensures FindFrom(s, i, c).None? ==> forall k :: i <= k < |s| ==> s[k] != c
    decreases |s| - i
  {
    if i < |s| && s[i] != c {
      FindFromFirst(s, i + 1, c);
    }
  }

  /** The characters Scanner.whitespace() skips. */
  predicate IsScannerWhitespace(c: char)
  {
    c == ' ' || c == '\t' || c == '\n' || c == '\U{B}' || c == '\U{C}' || c == '\r'
  }

  /** Number of consecutive scanner-whitespace characters in `s` starting at index `i`. */
  function WhitespaceLength(s: seq<char>, i: nat): (n: nat)
    requires i <= |s|
    ensures i + n <= |s|
    decreases |s| - i
  {
    if i < |s| && IsScannerWhitespace(s[i]) then 1 + WhitespaceLength(s, i + 1) else 0
  }

  /** The whitespace run is maximal. */
  lemma {:induction false} WhitespaceLengthRun(s: seq<char>, i: nat)
    requires i <= |s|
    ensures forall k :: i <= k < i + WhitespaceLength(s, i) ==> IsScannerWhitespace(s[k])
    ensures i + WhitespaceLength(s, i) == |s| || !IsScannerWhitespace(s[i + WhitespaceLength(s, i)])
    decreases |s| - i
  {
    if i < |s| && IsScannerWhitespace(s[i]) {
      WhitespaceLengthRun(s, i + 1);
    }
  }

  class Scanner {
    const text: seq<char>
    var pos: nat

    ghost predicate Valid()
      reads this
    {
      pos <= |text|
    }

    constructor (text: seq<char>)
      ensures Valid() && this.text == text && pos == 0
    {
      this.text := text;
      pos := 0;
    }

    function Peek(): Peeked
      reads this
      requires Valid()
    {
      if pos < |text| then Char(text[pos]) else End
    }

    /** The character before the position, END at the start of the input. */
    function PeekPrevious(): Peeked
      reads this
      requires Valid()
    {
      if 0 < pos then Char(text[pos - 1]) else End
    }

    /** The content between two positions (SourceLines.getContent()). */
    function Source(from: nat, to: nat): seq<char>
      requires from <= to <= |text|
    {
      text[from..to]
    }

    method SetPosition(p: nat)
      requires p <= |text|
      modifies this`pos
      ensures Valid() && pos == p
    {
      pos := p;
    }

    /** Advance by one character, unless at END. */
    method Next()
      requires Valid()
      modifies this`pos
      ensures Valid() && pos == if old(pos) < |text| then old(pos) + 1 else old(pos)
    {
      if pos < |text| {
        pos := pos + 1;
      }
    }

    /** next(c): advance over `c` if it is the next character. */
    method NextIf(c: char) returns (matched: bool)
      requires Valid()
      modifies this`pos
      ensures Valid()
      ensures matched <==> old(pos) < |text| && text[old(pos)] == c
      ensures pos == if matched then old(pos) + 1 else old(pos)
    {
      matched := pos < |text| && text[pos] == c;
      if matched {
        pos := pos + 1;
      }
    }

    /** matchMultiple(c): advance over the maximal run of `c`, returning its length. */
    method MatchMultiple(c: char) returns (count: nat)
      requires Valid()
      modifies this`pos
      ensures Valid()
      ensures count == RunLength(text, old(pos), c) && pos == old(pos) + count
    {
      count := 0;
      while pos < |text| && text[pos] == c
        invariant old(pos) <= pos <= |text| && count == pos - old(pos)
        invariant RunLength(text, old(pos), c) == count + RunLength(text, pos, c)
        decreases |text| - pos
      {
        count := count + 1;
        pos := pos + 1;
      }
    }

    /**
     * find(c): advance to the next occurrence of `c` and return how many characters were
     * skipped, or advance to END and return -1 when there is none.
     */
    method Find(c: char) returns (offset: int)
      requires Valid()
      modifies this`pos
      ensures Valid()
      ensures FindFrom(text, old(pos), c) == if offset == -1 then None else Some(pos)
      ensures offset == -1 ==> pos == |text|
      ensures offset != -1 ==> 0 <= offset && pos == old(pos) + offset
    {
      var count := 0;
      while true
        invariant old(pos) <= pos <= |text| && count == pos - old(pos)
        invariant FindFrom(text, old(pos), c) == FindFrom(text, pos, c)
        decreases |text| - pos
      {
        if pos == |text| {
          return -1;
        } else if text[pos] == c {
          return count;
        }
        count := count + 1;
        pos := pos + 1;
      }
    }

    /** whitespace(): advance over scanner whitespace, returning how much was skipped. */
    method Whitespace() returns (count: nat)
      requires Valid()
      modifies this`pos
      ensures Valid()
      ensures count == WhitespaceLength(text, old(pos)) && pos == old(pos) + count
    {
      count := 0;
      while pos < |text| && IsScannerWhitespace(text[pos])
        invariant old(pos) <= pos <= |text| && count == pos - old(pos)
        invariant WhitespaceLength(text, old(pos)) == count + WhitespaceLength(text, pos)
        decreases |text| - pos
      {
        count := count + 1;
        pos := pos + 1;
      }
    }
  }
}
