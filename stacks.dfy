/**
 * The entries of the inline parser's two stacks. commonmark-java links them through
 * `previous`/`next` references; here each stack is a sequence from bottom to top, so an
 * entry's previous entry is the one just below it and the top is the last element.
 */
module Stacks {
  import opened Wrappers
  import opened Processors
  import opened Staggered
  import opened Registry

  /**
   * A delimiter run on the stack: its identity, the Text nodes (by id) that still hold one of
   * its characters, the character, whether it can open and close emphasis, and the run's
   * length when it was scanned.
   */
  datatype Delimiter = Delimiter(id: nat, characters: seq<nat>, delimiterChar: char,
                                 canOpen: bool, canClose: bool, originalLength: nat)
  {
    /** What the processor is told about this run. */
    function View(): RunView
    {
      RunView(|characters|, originalLength, canOpen, canClose)
    }
  }

  /**
   * An opening bracket (`[` or `![`): the Text node (by id) holding it, where the marker and
   * the content after it start, whether it opens an image, whether a link may still be made
   * from it, whether another bracket was opened after it, and how many delimiters were on the
   * delimiter stack when it was opened (the position of its `previousDelimiter`).
   */
  datatype Bracket = Bracket(node: nat, markerPosition: nat, contentPosition: nat, image: bool,
                             allowed: bool, bracketAfter: bool, previousDelimiter: nat)

  /** The processor that handles a run of the given length: the entry itself, or the member
      of a staggered group chosen by StaggeredDelimiterProcessor.findProcessor. */
  function ChosenProcessor(r: Registered, length: nat): DelimiterProcessor
    requires r.StaggeredGroup? ==> r.processors != []
  {
    match r
    case Single(p) => p
    case StaggeredGroup(_, ps) => FindProcessorIn(ps, length)
  }

  /** How many characters the processor registered for the closer uses from `opener` and
      `closer` (0: they do not match). */
  function UsedBy(r: Registered, process: ProcessFn, opener: Delimiter, closer: Delimiter): nat
    requires r.StaggeredGroup? ==> r.processors != []
  {
    process(ChosenProcessor(r, |opener.characters|).id, opener.View(), closer.View())
  }

  /** An entry that can open for the processor's opening character. */
  predicate IsCandidate(d: Delimiter, opening: char)
  {
    d.canOpen && d.delimiterChar == opening
  }

  /**
   * Where the search for an opener below index `k` stops: the first index, going down from
   * `k`, that is below `bottom` (the stack bottom, -1 for none) or is the entry recorded as
   * the lower bound for this character.
   */
  function SearchFloor(stack: seq<Delimiter>, k: int, bottom: nat, bound: Option<nat>): (f: int)
    requires -1 <= k < |stack|
    ensures -1 <= f <= k
    ensures f < bottom || bound == Some(stack[f].id)
    ensures bottom as int - 1 <= f || f == k
    ensures forall j :: f < j <= k ==> bound != Some(stack[j].id)
    decreases k + 1
  {
    if k < bottom then k
    else if bound == Some(stack[k].id) then k
    else SearchFloor(stack, k - 1, bottom, bound)
  }

  /** Every bracket remembers a delimiter-stack height no greater than `height` and content
      that starts at or before `read`, and the heights do not decrease from the bottom
      bracket to the top one. */
  predicate BracketsBelow(brackets: seq<Bracket>, height: nat, read: nat)
  {
    (forall i :: 0 <= i < |brackets| ==> brackets[i].previousDelimiter <= height) &&
    (forall i, j :: 0 <= i < j < |brackets| ==> brackets[i].previousDelimiter <= brackets[j].previousDelimiter) &&
    (forall i :: 0 <= i < |brackets| ==> brackets[i].contentPosition <= read)
  }

  /** The entry as a stack segment: kept while it has characters, removed once it has none. */
  function Kept(d: Delimiter): (r: seq<Delimiter>)
    ensures |r| <= 1 && (r == [] <==> d.characters == [])
  {
    if d.characters == [] then [] else [d]
  }

  /** The entries below index `k` and above it, without it. */
  lemma RemoveKeepsPrefix<T>(s: seq<T>, k: nat, n: nat)
    requires n <= k < |s|
    ensures (s[..k] + s[k + 1..])[..n] == s[..n]
  {
  }

  /** Every character node of the entry is one of `ids`. */
  ghost predicate EntryIn(d: Delimiter, ids: set<nat>)
  {
    forall x :: x in d.characters ==> x in ids
  }

  /** Every character node of the entries from index `bottom` up is one of `ids`. */
  ghost predicate IdsWithin(stack: seq<Delimiter>, bottom: nat, ids: set<nat>)
  {
    forall i :: bottom <= i < |stack| ==> EntryIn(stack[i], ids)
  }

  /** The character nodes of the entries from index `bottom` up. */
  ghost function StackIds(stack: seq<Delimiter>, bottom: nat): (ids: set<nat>)
    ensures IdsWithin(stack, bottom, ids)
  {
    set i, k | bottom <= i < |stack| && 0 <= k < |stack[i].characters| :: stack[i].characters[k]
  }

  /** Removing an entry at or above `bottom` keeps the remaining characters among `ids`. */
  lemma IdsWithinRemove(stack: seq<Delimiter>, k: nat, bottom: nat, ids: set<nat>)
    requires IdsWithin(stack, bottom, ids) && bottom <= k < |stack|
    ensures IdsWithin(stack[..k] + stack[k + 1..], bottom, ids)
  {
    var r := stack[..k] + stack[k + 1..];
    forall i, j | bottom <= i < |r| && 0 <= j < |r[i].characters| ensures r[i].characters[j] in ids {
      assert r[i] == if i < k then stack[i] else stack[i + 1];
    }
  }

  /** Dropping the entries strictly between `opener` and `closer` does too. */
  lemma IdsWithinCut(stack: seq<Delimiter>, opener: nat, closer: nat, bottom: nat, ids: set<nat>)
    requires IdsWithin(stack, bottom, ids) && bottom <= opener < closer < |stack|
    ensures IdsWithin(stack[..opener + 1] + stack[closer..], bottom, ids)
  {
    var r := stack[..opener + 1] + stack[closer..];
    forall i, j | bottom <= i < |r| && 0 <= j < |r[i].characters| ensures r[i].characters[j] in ids {
      assert r[i] == if i <= opener then stack[i] else stack[i - opener - 1 + closer];
    }
  }

  /** Keeping a slice of one entry's characters does too. */
  lemma IdsWithinTrim(stack: seq<Delimiter>, k: nat, from: nat, to: nat, bottom: nat, ids: set<nat>)
    requires IdsWithin(stack, bottom, ids) && bottom <= k < |stack|
    requires from <= to <= |stack[k].characters|
    ensures IdsWithin(stack[k := stack[k].(characters := stack[k].characters[from..to])], bottom, ids)
  {
    var r := stack[k := stack[k].(characters := stack[k].characters[from..to])];
    forall i, j | bottom <= i < |r| && 0 <= j < |r[i].characters| ensures r[i].characters[j] in ids {
      if i == k {
        assert r[i].characters[j] == stack[k].characters[from + j];
      }
    }
  }

  /** Using characters of a matched pair: the opener keeps a prefix, the closer a suffix. */
  lemma IdsWithinUse(stack: seq<Delimiter>, opener: nat, closer: nat, used: nat, bottom: nat, ids: set<nat>)
    requires IdsWithin(stack, bottom, ids) && bottom <= opener < closer < |stack|
    requires used <= |stack[opener].characters| && used <= |stack[closer].characters|
    ensures var o := stack[opener];
      var c := stack[closer];
      IdsWithin(stack[opener := o.(characters := o.characters[..|o.characters| - used])]
                     [closer := c.(characters := c.characters[used..])], bottom, ids)
  {
    var o := stack[opener];
    var c := stack[closer];
    IdsWithinTrim(stack, opener, 0, |o.characters| - used, bottom, ids);
    assert o.characters[..|o.characters| - used] == o.characters[0..|o.characters| - used];
    var trimmed := stack[opener := o.(characters := o.characters[..|o.characters| - used])];
    assert trimmed[closer] == c;
    IdsWithinTrim(trimmed, closer, used, |c.characters|, bottom, ids);
    assert c.characters[used..] == c.characters[used..|c.characters|];
  }

  /** Dropping the entries between a pair, and the pair's entries that have no characters
      left, does too, and keeps the entries below the opener. */
  lemma IdsWithinCutPair(stack: seq<Delimiter>, opener: nat, closer: nat, bottom: nat, ids: set<nat>)
    requires IdsWithin(stack, bottom, ids) && bottom <= opener < closer < |stack|
    ensures var r := stack[..opener] + Kept(stack[opener]) + Kept(stack[closer]) + stack[closer + 1..];
      IdsWithin(r, bottom, ids) && r[..bottom] == stack[..bottom]
  {
    var r := stack[..opener] + Kept(stack[opener]) + Kept(stack[closer]) + stack[closer + 1..];
    var k1 := |Kept(stack[opener])|;
    var k2 := |Kept(stack[closer])|;
    forall i, j | bottom <= i < |r| && 0 <= j < |r[i].characters| ensures r[i].characters[j] in ids {
      if i < opener {
        assert r[i] == stack[i];
      } else if i < opener + k1 {
        assert r[i] == stack[opener];
      } else if i < opener + k1 + k2 {
        assert r[i] == stack[closer];
      } else {
        assert r[i] == stack[i - opener - k1 - k2 + closer + 1];
      }
    }
  }

  /** The characters of one entry at or above `bottom` are among `ids`. */
  lemma EntryWithin(stack: seq<Delimiter>, i: nat, bottom: nat, ids: set<nat>)
    requires IdsWithin(stack, bottom, ids) && bottom <= i < |stack|
    ensures forall k :: 0 <= k < |stack[i].characters| ==> stack[i].characters[k] in ids
  {
  }

  /** A link found: a link opener below it may still match its `]` but make no link. */
  function Disallowed(b: Bracket): Bracket
  {
    if b.image then b else b.(allowed := false)
  }

  /** The bracket stack after a link is made inside it: every link opener is disallowed. */
  function DisallowedAll(bs: seq<Bracket>): (r: seq<Bracket>)
    ensures |r| == |bs| && forall i :: 0 <= i < |bs| ==> r[i] == Disallowed(bs[i])
  {
    seq(|bs|, i requires 0 <= i < |bs| => Disallowed(bs[i]))
  }

  /**
   * Popping the top bracket when its link is made, and disallowing the link openers below
   * it for a link, keeps the heights ordered and under the popped bracket's height, and keeps
   * every content position.
   */
  lemma PopForLink(brackets: seq<Bracket>, height: nat, read: nat, image: bool)
    requires brackets != [] && BracketsBelow(brackets, height, read)
    ensures brackets[|brackets| - 1].previousDelimiter <= height
    ensures var rest := brackets[..|brackets| - 1];
      BracketsBelow(if image then rest else DisallowedAll(rest), brackets[|brackets| - 1].previousDelimiter, read)
  {
  }
}
