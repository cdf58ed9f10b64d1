/**
 * The final pass of inline parsing: adjacent Text siblings are merged into one, at every
 * depth (InlineParserImpl.mergeChildTextNodes, mergeTextNodesInclusive, mergeIfNeeded).
 */
module Merge {
  import opened Nodes

  /** Number of Text nodes at the head of `s`. */
  function TextRunLength(s: seq<Inline>): (k: nat)
    ensures k <= |s|
    ensures forall i :: 0 <= i < k ==> s[i].Text?
    ensures k == |s| || !s[k].Text?
  {
    if s != [] && s[0].Text? then 1 + TextRunLength(s[1..]) else 0
  }

  predicate AllText(run: seq<Inline>)
  {
    forall i :: 0 <= i < |run| ==> run[i].Text?
  }

  /** The literals of a run of Text nodes, concatenated in order. */
  function Literals(run: seq<Inline>): string
    requires AllText(run)
  {
    if run == [] then [] else Literals(run[..|run| - 1]) + run[|run| - 1].literal
  }

  /** The specification of the merge: each maximal run of Text siblings becomes its first node
      carrying the run's concatenated literal; every other node has its children merged. */
  function MergeList(s: seq<Inline>): (r: seq<Inline>)
    ensures |r| == 0 <==> |s| == 0
    ensures |s| > 0 ==> (r[0].Text? <==> s[0].Text?)
    decreases s, 0
  {
    if s == [] then []
    else if s[0].Text? then
      var k := TextRunLength(s);
      [Text(s[0].id, Literals(s[..k]))] + MergeList(s[k..])
    else
      [MergeNode(s[0])] + MergeList(s[1..])
  }

  function MergeNode(n: Inline): (r: Inline)
    ensures r.Text? <==> n.Text?
    decreases n, 1
  {
    match n
    case Link(destination, title, children) => Link(destination, title, MergeList(children))
    case Image(destination, title, children) => Image(destination, title, MergeList(children))
    case Delimited(processor, used, children) => Delimited(processor, used, MergeList(children))
    case _ => n
  }

  /** No two adjacent siblings are both Text, at any depth. */
  predicate WellMerged(s: seq<Inline>)
    decreases s, 0
  {
    (forall i :: 0 <= i < |s| - 1 ==> !(s[i].Text? && s[i + 1].Text?)) &&
    (forall i :: 0 <= i < |s| ==> WellMergedNode(s[i]))
  }

  predicate WellMergedNode(n: Inline)
    decreases n, 1
  {
    match n
    case Link(_, _, children) => WellMerged(children)
    case Image(_, _, children) => WellMerged(children)
    case Delimited(_, _, children) => WellMerged(children)
    case _ => true
  }

  lemma WellMergedCons(x: Inline, s: seq<Inline>)
    requires WellMergedNode(x) && WellMerged(s)
    requires x.Text? ==> s == [] || !s[0].Text?
    ensures WellMerged([x] + s)
  {
    var r := [x] + s;
    forall i | 0 <= i < |r| ensures WellMergedNode(r[i]) {
      if i > 0 { assert r[i] == s[i - 1]; }
    }
    forall i | 0 <= i < |r| - 1 ensures !(r[i].Text? && r[i + 1].Text?) {
      if i > 0 { assert r[i] == s[i - 1] && r[i + 1] == s[i]; }
    }
  }

  /** After merging, no two adjacent siblings are Text, at any depth. */
  lemma {:induction false} MergeListWellMerged(s: seq<Inline>)
    ensures WellMerged(MergeList(s))
    decreases s, 0
  {
    if s == [] {
    } else if s[0].Text? {
      var k := TextRunLength(s);
      MergeListWellMerged(s[k..]);
      WellMergedCons(Text(s[0].id, Literals(s[..k])), MergeList(s[k..]));
    } else {
      MergeNodeWellMerged(s[0]);
      MergeListWellMerged(s[1..]);
      WellMergedCons(MergeNode(s[0]), MergeList(s[1..]));
    }
  }

  lemma {:induction false} MergeNodeWellMerged(n: Inline)
    ensures WellMergedNode(MergeNode(n))
    decreases n, 1
  {
    match n
    case Link(_, _, children) => MergeListWellMerged(children);
    case Image(_, _, children) => MergeListWellMerged(children);
    case Delimited(_, _, children) => MergeListWellMerged(children);
    case _ =>
  }

  lemma {:induction false} LiteralsAreTextContent(run: seq<Inline>)
    requires AllText(run)
    ensures Literals(run) == TextContent(run)
    decreases |run|
  {
    if run != [] {
      var front := run[..|run| - 1];
      LiteralsAreTextContent(front);
      TextContentAppend(front, [run[|run| - 1]]);
      assert front + [run[|run| - 1]] == run;
      assert [run[|run| - 1]][1..] == [];
    }
  }

  /** Merging keeps the literal text of the forest: every character stays, in order. */
  lemma {:induction false} MergeListTextContent(s: seq<Inline>)
    ensures TextContent(MergeList(s)) == TextContent(s)
    decreases s, 0
  {
    if s == [] {
    } else if s[0].Text? {
      var k := TextRunLength(s);
      var head := Text(s[0].id, Literals(s[..k]));
      MergeListTextContent(s[k..]);
      TextContentAppend([head], MergeList(s[k..]));
      assert [head][1..] == [];
      LiteralsAreTextContent(s[..k]);
      TextContentAppend(s[..k], s[k..]);
      assert s[..k] + s[k..] == s;
    } else {
      MergeNodeTextContent(s[0]);
      MergeListTextContent(s[1..]);
      TextContentAppend([MergeNode(s[0])], MergeList(s[1..]));
      assert [MergeNode(s[0])][1..] == [];
    }
  }

  lemma {:induction false} MergeNodeTextContent(n: Inline)
    ensures TextContentOf(MergeNode(n)) == TextContentOf(n)
    decreases n, 1
  {
    match n
    case Link(_, _, children) => MergeListTextContent(children);
    case Image(_, _, children) => MergeListTextContent(children);
    case Delimited(_, _, children) => MergeListTextContent(children);
    case _ =>
  }

  /** A forest that is already merged is left as it is; so merging twice is merging once. */
  lemma {:induction false} MergeListFixpoint(s: seq<Inline>)
    requires WellMerged(s)
    ensures MergeList(s) == s
    decreases s, 0
  {
    if s == [] {
    } else {
      assert WellMerged(s[1..]) by {
        forall i | 0 <= i < |s[1..]| ensures WellMergedNode(s[1..][i]) {
          assert s[1..][i] == s[i + 1];
        }
        forall i | 0 <= i < |s[1..]| - 1 ensures !(s[1..][i].Text? && s[1..][i + 1].Text?) {
          assert s[1..][i] == s[i + 1] && s[1..][i + 1] == s[i + 2];
        }
      }
      MergeListFixpoint(s[1..]);
      if s[0].Text? {
        assert TextRunLength(s) == 1 by {
          assert |s| == 1 || !s[1].Text?;
          assert s[1..] == [] || !s[1..][0].Text?;
        }
        assert s[..1] == [s[0]];
        assert Literals([s[0]]) == s[0].literal by {
          assert [s[0]][..0] == [];
        }
      } else {
        assert WellMergedNode(s[0]);
        MergeNodeFixpoint(s[0]);
      }
    }
  }

  lemma {:induction false} MergeNodeFixpoint(n: Inline)
    requires WellMergedNode(n)
    ensures MergeNode(n) == n
    decreases n, 1
  {
    match n
    case Link(_, _, children) => MergeListFixpoint(children);
    case Image(_, _, children) => MergeListFixpoint(children);
    case Delimited(_, _, children) => MergeListFixpoint(children);
    case _ =>
  }

  lemma MergeListIdempotent(s: seq<Inline>)
    ensures MergeList(MergeList(s)) == MergeList(s)
  {
    MergeListWellMerged(s);
    MergeListFixpoint(MergeList(s));
  }

  // The same specification, read by index rather than by slice; the imperative merge below
  // is proved against this form, which MergeFromIsMergeList ties back to MergeList.

  /** End of the run of Text siblings that starts at s[i]. */
  function RunEnd(s: seq<Inline>, i: nat): (e: nat)
    requires i <= |s|
    ensures i <= e <= |s|
    ensures forall k :: i <= k < e ==> s[k].Text?
    ensures e == |s| || !s[e].Text?
    decreases |s| - i
  {
    if i < |s| && s[i].Text? then RunEnd(s, i + 1) else i
  }

  /** The literals of the Text siblings s[i..j], concatenated in order. */
  function LiteralsIn(s: seq<Inline>, i: nat, j: nat): string
    requires i <= j <= |s|
    requires forall k :: i <= k < j ==> s[k].Text?
    decreases j - i
  {
    if i == j then [] else LiteralsIn(s, i, j - 1) + s[j - 1].literal
  }

  function MergeFrom(s: seq<Inline>, i: nat): seq<Inline>
    requires i <= |s|
    decreases |s| - i
  {
    if i == |s| then []
    else if s[i].Text? then
      var e := RunEnd(s, i);
      [Text(s[i].id, LiteralsIn(s, i, e))] + MergeFrom(s, e)
    else
      [MergeNode(s[i])] + MergeFrom(s, i + 1)
  }

  lemma {:induction false} RunEndIsTextRunLength(s: seq<Inline>, i: nat)
    requires i <= |s|
    ensures RunEnd(s, i) == i + TextRunLength(s[i..])
    decreases |s| - i
  {
    if i < |s| && s[i].Text? {
      RunEndIsTextRunLength(s, i + 1);
      assert s[i..][1..] == s[i + 1..];
    }
  }

  lemma {:induction false} LiteralsInIsLiterals(s: seq<Inline>, i: nat, j: nat)
    requires i <= j <= |s|
    requires forall k :: i <= k < j ==> s[k].Text?
    ensures LiteralsIn(s, i, j) == Literals(s[i..j])
    decreases j - i
  {
    if i < j {
      LiteralsInIsLiterals(s, i, j - 1);
      assert s[i..j][..j - i - 1] == s[i..j - 1];
    }
  }

  lemma {:induction false} MergeFromIsMergeList(s: seq<Inline>, i: nat)
    requires i <= |s|
    ensures MergeFrom(s, i) == MergeList(s[i..])
    decreases |s| - i
  {
    if i == |s| {
    } else if s[i].Text? {
      var e := RunEnd(s, i);
      RunEndIsTextRunLength(s, i);
      LiteralsInIsLiterals(s, i, e);
      MergeFromIsMergeList(s, e);
      assert s[i..][..e - i] == s[i..e];
      assert s[i..][e - i..] == s[e..];
    } else {
      MergeFromIsMergeList(s, i + 1);
      assert s[i..][1..] == s[i + 1..];
    }
  }

  /** How MergeFrom reads at a pending run s[start..i] closed by the non-Text node s[i]. */
  lemma CloseRunAt(s: seq<Inline>, start: nat, i: nat, run: seq<Inline>)
    requires start <= i < |s| && !s[i].Text? && RunEnd(s, start) >= i
    requires run == if start < i then [Text(s[start].id, LiteralsIn(s, start, i))] else []
    ensures MergeFrom(s, start) == run + [MergeNode(s[i])] + MergeFrom(s, i + 1)
  {
  }

  /** How MergeFrom reads at a pending run s[start..] that reaches the end. */
  lemma FinishRunAt(s: seq<Inline>, start: nat, run: seq<Inline>)
    requires start <= |s| && RunEnd(s, start) == |s|
    requires run == if start < |s| then [Text(s[start].id, LiteralsIn(s, start, |s|))] else []
    ensures MergeFrom(s, start) == run
  {
  }

  /**
   * mergeIfNeeded(first, last): the pending run nodes[first..last] of Text siblings becomes
   * its first node, whose literal is the run's concatenation; the others are unlinked.
   * A run of one node is left as it is, and there is no run when first is null (-1).
   * (The source also passes the run's total length, used only to size a buffer.)
   */
  method MergeIfNeeded(nodes: seq<Inline>, first: int, last: int) returns (replacement: seq<Inline>)
    requires -1 <= first <= last < |nodes| && (first == -1 <==> last == -1)
    requires forall k :: 0 <= first <= k <= last ==> nodes[k].Text?
    ensures first == -1 ==> replacement == []
    ensures first != -1 ==> replacement == [Text(nodes[first].id, LiteralsIn(nodes, first, last + 1))]
  {
    if first == -1 {
      return [];
    }
    assert LiteralsIn(nodes, first, first + 1) == nodes[first].literal;
    if first == last {
      return [nodes[first]];
    }
    var sb := nodes[first].literal;
    var k := first + 1;
    while k != last + 1
      invariant first + 1 <= k <= last + 1
      invariant sb == LiteralsIn(nodes, first, k)
      decreases last + 1 - k
    {
      sb := sb + nodes[k].literal;
      k := k + 1;
    }
    replacement := [Text(nodes[first].id, sb)];
  }

  /** The non-Text branch of mergeChildTextNodes: a node with children has them merged. */
  method MergeNonText(node: Inline) returns (child: Inline)
    ensures child == MergeNode(node)
    decreases node, 3
  {
    child := node;
    if node.IsContainer() && |node.children| > 0 {
      var inner := MergeChildTextNodes(node.children);
      child := node.(children := inner);
    }
  }

  /** The walk's state before sibling i: the Text siblings children[start..i] are pending as
      the run [first, last], and merged followed by the merge from start is the whole merge. */
  ghost predicate Walking(children: seq<Inline>, i: nat, first: int, last: int, start: nat, merged: seq<Inline>)
  {
    start <= i <= |children| &&
    (first == -1 <==> last == -1) &&
    (first == -1 ==> start == i) &&
    (first != -1 ==> start == first <= last == i - 1) &&
    RunEnd(children, start) >= i &&
    merged + MergeFrom(children, start) == MergeFrom(children, 0)
  }

  /** One iteration of mergeChildTextNodes' walk over the siblings, at children[i]. */
  method MergeSibling(children: seq<Inline>, i: nat, first: int, last: int, ghost start: nat,
                      merged: seq<Inline>) returns (first': int, last': int, ghost start': nat, merged': seq<Inline>)
    requires i < |children| && Walking(children, i, first, last, start, merged)
    ensures Walking(children, i + 1, first', last', start', merged')
    decreases children, 1
  {
    if children[i].Text? {
      first' := if first == -1 then i else first;
      last', start', merged' := i, start, merged;
    } else {
      merged' := CloseRun(children, i, first, last, start, merged);
      first', last', start' := -1, -1, i + 1;
    }
  }

  /** A non-Text sibling children[i] ends the pending run, which is merged; then the node
      itself, with its own children merged, follows. */
  method CloseRun(children: seq<Inline>, i: nat, first: int, last: int, ghost start: nat,
                  merged: seq<Inline>) returns (merged': seq<Inline>)
    requires i < |children| && !children[i].Text? && Walking(children, i, first, last, start, merged)
    ensures Walking(children, i + 1, -1, -1, i + 1, merged')
    decreases children, 0
  {
    var run := MergeIfNeeded(children, first, last);
    var child := MergeNonText(children[i]);
    CloseRunAt(children, start, i, run);
    merged' := merged + run + [child];
  }

  /**
   * mergeChildTextNodes of a node whose children are `children`: walk the siblings, keeping
   * the pending run of Text nodes [first, last]; a non-Text node ends the run (which is
   * merged) and has its own children merged.
   */
  method MergeChildTextNodes(children: seq<Inline>) returns (merged: seq<Inline>)
    ensures merged == MergeList(children)
    decreases children, 2
  {
    merged := [];
    var first: int := -1;
    var last: int := -1;
    var i := 0;
    ghost var start := 0;
    while i < |children|
      invariant i <= |children| && Walking(children, i, first, last, start, merged)
      decreases |children| - i
    {
      first, last, start, merged := MergeSibling(children, i, first, last, start, merged);
      i := i + 1;
    }
    var run := MergeIfNeeded(children, first, last);
    FinishRunAt(children, start, run);
    merged := merged + run;
    MergeFromIsMergeList(children, 0);
    assert children[0..] == children;
  }
}
