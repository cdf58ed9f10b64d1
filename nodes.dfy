/**
 * The inline node tree. commonmark-java's nodes are objects linked to their parent and
 * siblings; here a node's children are a sequence, and the identity of a Text node
 * (which the delimiter and bracket stacks refer to) is its `id`.
 */
module Nodes {
  import opened Wrappers

  datatype Inline =
    | Text(id: nat, literal: string)
    | SoftLineBreak
    | HardLineBreak
      /** The math span of the `$` extension (Latex.kt), holding its literal content. */
    | Latex(literal: string)
    | Link(destination: string, title: Option<string>, children: seq<Inline>)
    | Image(destination: string, title: Option<string>, children: seq<Inline>)
      /** The node a delimiter processor wraps a matched span in (Emphasis, StrongEmphasis, ...):
          which processor produced it and how many delimiter characters it used. */
    | Delimited(processor: nat, used: nat, children: seq<Inline>)
      /** A node of a kind produced by an inline content parser outside this model (code span, raw HTML). */
    | Other(kind: string, literal: string)
  {
    predicate IsContainer()
    {
      Link? || Image? || Delimited?
    }
  }

  /** The leaves of a forest in document order: every node that is not a container. */
  function Leaves(s: seq<Inline>): seq<Inline>
    decreases s, 0
  {
    if s == [] then [] else LeavesOf(s[0]) + Leaves(s[1..])
  }

  function LeavesOf(n: Inline): seq<Inline>
    decreases n, 1
  {
    if n.IsContainer() then Leaves(n.children) else [n]
  }

  /** The literal text of a forest: its Text leaves' literals in document order. */
  function TextContent(s: seq<Inline>): string
    decreases s, 0
  {
    if s == [] then [] else TextContentOf(s[0]) + TextContent(s[1..])
  }

  function TextContentOf(n: Inline): string
    decreases n, 1
  {
    match n
    case Text(_, literal) => literal
    case Link(_, _, children) => TextContent(children)
    case Image(_, _, children) => TextContent(children)
    case Delimited(_, _, children) => TextContent(children)
    case SoftLineBreak => []
    case HardLineBreak => []
    case Latex(_) => []
    case Other(_, _) => []
  }

  lemma {:induction false} LeavesAppend(a: seq<Inline>, b: seq<Inline>)
    ensures Leaves(a + b) == Leaves(a) + Leaves(b)
  {
    if a != [] {
      assert (a + b)[0] == a[0] && (a + b)[1..] == a[1..] + b;
      LeavesAppend(a[1..], b);
    } else {
      assert a + b == b;
    }
  }

  lemma {:induction false} TextContentAppend(a: seq<Inline>, b: seq<Inline>)
    ensures TextContent(a + b) == TextContent(a) + TextContent(b)
  {
    if a != [] {
      assert (a + b)[0] == a[0] && (a + b)[1..] == a[1..] + b;
      TextContentAppend(a[1..], b);
    } else {
      assert a + b == b;
    }
  }

  /** The text of a forest is the text of its leaves. */
  lemma {:induction false} TextContentLeaves(s: seq<Inline>)
    ensures TextContent(Leaves(s)) == TextContent(s)
    decreases s, 0
  {
    if s != [] {
      TextContentLeavesOf(s[0]);
      TextContentLeaves(s[1..]);
      TextContentAppend(LeavesOf(s[0]), Leaves(s[1..]));
    }
  }

  lemma {:induction false} TextContentLeavesOf(n: Inline)
    ensures TextContent(LeavesOf(n)) == TextContentOf(n)
    decreases n, 1
  {
    if n.IsContainer() {
      TextContentLeaves(n.children);
    } else {
      assert [n][1..] == [];
    }
  }

  /** Position of the Text node with identity `id` among the siblings `s`, if it is one of them. */
  function IndexOfText(s: seq<Inline>, id: nat): (r: Option<nat>)
    ensures r.Some? ==> r.value < |s| && s[r.value].Text? && s[r.value].id == id
    ensures r.Some? ==> forall k :: 0 <= k < r.value ==> !(s[k].Text? && s[k].id == id)
    ensures r.None? ==> forall k :: 0 <= k < |s| ==> !(s[k].Text? && s[k].id == id)
  {
    if s == [] then None
    else if s[0].Text? && s[0].id == id then Some(0)
    else match IndexOfText(s[1..], id)
      case None => None
      case Some(k) => Some(k + 1)
  }

  lemma IndexOfTextAppend(a: seq<Inline>, b: seq<Inline>, id: nat)
    requires IndexOfText(a, id).Some?
    ensures IndexOfText(a + b, id) == IndexOfText(a, id)
  {
    var k := IndexOfText(a, id).value;
    var r := IndexOfText(a + b, id);
    assert (a + b)[k] == a[k];
    assert r.Some? && r.value <= k;
    assert (a + b)[r.value] == a[r.value];
  }

  /** Node.unlink() of the Text node `id`: it leaves the sibling list; nothing else changes. */
  function Unlink(s: seq<Inline>, id: nat): (r: seq<Inline>)
    ensures IndexOfText(s, id).None? ==> r == s
    ensures IndexOfText(s, id).Some? ==>
      var k := IndexOfText(s, id).value;
      r == s[..k] + s[k + 1..]
  {
    match IndexOfText(s, id)
    case None => s
    case Some(k) => s[..k] + s[k + 1..]
  }


  /**
   * Going from the leaves `a` to the leaves `b` only deletes nodes, and only Text nodes whose
   * identity is in `ids`: `b` is `a` with some of those Text nodes left out, every other leaf
   * kept, in the same order.
   */
  ghost predicate OnlyRemoves(a: seq<Inline>, b: seq<Inline>, ids: set<nat>)
    decreases |a|
  {
    if a == [] then b == []
    else (b != [] && a[0] == b[0] && OnlyRemoves(a[1..], b[1..], ids)) ||
         (a[0].Text? && a[0].id in ids && OnlyRemoves(a[1..], b, ids))
  }

  lemma {:induction false} OnlyRemovesRefl(a: seq<Inline>, ids: set<nat>)
    ensures OnlyRemoves(a, a, ids)
    decreases |a|
  {
    if a != [] {
      OnlyRemovesRefl(a[1..], ids);
    }
  }

  /** Removing nothing leaves the leaves exactly as they were. */
  lemma {:induction false} OnlyRemovesNothing(a: seq<Inline>, b: seq<Inline>)
    requires OnlyRemoves(a, b, {})
    ensures a == b
    decreases |a|
  {
    if a != [] {
      OnlyRemovesNothing(a[1..], b[1..]);
    }
  }

  /** What is removed stays removed: two deletions in a row are one deletion. */
  lemma {:induction false} OnlyRemovesTrans(a: seq<Inline>, b: seq<Inline>, c: seq<Inline>, ids: set<nat>, ids': set<nat>)
    requires OnlyRemoves(a, b, ids) && OnlyRemoves(b, c, ids') && ids' <= ids
    ensures OnlyRemoves(a, c, ids)
    decreases |a|
  {
    if a == [] {
    } else if b != [] && a[0] == b[0] && OnlyRemoves(a[1..], b[1..], ids) {
      if c != [] && b[0] == c[0] && OnlyRemoves(b[1..], c[1..], ids') {
        OnlyRemovesTrans(a[1..], b[1..], c[1..], ids, ids');
      } else {
        OnlyRemovesTrans(a[1..], b[1..], c, ids, ids');
      }
    } else {
      OnlyRemovesTrans(a[1..], b, c, ids, ids');
    }
  }

  /** The leaves of `s` other than the Text nodes whose identity is in `ids`, in order. */
  function Untouched(s: seq<Inline>, ids: set<nat>): (r: seq<Inline>)
    ensures |r| <= |s|
  {
    if s == [] then []
    else if s[0].Text? && s[0].id in ids then Untouched(s[1..], ids)
    else [s[0]] + Untouched(s[1..], ids)
  }

  /** A deletion keeps every leaf it may not remove, in the same order, and adds none. */
  lemma {:induction false} OnlyRemovesKeepsOrder(a: seq<Inline>, b: seq<Inline>, ids: set<nat>)
    requires OnlyRemoves(a, b, ids)
    ensures Untouched(b, ids) == Untouched(a, ids) && |b| <= |a|
    decreases |a|
  {
    if a == [] {
    } else if b != [] && a[0] == b[0] && OnlyRemoves(a[1..], b[1..], ids) {
      OnlyRemovesKeepsOrder(a[1..], b[1..], ids);
    } else {
      OnlyRemovesKeepsOrder(a[1..], b, ids);
    }
  }

  /** A shared prefix changes nothing. */
  lemma {:induction false} OnlyRemovesPrefix(p: seq<Inline>, a: seq<Inline>, b: seq<Inline>, ids: set<nat>)
    requires OnlyRemoves(a, b, ids)
    ensures OnlyRemoves(p + a, p + b, ids)
    decreases |p|
  {
    if p != [] {
      OnlyRemovesPrefix(p[1..], a, b, ids);
      assert (p + a)[1..] == p[1..] + a && (p + b)[1..] == p[1..] + b;
    } else {
      assert p + a == a && p + b == b;
    }
  }

  /** Unlinking removes exactly one leaf, the Text node `id`, when it is among the siblings. */
  lemma UnlinkLeaves(s: seq<Inline>, id: nat)
    ensures OnlyRemoves(Leaves(s), Leaves(Unlink(s, id)), {id})
  {
    var r := Unlink(s, id);
    if IndexOfText(s, id).Some? {
      var k := IndexOfText(s, id).value;
      assert s == s[..k] + [s[k]] + s[k + 1..];
      LeavesAppend(s[..k] + [s[k]], s[k + 1..]);
      LeavesAppend(s[..k], [s[k]]);
      LeavesAppend(s[..k], s[k + 1..]);
      assert Leaves([s[k]]) == [s[k]] by {
        assert [s[k]][1..] == [];
      }
      var tail := Leaves(s[k + 1..]);
      OnlyRemovesRefl(tail, {id});
      assert ([s[k]] + tail)[1..] == tail;
      assert OnlyRemoves([s[k]] + tail, tail, {id});
      OnlyRemovesPrefix(Leaves(s[..k]), [s[k]] + tail, tail, {id});
      assert Leaves(s) == Leaves(s[..k]) + ([s[k]] + tail);
    } else {
      OnlyRemovesRefl(Leaves(s), {id});
    }
  }

  /**
   * What a delimiter processor does with the nodes strictly between the opener's last and
   * the closer's first delimiter character (at sibling positions `i` < `j`): it moves them
   * into one new node, inserted right after the opener's character.
   */
  function WrapBetween(s: seq<Inline>, i: nat, j: nat, processor: nat, used: nat): (r: seq<Inline>)
    requires i < j <= |s|
    ensures |r| == |s| - (j - i - 1) + 1
    ensures r[..i + 1] == s[..i + 1] && r[i + 2..] == s[j..]
    ensures r[i + 1] == Delimited(processor, used, s[i + 1..j])
    ensures Leaves(r) == Leaves(s)
  {
    var r := s[..i + 1] + [Delimited(processor, used, s[i + 1..j])] + s[j..];
    LeavesAppend(s[..i + 1] + [Delimited(processor, used, s[i + 1..j])], s[j..]);
    LeavesAppend(s[..i + 1], [Delimited(processor, used, s[i + 1..j])]);
    LeavesAppend(s[..i + 1], s[i + 1..j]);
    LeavesAppend(s[..i + 1] + s[i + 1..j], s[j..]);
    assert s[..i + 1] + s[i + 1..j] + s[j..] == s;
    assert Leaves([Delimited(processor, used, s[i + 1..j])]) == Leaves(s[i + 1..j]) by {
      assert [Delimited(processor, used, s[i + 1..j])][1..] == [];
    }
    r
  }
}
