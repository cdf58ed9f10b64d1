/**
 * InlineParserImpl: parses the content of one block into inline nodes. The parser reads
 * the input through a Scanner, keeps a stack of delimiter runs and a stack of opening
 * brackets, and appends the nodes it produces to the block's children; emphasis is resolved
 * when a link closes (for the link's content) and at the end (for the whole block), and
 * adjacent Text nodes are merged last.
 */
module Parser {
  import opened Wrappers
  import opened Scanning
  import opened Nodes
  import opened Merge
  import opened Flanking
  import opened Processors
  import opened Staggered
  import opened Registry
  import opened Dollars
  import opened TextRuns
  import opened Externals
  import opened Stacks
  import opened Links
  import opened LinkParsing

  /** The nodes that follow the Text node `id` in `block`: the content of a link whose opener
      made that node. */
  function NodesAfter(block: seq<Inline>, id: nat): seq<Inline>
  {
    match IndexOfText(block, id)
    case Some(k) => block[k + 1..]
    case None => []
  }

  /**
   * `children` is what resolving emphasis in `nodes` and merging Text nodes gives: a node
   * list whose leaves are those of `nodes`, in the same order, less some Text nodes with
   * identities in `ids` (the delimiter characters used), then merged.
   */
  ghost predicate ResolvedFrom(children: seq<Inline>, nodes: seq<Inline>, ids: set<nat>)
  {
    exists processed :: OnlyRemoves(Leaves(nodes), Leaves(processed), ids) && children == MergeList(processed)
  }

  /** With no delimiter characters to remove, resolving and merging keeps the text, in order. */
  lemma ResolvedFromKeepsText(children: seq<Inline>, nodes: seq<Inline>)
    requires ResolvedFrom(children, nodes, {})
    ensures TextContent(children) == TextContent(nodes)
  {
    var processed :| OnlyRemoves(Leaves(nodes), Leaves(processed), {}) && children == MergeList(processed);
    OnlyRemovesNothing(Leaves(nodes), Leaves(processed));
    MergeListTextContent(processed);
    TextContentLeaves(processed);
    TextContentLeaves(nodes);
  }

  /** The nodes before the Text node `id` in `block`: what stays in the block when a link
      opened by that node is made. */
  function NodesBefore(block: seq<Inline>, id: nat): seq<Inline>
  {
    match IndexOfText(block, id)
    case Some(k) => block[..k]
    case None => block
  }

  /**
   * The effect of making a link or image for `opener`, the top of `brackets0`: the node has
   * the opener's kind, and its children are the block's nodes after the opener's Text node
   * with emphasis resolved down to the opener's delimiter-stack height and Text nodes merged;
   * the delimiter stack is cut back to that height; the opener is popped and, for a link,
   * every link opener below it is disallowed; the block keeps the nodes before the opener.
   */
  ghost predicate LinkMade(node: Inline, opener: Bracket,
                           delimiters0: seq<Delimiter>, brackets0: seq<Bracket>, block0: seq<Inline>,
                           delimiters: seq<Delimiter>, brackets: seq<Bracket>, block: seq<Inline>)
  {
    (node.Link? || node.Image?) && node.Image? == opener.image &&
    WellMerged(node.children) &&
    ResolvedFrom(node.children, NodesAfter(block0, opener.node), StackIds(delimiters0, opener.previousDelimiter)) &&
    opener.previousDelimiter <= |delimiters0| && delimiters == delimiters0[..opener.previousDelimiter] &&
    brackets0 != [] &&
    brackets == (var rest := brackets0[..|brackets0| - 1]; if opener.image then rest else DisallowedAll(rest)) &&
    block == NodesBefore(block0, opener.node)
  }

  /** A node from an inline content parser as the block gets it: a Text node is given the
      identity `id`, any other node is kept. */
  function Stamped(node: Inline, id: nat): Inline
  {
    if node.Text? then Text(id, node.literal) else node
  }

  /** What scanDelimiters finds: one Text node per delimiter character (and their ids), and
      whether the run can open and close. */
  datatype DelimiterData = DelimiterData(nodes: seq<Inline>, characters: seq<nat>, flags: Flags)

  /** Index of the first character at or after `i` that stops a plain-text run. */
  function TextRunEnd(s: seq<char>, i: nat, special: set<char>): (k: nat)
    requires i <= |s|
    ensures i <= k <= |s|
    ensures forall j :: i <= j < k ==> s[j] !in special
    ensures k == |s| || s[k] in special
    decreases |s| - i
  {
    if i == |s| || s[i] in special then i else TextRunEnd(s, i + 1, special)
  }

  /**
   * What a processor does with a matched pair before the parser removes the used characters
   * (commonmark-java's emphasis processors): the nodes strictly between the opener's last
   * and the closer's first character node move into one new node after the opener's node.
   * The nodes are found by identity among the siblings; if they are not both there, in
   * order, nothing is wrapped.
   */
  function Wrap(nodes: seq<Inline>, opener: Delimiter, closer: Delimiter, processor: nat, used: nat): (r: seq<Inline>)
    requires opener.characters != [] && closer.characters != []
    ensures Leaves(r) == Leaves(nodes)
  {
    match (IndexOfText(nodes, opener.characters[|opener.characters| - 1]), IndexOfText(nodes, closer.characters[0]))
    case (Some(i), Some(j)) => if i < j then WrapBetween(nodes, i, j, processor, used) else nodes
    case _ => nodes
  }

  /** The nodes with the Text nodes `ids` unlinked, ids[0] first. */
  function UnlinkEach(nodes: seq<Inline>, ids: seq<nat>): seq<Inline>
  {
    if ids == [] then nodes else Unlink(UnlinkEach(nodes, ids[..|ids| - 1]), ids[|ids| - 1])
  }

  /** The nodes with the Text nodes `ids` unlinked, the last id first. */
  function UnlinkEachBackward(nodes: seq<Inline>, ids: seq<nat>): seq<Inline>
  {
    if ids == [] then nodes else Unlink(UnlinkEachBackward(nodes, ids[1..]), ids[0])
  }

  /** Unlinking each of `ids` removes only Text nodes whose identity is in `among`. */
  lemma {:induction false} UnlinkEachLeaves(nodes: seq<Inline>, ids: seq<nat>, among: set<nat>)
    requires forall k :: 0 <= k < |ids| ==> ids[k] in among
    ensures OnlyRemoves(Leaves(nodes), Leaves(UnlinkEach(nodes, ids)), among)
    decreases |ids|
  {
    if ids != [] {
      var before := UnlinkEach(nodes, ids[..|ids| - 1]);
      UnlinkEachLeaves(nodes, ids[..|ids| - 1], among);
      UnlinkLeaves(before, ids[|ids| - 1]);
      OnlyRemovesTrans(Leaves(nodes), Leaves(before), Leaves(UnlinkEach(nodes, ids)), among, {ids[|ids| - 1]});
    } else {
      OnlyRemovesRefl(Leaves(nodes), among);
    }
  }

  /** The same, unlinking the last id first. */
  lemma {:induction false} UnlinkEachBackwardLeaves(nodes: seq<Inline>, ids: seq<nat>, among: set<nat>)
    requires forall k :: 0 <= k < |ids| ==> ids[k] in among
    ensures OnlyRemoves(Leaves(nodes), Leaves(UnlinkEachBackward(nodes, ids)), among)
    decreases |ids|
  {
    if ids != [] {
      var before := UnlinkEachBackward(nodes, ids[1..]);
      UnlinkEachBackwardLeaves(nodes, ids[1..], among);
      UnlinkLeaves(before, ids[0]);
      OnlyRemovesTrans(Leaves(nodes), Leaves(before), Leaves(UnlinkEachBackward(nodes, ids)), among, {ids[0]});
    } else {
      OnlyRemovesRefl(Leaves(nodes), among);
    }
  }

  /** Using a matched pair (wrap, then unlink the used characters of both runs) removes only
      Text nodes of those runs' characters. */
  lemma UseLeaves(nodes: seq<Inline>, o: Delimiter, c: Delimiter, processor: nat, used: nat, ids: set<nat>)
    requires 0 < used <= |o.characters| && used <= |c.characters|
    requires EntryIn(o, ids) && EntryIn(c, ids)
    ensures OnlyRemoves(Leaves(nodes),
                        Leaves(UnlinkEach(UnlinkEachBackward(Wrap(nodes, o, c, processor, used),
                                                             o.characters[|o.characters| - used..]),
                                          c.characters[..used])),
                        ids)
  {
    var wrapped := Wrap(nodes, o, c, processor, used);
    var last := o.characters[|o.characters| - used..];
    var first := c.characters[..used];
    assert forall k :: 0 <= k < |last| ==> last[k] in o.characters;
    assert forall k :: 0 <= k < |first| ==> first[k] in c.characters;
    var middle := UnlinkEachBackward(wrapped, last);
    UnlinkEachBackwardLeaves(wrapped, last, ids);
    UnlinkEachLeaves(middle, first, ids);
    OnlyRemovesTrans(Leaves(wrapped), Leaves(middle), Leaves(UnlinkEach(middle, c.characters[..used])), ids, ids);
  }

  class InlineParser {
    /** The code this parser calls but which is not part of the model. */
    const env: Collaborators
    /** delimiterProcessors: the processor table, by character. */
    const processors: Table
    /** The characters that stop a plain-text run. */
    const specialCharacters: set<char>

    var scanner: Scanner
    /** Spaces removed from the end of the last text run that stopped before a newline. */
    var trailingSpaces: nat
    /** Delimiter stack, bottom first; lastDelimiter is the last entry. */
    var delimiters: seq<Delimiter>
    /** Bracket stack, bottom first; lastBracket is the last entry. */
    var brackets: seq<Bracket>
    /** The children appended to the block so far. */
    var block: seq<Inline>
    /** The id the next Text node gets. */
    var nextId: nat

    ghost predicate Valid()
      reads this`scanner, scanner
    {
      scanner.Valid() && WellBehaved(env) && WellFormed(processors)
    }

    /** Between two parse steps: the brackets refer to delimiter-stack heights that exist and
        to content that has been read. */
    ghost predicate StacksConsistent()
      reads this`scanner, this`delimiters, this`brackets, scanner
    {
      BracketsBelow(brackets, |delimiters|, scanner.pos)
    }

    /** The init block, given a table built by calculateDelimiterProcessors. */
    constructor (processors: Table, env: Collaborators)
      requires WellBehaved(env) && WellFormed(processors)
      ensures Valid() && this.processors == processors && this.env == env
      ensures forall c :: c in specialCharacters <==>
        c in processors || c in InlineParserCharacters || c == '[' || c == ']' || c == '!' || c == '\n'
    {
      var special := CalculateSpecialCharacters(processors.Keys, InlineParserCharacters);
      this.env := env;
      this.processors := processors;
      specialCharacters := special;
      scanner := new Scanner([]);
      trailingSpaces := 0;
      delimiters := [];
      brackets := [];
      block := [];
      nextId := 0;
    }

    /** Parse `text` (the block's lines joined by '\n') into the block's children. */
    method Parse(text: seq<char>) returns (children: seq<Inline>)
      requires Valid()
      modifies this`scanner, this`trailingSpaces, this`delimiters, this`brackets, this`block, this`nextId
      ensures Valid() && fresh(scanner) && scanner.text == text && scanner.pos == |text|
      ensures delimiters == [] && children == block && WellMerged(children)
    {
      scanner := new Scanner(text);
      trailingSpaces := 0;
      delimiters := [];
      brackets := [];
      block := [];
      while true
        invariant Valid() && StacksConsistent() && fresh(scanner) && scanner.text == text
        decreases |text| - scanner.pos
      {
        var nodes := ParseInline();
        if nodes.None? {
          break;
        }
        block := block + nodes.value;
      }
      children := ResolveContent(0, block);
      block := children;
    }

    /**
     * parseInline: the nodes for what starts at the current position, or None at the end of
     * the input. Every call that returns nodes consumes at least one character.
     */
    method ParseInline() returns (nodes: Option<seq<Inline>>)
      requires Valid() && StacksConsistent()
      modifies scanner`pos, this`trailingSpaces, this`delimiters, this`brackets, this`block, this`nextId
      ensures Valid() && StacksConsistent()
      ensures nodes.None? <==> old(scanner.pos) == |scanner.text|
      ensures nodes.None? ==> scanner.pos == old(scanner.pos)
      ensures nodes.Some? ==> old(scanner.pos) < scanner.pos
      ensures old(scanner.pos) < |scanner.text| ==>
        var at := old(scanner.pos);
        var c := scanner.text[at];
        (c == '[' ==> nodes == Some([Text(old(nextId), "[")]) && |brackets| == |old(brackets)| + 1) &&
        (c == '!' ==> nodes == Some([Text(old(nextId), if scanner.pos == at + 2 then "![" else "!")])) &&
        (c == ']' ==>
           nodes.Some? && |nodes.value| == 1 &&
           (nodes.value[0].Text? || nodes.value[0].Link? || nodes.value[0].Image?)) &&
        (c == '\n' ==>
           nodes == Some([if old(trailingSpaces) >= 2 then HardLineBreak else SoftLineBreak]) &&
           trailingSpaces == 0)
      ensures old(scanner.pos) < |scanner.text| && scanner.text[old(scanner.pos)] !in {'[', '!', ']', '\n'} ==>
        var at := old(scanner.pos);
        var c := scanner.text[at];
        var content := if c == '$' then Some(TryParseResult(scanner.text, at))
                       else if c in InlineParserCharacters then env.parseContent(scanner.text, at)
                       else None;
        var run := RunLength(scanner.text, at, c);
        var delimited := c in processors && processors[c].MinLength() <= run;
        (c in specialCharacters && content.Some? ==>
           nodes == Some([Stamped(content.value.0, old(nextId))]) && scanner.pos == content.value.1) &&
        (c in specialCharacters && content.None? && delimited ==>
           nodes.Some? && 0 < run == |nodes.value| && scanner.pos == at + run &&
           (forall k :: 0 <= k < run ==> nodes.value[k] == Text(old(nextId) + k, [c])) &&
           |delimiters| == |old(delimiters)| + 1 && delimiters[..|old(delimiters)|] == old(delimiters)) &&
        (c !in specialCharacters || (content.None? && !delimited) ==>
           scanner.pos == TextRunEnd(scanner.text, at + 1, specialCharacters) &&
           nodes == Some([Text(old(nextId), TextRunResult(scanner.text[at..scanner.pos], scanner.Peek()).literal)]))
    {
      var next := scanner.Peek();
      if next.End? {
        return None;
      }
      var c := next.c;
      if c == '[' {
        var node := ParseOpenBracket();
        return Some([node]);
      } else if c == '!' {
        var node := ParseBang();
        return Some([node]);
      } else if c == ']' {
        var node := ParseCloseBracket();
        return Some([node]);
      } else if c == '\n' {
        var node := ParseLineBreak();
        return Some([node]);
      }
      var other := ParseOther();
      return Some(other);
    }

    /**
     * The rest of parseInline, for a character other than `[`, `!`, `]` and a line feed: a
     * plain-text run; else the character's inline content parser when it matches; else a
     * delimiter run long enough for its processor; else a one-character-or-longer text run.
     */
    method ParseOther() returns (nodes: seq<Inline>)
      requires Valid() && StacksConsistent() && scanner.pos < |scanner.text|
      requires scanner.text[scanner.pos] !in {'[', '!', ']', '\n'}
      modifies scanner`pos, this`trailingSpaces, this`delimiters, this`nextId
      ensures Valid() && StacksConsistent() && old(scanner.pos) < scanner.pos
      ensures var at := old(scanner.pos);
        var c := scanner.text[at];
        var content := if c == '$' then Some(TryParseResult(scanner.text, at))
                       else if c in InlineParserCharacters then env.parseContent(scanner.text, at)
                       else None;
        var run := RunLength(scanner.text, at, c);
        var delimited := c in processors && processors[c].MinLength() <= run;
        (c in specialCharacters && content.Some? ==>
           nodes == [Stamped(content.value.0, old(nextId))] && scanner.pos == content.value.1 &&
           delimiters == old(delimiters)) &&
        (c in specialCharacters && content.None? && delimited ==>
           0 < run == |nodes| && scanner.pos == at + run &&
           (forall k :: 0 <= k < run ==> nodes[k] == Text(old(nextId) + k, [c])) &&
           |delimiters| == |old(delimiters)| + 1 && delimiters[..|old(delimiters)|] == old(delimiters) &&
           delimiters[|old(delimiters)|].id == old(nextId) + run) &&
        (c !in specialCharacters || (content.None? && !delimited) ==>
           scanner.pos == TextRunEnd(scanner.text, at + 1, specialCharacters) &&
           nodes == [Text(old(nextId), TextRunResult(scanner.text[at..scanner.pos], scanner.Peek()).literal)] &&
           delimiters == old(delimiters))
    {
      var c := scanner.text[scanner.pos];
      if c in specialCharacters {
        var special := ParseContentOrDelimiters(c);
        if special.Some? {
          return special.value;
        }
      }
      // no content parser matched and no delimiter run: plain text
      var node := ParseText();
      return [node];
    }

    /**
     * The special-character part of parseInline: the inline content parser for `c`, when
     * there is one and it matches; else a delimiter run, when `c` has a processor and the run
     * is long enough; else nothing, with the position where it was.
     */
    method ParseContentOrDelimiters(c: char) returns (nodes: Option<seq<Inline>>)
      requires Valid() && StacksConsistent() && scanner.pos < |scanner.text| && scanner.text[scanner.pos] == c
      modifies scanner`pos, this`delimiters, this`nextId
      ensures Valid() && StacksConsistent()
      ensures var at := old(scanner.pos);
        var content := if c == '$' then Some(TryParseResult(scanner.text, at))
                       else if c in InlineParserCharacters then env.parseContent(scanner.text, at)
                       else None;
        var run := RunLength(scanner.text, at, c);
        var delimited := c in processors && processors[c].MinLength() <= run;
        (content.Some? ==>
           nodes == Some([Stamped(content.value.0, old(nextId))]) && scanner.pos == content.value.1 &&
           delimiters == old(delimiters)) &&
        (content.None? && delimited ==>
           nodes.Some? && 0 < run == |nodes.value| && scanner.pos == at + run &&
           (forall k :: 0 <= k < run ==> nodes.value[k] == Text(old(nextId) + k, [c])) &&
           |delimiters| == |old(delimiters)| + 1 && delimiters[..|old(delimiters)|] == old(delimiters) &&
           delimiters[|old(delimiters)|].id == old(nextId) + run) &&
        (content.None? && !delimited ==>
           nodes.None? && scanner.pos == at && delimiters == old(delimiters) && nextId == old(nextId))
    {
      if c in InlineParserCharacters {
        var node := ParseContent();
        if node.Some? {
          return Some([node.value]);
        }
      }
      if c in processors {
        nodes := ParseDelimiters(processors[c], c);
      } else {
        nodes := None;
      }
    }

    /** A Text node produced by an inline content parser gets a fresh identity. */
    method Stamp(node: Inline) returns (stamped: Inline)
      modifies this`nextId
      ensures stamped == Stamped(node, old(nextId)) && (stamped.Text? <==> node.Text?)
      ensures nextId == if node.Text? then old(nextId) + 1 else old(nextId)
    {
      stamped := node;
      if node.Text? {
        stamped := Text(nextId, node.literal);
        nextId := nextId + 1;
      }
    }

    /**
     * The inline content parsers registered for the current character, tried in order; the
     * position is reset when none matches. '$' has only DollarsInlineParser, which always
     * produces a node.
     */
    method ParseContent() returns (node: Option<Inline>)
      requires Valid() && StacksConsistent() && scanner.pos < |scanner.text|
      requires scanner.text[scanner.pos] in InlineParserCharacters
      modifies scanner`pos, this`nextId
      ensures Valid() && StacksConsistent()
      ensures scanner.text[old(scanner.pos)] == '$' ==> node.Some?
      ensures node.Some? ==> old(scanner.pos) < scanner.pos
      ensures var at := old(scanner.pos);
        var found := if scanner.text[at] == '$' then Some(TryParseResult(scanner.text, at))
                     else env.parseContent(scanner.text, at);
        (found.None? ==> node.None? && scanner.pos == at && nextId == old(nextId)) &&
        (found.Some? ==>
           node == Some(Stamped(found.value.0, old(nextId))) && scanner.pos == found.value.1 &&
           nextId == if found.value.0.Text? then old(nextId) + 1 else old(nextId))
    {
      var position := scanner.pos;
      if scanner.text[position] == '$' {
        var parsed, after := TryParse(scanner);
        scanner.SetPosition(after);
        var stamped := Stamp(parsed);
        return Some(stamped);
      }
      match env.parseContent(scanner.text, position)
      case Some(parsed) =>
        scanner.SetPosition(parsed.1);
        var stamped := Stamp(parsed.0);
        return Some(stamped);
      case None =>
        scanner.SetPosition(position);
        return None;
    }

    /**
     * scanDelimiters: a run of `delimiterChar` shorter than the processor's minimum length
     * gives None and leaves the position where it was; otherwise the whole run is consumed,
     * one Text node is made per character, and the run is classified by the characters
     * before and after it.
     */
    method ScanDelimiters(registered: Registered, delimiterChar: char) returns (data: Option<DelimiterData>)
      requires Valid() && scanner.Peek() == Char(delimiterChar)
      modifies scanner`pos, this`nextId
      ensures Valid()
      ensures var count := RunLength(scanner.text, old(scanner.pos), delimiterChar);
        (data.None? <==> count < registered.MinLength()) &&
        (data.None? ==> scanner.pos == old(scanner.pos) && nextId == old(nextId)) &&
        (data.Some? ==>
          scanner.pos == old(scanner.pos) + count && nextId == old(nextId) + count &&
          |data.value.nodes| == count && |data.value.characters| == count &&
          (forall k :: 0 <= k < count ==>
             data.value.nodes[k] == Text(old(nextId) + k, [delimiterChar]) &&
             data.value.characters[k] == old(nextId) + k) &&
          data.value.flags == Classify(delimiterChar, registered.Opening(), registered.Closing(),
                                       old(scanner.PeekPrevious()), scanner.Peek(),
                                       env.isPunctuation, env.isWhitespace))
    {
      var before := scanner.PeekPrevious();
      var start := scanner.pos;
      var count := scanner.MatchMultiple(delimiterChar);
      RunLengthRun(scanner.text, start, delimiterChar);
      if count < registered.MinLength() {
        scanner.SetPosition(start);
        return None;
      }
      scanner.SetPosition(start);
      var nodes: seq<Inline> := [];
      var characters: seq<nat> := [];
      while true
        invariant Valid() && scanner.pos == start + |nodes| <= start + count
        invariant |characters| == |nodes| && nextId == old(nextId) + |nodes|
        invariant forall k :: 0 <= k < |nodes| ==>
          nodes[k] == Text(old(nextId) + k, [delimiterChar]) && characters[k] == old(nextId) + k
        decreases start + count - scanner.pos
      {
        var positionBefore := scanner.pos;
        var matched := scanner.NextIf(delimiterChar);
        if !matched {
          break;
        }
        assert scanner.Source(positionBefore, scanner.pos) == [delimiterChar];
        nodes := nodes + [Text(nextId, scanner.Source(positionBefore, scanner.pos))];
        characters := characters + [nextId];
        nextId := nextId + 1;
      }
      var after := scanner.Peek();
      var flags := Classify(delimiterChar, registered.Opening(), registered.Closing(), before, after,
                            env.isPunctuation, env.isWhitespace);
      return Some(DelimiterData(nodes, characters, flags));
    }

    /** parseDelimiters: a run that is long enough goes on the delimiter stack, and its
        character nodes are what the block gets. */
    method ParseDelimiters(registered: Registered, delimiterChar: char) returns (nodes: Option<seq<Inline>>)
      requires Valid() && StacksConsistent() && scanner.Peek() == Char(delimiterChar)
      modifies scanner`pos, this`delimiters, this`nextId
      ensures Valid() && StacksConsistent()
      ensures var count := RunLength(scanner.text, old(scanner.pos), delimiterChar);
        (nodes.None? <==> count < registered.MinLength()) &&
        (nodes.None? ==> scanner.pos == old(scanner.pos) && delimiters == old(delimiters) && nextId == old(nextId)) &&
        (nodes.Some? ==>
          0 < count && scanner.pos == old(scanner.pos) + count && nextId == old(nextId) + count + 1 &&
          |nodes.value| == count &&
          (forall k :: 0 <= k < count ==> nodes.value[k] == Text(old(nextId) + k, [delimiterChar])) &&
          |delimiters| == |old(delimiters)| + 1 && delimiters[..|old(delimiters)|] == old(delimiters) &&
          var top := delimiters[|old(delimiters)|];
          var flags := Classify(delimiterChar, registered.Opening(), registered.Closing(),
                                old(scanner.PeekPrevious()), scanner.Peek(), env.isPunctuation, env.isWhitespace);
          top.id == old(nextId) + count && top.delimiterChar == delimiterChar &&
          top.canOpen == flags.canOpen && top.canClose == flags.canClose &&
          top.originalLength == count == |top.characters| &&
          (forall k :: 0 <= k < count ==> top.characters[k] == old(nextId) + k))
    {
      var data := ScanDelimiters(registered, delimiterChar);
      if data.None? {
        return None;
      }
      var run := data.value;
      delimiters := delimiters + [Delimiter(nextId, run.characters, delimiterChar,
                                            run.flags.canOpen, run.flags.canClose, |run.characters|)];
      nextId := nextId + 1;
      return Some(run.nodes);
    }

    /** Push a bracket; the previous top now has a bracket after it. */
    method AddBracket(bracket: Bracket)
      modifies this`brackets
      ensures |brackets| == |old(brackets)| + 1 && brackets[|old(brackets)|] == bracket
      ensures forall i :: 0 <= i < |old(brackets)| ==>
        brackets[i] == if i == |old(brackets)| - 1 then old(brackets)[i].(bracketAfter := true) else old(brackets)[i]
    {
      if brackets != [] {
        var top := brackets[|brackets| - 1];
        brackets := brackets[|brackets| - 1 := top.(bracketAfter := true)];
      }
      brackets := brackets + [bracket];
    }

    /** Pop the top bracket. */
    method RemoveLastBracket()
      requires brackets != []
      modifies this`brackets
      ensures brackets == old(brackets)[..|old(brackets)| - 1]
    {
      brackets := brackets[..|brackets| - 1];
    }

    /** parseOpenBracket: a Text "[" for the block and a link opener on the bracket stack. */
    method ParseOpenBracket() returns (node: Inline)
      requires Valid() && StacksConsistent() && scanner.Peek() == Char('[')
      modifies scanner`pos, this`brackets, this`nextId
      ensures Valid() && StacksConsistent()
      ensures scanner.pos == old(scanner.pos) + 1 && node == Text(old(nextId), "[") && nextId == old(nextId) + 1
      ensures |brackets| == |old(brackets)| + 1 &&
        brackets[|old(brackets)|] == Bracket(old(nextId), old(scanner.pos), scanner.pos, false, true, false, |delimiters|)
      ensures forall i :: 0 <= i < |old(brackets)| ==>
        brackets[i] == if i == |old(brackets)| - 1 then old(brackets)[i].(bracketAfter := true) else old(brackets)[i]
    {
      var start := scanner.pos;
      scanner.Next();
      var contentPosition := scanner.pos;
      assert scanner.Source(start, contentPosition) == "[";
      node := Text(nextId, scanner.Source(start, contentPosition));
      nextId := nextId + 1;
      AddBracket(Bracket(node.id, start, contentPosition, false, true, false, |delimiters|));
    }

    /** parseBang: "![" opens an image; a lone "!" is text. */
    method ParseBang() returns (node: Inline)
      requires Valid() && StacksConsistent() && scanner.Peek() == Char('!')
      modifies scanner`pos, this`brackets, this`nextId
      ensures Valid() && StacksConsistent()
      ensures var image := old(scanner.pos) + 1 < |scanner.text| && scanner.text[old(scanner.pos) + 1] == '[';
        (image ==>
          scanner.pos == old(scanner.pos) + 2 && node == Text(old(nextId), "![") &&
          |brackets| == |old(brackets)| + 1 &&
          brackets[|old(brackets)|] == Bracket(old(nextId), old(scanner.pos), scanner.pos, true, true, false, |delimiters|) &&
          (forall i :: 0 <= i < |old(brackets)| ==>
             brackets[i] == if i == |old(brackets)| - 1 then old(brackets)[i].(bracketAfter := true) else old(brackets)[i])) &&
        (!image ==> scanner.pos == old(scanner.pos) + 1 && node == Text(old(nextId), "!") && brackets == old(brackets))
      ensures nextId == old(nextId) + 1
    {
      var start := scanner.pos;
      scanner.Next();
      var opens := scanner.NextIf('[');
      if opens {
        var contentPosition := scanner.pos;
        assert scanner.Source(start, contentPosition) == "![";
        node := Text(nextId, scanner.Source(start, contentPosition));
        nextId := nextId + 1;
        AddBracket(Bracket(node.id, start, contentPosition, true, true, false, |delimiters|));
      } else {
        assert scanner.Source(start, scanner.pos) == "!";
        node := Text(nextId, scanner.Source(start, scanner.pos));
        nextId := nextId + 1;
      }
    }

    /**
     * The reference forms `[foo][bar]`, `[foo][]` and `[foo]`: the label after the `]`, or,
     * when it is missing or empty and no bracket was opened inside the first label, the first
     * label itself, looked up among the link reference definitions.
     */
    method ParseReference(opener: Bracket, beforeClose: nat, afterClose: nat) returns (dest: Option<string>, title: Option<string>)
      requires Valid() && scanner.pos == afterClose
      requires opener.contentPosition <= beforeClose < afterClose
      modifies scanner`pos
      ensures Valid()
      ensures var r := ReferenceAt(scanner.text, opener.contentPosition, beforeClose, afterClose, opener.bracketAfter, env);
        scanner.pos == r.1 &&
        (r.0.None? ==> dest.None? && title.None?) &&
        (r.0.Some? ==> dest == Some(r.0.value.destination) && title == r.0.value.title)
    {
      dest := None;
      title := None;
      var ref := ParseLinkLabel(scanner, env);
      if ref.None? {
        scanner.SetPosition(afterClose);
      }
      if (ref.None? || ref.value == []) && !opener.bracketAfter {
        ref := Some(scanner.Source(opener.contentPosition, beforeClose));
      }
      if ref.Some? {
        var definition := env.lookupReference(ref.value);
        if definition.Some? {
          dest := Some(definition.value.destination);
          title := definition.value.title;
        }
      }
    }

    /** Mark every link opener on the bracket stack as no longer allowed (no links in links). */
    method DisallowLinkOpeners()
      modifies this`brackets
      ensures |brackets| == |old(brackets)|
      ensures forall i :: 0 <= i < |brackets| ==> brackets[i] == Disallowed(old(brackets)[i])
      ensures brackets == DisallowedAll(old(brackets))
    {
      var i := |brackets|;
      while i > 0
        invariant 0 <= i <= |brackets| == |old(brackets)|
        invariant forall k :: 0 <= k < i ==> brackets[k] == old(brackets)[k]
        invariant forall k :: i <= k < |brackets| ==> brackets[k] == Disallowed(old(brackets)[k])
        decreases i
      {
        i := i - 1;
        if !brackets[i].image {
          brackets := brackets[i := brackets[i].(allowed := false)];
        }
      }
    }

    /**
     * parseCloseBracket. With no opener, or a disallowed one (which is popped), the `]` is
     * literal text. Otherwise a link or image is made when an inline form or a reference
     * gives a destination: the nodes after the opener's Text node move into it, emphasis
     * among them is resolved down to the opener's delimiter-stack height, their Text nodes
     * are merged, the opener's Text node goes, and for a link every link opener below is
     * disallowed. Without a destination the opener is popped and the `]` is text.
     */
    method ParseCloseBracket() returns (node: Inline)
      requires Valid() && StacksConsistent() && scanner.Peek() == Char(']')
      modifies scanner`pos, this`delimiters, this`brackets, this`block, this`nextId
      ensures Valid() && StacksConsistent()
      ensures old(scanner.pos) < scanner.pos
      ensures node.Text? || node.Link? || node.Image?
      ensures old(brackets) == [] || !old(brackets)[|old(brackets)| - 1].allowed ==>
        node == Text(old(nextId), "]") && scanner.pos == old(scanner.pos) + 1 &&
        brackets == (if old(brackets) == [] then [] else old(brackets)[..|old(brackets)| - 1]) &&
        delimiters == old(delimiters) && block == old(block)
      ensures old(brackets) != [] && old(brackets)[|old(brackets)| - 1].allowed ==>
        var opener := old(brackets)[|old(brackets)| - 1];
        var t := LinkTargetAt(scanner.text, opener.contentPosition, old(scanner.pos), old(scanner.pos) + 1,
                              opener.bracketAfter, env);
        (node.Text? <==> t.None?) &&
        (t.Some? ==> node.destination == t.value.0 && node.title == t.value.1 && scanner.pos == t.value.2) &&
        (node.Text? ==>
           node == Text(old(nextId), "]") && scanner.pos == old(scanner.pos) + 1 &&
           brackets == old(brackets)[..|old(brackets)| - 1] && delimiters == old(delimiters) && block == old(block)) &&
        (!node.Text? ==>
           LinkMade(node, opener, old(delimiters), old(brackets), old(block), delimiters, brackets, block))
    {
      if brackets != [] && brackets[|brackets| - 1].allowed {
        node := CloseAllowed(brackets[|brackets| - 1]);
        return;
      }
      var beforeClose := scanner.pos;
      scanner.Next();
      var afterClose := scanner.pos;
      assert scanner.Source(beforeClose, afterClose) == "]";
      if brackets != [] {
        // the opener is not allowed
        RemoveLastBracket();
      }
      node := Text(nextId, scanner.Source(beforeClose, afterClose));
      nextId := nextId + 1;
    }

    /**
     * parseCloseBracket once the top opener is known to allow a link: a link or image when a
     * destination is found, otherwise the opener is popped and the `]` is text.
     */
    method CloseAllowed(opener: Bracket) returns (node: Inline)
      requires Valid() && StacksConsistent() && brackets != [] && opener == brackets[|brackets| - 1]
      requires opener.allowed && scanner.Peek() == Char(']')
      modifies scanner`pos, this`delimiters, this`brackets, this`block, this`nextId
      ensures Valid() && StacksConsistent() && old(scanner.pos) < scanner.pos
      ensures node.Text? || node.Link? || node.Image?
      ensures var t := LinkTargetAt(scanner.text, opener.contentPosition, old(scanner.pos), old(scanner.pos) + 1,
                                    opener.bracketAfter, env);
        (node.Text? <==> t.None?) &&
        (t.Some? ==> node.destination == t.value.0 && node.title == t.value.1 && scanner.pos == t.value.2)
      ensures node.Text? ==>
        node == Text(old(nextId), "]") && scanner.pos == old(scanner.pos) + 1 &&
        brackets == old(brackets)[..|old(brackets)| - 1] && delimiters == old(delimiters) && block == old(block)
      ensures !node.Text? ==>
        LinkMade(node, opener, old(delimiters), old(brackets), old(block), delimiters, brackets, block)
    {
      var beforeClose, dest, title := ScanTarget(opener);
      ghost var t := LinkTargetAt(scanner.text, opener.contentPosition, beforeClose, beforeClose + 1,
                                  opener.bracketAfter, env);
      assert t.None? <==> dest.None?;
      node := Complete(opener, beforeClose, dest, title);
      assert t == LinkTargetAt(scanner.text, opener.contentPosition, old(scanner.pos), old(scanner.pos) + 1,
                               opener.bracketAfter, env);
    }

    /** Past the `]`, the destination and title of an inline link or a reference. */
    method ScanTarget(opener: Bracket) returns (beforeClose: nat, dest: Option<string>, title: Option<string>)
      requires Valid() && StacksConsistent() && brackets != [] && opener == brackets[|brackets| - 1]
      requires scanner.Peek() == Char(']')
      modifies scanner`pos
      ensures Valid() && StacksConsistent() && beforeClose == old(scanner.pos) < scanner.pos
      ensures beforeClose < |scanner.text| && scanner.text[beforeClose] == ']'
      ensures BracketsBelow(brackets, |delimiters|, beforeClose + 1)
      ensures var t := LinkTargetAt(scanner.text, opener.contentPosition, beforeClose, beforeClose + 1,
                                    opener.bracketAfter, env);
        (t.None? ==> dest.None? && title.None?) &&
        (t.Some? ==> dest == Some(t.value.0) && title == t.value.1 && scanner.pos == t.value.2)
    {
      beforeClose := scanner.pos;
      scanner.Next();
      dest, title := ParseDestination(opener, beforeClose, beforeClose + 1);
    }

    /** The end of parseCloseBracket: a link or image with the destination found, or, without
        one, the opener popped and the `]` as text. */
    method Complete(opener: Bracket, beforeClose: nat, dest: Option<string>, title: Option<string>)
      returns (node: Inline)
      requires Valid() && StacksConsistent() && brackets != [] && opener == brackets[|brackets| - 1]
      requires BracketsBelow(brackets, |delimiters|, beforeClose + 1)
      requires beforeClose < |scanner.text| && scanner.text[beforeClose] == ']' && beforeClose < scanner.pos
      modifies scanner`pos, this`delimiters, this`brackets, this`block, this`nextId
      ensures Valid() && StacksConsistent()
      ensures node.Text? || node.Link? || node.Image?
      ensures (node.Text? <==> dest.None?) &&
        (dest.Some? ==> node.destination == dest.value && node.title == title && scanner.pos == old(scanner.pos))
      ensures node.Text? ==>
        node == Text(old(nextId), "]") && scanner.pos == beforeClose + 1 &&
        brackets == old(brackets)[..|old(brackets)| - 1] && delimiters == old(delimiters) && block == old(block)
      ensures !node.Text? ==>
        LinkMade(node, opener, old(delimiters), old(brackets), old(block), delimiters, brackets, block)
    {
      if dest.Some? {
        node := MakeLinkOrImage(opener, dest.value, title);
      } else {
        RemoveLastBracket();
        scanner.SetPosition(beforeClose + 1);
        assert scanner.Source(beforeClose, beforeClose + 1) == "]";
        node := Text(nextId, scanner.Source(beforeClose, beforeClose + 1));
        nextId := nextId + 1;
      }
    }

    /**
     * The destination and title after a `]` whose opener allows a link: an inline link
     * `(dest "title")` when one follows, otherwise a reference (ParseReference).
     */
    method ParseDestination(opener: Bracket, beforeClose: nat, afterClose: nat) returns (dest: Option<string>, title: Option<string>)
      requires Valid() && scanner.pos == afterClose
      requires opener.contentPosition <= beforeClose < afterClose
      modifies scanner`pos
      ensures Valid() && afterClose <= scanner.pos
      ensures var t := LinkTargetAt(scanner.text, opener.contentPosition, beforeClose, afterClose, opener.bracketAfter, env);
        (t.None? ==> dest.None? && title.None?) &&
        (t.Some? ==> dest == Some(t.value.0) && title == t.value.1 && scanner.pos == t.value.2)
    {
      dest, title := ParseInlineLink(scanner, env, afterClose);
      if dest.None? {
        dest, title := ParseReference(opener, beforeClose, afterClose);
      }
    }

    /** The content of a link, or the whole block: emphasis resolved down to `bottom`, then
        adjacent Text nodes merged. */
    method ResolveContent(bottom: nat, nodes: seq<Inline>) returns (content: seq<Inline>)
      requires Valid() && bottom <= |delimiters|
      modifies this`delimiters
      ensures delimiters == old(delimiters)[..bottom] && WellMerged(content)
      ensures ResolvedFrom(content, nodes, StackIds(old(delimiters), bottom))
    {
      var resolved := ProcessDelimiters(bottom, nodes);
      content := MergeChildTextNodes(resolved);
      MergeListWellMerged(resolved);
    }

    /** The link or image of parseCloseBracket, once a destination is known. */
    method MakeLinkOrImage(opener: Bracket, dest: string, title: Option<string>) returns (node: Inline)
      requires Valid() && StacksConsistent() && brackets != [] && opener == brackets[|brackets| - 1]
      modifies this`delimiters, this`brackets, this`block
      ensures Valid() && StacksConsistent()
      ensures (node.Link? || node.Image?) && node.destination == dest && node.title == title
      ensures LinkMade(node, opener, old(delimiters), old(brackets), old(block), delimiters, brackets, block)
    {
      ghost var delimiters0, brackets0, block0 := delimiters, brackets, block;
      var children := LinkContent(opener.node, opener.previousDelimiter);
      PopOpener(opener.image, |delimiters0|, scanner.pos);
      node := if opener.image then Image(dest, title, children) else Link(dest, title, children);
      assert LinkMade(node, opener, delimiters0, brackets0, block0, delimiters, brackets, block);
    }

    /** The content of a link or image: the block's nodes after the opener's Text node, cut
        from the block, with emphasis resolved down to the opener's stack height. */
    method LinkContent(id: nat, bottom: nat) returns (children: seq<Inline>)
      requires Valid() && bottom <= |delimiters|
      modifies this`delimiters, this`block
      ensures WellMerged(children) && ResolvedFrom(children, NodesAfter(old(block), id), StackIds(old(delimiters), bottom))
      ensures delimiters == old(delimiters)[..bottom] && block == NodesBefore(old(block), id)
    {
      children := TakeContent(id);
      children := ResolveContent(bottom, children);
    }

    /** The block is cut at the Text node `id`: the nodes after it are returned. */
    method TakeContent(id: nat) returns (content: seq<Inline>)
      modifies this`block
      ensures content == NodesAfter(old(block), id) && block == NodesBefore(old(block), id)
    {
      content := [];
      var k := IndexOfText(block, id);
      if k.Some? {
        content := block[k.value + 1..];
        block := block[..k.value];
      }
    }

    /** The opener of a link or image just made is popped; for a link, every link opener
        below it is disallowed. */
    method PopOpener(image: bool, ghost height: nat, ghost read: nat)
      requires brackets != [] && BracketsBelow(brackets, height, read)
      modifies this`brackets
      ensures brackets == (var rest := old(brackets)[..|old(brackets)| - 1];
                           if image then rest else DisallowedAll(rest))
      ensures var bottom := old(brackets)[|old(brackets)| - 1].previousDelimiter;
        bottom <= height && BracketsBelow(brackets, bottom, read)
    {
      PopForLink(brackets, height, read, image);
      RemoveLastBracket();
      if !image {
        DisallowLinkOpeners();
      }
    }

    /**
     * parseLineBreak: a newline after at least two trailing spaces is a hard line break,
     * any other newline a soft one. The count is consumed by the break (see TextRuns).
     */
    method ParseLineBreak() returns (node: Inline)
      requires Valid() && StacksConsistent() && scanner.Peek() == Char('\n')
      modifies scanner`pos, this`trailingSpaces
      ensures Valid() && StacksConsistent()
      ensures scanner.pos == old(scanner.pos) + 1
      ensures node == if old(trailingSpaces) >= 2 then HardLineBreak else SoftLineBreak
      ensures trailingSpaces == 0
    {
      scanner.Next();
      if trailingSpaces >= 2 {
        node := HardLineBreak;
      } else {
        node := SoftLineBreak;
      }
      trailingSpaces := 0;
    }

    /**
     * parseText: the current character and every following one up to the next special
     * character or the end, trimmed and counted as TextRunResult says.
     */
    method ParseText() returns (node: Inline)
      requires Valid() && StacksConsistent() && scanner.pos < |scanner.text|
      modifies scanner`pos, this`trailingSpaces, this`nextId
      ensures Valid() && StacksConsistent()
      ensures scanner.pos == TextRunEnd(scanner.text, old(scanner.pos) + 1, specialCharacters)
      ensures var r := TextRunResult(scanner.text[old(scanner.pos)..scanner.pos], scanner.Peek());
        node == Text(old(nextId), r.literal) &&
        trailingSpaces == if r.recorded.Some? then r.recorded.value else old(trailingSpaces)
      ensures nextId == old(nextId) + 1
    {
      var start := scanner.pos;
      scanner.Next();
      var c := scanner.Peek();
      while !c.End? && c.c !in specialCharacters
        invariant Valid() && start < scanner.pos && c == scanner.Peek()
        invariant nextId == old(nextId) && trailingSpaces == old(trailingSpaces)
        invariant TextRunEnd(scanner.text, start + 1, specialCharacters) ==
                  TextRunEnd(scanner.text, scanner.pos, specialCharacters)
        decreases |scanner.text| - scanner.pos
      {
        scanner.Next();
        c := scanner.Peek();
      }
      var content := scanner.Source(start, scanner.pos);
      var r := TextRunResult(content, c);
      if r.recorded.Some? {
        trailingSpaces := r.recorded.value;
      }
      node := Text(nextId, r.literal);
      nextId := nextId + 1;
    }

    /** removeDelimiter: the entry leaves the stack; the entries below and above it close up. */
    method RemoveDelimiter(k: nat)
      requires k < |delimiters|
      modifies this`delimiters
      ensures delimiters == old(delimiters)[..k] + old(delimiters)[k + 1..]
      ensures |delimiters| == |old(delimiters)| - 1
      ensures forall i :: 0 <= i < |delimiters| ==>
        delimiters[i] == if i < k then old(delimiters)[i] else old(delimiters)[i + 1]
    {
      delimiters := delimiters[..k] + delimiters[k + 1..];
    }

    /** removeDelimitersBetween: every entry strictly between the opener and the closer goes,
        from the closer downwards. */
    method RemoveDelimitersBetween(opener: nat, closer: nat)
      requires opener < closer < |delimiters|
      modifies this`delimiters
      ensures delimiters == old(delimiters)[..opener + 1] + old(delimiters)[closer..]
    {
      var d := closer - 1;
      while d > opener
        invariant opener <= d < closer
        invariant delimiters == old(delimiters)[..d + 1] + old(delimiters)[closer..]
        decreases d
      {
        RemoveDelimiter(d);
        assert (old(delimiters)[..d + 1] + old(delimiters)[closer..])[..d] == old(delimiters)[..d];
        assert (old(delimiters)[..d + 1] + old(delimiters)[closer..])[d + 1..] == old(delimiters)[closer..];
        d := d - 1;
      }
    }

    /**
     * The search of processDelimiters for an opener below `closer`: going down, stop at the
     * first candidate whose processor uses a positive number of characters, or at the floor
     * (the stack bottom or the recorded lower bound for the character). `potential` says
     * whether any candidate was met.
     */
    method FindOpener(bottom: nat, closer: nat, registered: Registered, bound: Option<nat>)
      returns (found: bool, opener: int, used: nat, potential: bool)
      requires bottom <= closer < |delimiters|
      requires registered.StaggeredGroup? ==> registered.processors != []
      ensures var floor := SearchFloor(delimiters, closer - 1, bottom, bound);
        var opening := registered.Opening();
        (found ==>
          floor < opener < closer && IsCandidate(delimiters[opener], opening) &&
          used == UsedBy(registered, env.process, delimiters[opener], delimiters[closer]) && used > 0 &&
          potential &&
          forall k :: opener < k < closer && IsCandidate(delimiters[k], opening) ==>
            UsedBy(registered, env.process, delimiters[k], delimiters[closer]) == 0) &&
        (!found ==>
          (forall k :: floor < k < closer && IsCandidate(delimiters[k], opening) ==>
            UsedBy(registered, env.process, delimiters[k], delimiters[closer]) == 0) &&
          (potential <==> exists k :: floor < k < closer && IsCandidate(delimiters[k], opening)))
    {
      var opening := registered.Opening();
      found, potential, used := false, false, 0;
      opener := closer - 1;
      while opener >= bottom && bound != Some(delimiters[opener].id)
        invariant -1 <= opener < closer
        invariant SearchFloor(delimiters, opener, bottom, bound) == SearchFloor(delimiters, closer - 1, bottom, bound)
        invariant forall k :: opener < k < closer && IsCandidate(delimiters[k], opening) ==>
          UsedBy(registered, env.process, delimiters[k], delimiters[closer]) == 0
        invariant potential <==> exists k :: opener < k < closer && IsCandidate(delimiters[k], opening)
        decreases opener + 1
      {
        if IsCandidate(delimiters[opener], opening) {
          potential := true;
          used := UsedBy(registered, env.process, delimiters[opener], delimiters[closer]);
          if used > 0 {
            found := true;
            return;
          }
        }
        opener := opener - 1;
      }
    }

    /**
     * A matched pair: the processor wraps the nodes between the opener's last and the
     * closer's first character node, then `used` characters leave the end of the opener's
     * list and the start of the closer's, their Text nodes unlinked.
     */
    method UseDelimiters(opener: nat, closer: nat, processor: nat, used: nat, nodes: seq<Inline>)
      returns (result: seq<Inline>)
      requires opener < closer < |delimiters|
      requires 0 < used <= |delimiters[opener].characters| && used <= |delimiters[closer].characters|
      modifies this`delimiters
      ensures var o := old(delimiters)[opener];
        var c := old(delimiters)[closer];
        delimiters == old(delimiters)[opener := o.(characters := o.characters[..|o.characters| - used])]
                                     [closer := c.(characters := c.characters[used..])] &&
        result == UnlinkEach(UnlinkEachBackward(Wrap(nodes, o, c, processor, used),
                                                o.characters[|o.characters| - used..]),
                             c.characters[..used])
    {
      var o := delimiters[opener];
      var c := delimiters[closer];
      var wrapped := Wrap(nodes, o, c, processor, used);
      var middle := RemoveLastCharacters(opener, used, wrapped);
      assert middle == UnlinkEachBackward(wrapped, o.characters[|o.characters| - used..]);
      assert delimiters[closer] == c;
      result := RemoveFirstCharacters(closer, used, middle);
      assert result == UnlinkEach(middle, c.characters[..used]);
    }

    /** The opener's loop: its last `used` characters are removed, last first, and their
        Text nodes unlinked. */
    method RemoveLastCharacters(opener: nat, used: nat, nodes: seq<Inline>) returns (result: seq<Inline>)
      requires opener < |delimiters| && used <= |delimiters[opener].characters|
      modifies this`delimiters
      ensures var o := old(delimiters)[opener];
        delimiters == old(delimiters)[opener := o.(characters := o.characters[..|o.characters| - used])] &&
        result == UnlinkEachBackward(nodes, o.characters[|o.characters| - used..])
    {
      var all := delimiters[opener].characters;
      var n := |all|;
      var chars := all;
      result := nodes;
      for i := 0 to used
        invariant delimiters == old(delimiters)
        invariant chars == all[..n - i]
        invariant result == UnlinkEachBackward(nodes, all[n - i..])
      {
        result := Unlink(result, chars[|chars| - 1]);
        assert all[n - (i + 1)..][1..] == all[n - i..];
        chars := chars[..|chars| - 1];
      }
      delimiters := delimiters[opener := delimiters[opener].(characters := chars)];
    }

    /** The closer's loop: its first `used` characters are removed, first first, and their
        Text nodes unlinked. */
    method RemoveFirstCharacters(closer: nat, used: nat, nodes: seq<Inline>) returns (result: seq<Inline>)
      requires closer < |delimiters| && used <= |delimiters[closer].characters|
      modifies this`delimiters
      ensures var c := old(delimiters)[closer];
        delimiters == old(delimiters)[closer := c.(characters := c.characters[used..])] &&
        result == UnlinkEach(nodes, c.characters[..used])
    {
      var all := delimiters[closer].characters;
      var chars := all;
      result := nodes;
      for i := 0 to used
        invariant delimiters == old(delimiters)
        invariant chars == all[i..]
        invariant result == UnlinkEach(nodes, all[..i])
      {
        result := Unlink(result, chars[0]);
        assert all[..i + 1][..i] == all[..i];
        chars := chars[1..];
      }
      delimiters := delimiters[closer := delimiters[closer].(characters := chars)];
    }

    /**
     * The first loop of processDelimiters: walk down from the top to the entry just above the
     * stack bottom. That is the entry at index `bottom`, or none (index |delimiters|) when the
     * bottom is the top.
     */
    method FirstAbove(bottom: nat) returns (closer: nat)
      requires bottom <= |delimiters|
      ensures closer == bottom
    {
      var k: int := |delimiters| - 1;
      while k >= 0 && k != bottom
        invariant -1 <= k < |delimiters|
        invariant bottom < |delimiters| ==> bottom <= k
        decreases k + 1
      {
        k := k - 1;
      }
      closer := if k == -1 then |delimiters| else k;
    }

    /**
     * The rest of processDelimiters for a matched pair: use the characters, drop the entries
     * between opener and closer, drop the opener and the closer once they have no characters
     * left, and continue with the entry after the closer's characters.
     */
    method ResolvePair(bottom: nat, opener: nat, closer: nat, processor: nat, used: nat, nodes: seq<Inline>,
                       ghost ids: set<nat>)
      returns (result: seq<Inline>, next: nat)
      requires bottom <= opener < closer < |delimiters|
      requires 0 < used <= |delimiters[opener].characters| && used <= |delimiters[closer].characters|
      requires IdsWithin(delimiters, bottom, ids)
      modifies this`delimiters
      ensures bottom <= next <= |delimiters| && delimiters[..bottom] == old(delimiters)[..bottom]
      ensures |delimiters| - next < |old(delimiters)| - closer ||
        (|delimiters| - next == |old(delimiters)| - closer && next < |delimiters| &&
         |delimiters[next].characters| < |old(delimiters)[closer].characters|)
      ensures IdsWithin(delimiters, bottom, ids) && OnlyRemoves(Leaves(nodes), Leaves(result), ids)
      ensures var o := old(delimiters)[opener];
        var c := old(delimiters)[closer];
        var o' := o.(characters := o.characters[..|o.characters| - used]);
        var c' := c.(characters := c.characters[used..]);
        delimiters == old(delimiters)[..opener] + Kept(o') + Kept(c') + old(delimiters)[closer + 1..] &&
        next == opener + |Kept(o')|
    {
      IdsWithinUse(delimiters, opener, closer, used, bottom, ids);
      result := UsePair(opener, closer, processor, used, nodes, ids);
      ghost var used1 := delimiters;
      IdsWithinCutPair(delimiters, opener, closer, bottom, ids);
      next := CutPair(opener, closer);
      assert used1[..opener] == old(delimiters)[..opener] && used1[closer + 1..] == old(delimiters)[closer + 1..];
      ghost var c' := used1[closer];
      assert |delimiters| - next == |Kept(c')| + |old(delimiters)| - closer - 1;
    }

    /** Using a matched pair's characters removes only Text nodes of the two runs. */
    method UsePair(opener: nat, closer: nat, processor: nat, used: nat, nodes: seq<Inline>, ghost ids: set<nat>)
      returns (result: seq<Inline>)
      requires opener < closer < |delimiters|
      requires 0 < used <= |delimiters[opener].characters| && used <= |delimiters[closer].characters|
      requires EntryIn(delimiters[opener], ids) && EntryIn(delimiters[closer], ids)
      modifies this`delimiters
      ensures var o := old(delimiters)[opener];
        var c := old(delimiters)[closer];
        delimiters == old(delimiters)[opener := o.(characters := o.characters[..|o.characters| - used])]
                                     [closer := c.(characters := c.characters[used..])]
      ensures OnlyRemoves(Leaves(nodes), Leaves(result), ids)
    {
      UseLeaves(nodes, delimiters[opener], delimiters[closer], processor, used, ids);
      result := UseDelimiters(opener, closer, processor, used, nodes);
    }

    /**
     * The stack part of processDelimiters after a matched pair: the entries between the
     * opener and the closer go, and so do the opener and the closer when they have no
     * characters left; the next closer is the entry after the opener's place.
     */
    method CutPair(opener: nat, closer: nat) returns (next: nat)
      requires opener < closer < |delimiters|
      modifies this`delimiters
      ensures delimiters == old(delimiters)[..opener] + Kept(old(delimiters)[opener]) +
                            Kept(old(delimiters)[closer]) + old(delimiters)[closer + 1..]
      ensures next == opener + |Kept(old(delimiters)[opener])|
    {
      var o := old(delimiters)[opener];
      var c := old(delimiters)[closer];
      ghost var below := old(delimiters)[..opener];
      ghost var above := old(delimiters)[closer + 1..];
      RemoveDelimitersBetween(opener, closer);
      assert delimiters == below + [o] + [c] + above;
      next := opener + 1;
      if |delimiters[opener].characters| == 0 {
        RemoveDelimiter(opener);
        assert delimiters == below + [c] + above;
        next := opener;
      }
      assert delimiters == below + Kept(o) + [c] + above;
      if |delimiters[next].characters| == 0 {
        RemoveDelimiter(next);
      }
    }

    /**
     * processDelimiters(stackBottom), with the stack bottom given as the number of entries
     * below it. Each closer above the bottom is matched with the nearest opener the processor
     * accepts; unmatched runs stay as text. Afterwards no entry is left above the bottom and
     * the entries below it are untouched.
     */
    method ProcessDelimiters(bottom: nat, nodes: seq<Inline>) returns (result: seq<Inline>)
      requires Valid() && bottom <= |delimiters|
      modifies this`delimiters
      ensures delimiters == old(delimiters)[..bottom]
      ensures OnlyRemoves(Leaves(nodes), Leaves(result), StackIds(old(delimiters), bottom))
    {
      ghost var ids := StackIds(delimiters, bottom);
      result := nodes;
      OnlyRemovesRefl(Leaves(nodes), ids);
      var openersBottom: map<char, nat> := map[];
      // find first closer above the bottom
      var closer := FirstAbove(bottom);
      while closer < |delimiters|
        invariant Valid() && bottom <= closer <= |delimiters|
        invariant delimiters[..bottom] == old(delimiters)[..bottom]
        invariant IdsWithin(delimiters, bottom, ids) && OnlyRemoves(Leaves(nodes), Leaves(result), ids)
        decreases |delimiters| - closer, if closer < |delimiters| then |delimiters[closer].characters| else 0
      {
        var d := delimiters[closer];
        var c := d.delimiterChar;
        if !d.canClose || c !in processors {
          closer := closer + 1;
          continue;
        }
        var registered := processors[c];
        assert WellFormedEntry(c, registered);
        var bound := if c in openersBottom then Some(openersBottom[c]) else None;
        var found, opener, used, potential := FindOpener(bottom, closer, registered, bound);
        if !found {
          if !potential {
            openersBottom := if closer > 0 then openersBottom[c := delimiters[closer - 1].id] else openersBottom - {c};
            if !d.canOpen {
              ghost var before := delimiters;
              RemoveDelimiter(closer);
              RemoveKeepsPrefix(before, closer, bottom);
              IdsWithinRemove(before, closer, bottom, ids);
              continue;
            }
          }
          closer := closer + 1;
          continue;
        }
        ghost var before := result;
        result, closer := ResolvePair(bottom, opener, closer,
                                      ChosenProcessor(registered, |delimiters[opener].characters|).id, used, result, ids);
        OnlyRemovesTrans(Leaves(nodes), Leaves(before), Leaves(result), ids, ids);
      }
      // remove all delimiters above the bottom
      while |delimiters| > bottom
        invariant bottom <= |delimiters|
        invariant delimiters[..bottom] == old(delimiters)[..bottom]
        decreases |delimiters|
      {
        RemoveKeepsPrefix(delimiters, |delimiters| - 1, bottom);
        RemoveDelimiter(|delimiters| - 1);
      }
    }
  }
}
