/**
 * What the inline parser calls but does not define. Each collaborator is a function of the
 * input text and a position; the parser only relies on the guarantees in WellBehaved.
 */
module Externals {
  import opened Wrappers
  import opened Nodes
  import opened Processors

  /** A link reference definition: destination and optional title. */
  datatype Definition = Definition(destination: string, title: Option<string>)

  datatype Collaborators = Collaborators(
    /** Parsing.isPunctuationCodePoint and Parsing.isWhitespaceCodePoint. */
    isPunctuation: char -> bool,
    isWhitespace: char -> bool,
    /** LinkScanner.scanLinkDestination / scanLinkTitle / scanLinkLabelContent from a position:
        where the scanned construct ends, or None when it does not match. */
    scanLinkDestination: (seq<char>, nat) -> Option<nat>,
    scanLinkTitle: (seq<char>, nat) -> Option<nat>,
    scanLinkLabelContent: (seq<char>, nat) -> Option<nat>,
    /** Escaping.unescapeString. */
    unescape: string -> string,
    /** InlineParserContext.getLinkReferenceDefinition. */
    lookupReference: string -> Option<Definition>,
    /** The inline content parsers for '\\', '`', '&' and '<' (backslash escapes, code spans,
        entities, autolinks and raw HTML), tried at a position holding their character: the
        node and the position after it, or None when none of them matches. */
    parseContent: (seq<char>, nat) -> Option<(Inline, nat)>,
    /** DelimiterProcessor.process of the processor with the given identity. */
    process: ProcessFn
  )

  /** The characters that have an inline content parser: the four above and '$'. */
  const InlineParserCharacters: set<char> := {'\\', '`', '&', '<', '$'}

  /**
   * The guarantees the parser relies on: a scan ends inside the text and not before where it
   * started; a destination starting with '<' and any title are at least their two enclosing
   * characters long; a content parser that matches consumes at least one character; a
   * processor never uses more characters than either run has.
   */
  ghost predicate WellBehaved(c: Collaborators)
  {
    (forall s: seq<char>, p: nat {:trigger c.scanLinkDestination(s, p)} :: c.scanLinkDestination(s, p).Some? ==>
       p <= c.scanLinkDestination(s, p).value <= |s| &&
       (p < |s| && s[p] == '<' ==> p + 2 <= c.scanLinkDestination(s, p).value)) &&
    (forall s: seq<char>, p: nat {:trigger c.scanLinkTitle(s, p)} :: c.scanLinkTitle(s, p).Some? ==>
       p + 2 <= c.scanLinkTitle(s, p).value <= |s|) &&
    (forall s: seq<char>, p: nat {:trigger c.scanLinkLabelContent(s, p)} :: c.scanLinkLabelContent(s, p).Some? ==>
       p <= c.scanLinkLabelContent(s, p).value <= |s|) &&
    (forall s: seq<char>, p: nat {:trigger c.parseContent(s, p)} :: c.parseContent(s, p).Some? ==>
       p < c.parseContent(s, p).value.1 <= |s|) &&
    ProcessBounded(c.process)
  }
}
