/**
 * The link syntax of InlineParserImpl: a link label `[...]`, and the inline form
 * `(destination "title")` after a closing bracket. Where each construct ends is found by
 * commonmark-java's LinkScanner (a collaborator); these functions and methods add the
 * parser's own checks, strip the enclosing characters and unescape the result.
 */
module Links {
  import opened Wrappers
  import opened Scanning
  import opened Externals

  /**
   * parseLinkLabel at position `p`: None when no '[' is there, when the label content does
   * not scan, when no ']' follows it, or when it is longer than 999 characters; otherwise
   * the text between the brackets.
   */
  function LinkLabelAt(s: seq<char>, p: nat, scan: (seq<char>, nat) -> Option<nat>): (r: Option<string>)
    requires p <= |s|
    ensures r.Some? <==>
      p < |s| && s[p] == '[' && scan(s, p + 1).Some? &&
      p + 1 <= scan(s, p + 1).value < |s| && s[scan(s, p + 1).value] == ']' &&
      scan(s, p + 1).value - (p + 1) <= 999
    ensures r.Some? ==> r.value == s[p + 1..scan(s, p + 1).value] && |r.value| <= 999
  {
    if p < |s| && s[p] == '[' then
      match scan(s, p + 1)
      case Some(e) =>
        if p + 1 <= e < |s| && s[e] == ']' && e - (p + 1) <= 999 then Some(s[p + 1..e]) else None
      case None => None
    else None
  }

  /** A destination scanned between `<` and `>` loses them (parseLinkDestination). */
  function ChopAngles(raw: string, angled: bool): string
    requires angled ==> |raw| >= 2
  {
    if angled then raw[1..|raw| - 1] else raw
  }

  /** A link destination at p (parseLinkDestination): the unescaped destination, without its
      angle brackets, and where it ends. */
  function DestinationAt(s: seq<char>, p: nat, c: Collaborators): (r: Option<(string, nat)>)
    requires p <= |s| && WellBehaved(c)
    ensures r.Some? ==> p <= r.value.1 <= |s|
    ensures r.None? <==> c.scanLinkDestination(s, p).None?
  {
    match c.scanLinkDestination(s, p)
    case None => None
    case Some(e) => Some((c.unescape(ChopAngles(s[p..e], p < |s| && s[p] == '<')), e))
  }

  /** A link title at p (parseLinkTitle): the unescaped title without its enclosing
      characters, and where it ends. */
  function TitleAt(s: seq<char>, p: nat, c: Collaborators): (r: Option<(string, nat)>)
    requires p <= |s| && WellBehaved(c)
    ensures r.Some? ==> p + 2 <= r.value.1 <= |s|
    ensures r.None? <==> c.scanLinkTitle(s, p).None?
  {
    match c.scanLinkTitle(s, p)
    case None => None
    case Some(e) => Some((c.unescape(s[p + 1..e - 1]), e))
  }

  /**
   * What may follow a link destination that ends at e: after at least one whitespace
   * character an optional title, then optional whitespace, and ')'. The result is the title,
   * if one was found, and the position after ')'.
   */
  function LinkTailAt(s: seq<char>, e: nat, c: Collaborators): (r: Option<(Option<string>, nat)>)
    requires e <= |s| && WellBehaved(c)
    ensures r.Some? ==> e < r.value.1 <= |s| && s[r.value.1 - 1] == ')'
  {
    var w := WhitespaceLength(s, e);
    var titled := if w >= 1 then TitleAt(s, e + w, c) else None;
    var t := if titled.Some? then titled.value.1 + WhitespaceLength(s, titled.value.1) else e + w;
    if t < |s| && s[t] == ')' then Some((if titled.Some? then Some(titled.value.0) else None, t + 1))
    else None
  }

  /** What follows `(` and its whitespace at q: a destination and what LinkTailAt accepts
      after it. The result is the destination, the title and the position after ')'. */
  function LinkBodyAt(s: seq<char>, q: nat, c: Collaborators): (r: Option<(string, Option<string>, nat)>)
    requires q <= |s| && WellBehaved(c)
    ensures r.Some? ==> q < r.value.2 <= |s| && s[r.value.2 - 1] == ')'
  {
    match DestinationAt(s, q, c)
    case None => None
    case Some((dest, e)) =>
      match LinkTailAt(s, e, c)
      case None => None
      case Some((title, end)) => Some((dest, title, end))
  }

  /**
   * The inline form `(dest "title")` at p: '(' and optional whitespace, then LinkBodyAt.
   * The result is the destination, the title and the position after ')'.
   */
  function InlineLinkAt(s: seq<char>, p: nat, c: Collaborators): (r: Option<(string, Option<string>, nat)>)
    requires p <= |s| && WellBehaved(c)
    ensures r.Some? ==> p < r.value.2 <= |s| && s[p] == '(' && s[r.value.2 - 1] == ')'
  {
    if p < |s| && s[p] == '(' then LinkBodyAt(s, p + 1 + WhitespaceLength(s, p + 1), c) else None
  }

  /**
   * The reference forms `[foo][bar]`, `[foo][]` and `[foo]` after a `]` at afterClose - 1,
   * where the first label is s[start..beforeClose]. The key looked up is the second label,
   * or the first one when the second is missing or empty and no bracket was opened inside
   * the first. The result is the definition found and where the scanner ends: after the
   * second label when there is one, otherwise at afterClose.
   */
  function ReferenceAt(s: seq<char>, start: nat, beforeClose: nat, afterClose: nat, bracketAfter: bool,
                       c: Collaborators): (r: (Option<Definition>, nat))
    requires start <= beforeClose < afterClose <= |s| && WellBehaved(c)
    ensures var second := LinkLabelAt(s, afterClose, c.scanLinkLabelContent);
      (second.Some? ==> r.1 == afterClose + |second.value| + 2 <= |s| && s[afterClose] == '[' && s[r.1 - 1] == ']') &&
      (second.None? ==> r.1 == afterClose) &&
      (second.Some? && (second.value != [] || bracketAfter) ==> r.0 == c.lookupReference(second.value)) &&
      ((second.None? || second.value == []) && !bracketAfter ==> r.0 == c.lookupReference(s[start..beforeClose])) &&
      (second.None? && bracketAfter ==> r.0.None?)
  {
    var second := LinkLabelAt(s, afterClose, c.scanLinkLabelContent);
    var key := if (second.None? || second.value == []) && !bracketAfter then Some(s[start..beforeClose]) else second;
    (if key.Some? then c.lookupReference(key.value) else None,
     if second.Some? then afterClose + |second.value| + 2 else afterClose)
  }

  /**
   * What parseCloseBracket finds after a `]` whose opener allows a link: the destination,
   * title and end position of the inline form when one follows, otherwise those of the
   * reference definition found, otherwise nothing.
   */
  function LinkTargetAt(s: seq<char>, start: nat, beforeClose: nat, afterClose: nat, bracketAfter: bool,
                        c: Collaborators): (r: Option<(string, Option<string>, nat)>)
    requires start <= beforeClose < afterClose <= |s| && WellBehaved(c)
    ensures r.Some? ==> afterClose <= r.value.2 <= |s|
    ensures InlineLinkAt(s, afterClose, c).Some? ==> r == InlineLinkAt(s, afterClose, c)
    ensures InlineLinkAt(s, afterClose, c).None? ==>
      var ref := ReferenceAt(s, start, beforeClose, afterClose, bracketAfter, c);
      (r.Some? <==> ref.0.Some?) &&
      (r.Some? ==> r.value == (ref.0.value.destination, ref.0.value.title, ref.1))
  {
    var inline := InlineLinkAt(s, afterClose, c);
    if inline.Some? then inline
    else
      var ref := ReferenceAt(s, start, beforeClose, afterClose, bracketAfter, c);
      if ref.0.Some? then Some((ref.0.value.destination, ref.0.value.title, ref.1)) else None
  }
}
