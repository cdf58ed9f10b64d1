/**
 * The parser's link-syntax methods: parseLinkDestination, parseLinkTitle, parseLinkLabel and
 * the inline form after a closing bracket, each proved against its function in Links.
 */
module LinkParsing {
  import opened Wrappers
  import opened Scanning
  import opened Externals
  import opened Links

  /** parseLinkDestination: the unescaped destination, without its angle brackets. */
  method ParseLinkDestination(scanner: Scanner, env: Collaborators) returns (dest: Option<string>)
    requires scanner.Valid() && WellBehaved(env)
    modifies scanner`pos
    ensures scanner.Valid()
    ensures var r := DestinationAt(scanner.text, old(scanner.pos), env);
      (r.None? ==> dest.None? && scanner.pos == old(scanner.pos)) &&
      (r.Some? ==> dest == Some(r.value.0) && scanner.pos == r.value.1)
  {
    var angled := scanner.Peek() == Char('<');
    var start := scanner.pos;
    match env.scanLinkDestination(scanner.text, start)
    case None =>
      return None;
    case Some(e) =>
      scanner.SetPosition(e);
      var raw := scanner.Source(start, scanner.pos);
      return Some(env.unescape(ChopAngles(raw, angled)));
  }

  /** parseLinkTitle: the unescaped title, without its enclosing quotes or parentheses. */
  method ParseLinkTitle(scanner: Scanner, env: Collaborators) returns (title: Option<string>)
    requires scanner.Valid() && WellBehaved(env)
    modifies scanner`pos
    ensures scanner.Valid()
    ensures var r := TitleAt(scanner.text, old(scanner.pos), env);
      (r.None? ==> title.None? && scanner.pos == old(scanner.pos)) &&
      (r.Some? ==> title == Some(r.value.0) && scanner.pos == r.value.1)
  {
    var start := scanner.pos;
    match env.scanLinkTitle(scanner.text, start)
    case None =>
      return None;
    case Some(e) =>
      scanner.SetPosition(e);
      // the scanned title without its first and last character
      return Some(env.unescape(scanner.Source(start + 1, e - 1)));
  }

  /** parseLinkLabel: the label at the current position (LinkLabelAt); on success the
      position is just after its ']'. */
  method ParseLinkLabel(scanner: Scanner, env: Collaborators) returns (content: Option<string>)
    requires scanner.Valid() && WellBehaved(env)
    modifies scanner`pos
    ensures scanner.Valid()
    ensures content == LinkLabelAt(scanner.text, old(scanner.pos), env.scanLinkLabelContent)
    ensures content.Some? ==> scanner.pos == env.scanLinkLabelContent(scanner.text, old(scanner.pos) + 1).value + 1
  {
    var opens := scanner.NextIf('[');
    if !opens {
      return None;
    }
    var start := scanner.pos;
    match env.scanLinkLabelContent(scanner.text, start)
    case None =>
      return None;
    case Some(end) =>
      scanner.SetPosition(end);
      var closes := scanner.NextIf(']');
      if !closes {
        return None;
      }
      var text := scanner.Source(start, end);
      if |text| > 999 {
        return None;
      }
      return Some(text);
  }

  /** The part of the inline form after the destination (LinkTailAt); `closes` tells whether
      it matched. */
  method ParseLinkTail(scanner: Scanner, env: Collaborators) returns (closes: bool, title: Option<string>)
    requires scanner.Valid() && WellBehaved(env)
    modifies scanner`pos
    ensures scanner.Valid()
    ensures var r := LinkTailAt(scanner.text, old(scanner.pos), env);
      (closes <==> r.Some?) &&
      (r.Some? ==> title == r.value.0 && scanner.pos == r.value.1)
  {
    ghost var e := scanner.pos;
    WhitespaceLengthRun(scanner.text, e);
    title := None;
    var whitespace := scanner.Whitespace();
    if whitespace >= 1 {
      title := ParseLinkTitle(scanner, env);
      var _ := scanner.Whitespace();
    }
    closes := scanner.NextIf(')');
  }

  /** The inline form after the `(` at `afterClose` and the whitespace after it (InlineLinkAt).
      Without a complete form there is neither destination nor title, and the position is
      left to the caller. */
  method ParseLinkBody(scanner: Scanner, env: Collaborators, ghost afterClose: nat) returns (dest: Option<string>, title: Option<string>)
    requires scanner.Valid() && WellBehaved(env)
    requires afterClose < |scanner.text| && scanner.text[afterClose] == '('
    requires scanner.pos == afterClose + 1 + WhitespaceLength(scanner.text, afterClose + 1)
    modifies scanner`pos
    ensures scanner.Valid()
    ensures var r := InlineLinkAt(scanner.text, afterClose, env);
      (r.None? ==> dest.None? && title.None?) &&
      (r.Some? ==> dest == Some(r.value.0) && title == r.value.1 && scanner.pos == r.value.2)
  {
    title := None;
    dest := ParseLinkDestination(scanner, env);
    if dest.None? {
      return;
    }
    var closes;
    closes, title := ParseLinkTail(scanner, env);
    if !closes {
      dest := None;
      title := None;
    }
  }

  /**
   * The inline form `(dest "title")` after a `]` at `afterClose - 1` (InlineLinkAt). Without
   * a complete form, nothing is consumed and there is neither destination nor title.
   */
  method ParseInlineLink(scanner: Scanner, env: Collaborators, afterClose: nat) returns (dest: Option<string>, title: Option<string>)
    requires scanner.Valid() && WellBehaved(env) && scanner.pos == afterClose
    modifies scanner`pos
    ensures scanner.Valid()
    ensures var r := InlineLinkAt(scanner.text, afterClose, env);
      (r.None? ==> dest.None? && title.None? && scanner.pos == afterClose) &&
      (r.Some? ==> dest == Some(r.value.0) && title == r.value.1 && scanner.pos == r.value.2)
  {
    var opens := scanner.NextIf('(');
    if !opens {
      return None, None;
    }
    var _ := scanner.Whitespace();
    dest, title := ParseLinkBody(scanner, env, afterClose);
    if dest.None? {
      scanner.SetPosition(afterClose);
    }
  }
}
