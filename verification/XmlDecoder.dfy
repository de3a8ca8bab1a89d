/**
 The raw token stream of Go's encoding/xml decoder, which readFrom consumes (etree/etree.go:379-388),
 as a decoder of XML 1.0: names (section 2.3), character data (2.4), comments (2.5), processing
 instructions (2.6), CDATA sections (2.7), directives (2.8), end of lines (2.11), tags (3.1) and
 references (4.1, 4.6).
 */
module XmlDecoder {
  import opened Basics
  import opened Strings
  import opened XmlModel

  datatype XToken =
    | Start(space: string, tag: string, attr: seq<Attr>)
    | End(space: string, tag: string)
    | Data(value: LeafValue)

  datatype Scan<T> = Bad | Got(value: T, rest: string)

  // ----------------------------------------------------------------- characters

  predicate NameStart(c: char) {
    'a' <= c <= 'z' || 'A' <= c <= 'Z' || c == '_' || c == ':' || c >= '\U{80}'
  }

  predicate NameChar(c: char) {
    NameStart(c) || IsDigit(c) || c == '-' || c == '.'
  }

  /** Section 2.2, production Char. */
  predicate XmlChar(c: char) {
    c == '\t' || c == '\n' || c == '\r' || ('\U{20}' <= c <= '\U{FFFD}') || c >= '\U{10000}'
  }

  function SkipBlank(s: string): (r: string)
    ensures |r| <= |s| && (r != "" ==> !IsBlank(r[0]))
  {
    if s != "" && IsBlank(s[0]) then SkipBlank(s[1..]) else s
  }

  function NameLength(s: string): (n: nat)
    ensures n <= |s|
  {
    if s != "" && NameChar(s[0]) then 1 + NameLength(s[1..]) else 0
  }

  function ScanName(s: string): (r: Scan<string>)
    ensures r.Got? ==> |r.rest| < |s|
  {
    var n := NameLength(s);
    if n == 0 || !NameStart(s[0]) then Bad else Got(s[..n], s[n..])
  }

  /** A name with at most one colon; a colon at an end is part of the local name. */
  function ScanQName(s: string): (r: Scan<(string, string)>)
    ensures r.Got? ==> |r.rest| < |s|
  {
    match ScanName(s)
    case Bad => Bad
    case Got(name, rest) =>
      var i := Index(name, ":");
      if i == -1 then Got(("", name), rest)
      else if Index(name[i + 1..], ":") != -1 then Bad
      else if i == 0 || i == |name| - 1 then Got(("", name), rest)
      else Got((name[..i], name[i + 1..]), rest)
  }

  // ----------------------------------------------------------------------- text

  predicate IsHexDigit(c: char) {
    IsDigit(c) || 'a' <= c <= 'f' || 'A' <= c <= 'F'
  }

  function HexValue(c: char): (n: nat)
    requires IsHexDigit(c)
  {
    if IsDigit(c) then c as nat - '0' as nat
    else if c <= 'F' then c as nat - 'A' as nat + 10
    else c as nat - 'a' as nat + 10
  }

  /** The digits in front, as a number on top of n, and how many they are. */
  function Digits(s: string, hex: bool, n: nat): (r: (nat, nat))
    ensures r.1 <= |s|
  {
    if s != "" && (if hex then IsHexDigit(s[0]) else IsDigit(s[0])) then
      var (m, k) := Digits(s[1..], hex, n * (if hex then 16 else 10) + HexValue(s[0]));
      (m, k + 1)
    else (n, 0)
  }

  /** The character with a code number; the numbers of surrogates give the replacement character. */
  function CharOf(n: nat): (c: Option<char>) {
    if n > 0x10FFFF then None
    else if 0xD800 <= n < 0xE000 then Some('\U{FFFD}')
    else Some(n as char)
  }

  /** A numeric character reference: the character and the length of the reference. */
  function Numeric(s: string): (r: Option<(char, nat)>)
    ensures r.Some? ==> 0 < r.value.1 <= |s| && XmlChar(r.value.0)
  {
    var hex := "&#x" <= s;
    var start := if hex then 3 else 2;
    if !("&#" <= s) then None
    else
      var (n, k) := Digits(s[start..], hex, 0);
      if k == 0 || start + k == |s| || s[start + k] != ';' then None
      else
        var c := CharOf(n);
        if c.Some? && XmlChar(c.value) then Some((c.value, start + k + 1)) else None
  }

  /** A predefined entity or a numeric reference. */
  function Reference(s: string): (r: Option<(char, nat)>)
    ensures r.Some? ==> 0 < r.value.1 <= |s| && XmlChar(r.value.0)
  {
    if "&amp;" <= s then Some(('&', 5))
    else if "&lt;" <= s then Some(('<', 4))
    else if "&gt;" <= s then Some(('>', 4))
    else if "&apos;" <= s then Some(('\'', 6))
    else if "&quot;" <= s then Some(('"', 6))
    else Numeric(s)
  }

  function Prepend(c: char, r: Scan<string>): (r': Scan<string>) {
    if r.Got? then Got([c] + r.value, r.rest) else Bad
  }

  /** Character data up to '<', or up to the closing quote. */
  function ScanText(s: string, quote: Option<char>): (r: Scan<string>)
    ensures r.Got? ==> |r.rest| <= |s|
    ensures r.Got? && quote.None? && s != "" && s[0] != '<' ==> |r.rest| < |s| && r.value != ""
  {
    if s == "" then if quote.Some? then Bad else Got("", "")
    else if quote.None? && "]]>" <= s then Bad
    else if s[0] == '<' then if quote.Some? then Bad else Got("", s)
    else if quote == Some(s[0]) then Got("", s[1..])
    else if s[0] == '&' then
      match Reference(s)
      case None => Bad
      case Some((c, n)) => Prepend(c, ScanText(s[n..], quote))
    else if s[0] == '\r' then
      Prepend('\n', ScanText(if |s| > 1 && s[1] == '\n' then s[2..] else s[1..], quote))
    else if !XmlChar(s[0]) then Bad
    else Prepend(s[0], ScanText(s[1..], quote))
  }

  /** Behind `<![CDATA[`: everything up to `]]>` is text. */
  function ScanCData(s: string): (r: Scan<string>)
    ensures r.Got? ==> |r.rest| < |s|
  {
    if s == "" then Bad
    else if "]]>" <= s then Got("", s[3..])
    else if s[0] == '\r' then Prepend('\n', ScanCData(if |s| > 1 && s[1] == '\n' then s[2..] else s[1..]))
    else if !XmlChar(s[0]) then Bad
    else Prepend(s[0], ScanCData(s[1..]))
  }

  function TextToken(d: string): (t: XToken) {
    Data(CharData(d, IsWhitespace(d)))
  }

  // ----------------------------------------------------------------------- tags

  /** One attribute: name, equation sign, quoted value. */
  function ScanAttr(s: string): (r: Scan<Attr>)
    ensures r.Got? ==> |r.rest| < |s|
  {
    match ScanQName(s)
    case Bad => Bad
    case Got((space, key), rest) =>
      var s1 := SkipBlank(rest);
      if s1 == "" || s1[0] != '=' then Bad
      else
        var s2 := SkipBlank(s1[1..]);
        if s2 == "" || (s2[0] != '"' && s2[0] != '\'') then Bad
        else
          match ScanText(s2[1..], Some(s2[0]))
          case Bad => Bad
          case Got(value, rest2) => Got(Attr(space, key, value), rest2)
  }

  /** The attributes and the end of a start tag; the flag says that the tag closes itself. */
  function ScanAttrs(s: string): (r: Scan<(seq<Attr>, bool)>)
    ensures r.Got? ==> |r.rest| < |s|
    decreases |s|
  {
    var s1 := SkipBlank(s);
    if s1 == "" then Bad
    else if s1[0] == '/' then if "/>" <= s1 then Got(([], true), s1[2..]) else Bad
    else if s1[0] == '>' then Got(([], false), s1[1..])
    else
      match ScanAttr(s1)
      case Bad => Bad
      case Got(a, rest) =>
        match ScanAttrs(rest)
        case Bad => Bad
        case Got((attr, closes), rest2) => Got(([a] + attr, closes), rest2)
  }

  /** Behind `</`. */
  function ScanEndTag(s: string): (r: Scan<seq<XToken>>)
    ensures r.Got? ==> |r.rest| < |s|
  {
    match ScanQName(s)
    case Bad => Bad
    case Got((space, tag), rest) =>
      var s1 := SkipBlank(rest);
      if s1 == "" || s1[0] != '>' then Bad else Got([End(space, tag)], s1[1..])
  }

  /** Behind `<?`. */
  function ScanInst(s: string): (r: Scan<seq<XToken>>)
    ensures r.Got? ==> |r.rest| < |s|
  {
    match ScanName(s)
    case Bad => Bad
    case Got(target, rest) =>
      var s1 := SkipBlank(rest);
      var i := Index(s1, "?>");
      if i < 0 || (target == "xml" && !DeclarationFits(s1[..i])) then Bad
      else Got([Data(ProcInst(target, s1[..i]))], s1[i + 2..])
  }

  /** The quoted value behind the first occurrence of param that a quote follows, or nothing. */
  function PseudoAttr(s: string, param: string): (v: string)
    requires param != ""
  {
    var k := Index(s, param);
    if k < 0 || k + |param| == |s| then ""
    else
      var c, rest := s[k + |param|], s[k + |param| + 1..];
      if c == '"' || c == '\'' then
        var j := Index(rest, [c]);
        if j < 0 then "" else rest[..j]
      else PseudoAttr(rest, param)
  }

  function Lower(s: string): (r: string) {
    if s == "" then ""
    else [if 'A' <= s[0] <= 'Z' then (s[0] as nat + 32) as char else s[0]] + Lower(s[1..])
  }

  /** An XML declaration may name no other version than 1.0 and no other encoding than UTF-8. */
  predicate DeclarationFits(inst: string) {
    PseudoAttr(inst, "version=") in {"", "1.0"} && Lower(PseudoAttr(inst, "encoding=")) in {"", "utf-8"}
  }

  /** Behind `<!--`: two hyphens may only be part of the end. */
  function ScanComment(s: string): (r: Scan<seq<XToken>>)
    ensures r.Got? ==> |r.rest| < |s|
  {
    var i := Index(s, "--");
    if i < 0 || i + 2 >= |s| || s[i + 2] != '>' then Bad else Got([Data(Comment(s[..i]))], s[i + 3..])
  }

  /**
   The rest of a directive: quoted brackets do not count, other brackets nest, and a comment becomes
   a blank.
   */
  function DirectiveText(s: string, quote: Option<char>, depth: nat): (r: Scan<string>)
    ensures r.Got? ==> |r.rest| < |s|
    decreases |s|
  {
    if s == "" then Bad
    else if quote.Some? then Prepend(s[0], DirectiveText(s[1..], if quote.value == s[0] then None else quote, depth))
    else if s[0] == '>' then
      if depth == 0 then Got("", s[1..]) else Prepend('>', DirectiveText(s[1..], None, depth - 1))
    else if s[0] == '"' || s[0] == '\'' then Prepend(s[0], DirectiveText(s[1..], Some(s[0]), depth))
    else if "<!--" <= s then
      var i := Index(s[4..], "-->");
      if i < 0 then Bad else Prepend(' ', DirectiveText(s[i + 7..], None, depth))
    else Prepend(s[0], DirectiveText(s[1..], None, if s[0] == '<' then depth + 1 else depth))
  }

  /** Behind `<!`: a comment, a CDATA section, or a directive, whose first character is taken as it is. */
  function ScanDeclared(s: string): (r: Scan<seq<XToken>>)
    ensures r.Got? ==> |r.rest| < |s|
  {
    if s == "" then Bad
    else if s[0] == '-' then if "--" <= s then ScanComment(s[2..]) else Bad
    else if s[0] == '[' then
      if !("[CDATA[" <= s) then Bad
      else
        match ScanCData(s[7..])
        case Bad => Bad
        case Got(data, rest) => Got([TextToken(data)], rest)
    else
      match DirectiveText(s[1..], None, 0)
      case Bad => Bad
      case Got(body, rest) => Got([Data(Directive([s[0]] + body))], rest)
  }

  /** Behind `<`: a self-closing tag gives two tokens. */
  function ScanStartTag(s: string): (r: Scan<seq<XToken>>)
    ensures r.Got? ==> |r.rest| < |s|
  {
    match ScanQName(s)
    case Bad => Bad
    case Got((space, tag), rest) =>
      match ScanAttrs(rest)
      case Bad => Bad
      case Got((attr, closes), rest2) =>
        Got([Start(space, tag, attr)] + (if closes then [End(space, tag)] else []), rest2)
  }

  /** One item of the input. */
  function ScanItem(s: string): (r: Scan<seq<XToken>>)
    requires s != ""
    ensures r.Got? ==> |r.rest| < |s|
  {
    if s[0] != '<' then
      match ScanText(s, None)
      case Bad => Bad
      case Got(data, rest) => Got([TextToken(data)], rest)
    else if |s| < 2 then Bad
    else if s[1] == '/' then ScanEndTag(s[2..])
    else if s[1] == '?' then ScanInst(s[2..])
    else if s[1] == '!' then ScanDeclared(s[2..])
    else ScanStartTag(s[1..])
  }

  /** The tokens up to the end of the input or the first error. */
  datatype Tokens = Tokens(list: seq<XToken>, ok: bool)

  function Lex(s: string): (r: Tokens)
    decreases |s|
  {
    if s == "" then Tokens([], true)
    else
      match ScanItem(s)
      case Bad => Tokens([], false)
      case Got(ts, rest) => var more := Lex(rest); Tokens(ts + more.list, more.ok)
  }
}
