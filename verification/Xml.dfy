/** The external representation of x-expressions: the printer, the parser callbacks, and
    as much of the markup tokenizer as the printer's output needs. */
module Xml {
  import opened Characters
  import opened Collections
  import opened Wrappers
  import opened Xexps

  // ---- Characters

  predicate AllWhite(s: string) {
    forall c :: c in s ==> IsSpace(c)
  }

  /** The letters outside ASCII, whichever they are. */
  const LETTERS: set<char>

  predicate NameStart(c: char) {
    || ('a' <= c <= 'z') || ('A' <= c <= 'Z') || c == '_' || c == ':'
    || (c as int >= 0xA0 && c in LETTERS)
  }

  predicate NameChar(c: char) {
    NameStart(c) || ('0' <= c <= '9') || c == '.' || c == '-'
  }

  predicate ValidName(s: string) {
    s != "" && NameStart(s[0]) && forall c :: c in s ==> NameChar(c)
  }

  /** Control characters, which are written as character references. */
  predicate Control(c: char) {
    var n := c as int;
    (0x1 <= n <= 0x8) || (0xB <= n <= 0xC) || (0xE <= n <= 0x1F) || (0x7F <= n <= 0x84) || (0x86 <= n <= 0x9F)
  }

  function HexDigit(n: nat): char
    requires n < 16
  {
    if n < 10 then ('0' as int + n) as char else ('a' as int + n - 10) as char
  }

  function HexValue(c: char): Option<nat> {
    if '0' <= c <= '9' then Some(c as int - '0' as int)
    else if 'a' <= c <= 'f' then Some(c as int - 'a' as int + 10)
    else None
  }

  function Hex(n: nat): string
    requires n < 256
  {
    if n < 16 then [HexDigit(n)] else [HexDigit(n / 16), HexDigit(n % 16)]
  }

  // ---- Printing

  function EscapeChar(c: char): string {
    if c == '&' then "&amp;"
    else if c == '<' then "&lt;"
    else if c == '>' then "&gt;"
    else if c == '\'' then "&apos;"
    else if c == '"' then "&quot;"
    else if Control(c) then "&#x" + Hex(c as int) + ";"
    else [c]
  }

  function Escape(s: string): string {
    if s == "" then "" else EscapeChar(s[0]) + Escape(s[1..])
  }

  const MAX_BLANKS := 16

  function Blanks(level: nat): string {
    seq(if level > MAX_BLANKS then MAX_BLANKS else level, _ => ' ')
  }

  function Write(x: Xexp, level: nat): string
    decreases x, 1
  {
    Blanks(level) + WriteBody(x, level) + "\n"
  }

  function WriteBody(x: Xexp, level: nat): string
    decreases x, 0
  {
    match x
    case Text(tag, text) => "<" + Escape(tag) + ">" + Escape(text) + "</" + Escape(tag) + ">"
    case List(tag, kids) =>
      if kids == [] then "<" + Escape(tag) + "/>"
      else "<" + Escape(tag) + ">" + "\n" + WriteAll(kids, level + 1) + Blanks(level) + "</" + Escape(tag) + ">"
  }

  function WriteAll(xs: seq<Xexp>, level: nat): string
    decreases xs, 0
  {
    if xs == [] then "" else Write(xs[0], level) + WriteAll(xs[1..], level)
  }

  // ---- The parser callbacks

  /** An element under construction, with its children in reverse. */
  datatype Frame = Frame(tag: string, text: string, kids: seq<Xexp>) {
    predicate IsText() {
      kids == []
    }

    predicate IsEmpty() {
      kids == [] && text == ""
    }
  }

  /** The stack has the innermost element first. */
  datatype Context = Context(stack: seq<Frame>, result: Option<Xexp>, failed: bool)

  function Fail(p: Context): Context {
    p.(failed := true)
  }

  function StartElement(p: Context, name: string): Context {
    var x := Frame(name, "", []);
    if p.stack == [] then p.(stack := [x])
    else
      var y := p.stack[0];
      if y.IsText() then
        if AllWhite(y.text) then p.(stack := [x, y.(text := "")] + p.stack[1..]) else Fail(p)
      else p.(stack := [x] + p.stack)
  }

  function Finished(x: Frame): Xexp {
    if x.text == "" then List(x.tag, Reversed(x.kids)) else Text(x.tag, x.text)
  }

  function EndElement(p: Context): Context
    requires p.stack != []
  {
    var x := Finished(p.stack[0]);
    if |p.stack| == 1 then p.(stack := [], result := Some(x))
    else
      var y := p.stack[1];
      p.(stack := [y.(kids := [x] + y.kids)] + p.stack[2..])
  }

  function TextRun(p: Context, text: string): Context {
    if p.stack == [] then p
    else
      var y := p.stack[0];
      if !y.IsEmpty() then if AllWhite(text) then p else Fail(p)
      else p.(stack := [y.(text := text)] + p.stack[1..])
  }

  // ---- The tokenizer, on what the printer writes

  /** A reference at the start of `s`, and its length. */
  function Reference(s: string): Option<(char, nat)> {
    if "&amp;" <= s then Some(('&', 5))
    else if "&lt;" <= s then Some(('<', 4))
    else if "&gt;" <= s then Some(('>', 4))
    else if "&apos;" <= s then Some(('\'', 6))
    else if "&quot;" <= s then Some(('"', 6))
    else if "&#x" <= s then HexReference(s)
    else None
  }

  function HexReference(s: string): Option<(char, nat)> {
    if |s| >= 5 && s[4] == ';' && HexValue(s[3]).Some? then Some((HexValue(s[3]).value as char, 5))
    else if |s| >= 6 && s[5] == ';' && HexValue(s[3]).Some? && HexValue(s[4]).Some? then
      Some(((16 * HexValue(s[3]).value + HexValue(s[4]).value) as char, 6))
    else None
  }

  /** References are replaced and line ends normalised (section 2.11 of XML 1.0). */
  function Unescape(s: string): Option<string>
    decreases |s|
  {
    if s == "" then Some("")
    else if s[0] == '&' then
      match Reference(s)
      case None => None
      case Some((c, n)) =>
        if 0 < n <= |s| then Prefix([c], Unescape(s[n..])) else None
    else if s[0] == '\r' then Prefix("\n", Unescape(if |s| > 1 && s[1] == '\n' then s[2..] else s[1..]))
    else Prefix([s[0]], Unescape(s[1..]))
  }

  function Prefix(s: string, r: Option<string>): Option<string> {
    match r case None => None case Some(t) => Some(s + t)
  }

  datatype Mode = InText(run: string) | InTag(name: string)

  datatype Parser = Parser(context: Context, mode: Mode)

  const Fresh := Parser(Context([], None, false), InText(""))

  /** One text run is one callback; an empty one is none. */
  function Flush(p: Context, run: string): Context {
    if run == "" then p
    else match Unescape(run) case None => Fail(p) case Some(t) => TextRun(p, t)
  }

  function CloseTag(p: Context, name: string): Context {
    if name == "" then Fail(p)
    else if name[0] == '/' then
      if p.stack == [] || p.stack[0].tag != name[1..] then Fail(p) else EndElement(p)
    else if name[|name| - 1] == '/' then
      if !ValidName(name[..|name| - 1]) then Fail(p)
      else
        var p1 := StartElement(p, name[..|name| - 1]);
        if p1.failed then p1 else EndElement(p1)
    else if ValidName(name) then StartElement(p, name)
    else Fail(p)
  }

  function Feed(p: Parser, c: char): Parser {
    if p.context.failed then p
    else
      match p.mode
      case InText(run) => if c == '<' then Parser(Flush(p.context, run), InTag("")) else p.(mode := InText(run + [c]))
      case InTag(name) => if c == '>' then Parser(CloseTag(p.context, name), InText("")) else p.(mode := InTag(name + [c]))
  }

  function FeedAll(p: Parser, s: string): Parser
    decreases |s|
  {
    if s == "" then p else FeedAll(Feed(p, s[0]), s[1..])
  }

  /** What reading a file yields. */
  function Parse(s: string): Option<Xexp> {
    var p := FeedAll(Fresh, s);
    if p.context.failed || p.context.stack != [] || p.mode.InTag? then None else p.context.result
  }
}
