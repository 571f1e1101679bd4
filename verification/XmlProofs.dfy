/** Reading what was printed gives back the same x-expression, up to line ends. */
module XmlProofs {
  import opened Collections
  import opened Wrappers
  import opened Xexps
  import opened Xml

  // ---- Escaping

  /** What XML makes of a text: carriage returns become line ends. */
  function Normalize(s: string): string
    decreases |s|
  {
    if s == "" then ""
    else if s[0] == '\r' then "\n" + Normalize(if |s| > 1 && s[1] == '\n' then s[2..] else s[1..])
    else [s[0]] + Normalize(s[1..])
  }

  lemma HexRoundTrip(n: nat)
    requires n < 16
    ensures HexValue(HexDigit(n)) == Some(n) && HexDigit(n) != ';'
  {
  }

  lemma HexReferenceRoundTrip(c: char, rest: string)
    requires Control(c)
    ensures var s := EscapeChar(c) + rest; Reference(s) == Some((c, |EscapeChar(c)|))
  {
    hide HexDigit, HexValue;
    var n := c as int;
    var s := EscapeChar(c) + rest;
    assert s[0] == '&' && s[1] == '#' && s[2] == 'x';
    assert "&#x" <= s;
    if n < 16 {
      HexRoundTrip(n);
      assert s[3] == HexDigit(n) && s[4] == ';';
    } else {
      HexRoundTrip(n / 16);
      HexRoundTrip(n % 16);
      assert s[3] == HexDigit(n / 16) && s[4] == HexDigit(n % 16) && s[5] == ';';
    }
  }

  predicate Special(c: char) {
    c == '&' || c == '<' || c == '>' || c == '\'' || c == '"' || Control(c)
  }

  lemma ReferenceRoundTrip(c: char, rest: string)
    requires Special(c)
    ensures var s := EscapeChar(c) + rest; s[0] == '&' && Reference(s) == Some((c, |EscapeChar(c)|))
  {
    if c == '&' || c == '<' || c == '>' || c == '\'' || c == '"' {
      var s := EscapeChar(c) + rest;
      assert s[1] == EscapeChar(c)[1] && s[2] == EscapeChar(c)[2];
      assert EscapeChar(c) <= s;
    } else {
      HexReferenceRoundTrip(c, rest);
    }
  }

  lemma UnescapeSpecial(c: char, rest: string)
    requires Special(c)
    ensures Unescape(EscapeChar(c) + rest) == Prefix([c], Unescape(rest))
  {
    hide Reference;
    ReferenceRoundTrip(c, rest);
    var s := EscapeChar(c) + rest;
    assert s[|EscapeChar(c)|..] == rest;
  }

  lemma UnescapePlain(c: char, rest: string)
    requires !Special(c) && c != '\r'
    ensures Unescape(EscapeChar(c) + rest) == Prefix([c], Unescape(rest))
  {
    assert ([c] + rest)[1..] == rest;
  }

  /** Unescaping what was escaped normalises the text. */
  lemma {:induction false} UnescapeEscape(t: string)
    ensures Unescape(Escape(t)) == Some(Normalize(t))
    decreases |t|
  {
    hide EscapeChar;
    if t != "" {
      if t[0] == '\r' {
        UnescapeReturn(t);
        UnescapeEscape(if |t| > 1 && t[1] == '\n' then t[2..] else t[1..]);
      } else {
        if Special(t[0]) {
          UnescapeSpecial(t[0], Escape(t[1..]));
        } else {
          UnescapePlain(t[0], Escape(t[1..]));
        }
        UnescapeEscape(t[1..]);
      }
    }
  }

  lemma UnescapeReturn(t: string)
    requires t != "" && t[0] == '\r'
    ensures Unescape(Escape(t)) == Prefix("\n", Unescape(Escape(if |t| > 1 && t[1] == '\n' then t[2..] else t[1..])))
  {
    var rest := Escape(t[1..]);
    assert Escape(t) == "\r" + rest;
    assert Escape(t)[1..] == rest;
    if |t| > 1 {
      assert t[1..][0] == t[1] && t[1..][1..] == t[2..];
      assert rest == EscapeChar(t[1]) + Escape(t[2..]);
      if t[1] == '\n' {
        assert rest[1..] == Escape(t[2..]) && Escape(t)[2..] == Escape(t[2..]);
      } else {
        EscapeNewline(t[1]);
      }
    }
  }

  lemma EscapeNewline(c: char)
    requires c != '\n'
    ensures EscapeChar(c) != "" && EscapeChar(c)[0] != '\n'
  {
  }

  /** An escaped text has no angle brackets. */
  lemma {:induction false} EscapeHasNoTags(t: string)
    ensures '<' !in Escape(t)
    decreases |t|
  {
    if t != "" {
      EscapeCharHasNoTags(t[0]);
      EscapeHasNoTags(t[1..]);
    }
  }

  lemma EscapeCharHasNoTags(c: char)
    ensures '<' !in EscapeChar(c)
  {
    if Control(c) && !(c == '&' || c == '<' || c == '>' || c == '\'' || c == '"') {
      assert forall n :: 0 <= n < 16 ==> HexDigit(n) != '<';
    }
  }

  lemma EscapeNameChar(c: char)
    requires NameChar(c)
    ensures EscapeChar(c) == [c]
  {
  }

  lemma {:induction false} EscapeName(t: string)
    requires forall c :: c in t ==> NameChar(c)
    ensures Escape(t) == t
    decreases |t|
  {
    hide EscapeChar, NameChar;
    if t != "" {
      assert t[0] in t && forall c :: c in t[1..] ==> c in t;
      EscapeName(t[1..]);
      EscapeNameChar(t[0]);
      assert t == [t[0]] + t[1..];
    }
  }

  // ---- The tokenizer on pieces of output

  lemma {:induction false} FeedAppend(p: Parser, a: string, b: string)
    ensures FeedAll(p, a + b) == FeedAll(FeedAll(p, a), b)
    decreases |a|
  {
    hide Feed;
    if a == "" {
      assert a + b == b;
    } else {
      assert (a + b)[1..] == a[1..] + b;
      FeedAppend(Feed(p, a[0]), a[1..], b);
    }
  }

  lemma {:induction false} FeedRun(ctx: Context, run: string, s: string)
    requires !ctx.failed && '<' !in s
    ensures FeedAll(Parser(ctx, InText(run)), s) == Parser(ctx, InText(run + s))
    decreases |s|
  {
    hide Flush, CloseTag;
    if s == "" {
      assert run + s == run;
    } else {
      assert run + [s[0]] + s[1..] == run + s;
      FeedRun(ctx, run + [s[0]], s[1..]);
    }
  }

  lemma {:induction false} FeedName(ctx: Context, name: string, s: string)
    requires !ctx.failed && '>' !in s
    ensures FeedAll(Parser(ctx, InTag(name)), s) == Parser(ctx, InTag(name + s))
    decreases |s|
  {
    hide Flush, CloseTag;
    if s == "" {
      assert name + s == name;
    } else {
      assert name + [s[0]] + s[1..] == name + s;
      FeedName(ctx, name + [s[0]], s[1..]);
    }
  }

  lemma FeedChar(p: Parser, c: char)
    ensures FeedAll(p, [c]) == Feed(p, c)
  {
    assert [c][1..] == "";
  }

  lemma FeedTag(ctx: Context, run: string, name: string)
    requires !ctx.failed && !Flush(ctx, run).failed && '>' !in name
    ensures FeedAll(Parser(ctx, InText(run)), "<" + name + ">")
      == Parser(CloseTag(Flush(ctx, run), name), InText(""))
  {
    hide Flush, CloseTag;
    var p := Parser(ctx, InText(run));
    var ctx1 := Flush(ctx, run);
    FeedAppend(p, "<" + name, ">");
    FeedAppend(p, "<", name);
    FeedChar(p, '<');
    FeedName(ctx1, "", name);
    assert "" + name == name;
    FeedChar(Parser(ctx1, InTag(name)), '>');
  }

  // ---- The callbacks on pieces of output

  /** Ready for a child or for the end: the innermost element has no text. */
  ghost predicate Open(ctx: Context) {
    !ctx.failed && (ctx.stack != [] ==> ctx.stack[0].text == "")
  }

  ghost predicate Blank(s: string) {
    forall c :: c in s ==> c == ' ' || c == '\n'
  }

  lemma {:induction false} UnescapeBlank(s: string)
    requires Blank(s)
    ensures Unescape(s) == Some(s)
    decreases |s|
  {
    if s != "" {
      assert s[0] in s && forall c :: c in s[1..] ==> c in s;
      UnescapeBlank(s[1..]);
      assert s == [s[0]] + s[1..];
    }
  }

  /** White space before a child is stored as text and dropped again. */
  lemma OpensChild(ctx: Context, run: string, name: string)
    requires Open(ctx) && Blank(run)
    ensures !Flush(ctx, run).failed
    ensures StartElement(Flush(ctx, run), name) == ctx.(stack := [Frame(name, "", [])] + ctx.stack)
  {
    hide Unescape;
    UnescapeBlank(run);
    assert AllWhite(run);
    if ctx.stack != [] {
      var y := ctx.stack[0];
      assert ctx.stack == [y] + ctx.stack[1..];
      var p := Flush(ctx, run);
      assert p.stack[1..] == ctx.stack[1..];
      if y.IsText() {
        assert [Frame(name, "", []), y] + ctx.stack[1..] == [Frame(name, "", [])] + ctx.stack;
      }
    }
  }

  /** The innermost element gains a child, or the whole is done. */
  ghost function Attach(ctx: Context, x: Xexp): Context {
    if ctx.stack == [] then ctx.(result := Some(x))
    else ctx.(stack := [ctx.stack[0].(kids := [x] + ctx.stack[0].kids)] + ctx.stack[1..])
  }

  lemma EndAttaches(ctx: Context, f: Frame)
    ensures EndElement(ctx.(stack := [f] + ctx.stack)) == Attach(ctx, Finished(f))
  {
    var p := ctx.(stack := [f] + ctx.stack);
    if ctx.stack != [] {
      assert p.stack[2..] == ctx.stack[1..];
    }
  }

  // ---- Elements

  /** Valid element names and texts that are not empty. */
  ghost predicate Printable(x: Xexp) {
    && ValidName(x.tag)
    && match x
       case Text(_, t) => t != "" && '\0' !in t
       case List(_, ks) => forall k :: k in ks ==> Printable(k)
  }

  function NormalizeXexp(x: Xexp): Xexp
    decreases x, 1
  {
    match x
    case Text(tag, t) => Text(tag, Normalize(t))
    case List(tag, ks) => List(tag, NormalizeAll(ks))
  }

  function NormalizeAll(xs: seq<Xexp>): (ys: seq<Xexp>)
    ensures |ys| == |xs|
    decreases xs, 0
  {
    if xs == [] then [] else [NormalizeXexp(xs[0])] + NormalizeAll(xs[1..])
  }

  ghost function AttachAll(ctx: Context, xs: seq<Xexp>): Context
    decreases |xs|
  {
    if xs == [] then ctx else AttachAll(Attach(ctx, NormalizeXexp(xs[0])), xs[1..])
  }

  lemma NameTokens(tag: string)
    requires ValidName(tag)
    ensures '>' !in tag && '<' !in tag && '/' !in tag && Escape(tag) == tag
  {
    EscapeName(tag);
  }

  lemma OpenTagFeeds(ctx: Context, run: string, tag: string)
    requires Open(ctx) && Blank(run) && ValidName(tag)
    ensures FeedAll(Parser(ctx, InText(run)), "<" + tag + ">")
      == Parser(ctx.(stack := [Frame(tag, "", [])] + ctx.stack), InText(""))
  {
    hide Flush, StartElement, EndElement, ValidName;
    NameTokens(tag);
    OpensChild(ctx, run, tag);
    FeedTag(ctx, run, tag);
    NameIsNoClosing(tag);
  }

  lemma NameIsNoClosing(tag: string)
    requires ValidName(tag)
    ensures tag != "" && tag[0] != '/' && tag[|tag| - 1] != '/'
  {
    NameTokens(tag);
  }

  lemma EmptyTagFeeds(ctx: Context, run: string, tag: string)
    requires Open(ctx) && Blank(run) && ValidName(tag)
    ensures FeedAll(Parser(ctx, InText(run)), "<" + tag + "/>") == Parser(Attach(ctx, List(tag, [])), InText(""))
  {
    hide Flush, StartElement, EndElement, ValidName;
    NameTokens(tag);
    NameIsNoClosing(tag);
    OpensChild(ctx, run, tag);
    var name := tag + "/";
    assert "<" + tag + "/>" == "<" + name + ">";
    FeedTag(ctx, run, name);
    assert name[..|name| - 1] == tag;
    EndAttaches(ctx, Frame(tag, "", []));
    assert Finished(Frame(tag, "", [])) == List(tag, []);
  }

  /** The closing tag after a run that the innermost element takes in as `f`. */
  lemma CloseTagFeeds(ctx: Context, f: Frame, run: string, f': Frame)
    requires !ctx.failed && ValidName(f.tag) && f'.tag == f.tag
    requires Flush(ctx.(stack := [f] + ctx.stack), run) == ctx.(stack := [f'] + ctx.stack)
    ensures FeedAll(Parser(ctx.(stack := [f] + ctx.stack), InText(run)), "</" + f.tag + ">")
      == Parser(Attach(ctx, Finished(f')), InText(""))
  {
    hide Flush, EndElement, ValidName;
    NameTokens(f.tag);
    var name := "/" + f.tag;
    assert "</" + f.tag + ">" == "<" + name + ">";
    FeedTag(ctx.(stack := [f] + ctx.stack), run, name);
    assert name[1..] == f.tag;
    EndAttaches(ctx, f');
  }

  /** Children arrive in reverse. */
  lemma {:induction false} AttachesAll(ctx: Context, f: Frame, xs: seq<Xexp>)
    ensures AttachAll(ctx.(stack := [f] + ctx.stack), xs)
      == ctx.(stack := [f.(kids := Reversed(NormalizeAll(xs)) + f.kids)] + ctx.stack)
    decreases |xs|
  {
    if xs == [] {
      assert Reversed(NormalizeAll(xs)) + f.kids == f.kids;
    } else {
      var y := NormalizeXexp(xs[0]);
      var f1 := f.(kids := [y] + f.kids);
      var p := ctx.(stack := [f] + ctx.stack);
      assert p.stack[1..] == ctx.stack;
      AttachesAll(ctx, f1, xs[1..]);
      assert NormalizeAll(xs)[1..] == NormalizeAll(xs[1..]);
      assert Reversed(NormalizeAll(xs)) + f.kids == Reversed(NormalizeAll(xs[1..])) + f1.kids;
    }
  }

  lemma NormalizeNotEmpty(t: string)
    requires t != ""
    ensures Normalize(t) != "" && Escape(t) != ""
  {
    EscapeCharNotEmpty(t[0]);
  }

  lemma EscapeCharNotEmpty(c: char)
    ensures EscapeChar(c) != ""
  {
  }

  lemma TextTaken(ctx: Context, tag: string, text: string)
    requires !ctx.failed && text != ""
    ensures Flush(ctx.(stack := [Frame(tag, "", [])] + ctx.stack), Escape(text))
      == ctx.(stack := [Frame(tag, Normalize(text), [])] + ctx.stack)
  {
    hide Escape, Normalize, Unescape;
    UnescapeEscape(text);
    NormalizeNotEmpty(text);
    var p := ctx.(stack := [Frame(tag, "", [])] + ctx.stack);
    assert p.stack[1..] == ctx.stack;
  }

  lemma BlankIgnored(ctx: Context, f: Frame, run: string)
    requires !ctx.failed && f.kids != [] && Blank(run)
    ensures Flush(ctx.(stack := [f] + ctx.stack), run) == ctx.(stack := [f] + ctx.stack)
  {
    hide Unescape;
    UnescapeBlank(run);
    assert AllWhite(run);
  }

  lemma {:induction false} BodyFeeds(ctx: Context, run: string, x: Xexp, level: nat)
    requires Open(ctx) && Blank(run) && Printable(x)
    ensures FeedAll(Parser(ctx, InText(run)), WriteBody(x, level)) == Parser(Attach(ctx, NormalizeXexp(x)), InText(""))
    decreases x, 0
  {
    hide FeedAll, Attach, Flush, Escape, Normalize, Printable, ValidName;
    match x
    case Text(tag, text) =>
      TextFeeds(ctx, run, x);
      assert Escape(tag) == tag by {
        PrintableParts(x);
        NameTokens(tag);
      }
    case List(tag, kids) =>
      PrintableParts(x);
      NameTokens(tag);
      if kids == [] {
        EmptyTagFeeds(ctx, run, tag);
        assert "<" + tag + "/>" == "<" + Escape(tag) + "/>";
      } else {
        ListFeeds(ctx, run, x, level);
      }
  }

  lemma PrintableParts(x: Xexp)
    requires Printable(x)
    ensures ValidName(x.tag)
    ensures x.Text? ==> x.text != ""
    ensures x.List? ==> forall k :: k in x.kids ==> Printable(k)
  {
  }

  lemma TextFeeds(ctx: Context, run: string, x: Xexp)
    requires Open(ctx) && Blank(run) && Printable(x) && x.Text?
    ensures FeedAll(Parser(ctx, InText(run)), "<" + x.tag + ">" + Escape(x.text) + "</" + x.tag + ">")
      == Parser(Attach(ctx, NormalizeXexp(x)), InText(""))
  {
    hide FeedAll, Attach, Flush, Escape, Normalize, ValidName;
    PrintableParts(x);
    var p := Parser(ctx, InText(run));
    var open, text, close := "<" + x.tag + ">", Escape(x.text), "</" + x.tag + ">";
    var f := Frame(x.tag, "", []);
    var ctx1 := ctx.(stack := [f] + ctx.stack);
    OpenTagFeeds(ctx, run, x.tag);
    FeedAppend(p, open + text, close);
    FeedAppend(p, open, text);
    EscapeHasNoTags(x.text);
    FeedRun(ctx1, "", text);
    assert "" + text == text;
    TextTaken(ctx, x.tag, x.text);
    var f' := Frame(x.tag, Normalize(x.text), []);
    CloseTagFeeds(ctx, f, text, f');
    NormalizeNotEmpty(x.text);
    assert Finished(f') == NormalizeXexp(x);
    assert open + text + close == "<" + x.tag + ">" + Escape(x.text) + "</" + x.tag + ">";
  }

  lemma {:induction false} ListFeeds(ctx: Context, run: string, x: Xexp, level: nat)
    requires Open(ctx) && Blank(run) && Printable(x) && x.List? && x.kids != []
    ensures FeedAll(Parser(ctx, InText(run)), WriteBody(x, level)) == Parser(Attach(ctx, NormalizeXexp(x)), InText(""))
    decreases x.kids, 2
  {
    hide FeedAll, Attach, Flush, Escape, ValidName, AttachAll, NormalizeAll, Reversed;
    PrintableParts(x);
    NameTokens(x.tag);
    var p := Parser(ctx, InText(run));
    var open, kids, blanks, close := "<" + x.tag + ">", WriteAll(x.kids, level + 1), Blanks(level), "</" + x.tag + ">";
    var f := Frame(x.tag, "", []);
    var ctx1 := ctx.(stack := [f] + ctx.stack);
    assert WriteBody(x, level) == open + "\n" + kids + blanks + close;
    FeedAppend(p, open + "\n" + kids + blanks, close);
    FeedAppend(p, open + "\n" + kids, blanks);
    FeedAppend(p, open + "\n", kids);
    FeedAppend(p, open, "\n");
    OpenTagFeeds(ctx, run, x.tag);
    FeedRun(ctx1, "", "\n");
    assert "" + "\n" == "\n";
    AllFeeds(ctx1, x.kids, level + 1);
    AttachesAll(ctx, f, x.kids);
    KidsFinished(ctx, f, x);
    var f' := f.(kids := Reversed(NormalizeAll(x.kids)) + f.kids);
    var ctx2 := ctx.(stack := [f'] + ctx.stack);
    FeedRun(ctx2, "\n", blanks);
    BlankIgnored(ctx, f', "\n" + blanks);
    CloseTagFeeds(ctx, f', "\n" + blanks, f');
  }

  lemma KidsFinished(ctx: Context, f: Frame, x: Xexp)
    requires x.List? && x.kids != [] && f == Frame(x.tag, "", [])
    ensures var f' := f.(kids := Reversed(NormalizeAll(x.kids)) + f.kids); f'.kids != [] && Finished(f') == NormalizeXexp(x)
  {
    var ks := NormalizeAll(x.kids);
    assert Reversed(ks) + [] == Reversed(ks);
    ReversedTwice(ks);
  }

  lemma {:induction false} WriteFeeds(ctx: Context, run: string, x: Xexp, level: nat)
    requires Open(ctx) && Blank(run) && Printable(x)
    ensures FeedAll(Parser(ctx, InText(run)), Write(x, level)) == Parser(Attach(ctx, NormalizeXexp(x)), InText("\n"))
    ensures Open(Attach(ctx, NormalizeXexp(x)))
    decreases x, 1
  {
    hide FeedAll, WriteBody, NormalizeXexp, Printable;
    var p := Parser(ctx, InText(run));
    var blanks, body := Blanks(level), WriteBody(x, level);
    FeedAppend(p, blanks + body, "\n");
    FeedAppend(p, blanks, body);
    FeedRun(ctx, run, blanks);
    BodyFeeds(ctx, run + blanks, x, level);
    FeedRun(Attach(ctx, NormalizeXexp(x)), "", "\n");
    assert "" + "\n" == "\n";
  }

  lemma {:induction false} AllFeeds(ctx: Context, xs: seq<Xexp>, level: nat)
    requires Open(ctx) && forall x :: x in xs ==> Printable(x)
    ensures FeedAll(Parser(ctx, InText("\n")), WriteAll(xs, level)) == Parser(AttachAll(ctx, xs), InText("\n"))
    decreases xs, 1
  {
    hide Write, Attach, Printable, Open, NormalizeXexp;
    if xs != [] {
      var p := Parser(ctx, InText("\n"));
      FeedAppend(p, Write(xs[0], level), WriteAll(xs[1..], level));
      WriteFeeds(ctx, "\n", xs[0], level);
      AllFeeds(Attach(ctx, NormalizeXexp(xs[0])), xs[1..], level);
    }
  }

  /** Parsing what was printed gives back the x-expression with its texts normalised. */
  lemma XmlNormalizes(x: Xexp)
    requires Printable(x)
    ensures Parse(Write(x, 0)) == Some(NormalizeXexp(x))
  {
    hide FeedAll, Write;
    WriteFeeds(Fresh.context, "", x, 0);
  }

  // ---- Texts without carriage returns

  ghost predicate NoReturns(x: Xexp) {
    match x
    case Text(_, t) => '\r' !in t
    case List(_, ks) => forall k :: k in ks ==> NoReturns(k)
  }

  lemma {:induction false} NormalizeText(t: string)
    ensures Normalize(t) == t <==> '\r' !in t
    decreases |t|
  {
    if t != "" {
      if t[0] == '\r' {
        assert Normalize(t)[0] == '\n';
      } else {
        NormalizeText(t[1..]);
        assert t == [t[0]] + t[1..];
        assert Normalize(t)[1..] == Normalize(t[1..]);
        assert forall c :: c in t <==> c == t[0] || c in t[1..];
      }
    }
  }

  lemma {:induction false} NormalizeSame(x: Xexp)
    ensures NormalizeXexp(x) == x <==> NoReturns(x)
    decreases x, 1
  {
    match x
    case Text(_, t) => NormalizeText(t);
    case List(_, ks) => NormalizeAllSame(ks);
  }

  lemma {:induction false} NormalizeAllSame(xs: seq<Xexp>)
    ensures NormalizeAll(xs) == xs <==> forall x :: x in xs ==> NoReturns(x)
    decreases xs, 0
  {
    if xs != [] {
      NormalizeSame(xs[0]);
      NormalizeAllSame(xs[1..]);
      assert xs == [xs[0]] + xs[1..];
      assert forall x :: x in xs <==> x == xs[0] || x in xs[1..];
      assert NormalizeAll(xs)[0] == NormalizeXexp(xs[0]) && NormalizeAll(xs)[1..] == NormalizeAll(xs[1..]);
    }
  }

  /** The round trip is exact if and only if no text has a carriage return. */
  lemma XmlRoundTrip(x: Xexp)
    requires Printable(x)
    ensures Parse(Write(x, 0)) == Some(x) <==> NoReturns(x)
  {
    hide Parse, Write;
    XmlNormalizes(x);
    NormalizeSame(x);
  }
}
