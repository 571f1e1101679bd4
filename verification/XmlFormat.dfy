/** How x-expressions are laid out as XML, and what is not one. */
module XmlFormat {
  import opened Characters
  import opened Wrappers
  import opened Xexps
  import opened Xml
  import opened XmlProofs

  // ---- The layout

  lemma BlanksFor(level: nat)
    ensures |Blanks(level)| == if level < 16 then level else 16
    ensures forall c :: c in Blanks(level) ==> c == ' '
  {
  }

  lemma LayoutOfText(level: nat)
    ensures Write(Text("b", "x<\U{7}"), level) == Blanks(level) + "<b>x&lt;&#x7;</b>" + "\n"
  {
    LetterName("b");
    EscapedText();
    hide Escape;
    assert "<" + "b" + ">" + "x&lt;&#x7;" + "</" + "b" + ">" == "<b>x&lt;&#x7;</b>";
  }

  lemma LayoutOfEmpty(level: nat)
    ensures Write(List("c", []), level) == Blanks(level) + "<c/>" + "\n"
  {
    LetterName("c");
    hide Escape;
    assert "<" + "c" + "/>" == "<c/>";
  }

  /** One element in a line, indented by its depth up to 16; special characters as
      references. */
  lemma Layout(level: nat)
    ensures Write(List("a", [Text("b", "x<\U{7}"), List("c", [])]), level) ==
      Blanks(level) + "<a>\n"
      + (Blanks(level + 1) + "<b>x&lt;&#x7;</b>\n")
      + (Blanks(level + 1) + "<c/>\n")
      + (Blanks(level) + "</a>\n")
  {
    LetterName("a");
    LayoutOfText(level + 1);
    LayoutOfEmpty(level + 1);
    hide Escape, Blanks;
    var b, c := Text("b", "x<\U{7}"), List("c", []);
    assert [b, c][1..] == [c] && [c][1..] == [];
    var wb, wc, in0 := Write(b, level + 1), Write(c, level + 1), Blanks(level);
    assert WriteAll([], level + 1) == "" && WriteAll([c], level + 1) == wc + "";
    assert WriteAll([b, c], level + 1) == wb + WriteAll([c], level + 1);
    Regroup(in0, wb, wc);
    var in1 := Blanks(level + 1);
    assert in1 + "<b>x&lt;&#x7;</b>" + "\n" == in1 + "<b>x&lt;&#x7;</b>\n" && in1 + "<c/>" + "\n" == in1 + "<c/>\n";
  }

  lemma Regroup(in0: string, wb: string, wc: string)
    ensures in0 + ("<" + "a" + ">" + "\n" + (wb + (wc + "")) + in0 + "</" + "a" + ">") + "\n"
            == in0 + "<a>\n" + wb + wc + (in0 + "</a>\n")
  {
    assert "<" + "a" + ">" + "\n" == "<a>\n" && wc + "" == wc;
    assert in0 + "</" + "a" + ">" + "\n" == in0 + "</a>\n";
  }

  /** Names. */
  lemma Names()
    ensures ValidName("catalogue-2.x_y:z") && !ValidName("2x") && !ValidName("-") && !ValidName("a b") && !ValidName("")
  {
    assert ' ' in "a b" && "a b"[1] == ' ';
  }

  lemma LetterName(s: string)
    requires |s| == 1 && 'a' <= s[0] <= 'z'
    ensures Escape(s) == s
  {
    assert s[1..] == "" && Escape("") == "" && EscapeChar(s[0]) == s;
  }

  lemma EscapedText()
    ensures Escape("x<\U{7}") == "x&lt;&#x7;"
  {
    var s := "x<\U{7}";
    assert s[1..] == "<\U{7}" && s[1..][1..] == "\U{7}" && s[1..][1..][1..] == "";
    assert Hex(7) == "7" && EscapeChar('\U{7}') == "&#x7;";
    assert Escape("\U{7}") == "&#x7;" + "";
  }

  // ---- What is refused

  /** A run of text without references and line ends to normalise. */
  predicate Plain(t: string) {
    forall c :: c in t ==> c != '<' && c != '&' && c != '\r'
  }

  lemma {:induction false} UnescapePlainRun(t: string)
    requires Plain(t)
    ensures Unescape(t) == Some(t)
    decreases |t|
  {
    if t != "" {
      assert t[0] in t && forall c :: c in t[1..] ==> c in t;
      UnescapePlainRun(t[1..]);
      assert t == [t[0]] + t[1..];
    }
  }

  lemma {:induction false} FailureStays(p: Parser, s: string)
    requires p.context.failed
    ensures FeedAll(p, s) == p
    decreases |s|
  {
    if s != "" {
      FailureStays(p, s[1..]);
    }
  }

  /** Once a piece of the input has failed, the rest does not matter. */
  lemma FailedPrefix(s: string, rest: string)
    requires FeedAll(Fresh, s).context.failed
    ensures Parse(s + rest).None?
  {
    hide FeedAll;
    FeedAppend(Fresh, s, rest);
    FailureStays(FeedAll(Fresh, s), rest);
  }

  ghost function Inside(tag: string): Context {
    Context([Frame(tag, "", [])], None, false)
  }

  lemma Opened(tag: string)
    requires ValidName(tag)
    ensures FeedAll(Fresh, "<" + tag + ">") == Parser(Inside(tag), InText(""))
  {
    hide FeedAll;
    OpenTagFeeds(Context([], None, false), "", tag);
  }

  /** A text in front of a child. */
  lemma TextBeforeChild(tag: string, t: string, name: string, rest: string)
    requires ValidName(tag) && ValidName(name) && Plain(t) && !AllWhite(t)
    ensures Parse("<" + tag + ">" + t + ("<" + name + ">") + rest).None?
  {
    hide FeedAll, ValidName, Plain;
    var start := "<" + tag + ">";
    Opened(tag);
    FeedAppend(Fresh, start, t);
    assert '<' !in t by {
      PlainHasNoTag(t);
    }
    FeedRun(Inside(tag), "", t);
    assert "" + t == t;
    UnescapePlainRun(t);
    FeedAppend(Fresh, start + t, "<" + name + ">");
    NameTokens(name);
    NameIsNoClosing(name);
    var ctx := Flush(Inside(tag), t);
    assert ctx == Inside(tag).(stack := [Frame(tag, t, [])]);
    FeedTag(Inside(tag), t, name);
    FailedPrefix(start + t + ("<" + name + ">"), rest);
  }

  lemma PlainHasNoTag(t: string)
    requires Plain(t)
    ensures '<' !in t
  {
  }

  /** A text behind a child. */
  lemma TextAfterChild(tag: string, name: string, t: string, rest: string)
    requires ValidName(tag) && ValidName(name) && Plain(t) && !AllWhite(t)
    ensures Parse("<" + tag + ">" + ("<" + name + "/>") + t + "<" + rest).None?
  {
    hide FeedAll, ValidName, Plain;
    var start, child := "<" + tag + ">", "<" + name + "/>";
    Opened(tag);
    FeedAppend(Fresh, start, child);
    EmptyTagFeeds(Inside(tag), "", name);
    var ctx := Attach(Inside(tag), List(name, []));
    FeedAppend(Fresh, start + child, t);
    assert '<' !in t by {
      PlainHasNoTag(t);
    }
    FeedRun(ctx, "", t);
    assert "" + t == t;
    UnescapePlainRun(t);
    FeedAppend(Fresh, start + child + t, "<");
    FeedChar(Parser(ctx, InText(t)), '<');
    FailedPrefix(start + child + t + "<", rest);
  }

  /** A closing tag with another name. */
  lemma WrongClosingTag(tag: string, other: string, rest: string)
    requires ValidName(tag) && '>' !in other && other != tag
    ensures Parse("<" + tag + ">" + ("</" + other + ">") + rest).None?
  {
    hide FeedAll, ValidName;
    var start, name := "<" + tag + ">", "/" + other;
    Opened(tag);
    FeedAppend(Fresh, start, "</" + other + ">");
    assert "</" + other + ">" == "<" + name + ">" && name[1..] == other;
    FeedTag(Inside(tag), "", name);
    FailedPrefix(start + ("</" + other + ">"), rest);
  }

  /** An element that is not closed. */
  lemma NotClosed(tag: string, t: string)
    requires ValidName(tag) && '<' !in t
    ensures Parse("<" + tag + ">" + t).None?
  {
    hide FeedAll, ValidName;
    Opened(tag);
    FeedAppend(Fresh, "<" + tag + ">", t);
    FeedRun(Inside(tag), "", t);
  }

  /** A text without an element. */
  lemma NoElement(t: string)
    requires '<' !in t
    ensures Parse(t).None?
  {
    hide FeedAll;
    FeedRun(Context([], None, false), "", t);
  }

  /** An opening tag that is not a name. */
  lemma NoName(name: string, rest: string)
    requires '>' !in name && !ValidName(name) && (name != "" ==> name[0] != '/' && name[|name| - 1] != '/')
    ensures Parse("<" + name + ">" + rest).None?
  {
    hide FeedAll, ValidName;
    FeedTag(Context([], None, false), "", name);
    FailedPrefix("<" + name + ">", rest);
  }

  /** A closing tag without an opening one. */
  lemma NothingToClose(other: string, rest: string)
    requires '>' !in other
    ensures Parse("<" + ("/" + other) + ">" + rest).None?
  {
    hide FeedAll;
    FeedTag(Context([], None, false), "", "/" + other);
    FailedPrefix("<" + ("/" + other) + ">", rest);
  }

  /** Another element that is not closed, or a tag that does not end, behind a whole one. */
  lemma MoreIsNotClosed(x: Xexp, tag: string, t: string)
    requires Printable(x) && ValidName(tag) && '<' !in t
    ensures Parse(Write(x, 0) + ("<" + tag + ">") + t).None?
  {
    hide FeedAll, ValidName, Write;
    var done := Attach(Context([], None, false), NormalizeXexp(x));
    WriteFeeds(Context([], None, false), "", x, 0);
    FeedAppend(Fresh, Write(x, 0), "<" + tag + ">");
    OpenTagFeeds(done, "\n", tag);
    FeedAppend(Fresh, Write(x, 0) + ("<" + tag + ">"), t);
    FeedRun(done.(stack := [Frame(tag, "", [])] + done.stack), "", t);
  }

  lemma TagDoesNotEnd(x: Xexp, t: string)
    requires Printable(x) && '>' !in t
    ensures Parse(Write(x, 0) + "<" + t).None?
  {
    hide FeedAll, Write;
    var done := Attach(Context([], None, false), NormalizeXexp(x));
    WriteFeeds(Context([], None, false), "", x, 0);
    FeedAppend(Fresh, Write(x, 0), "<");
    FeedChar(Parser(done, InText("\n")), '<');
    FeedAppend(Fresh, Write(x, 0) + "<", t);
    FeedName(Flush(done, "\n"), "", t);
  }

  /** A second run of text in an element must be white, and is dropped. */
  lemma SecondRun(p: Context, a: string, b: string)
    requires p.stack != [] && p.stack[0].IsEmpty() && a != ""
    ensures TextRun(TextRun(p, a), b) == if AllWhite(b) then TextRun(p, a) else Fail(TextRun(p, a))
  {
  }

  /** The control characters: below 32 but for tab and line ends, and from 127 to 159 but for
      133, the next line. */
  lemma ControlCodes(c: char)
    ensures var n := c as int;
      Control(c) <==> (0 < n < 32 && n != 9 && n != 10 && n != 13) || (127 <= n < 160 && n != 133)
  {
  }
}
