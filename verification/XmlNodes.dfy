/** The XML parser's callbacks on linked nodes: an element that is still open is already
    the first child of its parent, and children are in reverse until it is closed. */
module XmlNodes {
  import opened Collections
  import opened Wrappers
  import opened Xexps
  import opened XexpHeap
  import opened XexpEdits
  import X = Xml

  // ---- Values of nodes

  ghost function Values(ks: seq<Node>): (vs: seq<Xexp>)
    reads ks`value
    ensures |vs| == |ks| && forall i :: 0 <= i < |ks| ==> vs[i] == ks[i].value
  {
    if ks == [] then [] else [ks[0].value] + Values(ks[1..])
  }

  ghost function Shape(n: Node): Xexp
    reads n`kids, n`text, n.kids`value
  {
    if n.text != "" then Text(n.tag, n.text) else List(n.tag, Values(n.kids))
  }

  /** Finished nodes, whose children are finished, too. */
  ghost predicate Finished(D: set<Node>)
    reads D`kids, D`text, D`value
  {
    forall n :: n in D ==> (forall k :: k in n.kids ==> k in D) && n.value == Shape(n)
  }

  /** The tree at `n` is the x-expression `v`. */
  ghost predicate Represents(S: set<Node>, n: Node, v: Xexp)
    reads S`kids, S`text
    decreases v
  {
    && n in S && n.tag == v.tag
    && match v
       case Text(_, t) => t != "" && n.text == t
       case List(_, vs) =>
         n.text == "" && |n.kids| == |vs| && forall i :: 0 <= i < |vs| ==> Represents(S, n.kids[i], vs[i])
  }

  lemma {:induction false} FinishedRepresents(D: set<Node>, n: Node)
    requires Finished(D) && n in D
    ensures Represents(D, n, n.value)
    decreases n.value
  {
    if n.text == "" {
      forall i | 0 <= i < |n.kids|
        ensures Represents(D, n.kids[i], Values(n.kids)[i])
      {
        assert n.kids[i] in n.kids && n.value.kids[i] == n.kids[i].value;
        FinishedRepresents(D, n.kids[i]);
      }
    }
  }

  // ---- Open elements

  /** The finished children; the first child of all but the innermost element is open. */
  ghost function FinishedKids(n: Node, innermost: bool): seq<Node>
    reads n`kids
  {
    if innermost || n.kids == [] then n.kids else n.kids[1..]
  }

  ghost function FrameOf(n: Node, innermost: bool): X.Frame
    reads n`kids, n`text, FinishedKids(n, innermost)`value
  {
    X.Frame(n.tag, n.text, Values(FinishedKids(n, innermost)))
  }

  /** The open element `n` is described by the frame `f`. */
  ghost predicate OpenElement(D: set<Node>, n: Node, innermost: bool, f: X.Frame)
    reads n`kids, n`text, D`value
  {
    && n !in D && (forall k :: k in FinishedKids(n, innermost) ==> k in D)
    && f == FrameOf(n, innermost)
  }

  /** The elements around the open element `below`, each the parent of the one before. */
  ghost predicate Around(D: set<Node>, below: Node, outer: seq<Node>, fs: seq<X.Frame>)
    reads outer`kids, outer`text, D`value
    decreases |outer|
  {
    && |fs| == |outer| && below !in outer
    && (outer != [] ==>
          && outer[0].kids != [] && outer[0].kids[0] == below && OpenElement(D, outer[0], false, fs[0])
          && Around(D, outer[0], outer[1..], fs[1..]))
  }

  /** The stack, innermost element first. */
  ghost predicate Open(D: set<Node>, stack: seq<Node>, fs: seq<X.Frame>)
    reads stack`kids, stack`text, D`value
  {
    && |fs| == |stack|
    && (stack != [] ==>
          OpenElement(D, stack[0], true, fs[0]) && Around(D, stack[0], stack[1..], fs[1..]))
  }

  // ---- Pushing

  lemma NewNode(S: set<Node>, x: Node)
    requires Owned(S) && x !in S && x.kids == [] && x.parent == null && x.first == null && x.rest == null
    ensures Owned(S + {x})
  {
    assert Distinct(x.kids) && Chain(x.first, x.kids);
    hide Below, Distinct, Chain;
    NewFamily(S, x);
  }

  method ClearText(ghost S: set<Node>, y: Node)
    requires Owned(S) && y in S
    modifies y`text
    ensures Owned(S) && y.text == ""
  {
    hide Below, Distinct, Chain, Families, Depths, Links;
    y.text := "";
  }

  lemma FirstOf(S: set<Node>, y: Node)
    requires Owned(S) && y in S
    ensures y.first == null <==> y.kids == []
    ensures y.kids != [] ==> y.text == ""
  {
    assert Chain(y.first, y.kids);
  }

  /** Before a child is added to the innermost element `y`: a text must be white space and
      is dropped. */
  method DropText(ghost S: set<Node>, ghost D: set<Node>, stack: seq<Node>, ghost fs: seq<X.Frame>, y: Node)
    returns (ok: bool, ghost gs: seq<X.Frame>)
    requires Owned(S) && Finished(D) && Open(D, stack, fs) && stack != [] && y == stack[0] && y in S
    modifies y`text
    ensures Owned(S) && Finished(D) && Open(D, stack, gs) && y.text == ""
    ensures ok <==> (fs[0].IsText() ==> X.AllWhite(fs[0].text))
    ensures gs == if fs[0].IsText() then [fs[0].(text := "")] + fs[1..] else fs
  {
    hide Owned, Below, Around, Finished, X.AllWhite;
    FirstOf(S, y);
    InnermostOnce(D, stack, fs);
    ok, gs := true, fs;
    if y.first == null {
      ok := X.AllWhite(y.text);
      ClearText(S, y);
      gs := [fs[0].(text := "")] + fs[1..];
    }
  }

  lemma NotBelow(S: set<Node>, x: Node, y: Node)
    requires Families(S) && x in S && y in S && x != y && x.kids == []
    ensures !Below(S, y, x)
  {
    StaysInLine(S, y, x, S - {x});
  }

  /** The new node `x` becomes the first child of the innermost element `y`. */
  method Push(ghost S: set<Node>, ghost D: set<Node>, stack: seq<Node>, ghost fs: seq<X.Frame>, x: Node, y: Node)
    requires Owned(S) && x in S && x.text == "" && x.kids == [] && x.parent == null && x !in D && x !in stack
    requires stack != [] && y == stack[0] && y in S && y.text == "" && Finished(D) && Open(D, stack, fs)
    modifies S`depth, y`kids, x`parent, y`first, x`rest
    ensures Owned(S) && Finished(D)
    ensures x.kids == [] && Open(D, [x] + stack, [X.Frame(x.tag, "", [])] + fs)
  {
    hide Owned, Below, Around, Finished;
    ghost var ks := y.kids;
    OwnedIsFamily(S);
    NotBelow(S, x, y);
    assert y !in stack[1..] by {
      InnermostOnce(D, stack, fs);
    }
    Cons(S, y, x);
    PushedIsOpen(D, stack, fs, x);
  }

  lemma OwnedIsFamily(S: set<Node>)
    requires Owned(S)
    ensures Families(S)
  {
  }

  lemma InnermostOnce(D: set<Node>, stack: seq<Node>, fs: seq<X.Frame>)
    requires stack != [] && Open(D, stack, fs)
    ensures stack[0] !in stack[1..]
  {
  }

  lemma PushedIsOpen(D: set<Node>, stack: seq<Node>, fs: seq<X.Frame>, x: Node)
    requires stack != [] && |fs| == |stack| && x !in D && x !in stack && x.kids == [] && x.text == ""
    requires stack[0].kids != [] && stack[0].kids[0] == x
    requires OpenElement(D, stack[0], false, fs[0]) && Around(D, stack[0], stack[1..], fs[1..])
    ensures Open(D, [x] + stack, [X.Frame(x.tag, "", [])] + fs)
  {
    var all, frames := [x] + stack, [X.Frame(x.tag, "", [])] + fs;
    assert all[1..] == stack && frames[1..] == fs;
    assert Values([]) == [];
  }

  /** A new element in the innermost one. */
  method NewElement(ghost S: set<Node>, ghost D: set<Node>, stack: seq<Node>, ghost fs: seq<X.Frame>, name: string)
    returns (x: Node, ok: bool, ghost gs: seq<X.Frame>)
    requires Owned(S) && D <= S && Finished(D) && Open(D, stack, fs) && forall n :: n in stack ==> n in S
    modifies S`depth, S`kids, S`text, S`first
    ensures fresh(x) && Owned(S + {x}) && Finished(D) && Open(D, [x] + stack, gs)
    ensures ok <==> (fs != [] && fs[0].IsText() ==> X.AllWhite(fs[0].text))
    ensures gs == [X.Frame(name, "", [])] + if fs != [] && fs[0].IsText() then [fs[0].(text := "")] + fs[1..] else fs
  {
    hide Owned, Finished, Below, Open, X.AllWhite;
    x := new Node(name, "");
    NewNode(S, x);
    SameLength(D, stack, fs);
    ok, gs := true, fs;
    if stack != [] {
      ok, gs := DropText(S + {x}, D, stack, fs, stack[0]);
      Push(S + {x}, D, stack, gs, x, stack[0]);
    } else {
      FirstIsOpen(D, x);
      assert [x] + stack == [x] && [X.Frame(name, "", [])] + fs == [X.Frame(x.tag, "", [])];
    }
    gs := [X.Frame(name, "", [])] + gs;
  }

  lemma SameLength(D: set<Node>, stack: seq<Node>, fs: seq<X.Frame>)
    requires Open(D, stack, fs)
    ensures |fs| == |stack|
  {
  }

  lemma FirstIsOpen(D: set<Node>, x: Node)
    requires x !in D && x.kids == [] && x.text == ""
    ensures Open(D, [x], [X.Frame(x.tag, "", [])])
  {
    assert Values([]) == [] && [x][1..] == [];
  }

  // ---- Closing

  lemma ValuesReversed(ks: seq<Node>)
    ensures Values(Reversed(ks)) == Reversed(Values(ks))
  {
    ReversedAt(ks);
    ReversedAt(Values(ks));
  }

  lemma {:induction false} AroundMore(D: set<Node>, x: Node, below: Node, outer: seq<Node>, fs: seq<X.Frame>)
    requires Around(D, below, outer, fs) && x !in outer
    ensures Around(D + {x}, below, outer, fs)
    decreases |outer|
  {
    if outer != [] {
      AroundMore(D, x, outer[0], outer[1..], fs[1..]);
    }
  }

  /** What an element with the finished children `ks` turns into. */
  lemma ShapeOf(x: Node, ks: seq<Node>)
    requires x.kids == if x.text == "" then Reversed(ks) else []
    requires x.text != "" ==> ks == []
    ensures Shape(x) == X.Finished(X.Frame(x.tag, x.text, Values(ks)))
    ensures forall k :: k in x.kids ==> k in ks
  {
    ReversedAt(ks);
    ValuesReversed(ks);
  }

  method ReverseKids(ghost S: set<Node>, ghost D: set<Node>, x: Node)
    requires Owned(S) && Finished(D) && x in S && x !in D && forall k :: k in x.kids ==> k in D
    modifies x`kids, x`first, x.kids`rest
    ensures Owned(S) && Finished(D) && forall k :: k in x.kids ==> k in D
    ensures Shape(x) == X.Finished(X.Frame(x.tag, x.text, old(Values(x.kids))))
  {
    hide Owned, Below, Finished, Reversed, Shape;
    ghost var ks := x.kids;
    if x.text == "" {
      Reverse(S, x);
    } else {
      TextHasNoKids(S, x);
    }
    ShapeOf(x, ks);
  }

  /** Reverses the children, unless the innermost element `x` is a text. */
  method Close(ghost S: set<Node>, ghost D: set<Node>, stack: seq<Node>, ghost fs: seq<X.Frame>, x: Node)
    requires Owned(S) && Finished(D) && Open(D, stack, fs) && stack != [] && x == stack[0] && x in S
    modifies x`kids, x`first, x.kids`rest, x`value
    ensures Owned(S) && Finished(D + {x}) && x.value == X.Finished(fs[0])
    ensures Around(D, x, stack[1..], fs[1..]) && x !in D
  {
    hide Owned, Below, Around, Finished, Shape;
    assert x !in stack[1..] by {
      InnermostOnce(D, stack, fs);
    }
    ReverseKids(S, D, x);
    SetValue(S, D, x);
  }

  lemma OpenKids(S: set<Node>, D: set<Node>, stack: seq<Node>, fs: seq<X.Frame>)
    requires Open(D, stack, fs) && stack != [] && D <= S
    ensures forall i :: 0 <= i < |stack[0].kids| ==> stack[0].kids[i] in S
  {
    assert forall i :: 0 <= i < |stack[0].kids| ==> stack[0].kids[i] in stack[0].kids;
  }

  /** An empty element becomes a text. */
  method SetText(ghost S: set<Node>, y: Node, text: string)
    requires Owned(S) && y in S && y.kids == []
    modifies y`text
    ensures Owned(S) && y.text == text
  {
    hide Below, Distinct, Chain, Families, Depths, Links;
    y.text := text;
  }

  lemma TextHasNoKids(S: set<Node>, x: Node)
    requires Owned(S) && x in S && x.text != ""
    ensures x.kids == []
  {
  }

  ghost method SetValue(S: set<Node>, D: set<Node>, x: Node)
    requires Owned(S) && Finished(D) && x !in D && forall k :: k in x.kids ==> k in D
    modifies x`value
    ensures Owned(S) && Finished(D + {x}) && x.value == Shape(x)
  {
    hide Below, Distinct, Chain, Values;
    x.value := Shape(x);
  }

  lemma ClosedIsOpen(D: set<Node>, stack: seq<Node>, fs: seq<X.Frame>, x: Node)
    requires |fs| == |stack| >= 2 && x == stack[0] && Finished(D + {x}) && x !in D && Around(D, x, stack[1..], fs[1..])
    ensures Open(D + {x}, stack[1..], [fs[1].(kids := [x.value] + fs[1].kids)] + fs[2..])
  {
    var y := stack[1];
    AroundMore(D, x, y, stack[1..][1..], fs[1..][1..]);
    assert y.kids == [x] + y.kids[1..];
    assert y !in D + {x} && forall k :: k in y.kids ==> k in D + {x};
    var frames := [fs[1].(kids := [x.value] + fs[1].kids)] + fs[2..];
    assert frames[1..] == fs[1..][1..];
  }

  // ---- The parser

  class Reader {
    ghost var S: set<Node>
    ghost var D: set<Node>
    ghost var frames: seq<X.Frame>
    var stack: seq<Node>
    var result: Node?
    var failed: bool
    var mode: X.Mode

    /** `S` are all nodes, `D` those that are finished. */
    ghost predicate Valid()
      reads this, S
    {
      && Owned(S) && D <= S && Finished(D) && (forall n :: n in stack ==> n in S)
      && Open(D, stack, frames) && (result != null ==> result in D)
    }

    ghost function Context(): X.Context
      reads this, result
    {
      X.Context(frames, if result == null then None else Some(result.value), failed)
    }

    /** The state of the parser; a failed one is not looked at any more. */
    ghost predicate Is(p: X.Parser)
      reads this, result
    {
      failed == p.context.failed && (!failed ==> X.Parser(Context(), mode) == p)
    }

    constructor ()
      ensures Valid() && S == {} && Is(X.Fresh)
    {
      S, D, frames := {}, {}, [];
      stack, result, failed, mode := [], null, false, X.InText("");
    }

    /** A new element in the innermost one, whose text must be white space and is dropped. */
    method StartElement(name: string)
      requires Valid() && !failed
      modifies this`S, this`frames, this`stack, this`failed, S`depth, S`kids, S`text, S`first
      ensures Valid() && old(S) <= S && fresh(S - old(S)) && stack != []
      ensures failed == X.StartElement(old(Context()), name).failed
      ensures !failed ==> Context() == X.StartElement(old(Context()), name)
    {
      hide Owned, Finished, Open, X.AllWhite;
      SameLength(D, stack, frames);
      var x, ok;
      x, ok, frames := NewElement(S, D, stack, frames, name);
      S := S + {x};
      stack := [x] + stack;
      failed := !ok;
    }

    /** The innermost element is finished; the outermost one is the result. */
    method EndElement()
      requires Valid() && stack != []
      modifies this`D, this`frames, this`stack, this`result, S`kids, S`first, S`rest, S`value
      ensures Valid() && Context() == X.EndElement(old(Context())) && failed == old(failed)
    {
      hide Owned, Finished, Around;
      var x := stack[0];
      OpenKids(S, D, stack, frames);
      Close(S, D, stack, frames, x);
      if |stack| == 1 {
        result := x;
        frames := [];
      } else {
        ClosedIsOpen(D, stack, frames, x);
        frames := [frames[1].(kids := [x.value] + frames[1].kids)] + frames[2..];
      }
      stack := stack[1..];
      D := D + {x};
    }

    /** Text must be white space unless the innermost element is empty; then it becomes a
        text. */
    method TextRun(text: string)
      requires Valid() && !failed
      modifies this`frames, this`failed, S`text
      ensures Valid()
      ensures failed == X.TextRun(old(Context()), text).failed
      ensures !failed ==> Context() == X.TextRun(old(Context()), text)
    {
      hide Owned, Finished, X.AllWhite;
      if stack != [] {
        var y := stack[0];
        FirstOf(S, y);
        InnermostOnce(D, stack, frames);
        if !(y.first == null && y.text == "") {
          failed := !X.AllWhite(text);
        } else if text != "" {
          SetText(S, y, text);
          frames := [frames[0].(text := text)] + frames[1..];
        } else {
          assert frames == [frames[0].(text := text)] + frames[1..];
        }
      }
    }

    method CloseTag(name: string)
      requires Valid() && !failed
      modifies this`S, this`D, this`frames, this`stack, this`result, this`failed
      modifies S`depth, S`kids, S`text, S`first, S`rest, S`value
      ensures Valid() && old(S) <= S && fresh(S - old(S))
      ensures failed == X.CloseTag(old(Context()), name).failed
      ensures !failed ==> Context() == X.CloseTag(old(Context()), name)
    {
      hide Owned, Finished, Open, X.ValidName, X.EndElement, X.StartElement;
      SameLength(D, stack, frames);
      if name == "" {
        failed := true;
      } else if name[0] == '/' {
        if stack != [] {
          InnermostTag(D, stack, frames);
        }
        if stack == [] || stack[0].tag != name[1..] {
          failed := true;
        } else {
          EndElement();
        }
      } else if name[|name| - 1] == '/' {
        if !X.ValidName(name[..|name| - 1]) {
          failed := true;
        } else {
          StartElement(name[..|name| - 1]);
          if !failed {
            EndElement();
          }
        }
      } else if X.ValidName(name) {
        StartElement(name);
      } else {
        failed := true;
      }
    }

    method Feed(c: char, ghost p: X.Parser)
      requires Valid() && Is(p)
      modifies this, S`depth, S`kids, S`text, S`first, S`rest, S`value
      ensures Valid() && Is(X.Feed(p, c)) && old(S) <= S && fresh(S - old(S))
    {
      hide Owned, Finished, Open, X.Unescape, X.CloseTag, X.TextRun;
      if failed {
        return;
      }
      match mode {
        case InText(run) =>
          if c != '<' {
            mode := X.InText(run + [c]);
            return;
          }
          mode := X.InTag("");
          if run != "" {
            match X.Unescape(run) {
              case None => failed := true;
              case Some(t) => TextRun(t);
            }
          }
        case InTag(name) =>
          if c != '>' {
            mode := X.InTag(name + [c]);
            return;
          }
          mode := X.InText("");
          CloseTag(name);
      }
    }

    /** Reading yields exactly what parsing does: the root of a well-formed tree that
        represents the parsed x-expression, or null. */
    method Read(s: string) returns (x: Node?)
      requires Valid() && Is(X.Fresh)
      modifies this, S`depth, S`kids, S`text, S`first, S`rest, S`value
      ensures Valid()
      ensures x == null <==> X.Parse(s) == None
      ensures x != null ==> x in S && Represents(S, x, X.Parse(s).value)
    {
      hide X.Feed, Owned, Finished, Open;
      var i := 0;
      ghost var p := X.Fresh;
      while i < |s|
        invariant 0 <= i <= |s| && Valid() && Is(p) && old(S) <= S && fresh(S - old(S))
        invariant X.FeedAll(p, s[i..]) == X.FeedAll(X.Fresh, s)
      {
        assert s[i..][1..] == s[i + 1..];
        Feed(s[i], p);
        p := X.Feed(p, s[i]);
        i := i + 1;
      }
      assert s[i..] == "" && p == X.FeedAll(X.Fresh, s);
      SameLength(D, stack, frames);
      x := if failed || stack != [] || mode.InTag? then null else result;
      if x != null {
        FinishedRepresents(D, x);
        RepresentsIn(D, S, x, x.value);
      }
    }
  }

  lemma InnermostTag(D: set<Node>, stack: seq<Node>, fs: seq<X.Frame>)
    requires Open(D, stack, fs) && stack != []
    ensures |fs| == |stack| && fs[0].tag == stack[0].tag
  {
  }

  lemma {:induction false} RepresentsIn(D: set<Node>, S: set<Node>, n: Node, v: Xexp)
    requires Represents(D, n, v) && D <= S
    ensures Represents(S, n, v)
    decreases v
  {
    match v
    case Text(_, _) =>
    case List(_, vs) =>
      forall i | 0 <= i < |vs|
        ensures Represents(S, n.kids[i], vs[i])
      {
        RepresentsIn(D, S, n.kids[i], vs[i]);
      }
  }
}
