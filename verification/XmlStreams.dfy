/** Printing linked nodes to a stream. */
module XmlStreams {
  import opened Xexps
  import opened XexpHeap
  import opened XexpEdits
  import opened XmlNodes
  import X = Xml

  /** What is printed, piece by piece. */
  lemma Pieces(v: Xexp, level: nat)
    ensures v.IsEmpty() ==> X.Write(v, level) == X.Blanks(level) + ("<" + X.Escape(v.tag) + "/>\n")
    ensures v.List? && v.kids != [] ==>
              X.Write(v, level) == X.Blanks(level) + ("<" + X.Escape(v.tag) + ">\n") + X.WriteAll(v.kids, level + 1)
                                   + X.Blanks(level) + ("</" + X.Escape(v.tag) + ">\n")
    ensures v.Text? ==>
              X.Write(v, level) ==
              X.Blanks(level) + ("<" + X.Escape(v.tag) + ">" + X.Escape(v.text) + "</" + X.Escape(v.tag) + ">\n")
  {
    hide X.Escape, X.Blanks, X.WriteAll;
  }

  class Stream {
    var text: string

    constructor ()
      ensures text == ""
    {
      text := "";
    }

    method Puts(s: string)
      modifies this
      ensures text == old(text) + s
    {
      text := text + s;
    }

    /** Prints the tree at `x`, which represents `v`. */
    method Write(ghost S: set<Node>, x: Node, ghost v: Xexp, level: nat)
      requires Owned(S) && Represents(S, x, v)
      modifies this
      ensures text == old(text) + X.Write(v, level)
      decreases v, 2
    {
      hide X.Escape, X.Blanks, X.WriteAll, X.Write, Owned;
      Walk(S, x);
      FirstOf(S, x);
      Pieces(v, level);
      Puts(X.Blanks(level));
      if x.first == null && x.text == "" {
        Puts("<" + X.Escape(x.tag) + "/>\n");
      } else if x.text == "" {
        Puts("<" + X.Escape(x.tag) + ">\n");
        WriteKids(S, x, v, level + 1);
        Puts(X.Blanks(level));
        Puts("</" + X.Escape(x.tag) + ">\n");
      } else {
        Puts("<" + X.Escape(x.tag) + ">" + X.Escape(x.text) + "</" + X.Escape(x.tag) + ">\n");
      }
    }

    /** Prints the children one after the other. */
    method WriteKids(ghost S: set<Node>, x: Node, ghost v: Xexp, level: nat)
      requires Owned(S) && Represents(S, x, v) && v.List?
      modifies this
      ensures text == old(text) + X.WriteAll(v.kids, level)
      decreases v, 1
    {
      hide X.Write, Owned;
      Walk(S, x);
      var y := x.first;
      ghost var i := 0;
      while y != null
        invariant 0 <= i <= |x.kids| && y == if i < |x.kids| then x.kids[i] else null
        invariant text + X.WriteAll(v.kids[i..], level) == old(text) + X.WriteAll(v.kids, level)
        decreases |x.kids| - i
      {
        assert v.kids[i..][1..] == v.kids[i + 1..];
        Write(S, y, v.kids[i], level);
        y, i := y.rest, i + 1;
      }
      assert v.kids[i..] == [] && X.WriteAll(v.kids[i..], level) == "";
    }
  }
}
