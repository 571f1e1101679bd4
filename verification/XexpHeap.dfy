/** X-expressions in memory: nodes linked through `first` and `rest`, each the child of
    at most one other, edited in place. */
module XexpHeap {
  import opened Collections
  import opened Xexps

  /** An empty `text` stands for a null one.  The ghost fields say what the links mean:
      the list of children, the parent, a depth that grows from parent to child, and the
      value of a finished node. */
  class Node {
    const tag: string
    var rest: Node?
    var first: Node?
    var text: string
    ghost var kids: seq<Node>
    ghost var parent: Node?
    ghost var depth: nat
    ghost var value: Xexp

    constructor (tag: string, text: string)
      ensures this.tag == tag && this.text == text && first == null && rest == null
      ensures kids == [] && parent == null
    {
      this.tag, this.text := tag, text;
      first, rest := null, null;
      kids, parent, depth, value := [], null, 0, List(tag, []);
    }
  }

  // ---- Lists of children

  /** The list that starts at `first` is `ks`. */
  ghost predicate Chain(first: Node?, ks: seq<Node>)
    reads ks`rest
  {
    if ks == [] then first == null
    else
      && first == ks[0]
      && (forall i :: 0 <= i < |ks| - 1 ==> ks[i].rest == ks[i + 1])
      && ks[|ks| - 1].rest == null
  }

  // ---- Ownership

  /** Among the nodes `S`, children and parents agree and no node is in two places. */
  ghost predicate Families(S: set<Node>)
    reads S`kids, S`parent
  {
    && (forall x, k :: x in S && k in x.kids ==> k in S && k.parent == x)
    && (forall x :: x in S ==> Distinct(x.kids))
    && (forall x :: x in S && x.parent != null ==> x.parent in S && x in x.parent.kids)
  }

  /** There are no cycles. */
  ghost predicate Depths(S: set<Node>)
    reads S`kids, S`depth
  {
    forall x, k :: x in S && k in x.kids ==> k in S && k.depth > x.depth
  }

  /** The links form the lists, and free-standing nodes have a null `rest`. */
  ghost predicate Links(S: set<Node>)
    requires Families(S)
    reads S`kids, S`parent, S`first, S`rest
  {
    && (forall x :: x in S ==> Chain(x.first, x.kids))
    && (forall x :: x in S && x.parent == null ==> x.rest == null)
  }

  /** Texts have no children. */
  ghost predicate Texts(S: set<Node>)
    reads S`kids, S`text
  {
    forall x :: x in S && x.text != "" ==> x.kids == []
  }

  ghost predicate Owned(S: set<Node>)
    reads S
  {
    Families(S) && Depths(S) && Links(S) && Texts(S)
  }

  /** `n` is `y` or below it. */
  ghost predicate Below(S: set<Node>, n: Node, y: Node)
    requires n in S
    reads S`parent, S`depth
    decreases n.depth
  {
    n == y || (n.parent != null && n.parent in S && n.parent.depth < n.depth && Below(S, n.parent, y))
  }

  /** The nodes below `y`. */
  ghost function Tree(S: set<Node>, y: Node): set<Node>
    reads S`parent, S`depth
  {
    set n | n in S && Below(S, n, y)
  }

  /** A child is in a tree with its parent, unless it is the root. */
  lemma TreeMember(S: set<Node>, y: Node, n: Node)
    requires Families(S) && Depths(S) && y in S && n in S
    ensures y in Tree(S, y)
    ensures n != y && n.parent != null ==> (n in Tree(S, y) <==> n.parent in Tree(S, y))
    ensures n != y && n.parent == null ==> n !in Tree(S, y)
  {
  }

  // ---- Edits of one list

  /** Puts `y` before the first child. */
  method LinkFirst(ghost ks: seq<Node>, x: Node, y: Node)
    requires Chain(x.first, ks) && y !in ks
    modifies x`first, y`rest
    ensures Chain(x.first, [y] + ks)
  {
    y.rest := x.first;
    x.first := y;
    assert ([y] + ks)[|ks|] == if ks == [] then y else ks[|ks| - 1];
  }

  /** Walks to the end and hangs the list that starts at `tail` there. */
  method LinkLast(ghost ks: seq<Node>, x: Node, tail: Node?, ghost ts: seq<Node>)
    requires Chain(x.first, ks) && Chain(tail, ts) && Distinct(ks) && forall k :: k in ts ==> k !in ks
    modifies x`first, ks`rest
    ensures Chain(x.first, ks + ts)
  {
    var last: Node?, cur := null, x.first;
    ghost var i := 0;
    while cur != null
      invariant 0 <= i <= |ks|
      invariant cur == if i < |ks| then ks[i] else null
      invariant last == if i == 0 then null else ks[i - 1]
      decreases |ks| - i
    {
      last := cur;
      cur := cur.rest;
      i := i + 1;
    }
    if last == null {
      x.first := tail;
      assert ks + ts == ts;
    } else {
      assert last in ks && forall j :: 0 <= j < |ts| ==> ts[j] in ts;
      last.rest := tail;
      assert if ts == [] then ks + ts == ks else (ks + ts)[|ks| + |ts| - 1] == ts[|ts| - 1];
    }
  }

  /** Moves the first node of the list at `y` in front of the list at `f`. */
  method MoveLink(y: Node, f: Node?, ghost ys: seq<Node>, ghost fs: seq<Node>) returns (r: Node?)
    requires Chain(y, ys) && Chain(f, fs) && ys != [] && y !in fs && y !in ys[1..]
    modifies y`rest
    ensures Chain(r, ys[1..]) && Chain(y, [y] + fs)
  {
    r := y.rest;
    y.rest := f;
    ghost var all := [y] + fs;
    assert all[|all| - 1] == if fs == [] then y else fs[|fs| - 1];
  }

  method ReverseLinks(ghost ks: seq<Node>, x: Node)
    requires Chain(x.first, ks) && Distinct(ks)
    modifies x`first, ks`rest
    ensures Chain(x.first, Reversed(ks))
  {
    var y: Node?, f: Node? := x.first, null;
    ghost var i := 0;
    ghost var done := [];
    while y != null
      invariant 0 <= i <= |ks| && |done| == i
      invariant Chain(y, ks[i..]) && Chain(f, done)
      invariant forall j :: 0 <= j < i ==> done[j] == ks[i - 1 - j]
      decreases |ks| - i
    {
      ReverseStep(ks, i, done);
      assert y == ks[i];
      hide Chain;
      var r := MoveLink(y, f, ks[i..], done);
      f, y := y, r;
      done := [ks[i]] + done;
      i := i + 1;
    }
    x.first := f;
    ReversedAt(ks);
    assert done == Reversed(ks);
  }

  lemma ReverseStep(ks: seq<Node>, i: nat, done: seq<Node>)
    requires i < |ks| && Distinct(ks) && |done| == i && forall j :: 0 <= j < i ==> done[j] == ks[i - 1 - j]
    ensures ks[i] !in done && ks[i] !in ks[i + 1..] && ks[i..] == [ks[i]] + ks[i + 1..] && ks[i..][1..] == ks[i + 1..]
  {
  }

  /** Takes the first child off. */
  method UnlinkFirst(ghost ks: seq<Node>, x: Node) returns (y: Node?)
    requires Chain(x.first, ks) && Distinct(ks)
    modifies x`first, ks`rest
    ensures ks == [] ==> y == null && Chain(x.first, [])
    ensures ks != [] ==> y == ks[0] && y.rest == null && Chain(x.first, ks[1..])
  {
    y := x.first;
    if y != null {
      x.first := y.rest;
      y.rest := null;
    }
  }

  function Without(ks: seq<Node>, n: nat): seq<Node>
    requires n < |ks|
  {
    ks[..n] + ks[n + 1..]
  }

  /** Takes the child at index `n` off, given the child before it. */
  method UnlinkAfter(ghost ks: seq<Node>, x: Node, last: Node?, y: Node, ghost n: nat)
    requires Chain(x.first, ks) && Distinct(ks) && n < |ks| && y == ks[n]
    requires last == if n == 0 then null else ks[n - 1]
    modifies x`first, ks`rest
    ensures y.rest == null && Chain(x.first, Without(ks, n))
    ensures old(y.rest) == if n + 1 < |ks| then ks[n + 1] else null
  {
    ghost var left := Without(ks, n);
    assert forall i :: 0 <= i < n ==> left[i] == ks[i];
    assert forall i :: n <= i < |left| ==> left[i] == ks[i + 1];
    if last == null {
      x.first := y.rest;
    } else {
      last.rest := y.rest;
    }
    y.rest := null;
  }

  // ---- The operations

  ghost predicate Apart(ks: seq<Node>, ls: seq<Node>) {
    forall i, j :: 0 <= i < |ks| && 0 <= j < |ls| ==> ks[i] != ls[j]
  }

  lemma SiblingsApart(S: set<Node>, x: Node)
    requires Families(S) && x in S
    ensures forall z :: z in S && z != x ==> Apart(z.kids, x.kids)
  {
    forall z | z in S && z != x
      ensures Apart(z.kids, x.kids)
    {
      forall i, j | 0 <= i < |z.kids| && 0 <= j < |x.kids|
        ensures z.kids[i] != x.kids[j]
      {
        assert z.kids[i] in z.kids && z.kids[i].parent == z;
        assert x.kids[j] in x.kids && x.kids[j].parent == x;
      }
    }
  }

  /** Moves the tree of the free-standing `y` below `x`. */
  ghost method Sink(S: set<Node>, x: Node, y: Node)
    requires Families(S) && Depths(S) && x in S && y in S && y.parent == null && !Below(S, x, y)
    modifies S`depth
    ensures Depths(S) && y.depth > x.depth
  {
    hide Below;
    var tree := Tree(S, y);
    TreeMember(S, y, y);
    forall n, k | n in S && k in n.kids
      ensures k in S && (k in tree <==> n in tree)
    {
      TreeMember(S, y, k);
    }
    var lift := x.depth + 1;
    forall n | n in tree {
      n.depth := n.depth + lift;
    }
  }

  /** Makes `y` a child of `x`, which now has the children `ks`. */
  ghost method Enroll(S: set<Node>, x: Node, ks: seq<Node>, y: Node)
    requires Families(S) && Depths(S) && Texts(S) && x in S && x.text == ""
    requires y in S && y.parent == null && y.depth > x.depth
    requires Distinct(ks) && y in ks && forall k :: k in ks ==> k == y || k in x.kids
    requires forall k :: k in x.kids ==> k in ks
    modifies x`kids, y`parent
    ensures Families(S) && Depths(S) && Texts(S) && x.kids == ks && y.parent == x
  {
    hide Distinct;
    x.kids := ks;
    y.parent := x;
  }

  /** Puts the free-standing `y` before the children of `x`. */
  method Cons(ghost S: set<Node>, x: Node, y: Node)
    requires Owned(S) && x in S && x.text == "" && y in S && y.parent == null && !Below(S, x, y)
    modifies S`depth, x`kids, y`parent, x`first, y`rest
    ensures Owned(S) && x.kids == [y] + old(x.kids) && y.parent == x
  {
    hide Below, Distinct, Depths, Texts, Chain;
    Sink(S, x, y);
    ghost var ks := x.kids;
    assert y !in ks;
    DistinctCons(ks, y);
    LinkFirst(ks, x, y);
    Enroll(S, x, [y] + ks, y);
    forall z | z in S
      ensures Chain(z.first, z.kids)
    {
      if z != x {
        assert old(Chain(z.first, z.kids));
        assert y !in z.kids;
      }
    }
  }

  lemma DistinctCons(ks: seq<Node>, y: Node)
    requires Distinct(ks) && y !in ks
    ensures Distinct([y] + ks)
  {
  }

  lemma DistinctSnoc(ks: seq<Node>, y: Node)
    requires Distinct(ks) && y !in ks
    ensures Distinct(ks + [y])
  {
  }

  /** Links `y` at the end of `x`. */
  method LinkChild(ghost S: set<Node>, x: Node, y: Node)
    requires Families(S) && Links(S) && x in S && y in S && y.parent == null && x != y
    modifies x`first, x.kids`rest
    ensures Chain(x.first, x.kids + [y])
    ensures forall z :: z in S && z != x ==> Chain(z.first, z.kids)
    ensures forall z :: z in S && z.parent == null ==> z.rest == null
  {
    assert y !in x.kids;
    hide Distinct, Chain;
    SiblingsApart(S, x);
    SingleChain(y);
    LinkLast(x.kids, x, y, [y]);
    forall z | z in S && z != x
      ensures Chain(z.first, z.kids)
    {
      assert old(Chain(z.first, z.kids));
      assert Apart(z.kids, x.kids);
    }
  }

  /** Makes the families follow the links, now that `y` is linked at the end of `x`. */
  ghost method Join(S: set<Node>, x: Node, y: Node)
    requires Families(S) && Depths(S) && Texts(S) && x in S && x.text == "" && y in S && y.parent == null && !Below(S, x, y)
    requires Chain(x.first, x.kids + [y])
    requires forall z :: z in S && z != x ==> Chain(z.first, z.kids)
    requires forall z :: z in S && z.parent == null ==> z.rest == null
    modifies S`depth, x`kids, y`parent
    ensures Owned(S) && x.kids == old(x.kids) + [y] && y.parent == x
  {
    ghost var ks := x.kids;
    assert y !in ks && Distinct(ks);
    DistinctSnoc(ks, y);
    hide Below, Distinct, Depths, Texts, Chain, Families;
    Sink(S, x, y);
    Enroll(S, x, ks + [y], y);
  }

  /** Puts the free-standing `y` after the children of `x`. */
  method Append1(ghost S: set<Node>, x: Node, y: Node)
    requires Owned(S) && x in S && x.text == "" && y in S && y.parent == null && !Below(S, x, y)
    modifies S`depth, x`kids, y`parent, x`first, x.kids`rest
    ensures Owned(S) && x.kids == old(x.kids) + [y] && y.parent == x
  {
    assert x != y;
    hide Below, Depths, Texts, Chain, Families;
    LinkChild(S, x, y);
    Join(S, x, y);
  }

  lemma SingleChain(y: Node)
    requires y.rest == null
    ensures Chain(y, [y])
  {
  }

  /** Gives `x` the children `ks`, the same as before in another order. */
  ghost method Reorder(S: set<Node>, x: Node, ks: seq<Node>)
    requires Families(S) && Depths(S) && Texts(S) && x in S && x.text == "" && Distinct(ks)
    requires (forall k :: k in ks ==> k in x.kids) && (forall k :: k in x.kids ==> k in ks)
    modifies x`kids
    ensures Families(S) && Depths(S) && Texts(S) && x.kids == ks
  {
    x.kids := ks;
  }

  lemma ReversedSame(ks: seq<Node>)
    requires Distinct(ks)
    ensures Distinct(Reversed(ks))
    ensures (forall k :: k in Reversed(ks) ==> k in ks) && (forall k :: k in ks ==> k in Reversed(ks))
  {
    ReversedAt(ks);
    forall k | k in ks
      ensures k in Reversed(ks)
    {
      var i :| 0 <= i < |ks| && ks[i] == k;
      assert Reversed(ks)[|ks| - 1 - i] == k;
    }
  }

  /** Reverses the children of `x`. */
  method Reverse(ghost S: set<Node>, x: Node)
    requires Owned(S) && x in S && x.text == ""
    modifies x`kids, x`first, x.kids`rest
    ensures Owned(S) && x.kids == Reversed(old(x.kids))
  {
    hide Below, Distinct, Depths, Texts, Chain, Reversed;
    ghost var ks := x.kids;
    SiblingsApart(S, x);
    ReversedSame(ks);
    ReverseLinks(ks, x);
    Reorder(S, x, Reversed(ks));
    forall z | z in S
      ensures Chain(z.first, z.kids)
    {
      if z != x {
        assert old(Chain(z.first, z.kids));
        assert Apart(z.kids, ks);
      }
    }
  }

  /** Makes the child `y` free-standing, which leaves `x` the children `ks`. */
  ghost method Dismiss(S: set<Node>, x: Node, ks: seq<Node>, y: Node)
    requires Families(S) && Depths(S) && Texts(S) && x in S && y in x.kids && Distinct(ks) && y !in ks
    requires (forall k :: k in ks ==> k in x.kids) && (forall k :: k in x.kids ==> k == y || k in ks)
    modifies x`kids, y`parent
    ensures Families(S) && Depths(S) && Texts(S) && x.kids == ks && y.parent == null
  {
    hide Distinct;
    assert x.text == "";
    x.kids := ks;
    y.parent := null;
    forall z | z in S
      ensures Distinct(z.kids)
    {
      assert z != x ==> old(Distinct(z.kids));
    }
    forall z, k | z in S && k in z.kids
      ensures k in S && k.parent == z
    {
      assert z != x ==> old(k in z.kids);
    }
    forall z | z in S && z.parent != null
      ensures z.parent in S && z in z.parent.kids
    {
      assert old(z.parent) == z.parent && old(z in z.parent.kids);
    }
  }

  lemma DistinctTail(ks: seq<Node>)
    requires Distinct(ks) && ks != []
    ensures Distinct(ks[1..]) && ks[0] !in ks[1..] && forall k :: k in ks ==> k == ks[0] || k in ks[1..]
  {
  }

  /** The first child, made free-standing, or null. */
  method Pop(ghost S: set<Node>, x: Node) returns (y: Node?)
    requires Owned(S) && x in S && x.text == ""
    modifies x`kids, x.kids`parent, x`first, x.kids`rest
    ensures Owned(S)
    ensures old(x.kids) == [] ==> y == null && x.kids == []
    ensures old(x.kids) != [] ==> y == old(x.kids)[0] && x.kids == old(x.kids)[1..] && y.parent == null
  {
    hide Below, Distinct, Depths, Texts, Chain;
    ghost var ks := x.kids;
    SiblingsApart(S, x);
    y := UnlinkFirst(ks, x);
    if y != null {
      DistinctTail(ks);
      Dismiss(S, x, ks[1..], y);
    }
    forall z | z in S
      ensures Chain(z.first, z.kids)
    {
      if z != x {
        assert old(Chain(z.first, z.kids));
        assert Apart(z.kids, ks);
      }
    }
  }
}
