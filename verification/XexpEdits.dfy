/** The operations on whole lists and on association lists: append, delete, association
    update and sorting. */
module XexpEdits {
  import opened Collections
  import opened StableSorts
  import opened XexpHeap

  // ---- Append

  lemma DistinctConcat(ks: seq<Node>, ys: seq<Node>)
    requires Distinct(ks) && Distinct(ys) && Apart(ys, ks)
    ensures Distinct(ks + ys)
  {
    assert forall j :: 0 <= j < |ys| ==> ys[j] in ys;
  }

  lemma ListsApart(S: set<Node>, x: Node, y: Node)
    requires Families(S) && x in S && y in S && x != y
    ensures Distinct(x.kids) && Distinct(y.kids) && Apart(y.kids, x.kids) && Distinct(x.kids + y.kids)
  {
    SiblingsApart(S, x);
    assert Apart(y.kids, x.kids);
    DistinctConcat(x.kids, y.kids);
  }

  /** Gives the children `ys` of the free-standing `y` to `x`, and forgets `y`. */
  ghost method Adopt(S: set<Node>, x: Node, y: Node, ks: seq<Node>, ys: seq<Node>)
    requires Families(S) && Depths(S) && Texts(S) && x in S && y in S && x != y && x.text == ""
    requires y.parent == null && y.depth > x.depth && x.kids == ks && y.kids == ys
    modifies x`kids, y`kids, ys`parent
    ensures Families(S - {y}) && Depths(S - {y}) && Texts(S - {y})
    ensures x.kids == ks + ys && forall k :: k in ys ==> k.parent == x
  {
    hide Distinct;
    ListsApart(S, x, y);
    x.kids, y.kids := ks + ys, [];
    forall k | k in ys {
      k.parent := x;
    }
    assert forall k :: k in ks + ys <==> k in ks || k in ys;
    forall z | z in S - {y}
      ensures Distinct(z.kids)
    {
      assert z != x ==> old(Distinct(z.kids));
    }
    forall z, k | z in S - {y} && k in z.kids
      ensures k in S - {y} && k.parent == z
    {
      assert z != x ==> old(k in z.kids);
    }
    forall z | z in S - {y} && z.parent != null
      ensures z.parent in S - {y} && z in z.parent.kids
    {
      assert z !in ys ==> old(z.parent) == z.parent && old(z in z.parent.kids);
    }
  }

  /** Relinks the children of `y` at the end of `x`. */
  method MoveLinks(ghost S: set<Node>, x: Node, y: Node)
    requires Families(S) && Links(S) && x in S && y in S && x != y
    modifies x`first, y`first, x.kids`rest
    ensures Chain(x.first, x.kids + y.kids) && y.first == null
    ensures forall z :: z in S && z != x && z != y ==> Chain(z.first, z.kids)
    ensures forall z :: z in S && z.parent == null ==> z.rest == null
  {
    hide Distinct, Chain;
    SiblingsApart(S, x);
    ListsApart(S, x, y);
    LinkLast(x.kids, x, y.first, y.kids);
    y.first := null;
    forall z | z in S && z != x && z != y
      ensures Chain(z.first, z.kids)
    {
      assert old(Chain(z.first, z.kids));
      assert Apart(z.kids, x.kids);
    }
  }

  /** Makes the families follow the links. */
  ghost method Absorb(S: set<Node>, x: Node, y: Node)
    requires Families(S) && Depths(S) && Texts(S)
    requires x in S && x.text == "" && y in S && y.parent == null && !Below(S, x, y) && x != y
    requires Chain(x.first, x.kids + y.kids)
    requires forall z :: z in S && z != x && z != y ==> Chain(z.first, z.kids)
    requires forall z :: z in S && z.parent == null ==> z.rest == null
    modifies S`depth, x`kids, y`kids, y.kids`parent
    ensures Owned(S - {y})
    ensures x.kids == old(x.kids) + old(y.kids)
  {
    hide Below, Distinct, Depths, Texts, Chain, Families;
    Sink(S, x, y);
    Adopt(S, x, y, x.kids, y.kids);
  }

  /** Moves the children of `y` to the end of `x` and frees `y`. */
  method Append(ghost S: set<Node>, x: Node, y: Node) returns (ghost R: set<Node>)
    requires Owned(S) && x in S && x.text == "" && y in S && y.text == "" && y.parent == null && !Below(S, x, y)
    modifies S`depth, x`kids, y`kids, y.kids`parent, x`first, y`first, x.kids`rest
    ensures R == S - {y} && Owned(R)
    ensures x.kids == old(x.kids) + old(y.kids)
    ensures y.first == null
  {
    assert x != y;
    hide Below, Distinct, Depths, Texts, Chain, Families;
    MoveLinks(S, x, y);
    Absorb(S, x, y);
    R := S - {y};
  }

  // ---- Delete

  /** `R` is `S` without `gone` and everything below, and without nothing else: a node is
      missing when it is in `gone` or its parent is missing. */
  ghost predicate Freed(S: set<Node>, R: set<Node>, gone: set<Node>)
    reads S`parent
  {
    && R <= S && gone <= S - R
    && forall n :: n in S && n !in R ==> n in gone || (n.parent != null && n.parent in S && n.parent !in R)
  }

  /** Frees the tree of a free-standing node. */
  lemma DropTree(S: set<Node>, y: Node)
    requires Owned(S) && y in S && y.parent == null
    ensures Owned(S - Tree(S, y)) && Freed(S, S - Tree(S, y), {y})
  {
    hide Below, Distinct, Chain;
    var tree := Tree(S, y);
    TreeMember(S, y, y);
    forall n | n in S
      ensures n != y && n.parent != null ==> (n in tree <==> n.parent in tree)
      ensures n != y && n.parent == null ==> n !in tree
    {
      TreeMember(S, y, n);
    }
  }

  /** Unlinks the child at index `n`. */
  method TakeLinks(ghost S: set<Node>, x: Node, last: Node?, y: Node, ghost n: nat)
    requires Families(S) && Links(S) && x in S && n < |x.kids| && y == x.kids[n]
    requires last == if n == 0 then null else x.kids[n - 1]
    modifies x`first, x.kids`rest
    ensures Chain(x.first, Without(x.kids, n)) && y.rest == null
    ensures forall z :: z in S && z != x ==> Chain(z.first, z.kids)
    ensures forall z :: z in S && z.parent == null ==> z.rest == null
  {
    hide Distinct, Chain;
    SiblingsApart(S, x);
    UnlinkAfter(x.kids, x, last, y, n);
    forall z | z in S && z != x
      ensures Chain(z.first, z.kids)
    {
      assert old(Chain(z.first, z.kids));
      assert Apart(z.kids, x.kids);
    }
  }

  /** Unlinks the child at index `n`, which becomes free-standing. */
  method Take(ghost S: set<Node>, x: Node, last: Node?, y: Node, ghost n: nat)
    requires Owned(S) && x in S && x.text == "" && n < |x.kids| && y == x.kids[n]
    requires last == if n == 0 then null else x.kids[n - 1]
    modifies x`kids, y`parent, x`first, x.kids`rest
    ensures Owned(S) && x.kids == Without(old(x.kids), n) && y.parent == null
  {
    hide Below, Distinct, Depths, Texts, Chain, Families, Without;
    TakeLinks(S, x, last, y, n);
    Release(S, x, y, n);
  }

  /** Makes the families follow the links, now that the child `y` is unlinked. */
  ghost method Release(S: set<Node>, x: Node, y: Node, n: nat)
    requires Families(S) && Depths(S) && Texts(S) && x in S && n < |x.kids| && y == x.kids[n]
    requires Chain(x.first, Without(x.kids, n)) && y.rest == null
    requires forall z :: z in S && z != x ==> Chain(z.first, z.kids)
    requires forall z :: z in S && z.parent == null ==> z.rest == null
    modifies x`kids, y`parent
    ensures Owned(S) && x.kids == Without(old(x.kids), n) && y.parent == null
  {
    assert Distinct(x.kids) && y in x.kids;
    DistinctWithout(x.kids, n);
    hide Below, Distinct, Depths, Texts, Chain, Families, Without;
    Dismiss(S, x, Without(x.kids, n), y);
  }

  lemma DistinctWithout(ks: seq<Node>, n: nat)
    requires Distinct(ks) && n < |ks|
    ensures Distinct(Without(ks, n)) && ks[n] !in Without(ks, n)
    ensures forall k :: k in Without(ks, n) ==> k in ks
    ensures forall k :: k in ks ==> k == ks[n] || k in Without(ks, n)
  {
    var left := Without(ks, n);
    assert forall i :: 0 <= i < n ==> left[i] == ks[i];
    assert forall i :: n <= i < |left| ==> left[i] == ks[i + 1];
    assert forall i :: n < i < |ks| ==> left[i - 1] == ks[i];
  }

  lemma {:induction false} TreeIsDeeper(S: set<Node>, n: Node, y: Node)
    requires n in S && Below(S, n, y)
    ensures n.depth >= y.depth
    decreases n.depth
  {
    if n != y {
      TreeIsDeeper(S, n.parent, y);
    }
  }

  /** Where the child `z` is, and the child before it. */
  method Locate(ghost ks: seq<Node>, x: Node, z: Node) returns (found: bool, last: Node?, ghost n: nat)
    requires Chain(x.first, ks)
    ensures found <==> z in ks
    ensures found ==> n < |ks| && ks[n] == z && last == if n == 0 then null else ks[n - 1]
  {
    var y := x.first;
    last, n := null, 0;
    while y != null && y != z
      invariant 0 <= n <= |ks| && z !in ks[..n]
      invariant y == if n < |ks| then ks[n] else null
      invariant last == if n == 0 then null else ks[n - 1]
      decreases |ks| - n
    {
      last, y, n := y, y.rest, n + 1;
    }
    found := y != null;
  }

  /** What a walk over the children reads. */
  lemma Walk(S: set<Node>, x: Node)
    requires Owned(S) && x in S
    ensures x.first == if x.kids == [] then null else x.kids[0]
    ensures forall i :: 0 <= i < |x.kids| - 1 ==> x.kids[i].rest == x.kids[i + 1]
    ensures x.kids != [] ==> x.kids[|x.kids| - 1].rest == null
  {
    assert Chain(x.first, x.kids);
  }

  /** Frees the child at index `n` with everything below it. */
  method Discard(ghost S: set<Node>, x: Node, last: Node?, y: Node, ghost n: nat) returns (ghost R: set<Node>)
    requires Owned(S) && x in S && x.text == "" && n < |x.kids| && y == x.kids[n]
    requires last == if n == 0 then null else x.kids[n - 1]
    modifies x`kids, y`parent, x`first, x.kids`rest
    ensures Owned(R) && x in R && x.kids == Without(old(x.kids), n) && Freed(S, R, {y}) && y.parent == null
  {
    assert y.depth > x.depth;
    hide Below, Distinct, Chain, Links, Texts, Families;
    Take(S, x, last, y, n);
    DropTree(S, y);
    R := S - Tree(S, y);
    assert x in R by {
      if x in Tree(S, y) {
        TreeIsDeeper(S, x, y);
      }
    }
  }

  /** Frees the child `z`; a node that is not a child is left alone. */
  method Del(ghost S: set<Node>, x: Node, z: Node) returns (ghost R: set<Node>)
    requires Owned(S) && x in S && x.text == ""
    modifies x`kids, x.kids`parent, x`first, x.kids`rest
    ensures Owned(R) && x in R
    ensures z !in old(x.kids) ==> R == S && x.kids == old(x.kids)
    ensures z in old(x.kids) ==> Freed(S, R, {z})
    ensures forall n :: 0 <= n < |old(x.kids)| && old(x.kids)[n] == z ==> x.kids == Without(old(x.kids), n)
  {
    assert Distinct(x.kids);
    var found, last, n := Locate(x.kids, x, z);
    hide Below, Depths, Texts, Chain, Links;
    R := S;
    if found {
      R := Discard(S, x, last, z, n);
    }
  }

  // ---- Association lists

  /** The children with another tag, in order. */
  ghost function Others(ks: seq<Node>, tag: string): (r: seq<Node>)
    ensures |r| <= |ks|
  {
    if ks == [] then [] else
      var init := Others(ks[..|ks| - 1], tag);
      if ks[|ks| - 1].tag == tag then init else init + [ks[|ks| - 1]]
  }

  ghost function Tagged(ks: seq<Node>, tag: string): set<Node> {
    set k | k in ks && k.tag == tag
  }

  lemma OthersStep(ks: seq<Node>, tag: string, i: nat)
    requires i < |ks|
    ensures Others(ks[..i + 1], tag) == if ks[i].tag == tag then Others(ks[..i], tag) else Others(ks[..i], tag) + [ks[i]]
    ensures Tagged(ks[..i + 1], tag) == if ks[i].tag == tag then Tagged(ks[..i], tag) + {ks[i]} else Tagged(ks[..i], tag)
  {
    assert ks[..i + 1][..i] == ks[..i];
    assert ks[..i + 1] == ks[..i] + [ks[i]];
  }

  lemma {:induction false} OthersMember(ks: seq<Node>, tag: string, k: Node)
    ensures k in Others(ks, tag) <==> k in ks && k.tag != tag
  {
    if ks != [] {
      var init := ks[..|ks| - 1];
      OthersMember(init, tag, k);
      assert ks == init + [ks[|ks| - 1]];
    }
  }

  /** First `A`, then `B` below what is left. */
  lemma FreedMore(S: set<Node>, R: set<Node>, Q: set<Node>, A: set<Node>, y: Node)
    requires Freed(S, R, A) && Freed(R, Q, {y})
    ensures Freed(S, Q, A + {y})
  {
  }

  /** After the first `i` of the children `ks` have been looked at and `n` of them kept,
      the last one at `last`. */
  ghost predicate Filtering(S: set<Node>, R: set<Node>, x: Node, ks: seq<Node>, tag: string, i: nat, n: nat, last: Node?)
    reads S, R, x
  {
    && i <= |ks| && Owned(R) && x in R && x.text == ""
    && Freed(S, R, Tagged(ks[..i], tag))
    && n == |Others(ks[..i], tag)|
    && x.kids == Others(ks[..i], tag) + ks[i..]
    && last == if n == 0 then null else x.kids[n - 1]
  }

  lemma FilteringWalk(S: set<Node>, R: set<Node>, x: Node, ks: seq<Node>, tag: string, i: nat, n: nat, last: Node?)
    requires Filtering(S, R, x, ks, tag, i, n, last)
    ensures n <= |x.kids| && x.kids[n..] == ks[i..]
    ensures forall j :: 0 <= j < |x.kids| ==> x.kids[j] in ks
    ensures i < |ks| ==> n < |x.kids| && x.kids[n] == ks[i]
    ensures i < |ks| ==> ks[i].rest == if i + 1 < |ks| then ks[i + 1] else null
  {
    Walk(R, x);
    forall j | 0 <= j < |x.kids|
      ensures x.kids[j] in ks
    {
      OthersMember(ks[..i], tag, x.kids[j]);
    }
    assert i + 1 < |ks| ==> x.kids[n + 1] == ks[i + 1];
  }

  /** Frees the child `y`, or moves past it. */
  method Visit(ghost S: set<Node>, ghost R: set<Node>, x: Node, last: Node?, y: Node,
               ghost ks: seq<Node>, tag: string, ghost i: nat, ghost n: nat)
    returns (ghost Q: set<Node>, newLast: Node?, ghost m: nat, next: Node?)
    requires Filtering(S, R, x, ks, tag, i, n, last) && i < |ks| && y == ks[i]
    modifies x`kids, ks`parent, x`first, ks`rest
    ensures Filtering(S, Q, x, ks, tag, i + 1, m, newLast)
    ensures next == if i + 1 < |ks| then ks[i + 1] else null
  {
    hide Below, Chain, Depths, Texts, Links, Others, Tagged, Families;
    FilteringWalk(S, R, x, ks, tag, i, n, last);
    OthersStep(ks, tag, i);
    next := y.rest;
    if y.tag == tag {
      Q := Discard(R, x, last, y, n);
      FreedMore(S, R, Q, Tagged(ks[..i], tag), y);
      newLast, m := last, n;
    } else {
      Q, newLast, m := R, y, n + 1;
    }
  }

  lemma FilteringStart(S: set<Node>, x: Node, tag: string)
    requires Owned(S) && x in S && x.text == ""
    ensures Filtering(S, S, x, x.kids, tag, 0, 0, null)
    ensures x.first == if x.kids == [] then null else x.kids[0]
  {
    hide Owned;
    Walk(S, x);
    assert Others([], tag) == [] && Tagged([], tag) == {};
    assert x.kids[..0] == [] && [] + x.kids[0..] == x.kids;
  }

  lemma FilteringEnd(S: set<Node>, R: set<Node>, x: Node, ks: seq<Node>, tag: string, n: nat, last: Node?)
    requires Filtering(S, R, x, ks, tag, |ks|, n, last)
    ensures Owned(R) && x in R && Freed(S, R, Tagged(ks, tag)) && x.kids == Others(ks, tag)
  {
    assert ks[..|ks|] == ks;
  }

  lemma KeptChild(S: set<Node>, R: set<Node>, x: Node, ks: seq<Node>, tag: string, z: Node)
    requires Owned(R) && x in R && Freed(S, R, Tagged(ks, tag)) && x.kids == Others(ks, tag)
    requires z in R && z in ks
    ensures z.parent == x
  {
    OthersMember(ks, tag, z);
  }

  /** Frees every child with the tag. */
  method Adel(ghost S: set<Node>, x: Node, tag: string) returns (ghost R: set<Node>)
    requires Owned(S) && x in S && x.text == ""
    modifies x`kids, x.kids`parent, x`first, x.kids`rest
    ensures Owned(R) && x in R && Freed(S, R, Tagged(old(x.kids), tag))
    ensures x.kids == Others(old(x.kids), tag)
  {
    hide Below, Chain, Owned, Freed, Filtering, Others, Tagged;
    FilteringStart(S, x, tag);
    ghost var ks := x.kids;
    var last: Node?, y := null, x.first;
    ghost var i, n := 0, 0;
    R := S;
    while y != null
      invariant i <= |ks| && Filtering(S, R, x, ks, tag, i, n, last)
      invariant y == if i < |ks| then ks[i] else null
      decreases |ks| - i
    {
      R, last, n, y := Visit(S, R, x, last, y, ks, tag, i, n);
      i := i + 1;
    }
    FilteringEnd(S, R, x, ks, tag, n, last);
  }

  /** The node `n` and what is above it. */
  ghost function Line(S: set<Node>, n: Node): set<Node>
    requires n in S
    reads S`parent, S`depth
  {
    set y | y in S && Below(S, n, y)
  }

  lemma {:induction false} LineGoesUp(S: set<Node>, n: Node, y: Node)
    requires Families(S) && Depths(S) && n in S && y in Line(S, n)
    ensures y.parent != null ==> y.parent in Line(S, n)
    decreases n.depth
  {
    if n == y {
      assert y.parent != null ==> Below(S, y.parent, y.parent) && Below(S, n, y.parent);
    } else {
      LineGoesUp(S, n.parent, y);
      assert y.parent != null ==> Below(S, n.parent, y.parent) && Below(S, n, y.parent);
    }
  }

  lemma {:induction false} StaysInLine(S: set<Node>, n: Node, y: Node, line: set<Node>)
    requires n in S && n in line && y !in line
    requires forall z :: z in S && z in line && z.parent != null ==> z.parent in line
    ensures !Below(S, n, y)
    decreases n.depth
  {
    if n.parent != null && n.parent in S && n.parent.depth < n.depth {
      StaysInLine(S, n.parent, y, line);
    }
  }

  /** Frees the children with the tag of `val`, which keeps out of the way. */
  method Clear(ghost S: set<Node>, x: Node, val: Node) returns (ghost R: set<Node>)
    requires Owned(S) && x in S && x.text == "" && val in S && val.parent == null && !Below(S, x, val)
    modifies x`kids, x.kids`parent, x`first, x.kids`rest
    ensures Owned(R) && x in R && Freed(S, R, Tagged(old(x.kids), val.tag)) && x.kids == Others(old(x.kids), val.tag)
    ensures val in R && val.parent == null && !Below(R, x, val)
  {
    hide Below, Chain, Depths, Texts, Links, Others, Tagged, Distinct;
    ghost var line, ks := Line(S, x), x.kids;
    assert x in line && val !in line by {
      TreeMember(S, x, x);
    }
    assert forall z :: z in line && z.parent != null ==> z.parent in line by {
      forall z | z in line
        ensures z.parent != null ==> z.parent in line
      {
        LineGoesUp(S, x, z);
      }
    }
    assert forall k :: k in ks ==> k.parent == x;
    R := Adel(S, x, val.tag);
    forall z | z in R && z in line && z.parent != null
      ensures z.parent in line
    {
      if z in ks {
        KeptChild(S, R, x, ks, val.tag, z);
      }
    }
    StaysInLine(R, x, val, line);
    assert val !in Tagged(ks, val.tag) by {
      NotTagged(ks, val.tag, val);
    }
  }

  lemma NotTagged(ks: seq<Node>, tag: string, z: Node)
    requires z !in ks
    ensures z !in Tagged(ks, tag)
  {
  }

  /** Makes `val` the only child with its tag, in front of the others. */
  method Aset(ghost S: set<Node>, x: Node, val: Node) returns (ghost R: set<Node>)
    requires Owned(S) && x in S && x.text == "" && val in S && val.parent == null && !Below(S, x, val)
    modifies S`depth, x`kids, x.kids`parent, val`parent, x`first, x.kids`rest, val`rest
    ensures Owned(R) && x in R && Freed(S, R, Tagged(old(x.kids), val.tag))
    ensures x.kids == [val] + Others(old(x.kids), val.tag)
  {
    hide Below, Chain, Owned, Depths, Texts, Links, Others, Tagged;
    R := Clear(S, x, val);
    Cons(R, x, val);
  }

  /** A flag is a child without text: set by adding it, cleared by freeing it. */
  method AsetBool(ghost S: set<Node>, x: Node, tag: string, val: bool) returns (ghost R: set<Node>)
    requires Owned(S) && x in S && x.text == ""
    modifies S`depth, x`kids, x.kids`parent, x`first, x.kids`rest
    ensures Owned(R) && x in R
    ensures !val ==> x.kids == Others(old(x.kids), tag)
    ensures val ==> |x.kids| == 1 + |Others(old(x.kids), tag)| && x.kids[1..] == Others(old(x.kids), tag)
    ensures val ==> x.kids[0].tag == tag && x.kids[0].text == "" && x.kids[0].kids == [] && fresh(x.kids[0])
  {
    hide Below, Chain, Depths, Texts, Links, Others, Tagged, Distinct, Families, Freed;
    if val {
      var y := new Node(tag, "");
      OwnedNew(S, x, y);
      R := Aset(S + {y}, x, y);
    } else {
      R := Adel(S, x, tag);
    }
  }

  lemma OwnedNew(S: set<Node>, x: Node, y: Node)
    requires Owned(S) && y !in S && x in S
    requires y.kids == [] && y.parent == null && y.first == null && y.rest == null
    ensures Owned(S + {y}) && !Below(S + {y}, x, y)
  {
    StaysInLine(S + {y}, x, y, S);
    assert Distinct(y.kids) && Chain(y.first, y.kids);
    hide Below, Distinct, Chain;
    NewFamily(S, y);
  }

  lemma NewFamily(S: set<Node>, y: Node)
    requires Families(S) && Depths(S) && Texts(S) && y !in S && y.kids == [] && y.parent == null && Distinct(y.kids)
    ensures Families(S + {y}) && Depths(S + {y}) && Texts(S + {y})
  {
    hide Distinct;
  }

  /** The first child with the tag. */
  method Aref(ghost S: set<Node>, x: Node, tag: string) returns (y: Node?, ghost i: nat)
    requires Owned(S) && x in S
    ensures y == null ==> forall k :: k in x.kids ==> k.tag != tag
    ensures y != null ==> i < |x.kids| && y == x.kids[i] && y.tag == tag && forall j :: 0 <= j < i ==> x.kids[j].tag != tag
  {
    Walk(S, x);
    y, i := null, 0;
    if x.text == "" {
      y := x.first;
      while y != null
        invariant i <= |x.kids| && y == if i < |x.kids| then x.kids[i] else null
        invariant forall j :: 0 <= j < i ==> x.kids[j].tag != tag
        decreases |x.kids| - i
      {
        if y.tag == tag {
          return;
        }
        y, i := y.rest, i + 1;
      }
    }
  }

  // ---- Sorting

  /** Links `ks` in the order of the sequence. */
  method LinkAll(x: Node, ks: seq<Node>)
    requires ks != [] && Distinct(ks)
    modifies x`first, ks`rest
    ensures Chain(x.first, ks)
  {
    var last := ks[0];
    x.first := last;
    var i := 1;
    while i < |ks|
      invariant 1 <= i <= |ks| && last == ks[i - 1] && x.first == ks[0]
      invariant forall j :: 0 <= j < i - 1 ==> ks[j].rest == ks[j + 1]
    {
      last.rest := ks[i];
      last := ks[i];
      i := i + 1;
    }
    last.rest := null;
  }

  lemma SameElements(ks: seq<Node>, ls: seq<Node>)
    requires Distinct(ks) && multiset(ls) == multiset(ks)
    ensures Distinct(ls)
    ensures (forall k :: k in ls ==> k in ks) && (forall k :: k in ks ==> k in ls)
  {
    forall k
      ensures k in ls <==> k in ks
    {
      assert k in multiset(ls) <==> k in multiset(ks);
    }
    forall i, j | 0 <= i < j < |ls|
      ensures ls[i] != ls[j]
    {
      if ls[i] == ls[j] {
        TwiceInMultiset(ls, i, j);
        OnceInMultiset(ks, ls[i]);
        assert false;
      }
    }
  }

  lemma TwiceInMultiset(ls: seq<Node>, i: nat, j: nat)
    requires i < j < |ls| && ls[i] == ls[j]
    ensures multiset(ls)[ls[i]] >= 2
  {
    assert ls == ls[..i] + [ls[i]] + ls[i + 1..j] + [ls[j]] + ls[j + 1..];
  }

  lemma {:induction false} OnceInMultiset(ks: seq<Node>, k: Node)
    requires Distinct(ks)
    ensures multiset(ks)[k] <= 1
  {
    if ks != [] {
      var rest := ks[1..];
      OnceInMultiset(rest, k);
      assert ks == [ks[0]] + rest;
      assert ks[0] !in rest;
      assert multiset(rest)[ks[0]] == 0;
    }
  }

  /** Relinks the same children into their stable sort. */
  method Sort(ghost S: set<Node>, x: Node, compare: (Node, Node) -> int) returns (r: Node?)
    requires Owned(S) && x in S && Consistent(Elements(x.kids), compare)
    modifies x`kids, x`first, x.kids`rest
    ensures Owned(S)
    ensures x.text != "" ==> r == null && x.kids == old(x.kids)
    ensures x.text == "" ==> r == x && x.kids == StableSort(old(x.kids), compare)
  {
    hide Consistent, Ordered, StableSort, Peers;
    hide Below, Depths, Texts, Chain;
    if x.text != "" {
      return null;
    }
    Walk(S, x);
    var list: seq<Node>, item := [], x.first;
    while item != null
      invariant |list| <= |x.kids| && list == x.kids[..|list|]
      invariant item == if |list| < |x.kids| then x.kids[|list|] else null
      decreases |x.kids| - |list|
    {
      list := list + [item];
      item := item.rest;
    }
    assert list == x.kids;
    var sorted := StableSort(list, compare);
    SortSorts(list, compare);
    if list != [] {
      assert |multiset(sorted)| == |sorted| && |multiset(list)| == |list|;
      Relink(S, x, sorted);
    }
    return x;
  }

  /** Links the children of `x` in another order. */
  method RelinkAll(ghost S: set<Node>, x: Node, ks: seq<Node>)
    requires Families(S) && Links(S) && x in S && ks != [] && Distinct(ks)
    requires (forall k :: k in ks ==> k in x.kids) && (forall k :: k in x.kids ==> k in ks)
    modifies x`first, x.kids`rest
    ensures Chain(x.first, ks)
    ensures forall z :: z in S && z != x ==> Chain(z.first, z.kids)
    ensures forall z :: z in S && z.parent == null ==> z.rest == null
  {
    hide Distinct, Chain;
    SiblingsApart(S, x);
    assert forall j :: 0 <= j < |ks| ==> ks[j] in x.kids;
    LinkAll(x, ks);
    forall z | z in S && z != x
      ensures Chain(z.first, z.kids)
    {
      assert old(Chain(z.first, z.kids));
      assert Apart(z.kids, x.kids);
    }
  }

  /** Gives `x` its children in the order of `ks`. */
  method Relink(ghost S: set<Node>, x: Node, ks: seq<Node>)
    requires Owned(S) && x in S && x.text == "" && ks != [] && multiset(ks) == multiset(x.kids)
    modifies x`kids, x`first, x.kids`rest
    ensures Owned(S) && x.kids == ks
  {
    SameElements(x.kids, ks);
    hide Below, Distinct, Depths, Texts, Chain, Families;
    RelinkAll(S, x, ks);
    Reorder(S, x, ks);
  }

  // ---- What association means

  /** Taking out a tag looks at each child on its own, so the others keep their order. */
  lemma {:induction false} OthersConcat(ks: seq<Node>, ls: seq<Node>, tag: string)
    ensures Others(ks + ls, tag) == Others(ks, tag) + Others(ls, tag)
  {
    if ls == [] {
      assert ks + ls == ks;
    } else {
      var m := |ls| - 1;
      var both := ks + ls;
      OthersConcat(ks, ls[..m], tag);
      assert both[..|both| - 1] == ks + ls[..m] && both[|both| - 1] == ls[m];
      assert Others(ks, tag) + (Others(ls[..m], tag) + [ls[m]]) == Others(ks, tag) + Others(ls[..m], tag) + [ls[m]];
    }
  }

  /** Taking out a tag twice, or one that is not there, changes nothing. */
  lemma OthersTwice(ks: seq<Node>, tag: string)
    requires forall k :: k in ks ==> k.tag != tag
    ensures Others(ks, tag) == ks
  {
    if ks != [] {
      OthersTwice(ks[..|ks| - 1], tag);
    }
  }

  /** Updating the same tag twice keeps the second value alone. */
  lemma UpdateTwice(ks: seq<Node>, a: Node, b: Node)
    requires a.tag == b.tag
    ensures [b] + Others([a] + Others(ks, a.tag), b.tag) == [b] + Others(ks, b.tag)
    ensures forall k :: k in [b] + Others(ks, b.tag) && k.tag == b.tag ==> k == b
  {
    OthersConcat([a], Others(ks, a.tag), b.tag);
    forall k | k in Others(ks, a.tag)
      ensures k.tag != a.tag
    {
      OthersMember(ks, a.tag, k);
    }
    OthersTwice(Others(ks, a.tag), b.tag);
    assert [a][..0] == [];
  }
}
