/** Stable sorting by a comparison function, which yields no more than zero if its first
    argument may come before the second. */
module StableSorts {
  import opened Collections

  /** On `A` the comparison is a total preorder. */
  ghost predicate Consistent<T>(A: set<T>, compare: (T, T) -> int) {
    && (forall x, y :: x in A && y in A ==> compare(x, y) <= 0 || compare(y, x) <= 0)
    && (forall x, y, z :: x in A && y in A && z in A && compare(x, y) <= 0 && compare(y, z) <= 0 ==> compare(x, z) <= 0)
  }

  ghost predicate Ordered<T>(s: seq<T>, compare: (T, T) -> int) {
    forall i, j :: 0 <= i < j < |s| ==> compare(s[i], s[j]) <= 0
  }

  predicate Peer<T>(x: T, y: T, compare: (T, T) -> int) {
    compare(x, y) <= 0 && compare(y, x) <= 0
  }

  /** The elements that may come before and after `v`, in the order of `s`. */
  function Peers<T>(s: seq<T>, compare: (T, T) -> int, v: T): seq<T> {
    if s == [] then []
    else if Peer(s[0], v, compare) then [s[0]] + Peers(s[1..], compare, v)
    else Peers(s[1..], compare, v)
  }

  /** Before the first element that need not come earlier. */
  function Insert<T>(x: T, s: seq<T>, compare: (T, T) -> int): seq<T> {
    if s == [] || compare(x, s[0]) <= 0 then [x] + s else [s[0]] + Insert(x, s[1..], compare)
  }

  function StableSort<T>(s: seq<T>, compare: (T, T) -> int): seq<T> {
    if s == [] then [] else Insert(s[0], StableSort(s[1..], compare), compare)
  }

  // ---- The comparison

  lemma Either<T>(A: set<T>, compare: (T, T) -> int, x: T, y: T)
    requires Consistent(A, compare) && x in A && y in A
    ensures compare(x, y) <= 0 || compare(y, x) <= 0
  {
  }

  lemma Transitive<T>(A: set<T>, compare: (T, T) -> int, x: T, y: T, z: T)
    requires Consistent(A, compare) && x in A && y in A && z in A
    requires compare(x, y) <= 0 && compare(y, z) <= 0
    ensures compare(x, z) <= 0
  {
  }

  lemma OrderedCons<T>(x: T, s: seq<T>, compare: (T, T) -> int)
    ensures Ordered([x] + s, compare) <==> Ordered(s, compare) && forall y :: y in s ==> compare(x, y) <= 0
  {
    var xs := [x] + s;
    assert forall i :: 0 <= i < |s| ==> s[i] == xs[i + 1];
    if Ordered(xs, compare) {
      forall i, j | 0 <= i < j < |s|
        ensures compare(s[i], s[j]) <= 0
      {
        assert compare(xs[i + 1], xs[j + 1]) <= 0;
      }
      forall y | y in s
        ensures compare(x, y) <= 0
      {
        var i :| 0 <= i < |s| && s[i] == y;
        assert compare(xs[0], xs[i + 1]) <= 0;
      }
    }
  }

  // ---- What sorting does

  lemma {:induction false} InsertSame<T>(x: T, s: seq<T>, compare: (T, T) -> int)
    ensures multiset(Insert(x, s, compare)) == multiset([x] + s)
  {
    if s == [] || compare(x, s[0]) <= 0 {
    } else {
      InsertSame(x, s[1..], compare);
      assert [x] + s == [x] + [s[0]] + s[1..];
    }
  }

  lemma {:induction false} SortSame<T>(s: seq<T>, compare: (T, T) -> int)
    ensures multiset(StableSort(s, compare)) == multiset(s)
    ensures forall x :: x in StableSort(s, compare) ==> x in s
  {
    if s != [] {
      SortSame(s[1..], compare);
      InsertSame(s[0], StableSort(s[1..], compare), compare);
      assert s == [s[0]] + s[1..];
    }
    SameMembers(s, StableSort(s, compare));
  }

  lemma SameMembers<T>(s: seq<T>, t: seq<T>)
    requires multiset(s) == multiset(t)
    ensures forall x :: x in t ==> x in s
  {
    forall x | x in t
      ensures x in s
    {
      assert x in multiset(t);
    }
  }

  lemma {:induction false} InsertOrdered<T>(A: set<T>, x: T, s: seq<T>, compare: (T, T) -> int)
    requires Consistent(A, compare) && x in A && (forall y :: y in s ==> y in A) && Ordered(s, compare)
    ensures Ordered(Insert(x, s, compare), compare)
  {
    hide Consistent, Ordered;
    OrderedCons(x, s, compare);
    if s != [] {
      var head, rest := s[0], s[1..];
      assert s == [head] + rest;
      OrderedCons(head, rest, compare);
      if compare(x, head) <= 0 {
        forall y | y in s
          ensures compare(x, y) <= 0
        {
          if y != head {
            Transitive(A, compare, x, head, y);
          }
        }
      } else {
        Either(A, compare, x, head);
        InsertOrdered(A, x, rest, compare);
        InsertSame(x, rest, compare);
        SameMembers([x] + rest, Insert(x, rest, compare));
        OrderedCons(head, Insert(x, rest, compare), compare);
      }
    }
  }

  lemma {:induction false} InsertStable<T>(A: set<T>, x: T, s: seq<T>, compare: (T, T) -> int, v: T)
    requires Consistent(A, compare) && x in A && v in A && forall y :: y in s ==> y in A
    ensures Peers(Insert(x, s, compare), compare, v) == Peers([x] + s, compare, v)
  {
    hide Consistent;
    assert ([x] + s)[1..] == s;
    if s == [] || compare(x, s[0]) <= 0 {
    } else {
      var rest := s[1..];
      InsertStable(A, x, rest, compare, v);
      assert ([x] + rest)[1..] == rest;
      assert ([s[0]] + Insert(x, rest, compare))[1..] == Insert(x, rest, compare);
      if Peer(x, v, compare) && Peer(s[0], v, compare) {
        Transitive(A, compare, x, v, s[0]);
        assert false;
      }
    }
  }

  lemma {:induction false} SortOrders<T>(A: set<T>, s: seq<T>, compare: (T, T) -> int)
    requires Consistent(A, compare) && forall y :: y in s ==> y in A
    ensures Ordered(StableSort(s, compare), compare)
  {
    if s != [] {
      hide Consistent, Ordered;
      SortOrders(A, s[1..], compare);
      SortSame(s[1..], compare);
      assert forall y :: y in s[1..] ==> y in s;
      InsertOrdered(A, s[0], StableSort(s[1..], compare), compare);
    }
  }

  lemma {:induction false} SortKeepsPeers<T>(A: set<T>, s: seq<T>, compare: (T, T) -> int, v: T)
    requires Consistent(A, compare) && v in A && forall y :: y in s ==> y in A
    ensures Peers(StableSort(s, compare), compare, v) == Peers(s, compare, v)
  {
    hide Consistent;
    if s != [] {
      var sorted := StableSort(s[1..], compare);
      SortKeepsPeers(A, s[1..], compare, v);
      SortSame(s[1..], compare);
      assert forall y :: y in s[1..] ==> y in s;
      InsertStable(A, s[0], sorted, compare, v);
      assert ([s[0]] + sorted)[1..] == sorted;
    }
  }

  /** The result is in order, holds the same elements, and keeps the order of peers. */
  lemma SortSorts<T>(s: seq<T>, compare: (T, T) -> int)
    requires Consistent(Elements(s), compare)
    ensures Ordered(StableSort(s, compare), compare)
    ensures multiset(StableSort(s, compare)) == multiset(s)
    ensures forall v :: v in s ==> Peers(StableSort(s, compare), compare, v) == Peers(s, compare, v)
  {
    hide Consistent, Ordered, StableSort, Peers;
    SortSame(s, compare);
    SortOrders(Elements(s), s, compare);
    forall v | v in s
      ensures Peers(StableSort(s, compare), compare, v) == Peers(s, compare, v)
    {
      SortKeepsPeers(Elements(s), s, compare, v);
    }
  }

  // ---- There is only one stable sort

  lemma {:induction false} PeersMember<T>(s: seq<T>, compare: (T, T) -> int, v: T, x: T)
    ensures x in Peers(s, compare, v) <==> x in s && Peer(x, v, compare)
  {
    if s != [] {
      PeersMember(s[1..], compare, v, x);
    }
  }

  /** The first element of `t` may come before the first of `s`. */
  lemma HeadBound<T>(A: set<T>, s: seq<T>, t: seq<T>, compare: (T, T) -> int)
    requires Consistent(A, compare) && Ordered(t, compare) && s != [] && s[0] in A
    requires Peers(t, compare, s[0]) == Peers(s, compare, s[0])
    ensures t != [] && compare(t[0], s[0]) <= 0
  {
    hide Consistent;
    Either(A, compare, s[0], s[0]);
    PeersMember(s, compare, s[0], s[0]);
    PeersMember(t, compare, s[0], s[0]);
  }

  lemma PeersTail<T>(s: seq<T>, compare: (T, T) -> int, v: T)
    requires s != []
    ensures Peers(s[1..], compare, v) ==
            if Peer(s[0], v, compare) then Peers(s, compare, v)[1..] else Peers(s, compare, v)
  {
  }

  /** Stable sorts begin with the same element. */
  lemma SameHead<T>(A: set<T>, s: seq<T>, t: seq<T>, compare: (T, T) -> int)
    requires Consistent(A, compare) && Ordered(s, compare) && Ordered(t, compare)
    requires s != [] && t != [] && s[0] in A && t[0] in A
    requires forall v :: v in s || v in t ==> Peers(s, compare, v) == Peers(t, compare, v)
    ensures s[0] == t[0]
  {
    hide Consistent, Ordered;
    assert s[0] in s && t[0] in t;
    HeadBound(A, s, t, compare);
    HeadBound(A, t, s, compare);
    Either(A, compare, s[0], s[0]);
    assert Peers(s, compare, s[0])[0] == s[0] && Peers(t, compare, s[0])[0] == t[0];
  }

  lemma {:induction false} SameThroughout<T>(A: set<T>, s: seq<T>, t: seq<T>, compare: (T, T) -> int)
    requires Consistent(A, compare) && (forall v :: v in s ==> v in A) && (forall v :: v in t ==> v in A)
    requires Ordered(s, compare) && Ordered(t, compare)
    requires forall v :: v in s || v in t ==> Peers(s, compare, v) == Peers(t, compare, v)
    ensures s == t
    decreases |s|
  {
    hide Consistent, Ordered;
    if s == [] || t == [] {
      if s != [] {
        HeadBound(A, s, t, compare);
      }
      if t != [] {
        HeadBound(A, t, s, compare);
      }
    } else {
      SameHead(A, s, t, compare);
      assert s == [s[0]] + s[1..] && t == [t[0]] + t[1..];
      OrderedCons(s[0], s[1..], compare);
      OrderedCons(t[0], t[1..], compare);
      forall v | v in s[1..] || v in t[1..]
        ensures Peers(s[1..], compare, v) == Peers(t[1..], compare, v)
      {
        PeersTail(s, compare, v);
        PeersTail(t, compare, v);
      }
      SameThroughout(A, s[1..], t[1..], compare);
    }
  }

  /** Whatever algorithm sorts stably, the result is the same. */
  lemma SortIsUnique<T>(s: seq<T>, t: seq<T>, compare: (T, T) -> int)
    requires Consistent(Elements(s), compare)
    requires Ordered(t, compare) && multiset(t) == multiset(s)
    requires forall v :: v in s ==> Peers(t, compare, v) == Peers(s, compare, v)
    ensures t == StableSort(s, compare)
  {
    hide Consistent, Ordered, StableSort, Peers;
    var sorted := StableSort(s, compare);
    SortSorts(s, compare);
    SameMembers(s, t);
    SameMembers(s, sorted);
    SameThroughout(Elements(s), t, sorted, compare);
  }
}
