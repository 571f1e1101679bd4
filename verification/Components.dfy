/** Comparing the component lists of two catalogues as sets. */
module Components {
  import opened Characters
  import opened Collections
  import opened Wrappers
  import opened Tokens

  function Chug(s: string): string {
    if s != "" && IsStripped(s[0]) then Chug(s[1..]) else s
  }

  function Chomp(s: string): string {
    if s != "" && IsStripped(s[|s| - 1]) then Chomp(s[..|s| - 1]) else s
  }

  function Strip(s: string): string {
    Chomp(Chug(s))
  }

  /** Cuts at each blank; `piece` is what came since the last one. */
  function SplitBlanks(s: string, piece: string): seq<string> {
    if s == "" then [piece]
    else if s[0] == ' ' then [piece] + SplitBlanks(s[1..], "")
    else SplitBlanks(s[1..], piece + [s[0]])
  }

  /** The list of components, or none. */
  function ComponentsArray(components: Option<string>): Option<seq<string>> {
    if components.None? || Strip(components.value) == "" then None
    else Some(SplitBlanks(Strip(components.value), ""))
  }

  function Stripped(cs: seq<string>): (r: seq<string>)
    ensures |r| == |cs| && forall i :: 0 <= i < |cs| ==> r[i] == Strip(cs[i])
  {
    seq(|cs|, i requires 0 <= i < |cs| => Strip(cs[i]))
  }

  /** The longer list is included in the shorter one; of two equally long ones the first
      counts as the longer. */
  ghost predicate LongerInShorter(a: seq<string>, b: seq<string>) {
    if |a| < |b| then Elements(b) <= Elements(a) else Elements(a) <= Elements(b)
  }

  method InComponents(comp: string, comps: seq<string>) returns (found: bool)
    ensures found <==> Strip(comp) in Stripped(comps)
  {
    var j := 0;
    found := false;
    while j < |comps|
      invariant j <= |comps| && forall k :: 0 <= k < j ==> Strip(comps[k]) != Strip(comp)
    {
      if Strip(comps[j]) == Strip(comp) {
        assert Stripped(comps)[j] == Strip(comp);
        return true;
      }
      j := j + 1;
    }
  }

  /** Both have no components, or both have some and the longer list is included in the
      shorter. */
  method ComponentsEqual(components1: Option<string>, components2: Option<string>) returns (result: bool)
    ensures result <==>
            var a, b := ComponentsArray(components1), ComponentsArray(components2);
            if a.Some? && b.Some? then LongerInShorter(Stripped(a.value), Stripped(b.value)) else a.None? && b.None?
  {
    var a, b := ComponentsArray(components1), ComponentsArray(components2);
    if a.None? && b.None? {
      return true;
    }
    result := false;
    if a.Some? && b.Some? {
      var comps1, comps2 := a.value, b.value;
      if |comps1| < |comps2| {
        comps1, comps2 := comps2, comps1;
      }
      result := true;
      var i := 0;
      while i < |comps1|
        invariant i <= |comps1|
        invariant forall k :: 0 <= k < i ==> Stripped(comps1)[k] in Elements(Stripped(comps2))
      {
        var found := InComponents(comps1[i], comps2);
        if !found {
          assert Stripped(comps1)[i] in Elements(Stripped(comps1));
          return false;
        }
        i := i + 1;
      }
    }
  }

  // ---- Stripping

  lemma {:induction false} ChugWords(s: string)
    ensures Words(Chug(s)) == Words(s)
  {
    if s != "" && IsStripped(s[0]) {
      ChugWords(s[1..]);
      assert Split(s, "") == [] + Split(s[1..], "");
    }
  }

  lemma {:induction false} TrailingSpace(s: string, c: char, w: string)
    requires IsSpace(c)
    ensures Split(s + [c], w) == Split(s, w)
    decreases |s|
  {
    if s == "" {
      assert s + [c] == [c] && [c][1..] == "" && Split([c][1..], "") == [];
    } else {
      assert (s + [c])[1..] == s[1..] + [c] && (s + [c])[0] == s[0];
      TrailingSpace(s[1..], c, if IsSpace(s[0]) then "" else w + [s[0]]);
    }
  }

  lemma {:induction false} ChompWords(s: string)
    ensures Words(Chomp(s)) == Words(s)
    decreases |s|
  {
    if s != "" && IsStripped(s[|s| - 1]) {
      var init, last := s[..|s| - 1], s[|s| - 1];
      ChompWords(init);
      TrailingSpace(init, last, "");
      assert s == init + [last];
    }
  }

  /** Stripping does not change the words. */
  lemma StripWords(s: string)
    ensures Words(Strip(s)) == Words(s)
  {
    ChugWords(s);
    ChompWords(Chug(s));
  }

  // ---- When the test compares sets

  /** The longer list names a proper part of what the shorter one names. */
  ghost predicate LongerIsPart(a: seq<string>, b: seq<string>) {
    if |a| < |b| then Elements(b) < Elements(a) else Elements(a) < Elements(b)
  }

  lemma PartTakesDuplicate(longer: seq<string>, shorter: seq<string>)
    requires |shorter| <= |longer| && Elements(longer) <= Elements(shorter)
    requires |shorter| < |longer| || Elements(longer) != Elements(shorter)
    ensures !Distinct(longer)
  {
    ElementsCount(longer);
    ElementsCount(shorter);
    SubsetCount(Elements(longer), Elements(shorter));
  }

  /** The test misses a difference exactly when the longer list names a proper part of the
      shorter one, which takes a component that the longer one names twice. */
  lemma WhenDifferencesAreMissed(a: seq<string>, b: seq<string>)
    ensures LongerInShorter(a, b) && Elements(a) != Elements(b) <==> LongerIsPart(a, b)
    ensures LongerIsPart(a, b) ==> !Distinct(if |a| < |b| then b else a)
  {
    if LongerIsPart(a, b) {
      PartTakesDuplicate(if |a| < |b| then b else a, if |a| < |b| then a else b);
    }
  }

  /** The answer depends on which list comes first exactly when both are equally long and
      one names a proper part of what the other names, which takes a duplicate. */
  lemma WhenOrderMatters(a: seq<string>, b: seq<string>)
    ensures LongerInShorter(a, b) != LongerInShorter(b, a) <==>
            |a| == |b| && (Elements(a) < Elements(b) || Elements(b) < Elements(a))
    ensures LongerInShorter(a, b) != LongerInShorter(b, a) ==> !Distinct(if LongerInShorter(a, b) then a else b)
  {
    if LongerInShorter(a, b) != LongerInShorter(b, a) {
      PartTakesDuplicate(if LongerInShorter(a, b) then a else b, if LongerInShorter(a, b) then b else a);
    }
  }

  /** The longer of the outer lists has a component that the other lacks.  The one in the
      middle is longer than the first, no shorter than the last, and named by both; or it is
      no longer than the first, shorter than the last, and names all that both do. */
  ghost predicate MiddleMisleads(a: seq<string>, b: seq<string>, c: seq<string>) {
    && !LongerInShorter(a, c)
    && if |a| < |b| then |c| <= |b| && Elements(b) <= Elements(a) * Elements(c)
       else |b| < |c| && Elements(a) + Elements(c) <= Elements(b)
  }

  /** Two steps fail to make a third exactly when the list in the middle misleads.  So lists
      whose lengths rise or fall are compared transitively, and so are lists without
      duplicates. */
  lemma WhenStepsDoNotCompose(a: seq<string>, b: seq<string>, c: seq<string>)
    ensures LongerInShorter(a, b) && LongerInShorter(b, c) && !LongerInShorter(a, c) <==>
            MiddleMisleads(a, b, c)
    ensures MiddleMisleads(a, b, c) ==> !Distinct(if |a| < |b| then b else c)
  {
    hide Distinct;
    if MiddleMisleads(a, b, c) {
      if |a| < |b| {
        PartTakesDuplicate(b, a);
      } else {
        PartTakesDuplicate(c, b);
      }
    }
  }

  // ---- Lists as they are written

  /** A component: not empty, without white space. */
  predicate IsComponent(w: string) {
    w != "" && forall c :: c in w ==> !IsStripped(c)
  }

  lemma {:induction false} SplitPiece(w: string, s: string, piece: string)
    requires ' ' !in w
    ensures SplitBlanks(w + s, piece) == SplitBlanks(s, piece + w)
    decreases |w|
  {
    if w == "" {
      assert w + s == s && piece + w == piece;
    } else {
      SplitPiece(w[1..], s, piece + [w[0]]);
      assert (w + s)[1..] == w[1..] + s;
      assert piece + [w[0]] + w[1..] == piece + w;
    }
  }

  lemma {:induction false} SplitJoined(cs: seq<string>)
    requires cs != [] && forall c :: c in cs ==> IsComponent(c)
    ensures SplitBlanks(Unwords(cs), "") == cs
    ensures Unwords(cs) != "" && !IsStripped(Unwords(cs)[0]) && !IsStripped(Unwords(cs)[|Unwords(cs)| - 1])
  {
    assert IsComponent(cs[0]);
    var rest := if |cs| == 1 then "" else " " + Unwords(cs[1..]);
    assert Unwords(cs) == cs[0] + rest;
    assert ' ' !in cs[0] by {
      assert IsStripped(' ');
    }
    SplitPiece(cs[0], rest, "");
    assert "" + cs[0] == cs[0];
    if |cs| > 1 {
      SplitJoined(cs[1..]);
      assert rest[1..] == Unwords(cs[1..]);
      assert Unwords(cs)[|Unwords(cs)| - 1] == rest[|rest| - 1] == Unwords(cs[1..])[|Unwords(cs[1..])| - 1];
    }
  }

  /** A list of components separated by single blanks is read as written. */
  lemma JoinedIsRead(cs: seq<string>)
    requires cs != [] && forall c :: c in cs ==> IsComponent(c)
    ensures ComponentsArray(Some(Unwords(cs))) == Some(cs) && Stripped(cs) == cs
  {
    SplitJoined(cs);
    forall i | 0 <= i < |cs|
      ensures Strip(cs[i]) == cs[i]
    {
      assert IsComponent(cs[i]);
    }
  }

  /** For lists without duplicates the test is set equality: as many distinct components
      included in no more places fill all of them. */
  lemma SameComponents(a: seq<string>, b: seq<string>)
    requires a != [] && b != []
    requires (forall c :: c in a ==> IsComponent(c)) && (forall c :: c in b ==> IsComponent(c))
    requires Distinct(a) && Distinct(b)
    ensures var p, q := ComponentsArray(Some(Unwords(a))), ComponentsArray(Some(Unwords(b)));
            p.Some? && q.Some? &&
            (LongerInShorter(Stripped(p.value), Stripped(q.value)) <==> Elements(a) == Elements(b))
  {
    JoinedIsRead(a);
    JoinedIsRead(b);
    WhenDifferencesAreMissed(a, b);
  }

  /** Such lists exist. */
  lemma DuplicatesBreakSymmetry()
    ensures var a, b := ComponentsArray(Some("free free")), ComponentsArray(Some("free user"));
            a.Some? && b.Some? &&
            LongerInShorter(Stripped(a.value), Stripped(b.value)) && !LongerInShorter(Stripped(b.value), Stripped(a.value))
  {
    var a, b := ["free", "free"], ["free", "user"];
    assert Unwords(a) == "free free" && Unwords(b) == "free user";
    JoinedIsRead(a);
    JoinedIsRead(b);
    assert a[0] in Elements(a) && a[0] in Elements(b);
    assert b[1] in Elements(b);
    assert "user"[0] != "free"[0];
  }

  /** Lists for which two steps do not make a third. */
  lemma DuplicatesBreakTransitivity()
    ensures var a, b, c := ComponentsArray(Some("x x x")), ComponentsArray(Some("x y")), ComponentsArray(Some("y y y"));
            && a.Some? && b.Some? && c.Some?
            && LongerInShorter(Stripped(a.value), Stripped(b.value))
            && LongerInShorter(Stripped(b.value), Stripped(c.value))
            && !LongerInShorter(Stripped(a.value), Stripped(c.value))
  {
    hide ComponentsArray, Stripped, LongerInShorter;
    var a, b, c := ["x", "x", "x"], ["x", "y"], ["y", "y", "y"];
    WordThrice("x");
    WordThrice("y");
    assert Unwords(a) == "x x x" && Unwords(b) == "x y" && Unwords(c) == "y y y";
    JoinedIsRead(a);
    JoinedIsRead(b);
    JoinedIsRead(c);
    MiddleOfThree("x", "y");
  }

  lemma WordThrice(x: string)
    ensures Unwords([x, x, x]) == x + " " + (x + " " + x)
  {
    assert [x, x, x][1..] == [x, x] && [x, x][1..] == [x];
    assert Unwords([x, x]) == x + " " + x;
  }

  lemma MiddleOfThree(x: string, y: string)
    requires x != y
    ensures LongerInShorter([x, x, x], [x, y]) && LongerInShorter([x, y], [y, y, y])
    ensures !LongerInShorter([x, x, x], [y, y, y])
  {
    assert [x, y][0] == x && [x, y][1] == y;
    assert [x, x, x][0] in Elements([x, x, x]) && x !in Elements([y, y, y]);
  }
}
