/** Comparing catalogue fields: equality up to white space. */
module Tokens {
  import opened Characters
  import opened Wrappers

  function OrEmpty(s: Option<string>): string {
    if s.Some? then s.value else ""
  }

  /** The words of `w + s`, where `w` is the beginning of a word. */
  function Split(s: string, w: string): seq<string> {
    if s == "" then (if w == "" then [] else [w])
    else if IsSpace(s[0]) then (if w == "" then [] else [w]) + Split(s[1..], "")
    else Split(s[1..], w + [s[0]])
  }

  function Words(s: string): seq<string> {
    Split(s, "")
  }

  function Key(s: Option<string>): seq<string> {
    Words(OrEmpty(s))
  }

  /** One blank between words. */
  function Unwords(ws: seq<string>): string {
    if ws == [] then "" else if |ws| == 1 then ws[0] else ws[0] + " " + Unwords(ws[1..])
  }

  predicate IsWord(w: string) {
    w != "" && forall c :: c in w ==> !IsSpace(c)
  }

  lemma {:induction false} SplitWord(w: string, s: string, v: string)
    requires forall c :: c in w ==> !IsSpace(c)
    ensures Split(w + s, v) == Split(s, v + w)
    decreases |w|
  {
    if w == "" {
      assert w + s == s && v + w == v;
    } else {
      SplitWord(w[1..], s, v + [w[0]]);
      assert (w + s)[1..] == w[1..] + s;
      assert v + [w[0]] + w[1..] == v + w;
    }
  }

  lemma {:induction false} SplitGivesWords(s: string, v: string)
    requires v == "" || IsWord(v)
    ensures forall w :: w in Split(s, v) ==> IsWord(w)
  {
    if s != "" {
      SplitGivesWords(s[1..], if IsSpace(s[0]) then "" else v + [s[0]]);
    }
  }

  lemma {:induction false} WordsOfUnwords(ws: seq<string>)
    requires forall w :: w in ws ==> IsWord(w)
    ensures Words(Unwords(ws)) == ws
  {
    if ws != [] {
      assert IsWord(ws[0]);
      var rest := if |ws| == 1 then "" else " " + Unwords(ws[1..]);
      assert Unwords(ws) == ws[0] + rest;
      SplitWord(ws[0], rest, "");
      assert "" + ws[0] == ws[0];
      if |ws| > 1 {
        WordsOfUnwords(ws[1..]);
        assert rest[1..] == Unwords(ws[1..]);
      }
    }
  }

  /** Two strings have the same words exactly when they become the same string once the
      ends are trimmed and each run of white space is one blank. */
  lemma SameWordsSameForm(a: string, b: string)
    ensures Words(a) == Words(b) <==> Unwords(Words(a)) == Unwords(Words(b))
    ensures Words(Unwords(Words(a))) == Words(a)
  {
    SplitGivesWords(a, "");
    SplitGivesWords(b, "");
    WordsOfUnwords(Words(a));
    WordsOfUnwords(Words(b));
  }

  // ---- The comparison

  /** White space between words does not matter. */
  lemma {:induction false} SkipSpace(s: string, i: nat)
    requires i < |s| && IsSpace(s[i])
    ensures Split(s[i..], "") == Split(s[i + 1..], "")
  {
    assert s[i..][1..] == s[i + 1..];
  }

  method SkipWhitespace(s: string, start: nat) returns (i: nat)
    requires start <= |s|
    ensures start <= i <= |s|
    ensures i < |s| ==> !IsSpace(s[i])
    ensures start < |s| && !IsSpace(s[start]) ==> i == start
    ensures Split(s[i..], "") == Split(s[start..], "")
  {
    i := start;
    while i < |s| && IsSpace(s[i])
      invariant start <= i <= |s| && (i > start ==> IsSpace(s[start]))
      invariant Split(s[i..], "") == Split(s[start..], "")
    {
      SkipSpace(s, i);
      i := i + 1;
    }
  }

  /** The word begun continues. */
  lemma {:induction false} SplitBegins(s: string, w: string)
    requires w != ""
    ensures Split(s, w) != [] && w <= Split(s, w)[0]
  {
    if s != "" && !IsSpace(s[0]) {
      SplitBegins(s[1..], w + [s[0]]);
    }
  }

  lemma SplitStep(s: string, i: nat, w: string)
    requires i < |s|
    ensures IsSpace(s[i]) ==> Split(s[i..], w) == (if w == "" then [] else [w]) + Split(s[i + 1..], "")
    ensures !IsSpace(s[i]) ==> Split(s[i..], w) == Split(s[i + 1..], w + [s[i]])
  {
    assert s[i..][1..] == s[i + 1..];
  }

  /** Where the strings differ, the words do. */
  lemma Differ(a: string, b: string, i: nat, j: nat, w: string)
    requires i < |a| && j < |b| && a[i] != b[j] && !(IsSpace(a[i]) && IsSpace(b[j]))
    requires w == "" ==> !IsSpace(a[i]) && !IsSpace(b[j])
    ensures Split(a[i..], w) != Split(b[j..], w)
  {
    SplitStep(a, i, w);
    SplitStep(b, j, w);
    if !IsSpace(a[i]) {
      SplitBegins(a[i + 1..], w + [a[i]]);
      assert Split(a[i..], w)[0][|w|] == a[i];
    }
    if !IsSpace(b[j]) {
      SplitBegins(b[j + 1..], w + [b[j]]);
      assert Split(b[j..], w)[0][|w|] == b[j];
    }
  }

  /** Once one string is at its end, only white space may be left of the other. */
  lemma AtEnd(s: string, i: nat, w: string)
    requires i <= |s| && (w == "" && i < |s| ==> !IsSpace(s[i]))
    ensures Split(s[i..], w) == Split("", w) <==> Split(s[i..], "") == []
  {
    if i < |s| {
      SplitStep(s, i, w);
      SplitStep(s, i, "");
      assert "" + [s[i]] == [s[i]];
      if !IsSpace(s[i]) {
        SplitBegins(s[i + 1..], w + [s[i]]);
        SplitBegins(s[i + 1..], [s[i]]);
      }
    }
  }

  lemma NothingLeft(s: string, i: nat)
    requires i <= |s| && (i < |s| ==> !IsSpace(s[i]))
    ensures Split(s[i..], "") == [] <==> i == |s|
  {
    if i < |s| {
      SplitStep(s, i, "");
      assert "" + [s[i]] == [s[i]];
      SplitBegins(s[i + 1..], [s[i]]);
    }
  }

  /** Past white space in both strings. */
  lemma BothSpaces(a: string, b: string, i: nat, j: nat, w: string)
    requires i < |a| && j < |b| && IsSpace(a[i]) && IsSpace(b[j])
    ensures Split(a[i..], w) == Split(b[j..], w) <==> Split(a[i + 1..], "") == Split(b[j + 1..], "")
  {
    SplitStep(a, i, w);
    SplitStep(b, j, w);
    hide Split;
    assert ([w] + Split(a[i + 1..], ""))[1..] == Split(a[i + 1..], "");
    assert ([w] + Split(b[j + 1..], ""))[1..] == Split(b[j + 1..], "");
    assert [] + Split(a[i + 1..], "") == Split(a[i + 1..], "");
    assert [] + Split(b[j + 1..], "") == Split(b[j + 1..], "");
  }

  /** Whether only white space is left. */
  method OnlySpaceLeft(s: string, start: nat) returns (r: bool)
    requires start <= |s|
    ensures r <==> Split(s[start..], "") == []
    ensures start < |s| && !IsSpace(s[start]) ==> !r
  {
    var i := SkipWhitespace(s, start);
    NothingLeft(s, i);
    return i == |s|;
  }

  /** What the comparison ends with. */
  lemma Compared(a: string, b: string, i: nat, j: nat, w: string)
    requires i == |a| || j == |b|
    requires i <= |a| && j <= |b|
    requires w == "" ==> (i < |a| ==> !IsSpace(a[i])) && (j < |b| ==> !IsSpace(b[j]))
    ensures Split(a[i..], w) == Split(b[j..], w) <==> Split(a[i..], "") == [] && Split(b[j..], "") == []
  {
    if i == |a| {
      assert a[i..] == "";
      AtEnd(b, j, w);
    } else {
      assert b[j..] == "";
      AtEnd(a, i, w);
    }
  }

  /** The same character in both strings continues the word. */
  lemma SameChar(a: string, b: string, i: nat, j: nat, w: string)
    requires i < |a| && j < |b| && a[i] == b[j] && !IsSpace(a[i])
    ensures Split(a[i..], w) == Split(a[i + 1..], w + [a[i]])
    ensures Split(b[j..], w) == Split(b[j + 1..], w + [a[i]])
  {
    SplitStep(a, i, w);
    SplitStep(b, j, w);
  }

  /** Walks through both strings as long as they agree. */
  method CommonPart(a: string, b: string) returns (i: nat, j: nat, ghost w: string)
    ensures i <= |a| && j <= |b|
    ensures Words(a) == Words(b) <==> Split(a[i..], w) == Split(b[j..], w)
    ensures w == "" ==> (i < |a| ==> !IsSpace(a[i])) && (j < |b| ==> !IsSpace(b[j]))
    ensures i < |a| && j < |b| ==> a[i] != b[j] && !(IsSpace(a[i]) && IsSpace(b[j]))
  {
    hide Split, IsSpace;
    assert a[0..] == a && b[0..] == b;
    i := SkipWhitespace(a, 0);
    j := SkipWhitespace(b, 0);
    w := "";
    while i < |a| && j < |b|
      invariant i <= |a| && j <= |b|
      invariant Words(a) == Words(b) <==> Split(a[i..], w) == Split(b[j..], w)
      invariant w == "" ==> (i < |a| ==> !IsSpace(a[i])) && (j < |b| ==> !IsSpace(b[j]))
      decreases |a| - i
    {
      if IsSpace(a[i]) && IsSpace(b[j]) {
        BothSpaces(a, b, i, j, w);
        i := SkipWhitespace(a, i + 1);
        j := SkipWhitespace(b, j + 1);
        w := "";
      } else if a[i] == b[j] {
        SameChar(a, b, i, j, w);
        w := w + [a[i]];
        i, j := i + 1, j + 1;
      } else {
        break;
      }
    }
  }

  /** True exactly when the words are the same; a missing string has none. */
  method TokensEqual(str1: Option<string>, str2: Option<string>) returns (r: bool)
    ensures r <==> Key(str1) == Key(str2)
  {
    hide Split, IsSpace;
    var a, b := OrEmpty(str1), OrEmpty(str2);
    var i, j, w := CommonPart(a, b);
    if i < |a| && j < |b| {
      Differ(a, b, i, j, w);
    } else {
      Compared(a, b, i, j, w);
    }
    var endA := OnlySpaceLeft(a, i);
    var endB := OnlySpaceLeft(b, j);
    return endA && endB;
  }
}
