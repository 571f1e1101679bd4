/** Cleaning up a package description in place. */
module Descriptions {

  /** Where the first line ends. */
  function LineEnd(s: string): (n: nat)
    ensures n <= |s| && '\n' !in s[..n] && (n < |s| ==> s[n] == '\n')
  {
    if s == "" || s[0] == '\n' then 0 else 1 + LineEnd(s[1..])
  }

  /** A line without its first blank. */
  function Dedent(line: string): string {
    if line != "" && line[0] == ' ' then line[1..] else line
  }

  /** Each line loses its first blank, and a line " ." that ends in a newline its dot. */
  function Tidy(s: string): string
    decreases |s|
  {
    var e := LineEnd(s);
    if e == |s| then Dedent(s)
    else (if s[..e] == " ." then "" else Dedent(s[..e])) + "\n" + Tidy(s[e + 1..])
  }

  /** What the clean-up computes: while nothing has been dropped, a dot stays. */
  function Nicify(s: string, dropped: bool): string
    decreases |s|
  {
    var e := LineEnd(s);
    if e == |s| then Dedent(s)
    else
      (if s[..e] == " ." && dropped then "" else Dedent(s[..e])) + "\n" +
      Nicify(s[e + 1..], dropped || Dedent(s[..e]) != s[..e])
  }

  lemma {:induction false} LineEndIs(s: string, n: nat)
    requires n <= |s| && '\n' !in s[..n] && (n < |s| ==> s[n] == '\n')
    ensures LineEnd(s) == n
  {
    if n > 0 {
      assert s[..n][0] == s[0] && s[1..][..n - 1] == s[..n][1..];
      LineEndIs(s[1..], n - 1);
    }
  }

  // ---- In place

  /** Within a line: what is left of `s` is in place, and the line so far has been moved to
      `base`. */
  ghost predicate Inside(a: array<char>, s: string, base: nat, bol: nat, dst: nat, src: nat)
    reads a
  {
    && base <= bol <= src <= |s| < a.Length && base <= dst <= src
    && '\n' !in s[bol..src]
    && a[dst..|s|] == s[dst..] && a[|s|] == '\0'
    && a[base..dst] == Dedent(s[bol..src])
  }

  /** The test for a line " ." sees the blank exactly when the line has been moved. */
  lemma DotTest(a: array<char>, s: string, base: nat, bol: nat, dst: nat, src: nat)
    requires Inside(a, s, base, bol, dst, src) && bol + 2 == src
    ensures (a[bol] == ' ' && a[bol + 1] == '.') <==> (s[bol..src] == " ." && base < bol)
  {
    var line := s[bol..src];
    var body := Dedent(line);
    assert line == [s[bol], s[bol + 1]];
    assert dst == base + |body|;
    assert forall i :: base <= i < dst ==> a[i] == a[base..dst][i - base];
    assert forall i :: dst <= i < |s| ==> a[i] == a[dst..|s|][i - dst] == s[i];
  }

  /** The end of a line. */
  lemma LineDone(s: string, bol: nat, src: nat, dropped: bool)
    requires bol <= src < |s| && '\n' !in s[bol..src] && s[src] == '\n'
    ensures Nicify(s[bol..], dropped) ==
            (if s[bol..src] == " ." && dropped then "" else Dedent(s[bol..src])) + "\n" +
            Nicify(s[src + 1..], dropped || Dedent(s[bol..src]) != s[bol..src])
  {
    var t := s[bol..];
    assert t[..src - bol] == s[bol..src] && t[src - bol + 1..] == s[src + 1..];
    LineEndIs(t, src - bol);
  }

  lemma LastLine(s: string, bol: nat, dropped: bool)
    requires bol <= |s| && '\n' !in s[bol..]
    ensures Nicify(s[bol..], dropped) == Dedent(s[bol..])
  {
    var t := s[bol..];
    assert t[..|t|] == t;
    LineEndIs(t, |t|);
  }

  /** One more character of a line. */
  lemma LineGrows(s: string, bol: nat, src: nat)
    requires bol <= src < |s|
    ensures s[bol..src + 1] == s[bol..src] + [s[src]]
    ensures Dedent(s[bol..src + 1]) == if src == bol && s[src] == ' ' then "" else Dedent(s[bol..src]) + [s[src]]
  {
  }

  /** Moves a character within a line. */
  method MoveChar(a: array<char>, ghost s: string, ghost base: nat, ghost bol: nat, dst: nat, src: nat)
    requires Inside(a, s, base, bol, dst, src) && src < |s|
    requires s[src] != '\n' && !(src == bol && s[src] == ' ')
    modifies a
    ensures Inside(a, s, base, bol, dst + 1, src + 1)
    ensures a[..base] == old(a[..base]) && forall i :: |s| < i < a.Length ==> a[i] == old(a[i])
  {
    LineGrows(s, bol, src);
    DedentShorter(s[bol..src]);
    ghost var body := a[base..dst];
    assert src >= dst && a[src] == a[dst..|s|][src - dst] == s[src];
    ghost var rest := a[dst..|s|];
    a[dst] := a[src];
    assert a[base..dst + 1] == body + [s[src]];
    assert a[dst + 1..|s|] == rest[1..];
  }

  lemma DedentShorter(line: string)
    ensures |Dedent(line)| <= |line|
  {
  }

  /** Ends a line, without its dot if it is " ." and has been moved. */
  method MoveNewline(a: array<char>, ghost s: string, ghost base: nat, bol: nat, dst: nat, src: nat) returns (end: nat)
    requires Inside(a, s, base, bol, dst, src) && src < |s| && s[src] == '\n'
    modifies a
    ensures Inside(a, s, end, src + 1, end, src + 1)
    ensures a[..end] == old(a[..base]) + (if s[bol..src] == " ." && base < bol then "" else Dedent(s[bol..src])) + "\n"
    ensures forall i :: |s| < i < a.Length ==> a[i] == old(a[i])
  {
    end := dst;
    ghost var line := s[bol..src];
    assert a[src] == a[dst..|s|][src - dst] == s[src];
    ghost var before := a[..base];
    assert a[..dst] == before + Dedent(line);
    if bol + 2 == src {
      DotTest(a, s, base, bol, dst, src);
      if a[bol] == ' ' && a[bol + 1] == '.' {
        end := end - 1;
        assert Dedent(line) == ".";
      }
    }
    ghost var kept := a[..end];
    ghost var rest := a[dst..|s|];
    a[end] := a[src];
    end := end + 1;
    assert a[..end] == kept + "\n";
    assert a[end..|s|] == if end == dst then rest else rest[1..];
  }

  lemma EmptyLine(s: string)
    ensures Dedent(s[0..0]) == ""
  {
  }

  lemma CurrentChar(a: array<char>, s: string, base: nat, bol: nat, dst: nat, src: nat)
    requires Inside(a, s, base, bol, dst, src) && '\0' !in s
    ensures a[src] == '\0' <==> src == |s|
    ensures src < |s| ==> a[src] == s[src]
  {
    assert src < |s| ==> a[src] == a[dst..|s|][src - dst];
  }

  /** Something has been dropped once the line ends before its original place. */
  lemma Dropped(s: string, base: nat, bol: nat, src: nat)
    requires base <= bol <= src <= |s|
    ensures var line := s[bol..src];
            (base < bol || Dedent(line) != line) <==>
            base + |if line == " ." && base < bol then "" else Dedent(line)| < src
  {
  }

  /** Ends a line; what is done and what is to be done stay together what they were. */
  method EndLine(a: array<char>, ghost s: string, ghost base: nat, bol: nat, dst: nat, src: nat) returns (end: nat)
    requires Inside(a, s, base, bol, dst, src) && src < |s| && s[src] == '\n'
    modifies a
    ensures Inside(a, s, end, src + 1, end, src + 1)
    ensures a[..end] + Nicify(s[src + 1..], end < src + 1) == old(a[..base]) + Nicify(s[bol..], base < bol)
    ensures forall i :: |s| < i < a.Length ==> a[i] == old(a[i])
  {
    hide Nicify, Dedent, LineEnd;
    LineDone(s, bol, src, base < bol);
    Dropped(s, base, bol, src);
    ghost var before := a[..base];
    ghost var out := if s[bol..src] == " ." && base < bol then "" else Dedent(s[bol..src]);
    ghost var rest := Nicify(s[src + 1..], base < bol || Dedent(s[bol..src]) != s[bol..src]);
    end := MoveNewline(a, s, base, bol, dst, src);
    assert (before + out + "\n") + rest == before + (out + "\n" + rest);
  }

  lemma AllMoved(a: array<char>, s: string, base: nat, bol: nat, dst: nat)
    requires Inside(a, s, base, bol, dst, |s|)
    ensures a[..dst] == a[..base] + Nicify(s[bol..], base < bol)
  {
    assert s[bol..] == s[bol..|s|];
    LastLine(s, bol, base < bol);
    assert a[..dst] == a[..base] + a[base..dst];
  }

  /** Cleans up the string that ends at the first NUL. */
  method NicifyString(a: array<char>, ghost s: string)
    requires |s| < a.Length && a[..|s|] == s && '\0' !in s && a[|s|] == '\0'
    modifies a
    ensures var r := Nicify(s, false);
            |r| <= |s| && a[..|r|] == r && a[|r|] == '\0'
    ensures forall i :: |s| < i < a.Length ==> a[i] == old(a[i])
  {
    hide Nicify, Dedent, LineEnd;
    var src: nat, dst: nat, bol: nat := 0, 0, 0;
    ghost var base: nat := 0;
    assert s[0..] == s && Inside(a, s, base, bol, dst, src) by {
      EmptyLine(s);
    }
    while a[src] != '\0'
      invariant Inside(a, s, base, bol, dst, src)
      invariant a[..base] + Nicify(s[bol..], base < bol) == Nicify(s, false)
      invariant forall i :: |s| < i < a.Length ==> a[i] == old(a[i])
      decreases |s| - src
    {
      CurrentChar(a, s, base, bol, dst, src);
      if src == bol && a[src] == ' ' {
        LineGrows(s, bol, src);
        src := src + 1;
      } else if a[src] == '\n' {
        dst := EndLine(a, s, base, bol, dst, src);
        src := src + 1;
        bol, base := src, dst;
      } else {
        MoveChar(a, s, base, bol, dst, src);
        src, dst := src + 1, dst + 1;
      }
    }
    CurrentChar(a, s, base, bol, dst, src);
    AllMoved(a, s, base, bol, dst);
    a[dst] := '\0';
  }

  /** The same; a missing description is left alone. */
  method NicifyDescriptionInPlace(desc: array?<char>, ghost s: string)
    requires desc != null ==> |s| < desc.Length && desc[..|s|] == s && '\0' !in s && desc[|s|] == '\0'
    modifies desc
    ensures desc != null ==>
              var r := Nicify(s, false);
              |r| <= |s| && desc[..|r|] == r && desc[|r|] == '\0'
    ensures desc != null ==> forall i :: |s| < i < desc.Length ==> desc[i] == old(desc[i])
  {
    if desc != null {
      NicifyString(desc, s);
    }
  }

  // ---- Line by line

  function Lines(s: string): (r: seq<string>)
    ensures r != []
    decreases |s|
  {
    var e := LineEnd(s);
    if e == |s| then [s] else [s[..e]] + Lines(s[e + 1..])
  }

  lemma LinesOfLine(line: string, rest: string)
    requires '\n' !in line
    ensures Lines(line + "\n" + rest) == [line] + Lines(rest)
    ensures Lines(line) == [line]
  {
    var s := line + "\n" + rest;
    assert s[..|line|] == line && s[|line| + 1..] == rest && s[|line|] == '\n';
    LineEndIs(s, |line|);
    assert line[..|line|] == line;
    LineEndIs(line, |line|);
  }

  predicate Led(line: string) {
    line != "" && line[0] == ' '
  }

  /** A line with a blank in front of it comes before line `i`. */
  predicate LedBefore(lines: seq<string>, i: nat)
    requires i <= |lines|
  {
    exists j :: 0 <= j < i && Led(lines[j])
  }

  /** What becomes of line `i`; `dropped` says whether a blank was dropped before them all. */
  function TidyLine(lines: seq<string>, i: nat, dropped: bool): string
    requires i < |lines|
  {
    if i < |lines| - 1 && lines[i] == " ." && (dropped || LedBefore(lines, i)) then "" else Dedent(lines[i])
  }

  lemma TidyFirst(line: string, tail: seq<string>, dropped: bool)
    requires tail != []
    ensures TidyLine([line] + tail, 0, dropped) == if line == " ." && dropped then "" else Dedent(line)
  {
  }

  lemma TidyLater(line: string, tail: seq<string>, i: nat, dropped: bool)
    requires 1 <= i <= |tail|
    ensures TidyLine([line] + tail, i, dropped) == TidyLine(tail, i - 1, dropped || Dedent(line) != line)
  {
    LedBeforeTail(line, tail, i);
    LedIsDropped(line);
  }

  lemma TidyAll(line: string, tail: seq<string>, after: seq<string>, dropped: bool)
    requires tail != [] && |after| == |tail|
    requires forall i :: 0 <= i < |tail| ==> after[i] == TidyLine(tail, i, dropped || Dedent(line) != line)
    ensures var out := if line == " ." && dropped then "" else Dedent(line);
            forall i :: 0 <= i < |tail| + 1 ==> ([out] + after)[i] == TidyLine([line] + tail, i, dropped)
  {
    hide Dedent, TidyLine;
    TidyFirst(line, tail, dropped);
    forall i | 1 <= i <= |tail|
      ensures TidyLine([line] + tail, i, dropped) == TidyLine(tail, i - 1, dropped || Dedent(line) != line)
    {
      TidyLater(line, tail, i, dropped);
    }
  }

  lemma LastLineTidied(s: string, dropped: bool)
    requires LineEnd(s) == |s|
    ensures Lines(s) == [s] && Lines(Nicify(s, dropped)) == [Dedent(s)]
    ensures TidyLine([s], 0, dropped) == Dedent(s)
  {
    assert s[..|s|] == s;
    LinesOfLine(Dedent(s), "");
  }

  lemma NicifyFirst(s: string, dropped: bool)
    requires LineEnd(s) < |s|
    ensures var line, rest := s[..LineEnd(s)], s[LineEnd(s) + 1..];
            Nicify(s, dropped) == (if line == " ." && dropped then "" else Dedent(line)) + "\n" +
                                  Nicify(rest, dropped || Dedent(line) != line)
  {
  }

  lemma LineTidied(s: string, dropped: bool)
    requires LineEnd(s) < |s|
    ensures var line, rest := s[..LineEnd(s)], s[LineEnd(s) + 1..];
            var out := if line == " ." && dropped then "" else Dedent(line);
            Lines(s) == [line] + Lines(rest) &&
            Lines(Nicify(s, dropped)) == [out] + Lines(Nicify(rest, dropped || Dedent(line) != line))
  {
    var line, rest := s[..LineEnd(s)], s[LineEnd(s) + 1..];
    NicifyFirst(s, dropped);
    hide Nicify, Dedent;
    LinesOfLine(if line == " ." && dropped then "" else Dedent(line), Nicify(rest, dropped || Dedent(line) != line));
  }

  /** What the clean-up does to each line. */
  lemma {:induction false} NicifyByLines(s: string, dropped: bool)
    ensures |Lines(Nicify(s, dropped))| == |Lines(s)|
    ensures forall i :: 0 <= i < |Lines(s)| ==> Lines(Nicify(s, dropped))[i] == TidyLine(Lines(s), i, dropped)
    decreases |s|
  {
    hide Dedent, LineEnd, Nicify, Lines, TidyLine;
    var e := LineEnd(s);
    if e == |s| {
      LastLineTidied(s, dropped);
    } else {
      var line, rest := s[..e], s[e + 1..];
      var next := dropped || Dedent(line) != line;
      LineTidied(s, dropped);
      NicifyByLines(rest, next);
      TidyAll(line, Lines(rest), Lines(Nicify(rest, next)), dropped);
    }
  }

  lemma LedIsDropped(line: string)
    ensures Dedent(line) != line <==> Led(line)
  {
  }

  lemma LedBeforeTail(line: string, tail: seq<string>, i: nat)
    requires 1 <= i <= |tail| + 1
    ensures LedBefore([line] + tail, i) <==> Led(line) || LedBefore(tail, i - 1)
  {
    var before := [line] + tail;
    if j :| 0 <= j < i && Led(before[j]) {
      assert j > 0 ==> Led(tail[j - 1]);
    }
    if j :| 0 <= j < i - 1 && Led(tail[j]) {
      assert Led(before[j + 1]);
    }
    assert Led(line) ==> Led(before[0]);
  }

  /** The first line with a blank in front of it is " .", and it ends in a newline. */
  predicate DotLeads(s: string)
    decreases |s|
  {
    var e := LineEnd(s);
    e < |s| && if Led(s[..e]) then s[..e] == " ." else DotLeads(s[e + 1..])
  }

  lemma {:induction false} TidyOnceDropped(s: string)
    ensures Nicify(s, true) == Tidy(s)
    decreases |s|
  {
    var e := LineEnd(s);
    if e < |s| {
      TidyOnceDropped(s[e + 1..]);
    }
  }

  lemma SamePrefix(p: string, a: string, b: string)
    ensures p + a == p + b <==> a == b
  {
    assert (p + a)[|p|..] == a && (p + b)[|p|..] == b;
  }

  /** The clean-up tidies every line, except that a leading " ." keeps its dot, for then the
      dot has been written over the blank that is tested. */
  lemma {:induction false} NicifyIsTidy(s: string)
    ensures Nicify(s, false) == Tidy(s) <==> !DotLeads(s)
    ensures DotLeads(s) ==> |Nicify(s, false)| == |Tidy(s)| + 1
    decreases |s|
  {
    var e := LineEnd(s);
    if e < |s| {
      var line, rest := s[..e], s[e + 1..];
      if Led(line) {
        TidyOnceDropped(rest);
        if line == " ." {
          assert Dedent(line) == ".";
        }
      } else {
        NicifyIsTidy(rest);
        assert Nicify(s, false) == line + "\n" + Nicify(rest, false) && Tidy(s) == line + "\n" + Tidy(rest);
        hide Nicify, Tidy;
        SamePrefix(line + "\n", Nicify(rest, false), Tidy(rest));
      }
    }
  }
}
