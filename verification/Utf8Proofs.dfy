/** The test for UTF-8 by ranges of bytes, against the definition of the encoding. */
module Utf8Proofs {
  import opened Wire

  /** A code point that is no surrogate. */
  predicate IsScalar(n: nat) {
    n < 0x110000 && !(0xD800 <= n < 0xE000)
  }

  function Tail6(n: nat): char {
    (0x80 + n % 64) as char
  }

  /** The bytes of a code point (table 3-6 of the Unicode standard). */
  function Utf8Of(n: nat): (s: string)
    requires IsScalar(n)
    ensures 1 <= |s| <= 4
  {
    if n < 0x80 then [n as char]
    else if n < 0x800 then [(0xC0 + n / 64) as char, Tail6(n)]
    else if n < 0x10000 then [(0xE0 + n / 4096) as char, Tail6(n / 64), Tail6(n)]
    else [(0xF0 + n / 262144) as char, Tail6(n / 4096), Tail6(n / 64), Tail6(n)]
  }

  ghost predicate AllScalars(ns: seq<nat>) {
    forall n :: n in ns ==> IsScalar(n)
  }

  function Utf8OfAll(ns: seq<nat>): string
    requires AllScalars(ns)
  {
    if ns == [] then "" else Utf8Of(ns[0]) + Utf8OfAll(ns[1..])
  }

  lemma OneIsRead(n: nat, rest: string)
    requires IsScalar(n)
    ensures Utf8Length(Utf8Of(n) + rest) == |Utf8Of(n)|
  {
    var s := Utf8Of(n) + rest;
    assert s[0] == Utf8Of(n)[0];
    if n < 0x80 {
    } else if n < 0x800 {
      assert s[1] == Tail6(n);
    } else if n < 0x10000 {
      assert s[1] == Tail6(n / 64) && s[2] == Tail6(n);
    } else {
      assert s[1] == Tail6(n / 4096) && s[2] == Tail6(n / 64) && s[3] == Tail6(n);
    }
  }

  /** The code point of a sequence that the test accepts. */
  lemma OneIsEncoded(s: string) returns (n: nat)
    requires s != "" && Utf8Length(s) > 0
    ensures IsScalar(n) && Utf8Of(n) == s[..Utf8Length(s)]
  {
    var b := s[0] as int;
    if Utf8Length(s) == 1 {
      n := b;
    } else if Utf8Length(s) == 2 {
      n := TwoBytes(s);
    } else if Utf8Length(s) == 3 {
      n := ThreeBytes(s);
    } else {
      n := FourBytes(s);
    }
  }

  lemma TwoBytes(s: string) returns (n: nat)
    requires s != "" && Utf8Length(s) == 2
    ensures IsScalar(n) && Utf8Of(n) == s[..2]
  {
    var b, c := s[0] as int, s[1] as int;
    assert 0x80 <= c < 0xC0;
    n := (b - 0xC0) * 64 + (c - 0x80);
    assert n / 64 == b - 0xC0 && n % 64 == c - 0x80;
  }

  lemma ThreeBytes(s: string) returns (n: nat)
    requires s != "" && Utf8Length(s) == 3
    ensures IsScalar(n) && Utf8Of(n) == s[..3]
  {
    var b, c, d := s[0] as int, s[1] as int, s[2] as int;
    assert 0x80 <= c < 0xC0 && 0x80 <= d < 0xC0;
    n := (b - 0xE0) * 4096 + (c - 0x80) * 64 + (d - 0x80);
    assert n / 4096 == b - 0xE0 && n / 64 % 64 == c - 0x80 && n % 64 == d - 0x80;
  }

  lemma Split64(m: nat, e: nat)
    requires e < 64
    ensures (64 * m + e) / 64 == m && (64 * m + e) % 64 == e
  {
  }

  lemma FourParts(b: nat, c: nat, d: nat, e: nat)
    requires c < 64 && d < 64 && e < 64
    ensures var n := b * 262144 + c * 4096 + d * 64 + e;
            n / 262144 == b && n / 4096 % 64 == c && n / 64 % 64 == d && n % 64 == e
  {
    var n := b * 262144 + c * 4096 + d * 64 + e;
    Split64(b * 4096 + c * 64 + d, e);
    Split64(b * 64 + c, d);
    Split64(b, c);
    assert n / 4096 == n / 64 / 64 && n / 262144 == n / 64 / 64 / 64;
  }

  lemma FourBytes(s: string) returns (n: nat)
    requires s != "" && Utf8Length(s) == 4
    ensures IsScalar(n) && Utf8Of(n) == s[..4]
  {
    var b, c, d, e := s[0] as int, s[1] as int, s[2] as int, s[3] as int;
    assert 0xF0 <= b < 0xF5 && 0x80 <= c < 0xC0 && 0x80 <= d < 0xC0 && 0x80 <= e < 0xC0;
    assert (b == 0xF0 ==> c >= 0x90) && (b == 0xF4 ==> c < 0x90);
    hide Utf8Length;
    n := (b - 0xF0) * 262144 + (c - 0x80) * 4096 + (d - 0x80) * 64 + (e - 0x80);
    FourParts(b - 0xF0, c - 0x80, d - 0x80, e - 0x80);
    assert 0x10000 <= n < 0x110000;
  }

  lemma {:induction false} EncodedIsUtf8(ns: seq<nat>)
    requires AllScalars(ns)
    ensures Utf8(Utf8OfAll(ns))
    decreases |ns|
  {
    hide Utf8Length, Utf8Of;
    if ns != [] {
      assert ns[0] in ns && forall n :: n in ns[1..] ==> n in ns;
      EncodedIsUtf8(ns[1..]);
      OneIsRead(ns[0], Utf8OfAll(ns[1..]));
      var s := Utf8OfAll(ns);
      assert s[|Utf8Of(ns[0])|..] == Utf8OfAll(ns[1..]);
    }
  }

  lemma {:induction false} Utf8IsEncoded(s: string) returns (ns: seq<nat>)
    requires Utf8(s)
    ensures AllScalars(ns) && Utf8OfAll(ns) == s
    decreases |s|
  {
    hide Utf8Length, Utf8Of;
    if s == "" {
      ns := [];
    } else {
      var k := Utf8Length(s);
      var n := OneIsEncoded(s);
      var rest := Utf8IsEncoded(s[k..]);
      ns := [n] + rest;
      assert ns[1..] == rest && s == s[..k] + s[k..];
    }
  }

  /** The test accepts exactly the encodings of sequences of code points. */
  lemma Utf8Exactly(s: string)
    ensures Utf8(s) <==> exists ns :: AllScalars(ns) && Utf8OfAll(ns) == s
  {
    hide Utf8, Utf8OfAll;
    if Utf8(s) {
      var ns := Utf8IsEncoded(s);
    }
    forall ns | AllScalars(ns) && Utf8OfAll(ns) == s
      ensures Utf8(s)
    {
      EncodedIsUtf8(ns);
    }
  }
}
