/** Decoding icons: base 64 text is turned into bytes that are handed to an image loader in
    chunks. */
module Base64 {

  type Byte = x: int | 0 <= x < 256

  // ---- The encoding of RFC 4648, section 4

  const PAD: Byte := 61

  /** The letters, the digits, and the bytes 43 and 47. */
  function Alphabet(d: nat): Byte
    requires d < 64
  {
    if d < 26 then 65 + d else if d < 52 then 97 + d - 26 else if d < 62 then 48 + d - 52 else if d == 62 then 43 else 47
  }

  function Encode(b: seq<Byte>): seq<Byte> {
    if b == [] then []
    else if |b| == 1 then [Alphabet(b[0] / 4), Alphabet(b[0] % 4 * 16), PAD, PAD]
    else if |b| == 2 then
      [Alphabet(b[0] / 4), Alphabet(b[0] % 4 * 16 + b[1] / 16), Alphabet(b[1] % 16 * 4), PAD]
    else
      [Alphabet(b[0] / 4), Alphabet(b[0] % 4 * 16 + b[1] / 16), Alphabet(b[1] % 16 * 4 + b[2] / 64), Alphabet(b[2] % 64)]
      + Encode(b[3..])
  }

  // ---- Decoding

  /** The value of a byte of the alphabet, or -1. */
  function Table(c: Byte): (d: int)
    ensures -1 <= d < 64
  {
    if 65 <= c <= 90 then c - 65
    else if 97 <= c <= 122 then c - 97 + 26
    else if 48 <= c <= 57 then c - 48 + 52
    else if c == 43 then 62
    else if c == 47 then 63
    else -1
  }

  type Digit = x: int | 0 <= x < 64

  /** What a digit adds after the digit `last`. */
  function Output(phase: nat, last: Digit, d: Digit): seq<Byte>
    requires phase < 4
  {
    if phase == 0 then []
    else if phase == 1 then [last * 4 + d / 16]
    else if phase == 2 then [last % 16 * 16 + d / 4]
    else [last % 4 * 64 + d]
  }

  /** A text ends at its first NUL. */
  function Decode(s: seq<Byte>, phase: nat, last: Digit): seq<Byte>
    requires phase < 4
    decreases |s|
  {
    if s == [] || s[0] == 0 then []
    else if Table(s[0]) == -1 then Decode(s[1..], phase, last)
    else Output(phase, last, Table(s[0])) + Decode(s[1..], (phase + 1) % 4, Table(s[0]))
  }

  // ---- The loader

  function Concat(chunks: seq<seq<Byte>>): seq<Byte> {
    if chunks == [] then [] else Concat(chunks[..|chunks| - 1]) + chunks[|chunks| - 1]
  }

  /** Takes chunks; the writes numbered in `failing` yield an error. */
  class Loader {
    var chunks: seq<seq<Byte>>
    const failing: set<nat>

    constructor (failing: set<nat>)
      ensures chunks == [] && this.failing == failing
    {
      chunks, this.failing := [], failing;
    }

    method Write(buf: array<Byte>, count: nat) returns (error: bool)
      requires count <= buf.Length
      modifies this
      ensures chunks == old(chunks) + [buf[..count]]
      ensures error <==> |old(chunks)| in failing
    {
      error := |chunks| in failing;
      chunks := chunks + [buf[..count]];
    }
  }

  const LOADER_SIZE: nat := 2048

  /** Chunks as they are handed over: full ones, but for the last. */
  ghost predicate AllFull(chunks: seq<seq<Byte>>) {
    forall c :: c in chunks ==> |c| == 2048
  }

  lemma ConcatSnoc(chunks: seq<seq<Byte>>, c: seq<Byte>)
    ensures Concat(chunks + [c]) == Concat(chunks) + c
  {
    assert (chunks + [c])[..|chunks|] == chunks;
  }

  lemma DecodeStep(s: seq<Byte>, i: nat, phase: nat, last: Digit)
    requires i < |s| && s[i] != 0 && phase < 4
    ensures Decode(s[i..], phase, last) ==
            if Table(s[i]) == -1 then Decode(s[i + 1..], phase, last)
            else Output(phase, last, Table(s[i])) + Decode(s[i + 1..], (phase + 1) % 4, Table(s[i]))
  {
    assert s[i..][1..] == s[i + 1..];
  }

  /** Stores the byte that a digit completes, if it does. */
  method Store(buf: array<Byte>, ptr: nat, phase: nat, last: Digit, d: Digit) returns (end: nat, next: nat)
    requires phase < 4 && ptr < buf.Length
    modifies buf
    ensures end <= buf.Length && buf[..end] == old(buf[..ptr]) + Output(phase, last, d) && next == (phase + 1) % 4
  {
    if phase == 0 {
      assert buf[..ptr] + [] == buf[..ptr];
      return ptr, 1;
    } else if phase == 1 {
      buf[ptr] := last * 4 + d / 16;
    } else if phase == 2 {
      buf[ptr] := last % 16 * 16 + d / 4;
    } else {
      buf[ptr] := last % 4 * 64 + d;
    }
    return ptr + 1, (phase + 1) % 4;
  }

  /** What has been handed over, what is in the buffer and what is to be decoded. */
  ghost function Whole(loader: Loader, buf: array<Byte>, ptr: nat, s: seq<Byte>, phase: nat, last: Digit): seq<Byte>
    requires phase < 4 && ptr <= buf.Length
    reads loader, buf
  {
    Concat(loader.chunks) + buf[..ptr] + Decode(s, phase, last)
  }

  method Digest(str: seq<Byte>, i: nat, loader: Loader, buf: array<Byte>, ptr: nat, phase: nat, last: Digit)
    returns (end: nat, next: nat, d: int)
    requires i < |str| && str[i] != 0 && phase < 4 && ptr < buf.Length
    modifies buf
    ensures end <= buf.Length && next < 4 && -1 <= d < 64
    ensures d == -1 ==> end == ptr && next == phase && buf[..] == old(buf[..])
    ensures Whole(loader, buf, end, str[i + 1..], next, if d == -1 then last else d)
            == old(Whole(loader, buf, ptr, str[i..], phase, last))
  {
    hide Decode, Output, Concat;
    DecodeStep(str, i, phase, last);
    d := Table(str[i]);
    end, next := ptr, phase;
    if d != -1 {
      ghost var front, rest := Concat(loader.chunks) + buf[..ptr], Decode(str[i + 1..], (phase + 1) % 4, d);
      end, next := Store(buf, ptr, phase, last, d);
      assert front + (Output(phase, last, d) + rest) == Concat(loader.chunks) + buf[..end] + rest;
    }
  }

  /** Hands over a full buffer. */
  method Flush(loader: Loader, buf: array<Byte>, ghost s: seq<Byte>, ghost phase: nat, ghost last: Digit)
    returns (error: bool)
    requires phase < 4
    modifies loader
    ensures loader.chunks == old(loader.chunks) + [buf[..]]
    ensures error <==> |old(loader.chunks)| in loader.failing
    ensures Whole(loader, buf, 0, s, phase, last) == old(Whole(loader, buf, buf.Length, s, phase, last))
    ensures Concat(loader.chunks) <= old(Whole(loader, buf, buf.Length, s, phase, last))
  {
    ConcatSnoc(loader.chunks, buf[..]);
    assert buf[..buf.Length] == buf[..];
    error := loader.Write(buf, buf.Length);
    assert Whole(loader, buf, 0, s, phase, last) == Concat(loader.chunks) + Decode(s, phase, last);
  }

  /** Decodes a text up to its first NUL to a new loader, through one buffer. */
  method Decode64(str: seq<Byte>, loader: Loader) returns (ghost failed: bool)
    requires loader.chunks == []
    modifies loader
    ensures failed <==> exists k :: k in loader.failing && k < |loader.chunks|
    ensures if failed then Concat(loader.chunks) <= Decode(str, 0, 0) else Concat(loader.chunks) == Decode(str, 0, 0)
    ensures loader.chunks != [] && AllFull(loader.chunks[..|loader.chunks| - 1])
    ensures |loader.chunks[|loader.chunks| - 1]| <= LOADER_SIZE
  {
    hide Decode, Concat;
    var buf := new Byte[LOADER_SIZE];
    var ptr: nat := 0;
    var last: Digit, phase: nat := 0, 0;
    failed := false;
    ConcatNone();
    assert str[0..] == str && buf[..0] == [];
    var i: nat := 0;
    while i < |str| && str[i] != 0
      invariant i <= |str| && phase < 4 && ptr < LOADER_SIZE && AllFull(loader.chunks)
      invariant forall k :: k in loader.failing ==> k >= |loader.chunks|
      invariant Whole(loader, buf, ptr, str[i..], phase, last) == Decode(str, 0, 0)
    {
      hide Whole;
      var d;
      ptr, phase, d := Digest(str, i, loader, buf, ptr, phase, last);
      if d != -1 {
        last := d;
        if ptr == LOADER_SIZE {
          var error := Flush(loader, buf, str[i + 1..], phase, last);
          ptr := 0;
          if error {
            failed := true;
            return;
          }
        }
      }
      i := i + 1;
    }
    Ended(str[i..], phase, last);
    ConcatSnoc(loader.chunks, buf[..ptr]);
    failed := loader.Write(buf, ptr);
  }

  lemma ConcatNone()
    ensures Concat([]) == []
  {
  }

  lemma Ended(s: seq<Byte>, phase: nat, last: Digit)
    requires phase < 4 && (s == [] || s[0] == 0)
    ensures Decode(s, phase, last) == []
  {
  }

  // ---- Round trip

  /** `s` is `e` with bytes that are neither in the alphabet nor NUL put in anywhere. */
  ghost predicate Interspersed(e: seq<Byte>, s: seq<Byte>)
    decreases |s|
  {
    if s == [] then e == []
    else
      || (e != [] && s[0] == e[0] && Interspersed(e[1..], s[1..]))
      || (Table(s[0]) == -1 && s[0] != 0 && Interspersed(e, s[1..]))
  }

  /** Such bytes do not matter. */
  lemma {:induction false} NoiseIsSkipped(e: seq<Byte>, s: seq<Byte>, phase: nat, last: Digit)
    requires Interspersed(e, s) && phase < 4
    ensures Decode(s, phase, last) == Decode(e, phase, last)
    decreases |s|
  {
    if s != [] {
      if e != [] && s[0] == e[0] && Interspersed(e[1..], s[1..]) {
        if Table(s[0]) == -1 {
          NoiseIsSkipped(e[1..], s[1..], phase, last);
        } else {
          NoiseIsSkipped(e[1..], s[1..], (phase + 1) % 4, Table(s[0]));
        }
      } else {
        NoiseIsSkipped(e, s[1..], phase, last);
      }
    }
  }

  lemma DigitRead(d: Digit, rest: seq<Byte>, phase: nat, last: Digit)
    requires phase < 4
    ensures Decode([Alphabet(d)] + rest, phase, last) == Output(phase, last, d) + Decode(rest, (phase + 1) % 4, d)
  {
    assert Table(Alphabet(d)) == d;
    assert ([Alphabet(d)] + rest)[1..] == rest;
  }

  lemma PadSkipped(rest: seq<Byte>, phase: nat, last: Digit)
    requires phase < 4
    ensures Decode([PAD] + rest, phase, last) == Decode(rest, phase, last)
  {
    assert ([PAD] + rest)[1..] == rest;
  }

  /** The digits of a byte in front and of what is left of it. */
  function High(b: Byte): Digit { b / 4 }

  function Middle(a: Byte, b: Byte): Digit { a % 4 * 16 + b / 16 }

  function Low(a: Byte, b: Byte): Digit { a % 16 * 4 + b / 64 }

  lemma Regroup(a: Byte, b: Byte, c: Byte)
    ensures Output(1, High(a), Middle(a, b)) == [a]
    ensures Output(2, Middle(a, b), Low(b, c)) == [b]
    ensures Output(3, Low(b, c), c % 64) == [c]
  {
  }

  /** Three bytes and the four digits for them. */
  lemma DecodeFour(a: Byte, b: Byte, c: Byte, rest: seq<Byte>, last: Digit)
    ensures Decode([Alphabet(High(a)), Alphabet(Middle(a, b)), Alphabet(Low(b, c)), Alphabet(c % 64)] + rest, 0, last)
            == [a, b, c] + Decode(rest, 0, c % 64)
  {
    hide Decode, Alphabet, High, Middle, Low, Output;
    var d0, d1, d2, d3 := High(a), Middle(a, b), Low(b, c), c % 64;
    var s3 := [Alphabet(d3)] + rest;
    var s2 := [Alphabet(d2)] + s3;
    var s1 := [Alphabet(d1)] + s2;
    assert [Alphabet(d0), Alphabet(d1), Alphabet(d2), Alphabet(d3)] + rest == [Alphabet(d0)] + s1;
    DigitRead(d0, s1, 0, last);
    DigitRead(d1, s2, 1, d0);
    DigitRead(d2, s3, 2, d1);
    DigitRead(d3, rest, 3, d2);
    NoOutput(last, d0);
    Regroup(a, b, c);
  }

  lemma NoOutput(last: Digit, d: Digit)
    ensures Output(0, last, d) == []
  {
  }

  lemma DecodeTwo(a: Byte, last: Digit)
    ensures Decode([Alphabet(High(a)), Alphabet(Middle(a, 0)), PAD, PAD], 0, last) == [a]
  {
    hide Decode, Alphabet, High, Middle, Output;
    var d0, d1 := High(a), Middle(a, 0);
    var pads := [PAD, PAD];
    var s1 := [Alphabet(d1)] + pads;
    assert [Alphabet(d0), Alphabet(d1), PAD, PAD] == [Alphabet(d0)] + s1;
    DigitRead(d0, s1, 0, last);
    DigitRead(d1, pads, 1, d0);
    NoOutput(last, d0);
    Regroup(a, 0, 0);
    assert pads == [PAD] + ([PAD] + []);
    PadSkipped([PAD] + [], 2, d1);
    PadSkipped([], 2, d1);
    Ended([], 2, d1);
  }

  lemma DecodeThree(a: Byte, b: Byte, last: Digit)
    ensures Decode([Alphabet(High(a)), Alphabet(Middle(a, b)), Alphabet(Low(b, 0)), PAD], 0, last) == [a, b]
  {
    hide Decode, Alphabet, High, Middle, Low, Output;
    var d0, d1, d2 := High(a), Middle(a, b), Low(b, 0);
    var pad := [PAD];
    var s2 := [Alphabet(d2)] + pad;
    var s1 := [Alphabet(d1)] + s2;
    assert [Alphabet(d0), Alphabet(d1), Alphabet(d2), PAD] == [Alphabet(d0)] + s1;
    DigitRead(d0, s1, 0, last);
    DigitRead(d1, s2, 1, d0);
    DigitRead(d2, pad, 2, d1);
    NoOutput(last, d0);
    Regroup(a, b, 0);
    assert pad == [PAD] + [];
    PadSkipped([], 3, d2);
    Ended([], 3, d2);
  }

  lemma {:induction false} DecodeEncode(b: seq<Byte>, last: Digit)
    ensures Decode(Encode(b), 0, last) == b
  {
    hide Decode, Alphabet;
    if b == [] {
      Ended([], 0, last);
    } else if |b| == 1 {
      DecodeTwo(b[0], last);
    } else if |b| == 2 {
      DecodeThree(b[0], b[1], last);
    } else {
      DecodeFour(b[0], b[1], b[2], Encode(b[3..]), last);
      DecodeEncode(b[3..], b[2] % 64);
      assert b == [b[0], b[1], b[2]] + b[3..];
    }
  }

  /** Whatever is encoded comes out again, with any bytes outside the alphabet but NUL in
      between, and with anything at all behind a NUL. */
  lemma RoundTrip(b: seq<Byte>, s: seq<Byte>)
    requires Interspersed(Encode(b), s)
    ensures Decode(s, 0, 0) == b
    ensures forall rest :: Decode(s + [0] + rest, 0, 0) == b
  {
    NoiseIsSkipped(Encode(b), s, 0, 0);
    DecodeEncode(b, 0);
    forall rest
      ensures Decode(s + [0] + rest, 0, 0) == Decode(s, 0, 0)
    {
      NulEnds(s, rest, 0, 0);
    }
  }

  lemma {:induction false} NulEnds(s: seq<Byte>, rest: seq<Byte>, phase: nat, last: Digit)
    requires phase < 4
    ensures Decode(s + [0] + rest, phase, last) == Decode(s, phase, last)
    decreases |s|
  {
    if s != [] && s[0] != 0 {
      assert (s + [0] + rest)[1..] == s[1..] + [0] + rest;
      if Table(s[0]) == -1 {
        NulEnds(s[1..], rest, phase, last);
      } else {
        NulEnds(s[1..], rest, (phase + 1) % 4, Table(s[0]));
      }
    }
  }
}
