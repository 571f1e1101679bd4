/** Decoding gives back what was encoded, and notices when some of it is missing. */
module WireProofs {
  import opened Wrappers
  import opened Xexps
  import opened Wire

  // ---- Integers and strings in memory

  lemma WordRoundTrip(u: nat)
    requires u < TWO_32
    ensures WordValue(WordBytes(u)) == u
  {
  }

  lemma IntRoundTrip(v: int32)
    ensures IntValue(IntBytes(v)) == v
  {
    hide WordBytes, WordValue;
    WordRoundTrip(if v < 0 then v + TWO_32 else v);
  }

  lemma LongRoundTrip(v: int64)
    ensures LongValue(LongBytes(v)) == v
  {
    hide WordBytes, WordValue;
    var u := if v < 0 then v + TWO_64 else v;
    WordRoundTrip(u % TWO_32);
    WordRoundTrip(u / TWO_32);
    assert LongBytes(v)[..WORD] == WordBytes(u % TWO_32) && LongBytes(v)[WORD..] == WordBytes(u / TWO_32);
  }

  lemma {:induction false} BytesStringOf(s: string, rest: seq<Byte>)
    requires forall c :: c in s ==> 0 < c as int < 256
    requires rest != [] && rest[0] == 0
    ensures BytesString(StringBytes(s) + rest) == s
  {
    if s == "" {
      assert StringBytes(s) + rest == rest;
    } else {
      var b := StringBytes(s) + rest;
      assert s[0] in s && b[0] == s[0] as int;
      assert b[1..] == StringBytes(s[1..]) + rest;
      assert forall c :: c in s[1..] ==> c in s;
      BytesStringOf(s[1..], rest);
      assert s == [s[0]] + s[1..];
    }
  }

  lemma RoundupMultiple(n: nat)
    ensures n <= Roundup(n, WORD) < n + WORD && Roundup(n, WORD) % WORD == 0
    ensures n % WORD == 0 ==> Roundup(n, WORD) == n
  {
  }

  lemma RoundupPage(n: nat)
    ensures n <= Roundup(n, 4096)
  {
  }

  // ---- Chunks laid out in memory

  lemma {:induction false} BytesAppend(a: seq<Chunk>, b: seq<Chunk>)
    ensures Bytes(a + b) == Bytes(a) + Bytes(b)
  {
    if a == [] {
      assert a + b == b;
    } else {
      assert (a + b)[1..] == a[1..] + b;
      BytesAppend(a[1..], b);
    }
  }

  /** `full` has the bytes `b` at `pos`. */
  ghost predicate Holds(full: seq<Byte>, pos: nat, b: seq<Byte>) {
    pos + |b| <= |full| && full[pos..pos + |b|] == b
  }

  lemma HoldsSplit(full: seq<Byte>, pos: nat, a: seq<Byte>, b: seq<Byte>)
    requires Holds(full, pos, a + b)
    ensures Holds(full, pos, a) && Holds(full, pos + |a|, b)
  {
    assert full[pos..pos + |a|] == (a + b)[..|a|];
    assert full[pos + |a|..pos + |a| + |b|] == (a + b)[|a|..];
  }

  lemma HoldsChunks(full: seq<Byte>, pos: nat, a: seq<Chunk>, b: seq<Chunk>)
    requires Holds(full, pos, Bytes(a + b))
    ensures Holds(full, pos, Bytes(a)) && Holds(full, pos + |Bytes(a)|, Bytes(b))
    ensures |Bytes(a + b)| == |Bytes(a)| + |Bytes(b)|
  {
    BytesAppend(a, b);
    HoldsSplit(full, pos, Bytes(a), Bytes(b));
  }

  /** Whether the first chunk that is not entirely among the first `avail` bytes is vital. */
  ghost predicate MissingVital(cs: seq<Chunk>, avail: nat) {
    cs != [] &&
    if |cs[0].bytes| > avail then cs[0].vital else MissingVital(cs[1..], avail - |cs[0].bytes|)
  }

  lemma {:induction false} MissingVitalAppend(a: seq<Chunk>, b: seq<Chunk>, avail: nat)
    ensures MissingVital(a + b, avail) ==
      if |Bytes(a)| > avail then MissingVital(a, avail) else MissingVital(b, avail - |Bytes(a)|)
  {
    if a == [] {
      assert a + b == b;
    } else {
      assert (a + b)[1..] == a[1..] + b;
      if |a[0].bytes| <= avail {
        MissingVitalAppend(a[1..], b, avail - |a[0].bytes|);
      }
    }
  }

  // ---- Decoding one block

  /** A decoder in the middle of the first `n` bytes of `full`. */
  ghost predicate Good(d: Decoder, full: seq<Byte>, n: nat) {
    n <= |full| && d.data == full[..n] && d.pos <= n && !d.corrupted && (d.atEnd <==> d.pos == n)
  }

  ghost predicate Read(d: Decoder, d': Decoder, full: seq<Byte>, n: nat, size: nat) {
    Good(d', full, n) && d'.pos == d.pos + size
  }

  lemma SkipReads(d: Decoder, full: seq<Byte>, n: nat, b: seq<Byte>, size: nat)
    requires Good(d, full, n) && Holds(full, d.pos, b) && Roundup(size, WORD) == |b| && size > 0
    ensures size <= |b|
    ensures d.pos + |b| <= n ==>
              Read(d, SkipMem(d, size), full, n, |b|) && d.data[d.pos..d.pos + size] == b[..size]
    ensures d.pos + |b| > n ==> SkipMem(d, size).corrupted
  {
    RoundupMultiple(size);
    if d.pos + |b| <= n {
      assert d.data[d.pos..d.pos + |b|] == full[d.pos..d.pos + |b|];
      assert d.data[d.pos..d.pos + size] == d.data[d.pos..d.pos + |b|][..size];
    }
  }

  lemma IntReads(d: Decoder, full: seq<Byte>, n: nat, v: int32)
    requires Good(d, full, n) && Holds(full, d.pos, IntBytes(v))
    ensures d.pos + WORD <= n ==> DecodeInt(d).0 == v && Read(d, DecodeInt(d).1, full, n, WORD)
    ensures d.pos + WORD > n ==> DecodeInt(d).1.corrupted && DecodeInt(d).0 == 0
  {
    hide IntBytes, IntValue, SkipMem, Roundup, Holds;
    assert Roundup(WORD, WORD) == WORD by {
      RoundupMultiple(WORD);
    }
    SkipReads(d, full, n, IntBytes(v), WORD);
    IntRoundTrip(v);
    assert IntBytes(v)[..WORD] == IntBytes(v);
  }

  lemma LongReads(d: Decoder, full: seq<Byte>, n: nat, v: int64)
    requires Good(d, full, n) && Holds(full, d.pos, LongBytes(v))
    ensures d.pos + 2 * WORD <= n ==> DecodeLong(d).0 == v && Read(d, DecodeLong(d).1, full, n, 2 * WORD)
    ensures d.pos + 2 * WORD > n ==> DecodeLong(d).1.corrupted
  {
    hide LongBytes, LongValue, SkipMem;
    SkipReads(d, full, n, LongBytes(v), 2 * WORD);
    LongRoundTrip(v);
    assert LongBytes(v)[..2 * WORD] == LongBytes(v);
  }

  lemma RestOfData(d: Decoder, full: seq<Byte>, n: nat, b: seq<Byte>)
    requires Good(d, full, n) && Holds(full, d.pos, b) && d.pos + |b| <= n
    ensures d.pos + |b| <= |d.data| && d.data[d.pos..] == b + d.data[d.pos + |b|..]
  {
    assert d.data[d.pos..d.pos + |b|] == full[d.pos..d.pos + |b|];
  }

  lemma StringAtReads(d: Decoder, full: seq<Byte>, n: nat, s: string)
    requires Good(d, full, n) && WireString(s)
    requires var b := Padded(StringBytes(s), 1); Holds(full, d.pos, b) && d.pos + |b| <= n
    ensures StringAt(d.data, d.pos) == (s, d.data)
  {
    hide Utf8, Good, Holds, Roundup;
    var b := Padded(StringBytes(s), 1);
    RoundupMultiple(|s| + 1);
    RestOfData(d, full, n, b);
    var rest := d.data[d.pos + |b|..];
    var zeros := Zeros(Roundup(|s| + 1, WORD) - |s|);
    assert b + rest == StringBytes(s) + (zeros + rest);
    BytesStringOf(s, zeros + rest);
  }

  ghost predicate GoodString(s: Option<string>) {
    s.Some? ==> WireString(s.value)
  }

  lemma StringChunksBytes(s: Option<string>, vital: bool)
    requires s.Some? ==> |s.value| < TWO_31
    ensures s.None? ==> Bytes(StringChunks(s, vital)) == IntBytes(-1)
    ensures s.Some? ==> Bytes(StringChunks(s, vital)) == IntBytes(|s.value|) + Padded(StringBytes(s.value), 1)
  {
    if s.Some? {
      var cs := StringChunks(s, vital);
      assert cs[1..] == [cs[1]] && cs[1..][1..] == [];
      assert Bytes([cs[1]]) == cs[1].bytes;
    } else {
      assert StringChunks(s, vital)[1..] == [];
    }
  }

  lemma VitalIsNoByte(s: Option<string>, vital: bool)
    requires s.Some? ==> |s.value| < TWO_31
    ensures Bytes(StringChunks(s, vital)) == Bytes(StringChunks(s, false))
  {
    StringChunksBytes(s, vital);
    StringChunksBytes(s, false);
  }

  lemma BytesNone()
    ensures Bytes([]) == []
  {
  }

  lemma StringMissing(s: Option<string>, vital: bool, avail: nat)
    requires GoodString(s) && avail < |Bytes(StringChunks(s, vital))|
    ensures MissingVital(StringChunks(s, vital), avail) <==> vital && avail < WORD
  {
    hide IntBytes;
    StringChunksBytes(s, vital);
    if s.Some? {
      var cs := StringChunks(s, vital);
      assert cs[1..] == [cs[1]] && cs[1..][1..] == [];
    }
  }

  /** A string is decoded if all of it is there; otherwise the data is found corrupted,
      and there is no string at all just if not even its length is there. */
  lemma StringReads(d: Decoder, full: seq<Byte>, n: nat, s: Option<string>, vital: bool)
    requires Good(d, full, n) && GoodString(s) && Holds(full, d.pos, Bytes(StringChunks(s, vital)))
    ensures var size := |Bytes(StringChunks(s, vital))|; var r := DecodeString(d);
      if d.pos + size <= n then r.0 == s && Read(d, r.1, full, n, size)
      else r.1.corrupted && (r.0.None? <==> d.pos + WORD > n)
  {
    hide IntBytes, StringAt, Padded, Utf8;
    StringChunksBytes(s, vital);
    var (len, d1) := DecodeInt(d);
    if s.Some? {
      var b := Padded(StringBytes(s.value), 1);
      HoldsSplit(full, d.pos, IntBytes(|s.value|), b);
      IntReads(d, full, n, |s.value|);
      if d.pos + WORD <= n {
        PaddedLength(s.value);
        SkipReads(d1, full, n, b, |s.value| + 1);
        if d1.pos + |b| <= n {
          StringAtReads(d1, full, n, s.value);
        }
      }
    } else {
      IntReads(d, full, n, -1);
    }
  }

  lemma PaddedLength(s: string)
    ensures |Padded(StringBytes(s), 1)| == Roundup(|s| + 1, WORD)
  {
  }

  // ---- Decoding x-expressions

  /** What decoding an x-expression or a list of them comes to: all of it if it is there,
      otherwise an abort if the first missing chunk is vital, else corrupted data. */
  ghost predicate Outcome<T(!new)>(d: Decoder, full: seq<Byte>, n: nat, cs: seq<Chunk>, v: T, r: (Result<T>, Decoder))
    requires d.pos <= n
  {
    if d.pos + |Bytes(cs)| <= n then r.0 == Value(v) && Read(d, r.1, full, n, |Bytes(cs)|)
    else (r.0.Abort? <==> MissingVital(cs, n - d.pos)) && (r.0.Value? ==> r.1.corrupted)
  }

  /** A child that comes out as nothing is as bad for its parent as an abort. */
  ghost function AsChild(r: (Result<Option<Xexp>>, Decoder)): (Result<Xexp>, Decoder) {
    (if r.0.Abort? || r.0.value.None? then Abort else Value(r.0.value.value), r.1)
  }

  lemma IntChunkMissing(v: int32, cs: seq<Chunk>, avail: nat)
    ensures Bytes([IntChunk(v)] + cs) == IntBytes(v) + Bytes(cs)
    ensures MissingVital([IntChunk(v)] + cs, avail) <==> avail >= WORD && MissingVital(cs, avail - WORD)
  {
    var all := [IntChunk(v)] + cs;
    assert all[1..] == cs;
  }

  /** How the outcomes for a first part and for the rest combine. */
  lemma OutcomeThen<T(!new)>(d: Decoder, full: seq<Byte>, n: nat, a: seq<Chunk>, b: seq<Chunk>, v: T, vs: seq<T>,
                             r: (Result<T>, Decoder), rs: (Result<seq<T>>, Decoder))
    requires d.pos <= n && Outcome(d, full, n, a, v, r)
    requires d.pos + |Bytes(a)| <= n ==> Outcome(r.1, full, n, b, vs, rs)
    requires d.pos + |Bytes(a)| > n && r.0.Value? ==> rs.0.Value? && rs.1.corrupted
    ensures Outcome(d, full, n, a + b, [v] + vs,
      (if r.0.Abort? || rs.0.Abort? then Abort else Value([r.0.value] + rs.0.value), if r.0.Abort? then r.1 else rs.1))
  {
    hide MissingVital, Bytes;
    BytesAppend(a, b);
    MissingVitalAppend(a, b, n - d.pos);
  }

  lemma {:induction false} XexpReads(d: Decoder, full: seq<Byte>, n: nat, x: Xexp, child: bool)
    requires Good(d, full, n) && Encodable(x) && Holds(full, d.pos, Bytes(XexpChunks(x, child)))
    ensures child ==> Outcome(d, full, n, XexpChunks(x, child), x, AsChild(DecodeXexp(d)))
    ensures !child ==> Outcome(d, full, n, XexpChunks(x, child), Some(x), DecodeXexp(d))
    decreases x, 2
  {
    hide MissingVital, Bytes, Holds, StringChunks, BodyChunks, DecodeString, DecodeBody;
    var tag := StringChunks(Some(x.tag), child);
    var body := BodyChunks(x);
    HoldsChunks(full, d.pos, tag, body);
    StringReads(d, full, n, Some(x.tag), child);
    MissingVitalAppend(tag, body, n - d.pos);
    var (t, d1) := DecodeString(d);
    if d.pos + |Bytes(tag)| <= n {
      BodyReads(d1, full, n, x);
    } else {
      StringMissing(Some(x.tag), child, n - d.pos);
    }
  }

  lemma {:induction false} BodyReads(d: Decoder, full: seq<Byte>, n: nat, x: Xexp)
    requires Good(d, full, n) && Encodable(x) && Holds(full, d.pos, Bytes(BodyChunks(x)))
    ensures Outcome(d, full, n, BodyChunks(x), x, DecodeBody(d, x.tag))
    decreases x, 1
  {
    hide MissingVital, Bytes, Holds, StringChunks, DecodeInt, DecodeString, IntBytes;
    var len := match x case Text(_, _) => -1 case List(_, ks) => |ks|;
    var rest := match x case Text(_, t) => StringChunks(Some(t), true) case List(_, ks) => KidsChunks(ks);
    IntChunkMissing(len, rest, n - d.pos);
    HoldsSplit(full, d.pos, IntBytes(len), Bytes(rest));
    IntReads(d, full, n, len);
    var d1 := DecodeInt(d).1;
    if d.pos + WORD <= n {
      match x
      case Text(_, t) =>
        StringReads(d1, full, n, Some(t), true);
        if d1.pos + |Bytes(rest)| > n {
          StringMissing(Some(t), true, n - d1.pos);
        }
      case List(_, ks) =>
        KidsRead(d1, full, n, ks);
    }
  }

  lemma {:induction false} KidsRead(d: Decoder, full: seq<Byte>, n: nat, ks: seq<Xexp>)
    requires Good(d, full, n) && (forall k :: k in ks ==> Encodable(k)) && Holds(full, d.pos, Bytes(KidsChunks(ks)))
    ensures Outcome(d, full, n, KidsChunks(ks), ks, DecodeKids(d, |ks|))
    decreases ks, 0
  {
    hide MissingVital, Holds, XexpChunks, DecodeXexp, Encodable, Bytes;
    if ks != [] {
      assert ks == [ks[0]] + ks[1..];
      var first := XexpChunks(ks[0], true);
      var rest := KidsChunks(ks[1..]);
      HoldsChunks(full, d.pos, first, rest);
      XexpReads(d, full, n, ks[0], true);
      var r := DecodeXexp(d);
      if d.pos + |Bytes(first)| <= n {
        KidsRead(r.1, full, n, ks[1..]);
      }
      OutcomeThen(d, full, n, first, rest, ks[0], ks[1..], AsChild(r), DecodeKids(r.1, |ks| - 1));
    } else {
      BytesNone();
    }
  }

  // ---- Decoding whole messages

  lemma FieldReads(d: Decoder, full: seq<Byte>, n: nat, f: Field)
    requires Good(d, full, n) && EncodableField(f) && Holds(full, d.pos, Bytes(FieldChunks(f)))
    ensures Outcome(d, full, n, FieldChunks(f), f, DecodeField(d, TypeOf(f)))
  {
    hide Holds, XexpChunks, DecodeXexp, DecodeInt, DecodeLong, DecodeString, IntBytes, LongBytes;
    match f
    case IntField(i) =>
      SingleChunk(IntChunk(i), n - d.pos);
      IntReads(d, full, n, i);
    case LongField(l) =>
      SingleChunk(Chunk(LongBytes(l), false), n - d.pos);
      LongReads(d, full, n, l);
    case StringField(s) =>
      StringReads(d, full, n, s, false);
      if d.pos + |Bytes(FieldChunks(f))| > n {
        StringMissing(s, false, n - d.pos);
      }
    case XexpField(None) =>
      assert StringChunks(None, false) == FieldChunks(f);
      NoXexpReads(d, full, n);
    case XexpField(Some(x)) =>
      XexpReads(d, full, n, x, false);
  }

  lemma SingleChunk(c: Chunk, avail: nat)
    requires !c.vital
    ensures Bytes([c]) == c.bytes && !MissingVital([c], avail)
  {
    assert [c][1..] == [];
  }

  lemma NoXexpReads(d: Decoder, full: seq<Byte>, n: nat)
    requires Good(d, full, n) && Holds(full, d.pos, Bytes(StringChunks(None, false)))
    ensures Outcome(d, full, n, StringChunks(None, false), None, DecodeXexp(d))
  {
    hide Holds, DecodeString, DecodeBody;
    StringReads(d, full, n, None, false);
    if d.pos + |Bytes(StringChunks(None, false))| > n {
      StringMissing(None, false, n - d.pos);
      StringChunksBytes(None, false);
    }
  }

  function Types(fs: seq<Field>): (ts: seq<FieldType>)
    ensures |ts| == |fs|
  {
    if fs == [] then [] else [TypeOf(fs[0])] + Types(fs[1..])
  }

  /** Once found corrupted the data stays so, and decoding only yields stand-ins. */
  lemma {:induction false} CorruptedStays(d: Decoder, ts: seq<FieldType>)
    requires d.Valid() && d.corrupted
    ensures DecodeAll(d, ts).0.Value? && DecodeAll(d, ts).1 == d
    decreases |ts|
  {
    if ts != [] {
      CorruptedStays(d, ts[1..]);
    }
  }

  lemma {:induction false} AllRead(d: Decoder, full: seq<Byte>, n: nat, fs: seq<Field>)
    requires Good(d, full, n) && EncodableFields(fs) && Holds(full, d.pos, Bytes(AllChunks(fs)))
    ensures Outcome(d, full, n, AllChunks(fs), fs, DecodeAll(d, Types(fs)))
    decreases |fs|
  {
    hide MissingVital, Holds, FieldChunks, DecodeField, EncodableField;
    if fs != [] {
      var first := FieldChunks(fs[0]);
      var rest := AllChunks(fs[1..]);
      HoldsChunks(full, d.pos, first, rest);
      FieldReads(d, full, n, fs[0]);
      var r := DecodeField(d, TypeOf(fs[0]));
      if d.pos + |Bytes(first)| <= n {
        AllRead(r.1, full, n, fs[1..]);
      } else if r.0.Value? {
        CorruptedStays(r.1, Types(fs[1..]));
      }
      OutcomeThen(d, full, n, first, rest, fs[0], fs[1..], r, DecodeAll(r.1, Types(fs[1..])));
      assert fs == [fs[0]] + fs[1..];
    }
  }

  ghost function Encoding(fs: seq<Field>): seq<Byte>
    requires EncodableFields(fs)
  {
    Bytes(AllChunks(fs))
  }

  /** Decoding what was encoded, with the same types, gives back the same fields. */
  lemma WireRoundTrip(fs: seq<Field>)
    requires EncodableFields(fs)
    ensures DecodeAll(Opened(Encoding(fs)), Types(fs))
      == (Value(fs), Decoder(Encoding(fs), |Encoding(fs)|, false, true))
  {
    hide AllChunks, DecodeAll, EncodableFields;
    var b := Encoding(fs);
    assert b == b[..|b|] && b[0..0 + |b|] == b;
    AllRead(Opened(b), b, |b|, fs);
  }

  /** When the end of the data is missing the decoder notices; but where the first missing
      block is the length of a text or of a child's tag, it does not survive to tell. */
  lemma TruncationNoticed(fs: seq<Field>, n: nat)
    requires EncodableFields(fs) && n < |Encoding(fs)|
    ensures var r := DecodeAll(Opened(Encoding(fs)[..n]), Types(fs));
      (r.0.Abort? <==> MissingVital(AllChunks(fs), n)) && (r.0.Value? ==> r.1.corrupted)
  {
    hide AllChunks, DecodeAll, EncodableFields, MissingVital;
    var b := Encoding(fs);
    assert b[0..0 + |b|] == b;
    AllRead(Opened(b[..n]), b, n, fs);
  }

  // ---- Alignment, and where the end is

  ghost predicate Aligned(cs: seq<Chunk>) {
    forall c :: c in cs ==> |c.bytes| % WORD == 0 && |c.bytes| > 0
  }

  lemma {:induction false} AlignedBytes(cs: seq<Chunk>)
    requires Aligned(cs)
    ensures |Bytes(cs)| % WORD == 0 && (cs != [] ==> |Bytes(cs)| > 0)
  {
    if cs != [] {
      assert cs[0] in cs;
      AlignedBytes(cs[1..]);
      AlignedSum(|cs[0].bytes|, |Bytes(cs[1..])|);
    }
  }

  lemma AlignedSum(a: nat, b: nat)
    requires a % WORD == 0 && b % WORD == 0
    ensures (a + b) % WORD == 0
  {
  }

  lemma StringAligned(s: Option<string>, vital: bool)
    requires s.Some? ==> |s.value| < TWO_31
    ensures Aligned(StringChunks(s, vital))
  {
    hide IntBytes;
    if s.Some? {
      RoundupMultiple(|s.value| + 1);
    }
  }

  lemma {:induction false} XexpAligned(x: Xexp, child: bool)
    requires Encodable(x)
    ensures Aligned(XexpChunks(x, child))
    decreases x, 1
  {
    hide StringChunks, IntBytes;
    StringAligned(Some(x.tag), child);
    match x
    case Text(_, t) => StringAligned(Some(t), true);
    case List(_, ks) => KidsAligned(ks);
  }

  lemma {:induction false} KidsAligned(ks: seq<Xexp>)
    requires forall k :: k in ks ==> Encodable(k)
    ensures Aligned(KidsChunks(ks))
    decreases ks, 0
  {
    hide XexpChunks;
    if ks != [] {
      XexpAligned(ks[0], true);
      KidsAligned(ks[1..]);
    }
  }

  /** Every field takes up a positive number of whole words. */
  lemma FieldAligned(f: Field)
    requires EncodableField(f)
    ensures |Bytes(FieldChunks(f))| % WORD == 0 && |Bytes(FieldChunks(f))| > 0
  {
    hide StringChunks, XexpChunks, IntBytes, LongBytes, Bytes;
    match f {
      case StringField(s) => StringAligned(s, false);
      case XexpField(Some(x)) =>
        XexpAligned(x, false);
      case _ =>
    }
    assert FieldChunks(f) != [] by {
      FieldNotEmpty(f);
    }
    AlignedBytes(FieldChunks(f));
  }

  lemma FieldNotEmpty(f: Field)
    requires EncodableField(f)
    ensures FieldChunks(f) != []
  {
  }

  lemma {:induction false} AllChunksAppend(fs: seq<Field>, gs: seq<Field>)
    requires EncodableFields(fs) && EncodableFields(gs)
    ensures EncodableFields(fs + gs) && AllChunks(fs + gs) == AllChunks(fs) + AllChunks(gs)
  {
    hide FieldChunks, EncodableField;
    if fs == [] {
      assert fs + gs == gs;
    } else {
      assert (fs + gs)[1..] == fs[1..] + gs;
      AllChunksAppend(fs[1..], gs);
    }
  }

  lemma SomethingEncoded(fs: seq<Field>)
    requires EncodableFields(fs)
    ensures |Encoding(fs)| > 0 <==> fs != []
  {
    if fs != [] {
      FieldAligned(fs[0]);
      BytesAppend(FieldChunks(fs[0]), AllChunks(fs[1..]));
    }
  }

  /** The decoder is at the end exactly after the last field. */
  lemma AtEndAfterLastField(fs: seq<Field>, k: nat)
    requires EncodableFields(fs) && k <= |fs|
    ensures var r := DecodeAll(Opened(Encoding(fs)), Types(fs[..k]));
      r.0 == Value(fs[..k]) && !r.1.corrupted && (r.1.atEnd <==> k == |fs|)
  {
    hide AllChunks, DecodeAll;
    var b := Encoding(fs);
    assert fs == fs[..k] + fs[k..];
    AllChunksAppend(fs[..k], fs[k..]);
    BytesAppend(AllChunks(fs[..k]), AllChunks(fs[k..]));
    assert b == b[..|b|] && b[0..0 + |Bytes(AllChunks(fs[..k]))|] == Bytes(AllChunks(fs[..k]));
    AllRead(Opened(b), b, |b|, fs[..k]);
    SomethingEncoded(fs[k..]);
  }

  // ---- When truncation is survived

  ghost predicate NothingVital(cs: seq<Chunk>) {
    forall c :: c in cs ==> !c.vital
  }

  lemma {:induction false} NotVitalNotMissing(cs: seq<Chunk>, avail: nat)
    requires NothingVital(cs)
    ensures !MissingVital(cs, avail)
  {
    if cs != [] {
      assert cs[0] in cs;
      if |cs[0].bytes| <= avail {
        NotVitalNotMissing(cs[1..], avail - |cs[0].bytes|);
      }
    }
  }

  lemma {:induction false} PlainFieldsNotVital(fs: seq<Field>)
    requires EncodableFields(fs) && forall f :: f in fs ==> !f.XexpField?
    ensures NothingVital(AllChunks(fs))
  {
    if fs != [] {
      assert fs[0] in fs;
      PlainFieldsNotVital(fs[1..]);
    }
  }

  /** Without x-expressions the decoder always notices that the end is missing. */
  lemma PlainTruncationNoticed(fs: seq<Field>, n: nat)
    requires EncodableFields(fs) && n < |Encoding(fs)| && forall f :: f in fs ==> !f.XexpField?
    ensures var r := DecodeAll(Opened(Encoding(fs)[..n]), Types(fs)); r.0.Value? && r.1.corrupted
  {
    TruncationNoticed(fs, n);
    PlainFieldsNotVital(fs);
    NotVitalNotMissing(AllChunks(fs), n);
  }

  /** Where the first child of a list begins. */
  ghost function FirstChildAt(x: Xexp): nat
    requires Encodable(x)
  {
    |Bytes(StringChunks(Some(x.tag), false))| + WORD
  }

  lemma FirstChildMissing(x: Xexp)
    requires Encodable(x) && x.List? && x.kids != []
    ensures MissingVital(XexpChunks(x, false), FirstChildAt(x))
  {
    hide IntBytes, Bytes;
    var tag := StringChunks(Some(x.tag), false);
    MissingVitalAppend(tag, BodyChunks(x), FirstChildAt(x));
    IntChunkMissing(|x.kids|, KidsChunks(x.kids), WORD);
    assert Encodable(x.kids[0]);
    var first := StringChunks(Some(x.kids[0].tag), true);
    assert KidsChunks(x.kids) == first + BodyChunks(x.kids[0]) + KidsChunks(x.kids[1..]);
    assert KidsChunks(x.kids)[0] == first[0] && first[0].vital && |first[0].bytes| == WORD;
  }

  lemma FirstChildInside(x: Xexp)
    requires Encodable(x) && x.List? && x.kids != [] && EncodableFields([XexpField(Some(x))])
    ensures FirstChildAt(x) < |Encoding([XexpField(Some(x))])|
  {
    hide StringChunks, IntBytes;
    var fs := [XexpField(Some(x))];
    assert fs[1..] == [];
    assert AllChunks(fs) == XexpChunks(x, false);
    BytesAppend(StringChunks(Some(x.tag), false), BodyChunks(x));
    IntChunkMissing(|x.kids|, KidsChunks(x.kids), 0);
    BytesAppend(XexpChunks(x.kids[0], true), KidsChunks(x.kids[1..]));
    XexpAligned(x.kids[0], true);
    AlignedBytes(XexpChunks(x.kids[0], true));
    XexpNotEmpty(x.kids[0]);
  }

  lemma XexpNotEmpty(x: Xexp)
    requires Encodable(x)
    ensures XexpChunks(x, true) != []
  {
  }

  /** A list that is cut off right before its first child brings the decoder down. */
  lemma TruncatedChildAborts(x: Xexp)
    requires Encodable(x) && x.List? && x.kids != [] && EncodableFields([XexpField(Some(x))])
    ensures FirstChildAt(x) < |Encoding([XexpField(Some(x))])|
    ensures DecodeAll(Opened(Encoding([XexpField(Some(x))])[..FirstChildAt(x)]), [XexpType]).0.Abort?
  {
    hide DecodeAll, XexpChunks, IntBytes;
    var fs := [XexpField(Some(x))];
    var n := FirstChildAt(x);
    FirstChildInside(x);
    TruncationNoticed(fs, n);
    assert Types(fs) == [XexpType];
    assert AllChunks(fs) == XexpChunks(x, false) by {
      assert fs[1..] == [];
    }
    FirstChildMissing(x);
  }
}
