/** The binary encoding of requests and responses.  A char stands for one byte of a C
    string.  The encoding is described as a list of chunks, one for each block of memory
    that the decoder reads. */
module Wire {
  import opened Wrappers
  import opened Xexps

  type Byte = x: int | 0 <= x < 256

  const WORD := 4
  const TWO_32 := 0x1_0000_0000
  const TWO_31 := 0x8000_0000
  const TWO_63 := 0x8000_0000_0000_0000
  const TWO_64 := 0x1_0000_0000_0000_0000

  type int32 = x: int | -TWO_31 <= x < TWO_31
  type int64 = x: int | -TWO_63 <= x < TWO_63

  function Roundup(val: nat, factor: nat): nat
    requires factor > 0
  {
    (val + factor - 1) / factor * factor
  }

  // ---- Integers in memory

  function WordBytes(u: nat): (b: seq<Byte>)
    requires u < TWO_32
    ensures |b| == WORD
  {
    [u % 256, u / 256 % 256, u / 65536 % 256, u / 16777216]
  }

  function WordValue(b: seq<Byte>): (u: nat)
    requires |b| == WORD
    ensures u < TWO_32
  {
    var b0: int, b1: int, b2: int, b3: int := b[0], b[1], b[2], b[3];
    b0 + 256 * b1 + 65536 * b2 + 16777216 * b3
  }

  function IntBytes(v: int32): (b: seq<Byte>)
    ensures |b| == WORD
  {
    WordBytes(if v < 0 then v + TWO_32 else v)
  }

  function IntValue(b: seq<Byte>): int32
    requires |b| == WORD
  {
    var u := WordValue(b);
    if u >= TWO_31 then u - TWO_32 else u
  }

  function LongBytes(v: int64): (b: seq<Byte>)
    ensures |b| == 2 * WORD
  {
    var u := if v < 0 then v + TWO_64 else v;
    WordBytes(u % TWO_32) + WordBytes(u / TWO_32)
  }

  function LongValue(b: seq<Byte>): int64
    requires |b| == 2 * WORD
  {
    var u := WordValue(b[..WORD]) + TWO_32 * WordValue(b[WORD..]);
    if u >= TWO_63 then u - TWO_64 else u
  }

  // ---- Strings in memory

  /** A string that may be sent: bytes without a NUL that are well-formed UTF-8. */
  ghost predicate WireString(s: string) {
    (forall c :: c in s ==> 0 < c as int < 256) && Utf8(s) && |s| < TWO_31 - WORD
  }

  function CharByte(c: char): Byte {
    if c as int < 256 then c as int else 0
  }

  function StringBytes(s: string): (b: seq<Byte>)
    ensures |b| == |s|
  {
    seq(|s|, i requires 0 <= i < |s| => CharByte(s[i]))
  }

  function Zeros(n: nat): (b: seq<Byte>)
    ensures |b| == n
  {
    seq(n, _ => 0)
  }

  /** The bytes followed by at least `z` zeros, up to a multiple of the word size. */
  function Padded(b: seq<Byte>, z: nat): seq<Byte> {
    b + Zeros(Roundup(|b| + z, WORD) - |b|)
  }

  /** What a `char *` to these bytes denotes: everything up to the first NUL. */
  function BytesString(b: seq<Byte>): string {
    if b == [] || b[0] == 0 then "" else [b[0] as char] + BytesString(b[1..])
  }

  // ---- Chunks

  /** `vital` marks a chunk whose absence is more than the decoder can take. */
  datatype Chunk = Chunk(bytes: seq<Byte>, vital: bool)

  function IntChunk(v: int32): Chunk {
    Chunk(IntBytes(v), false)
  }

  function StringChunks(s: Option<string>, vital: bool): seq<Chunk>
    requires s.Some? ==> |s.value| < TWO_31
  {
    match s
    case None => [Chunk(IntBytes(-1), vital)]
    case Some(t) => [Chunk(IntBytes(|t|), vital), Chunk(Padded(StringBytes(t), 1), false)]
  }

  ghost predicate Encodable(x: Xexp) {
    && WireString(x.tag)
    && match x
       case Text(_, t) => t != "" && WireString(t)
       case List(_, ks) => |ks| < TWO_31 && forall k :: k in ks ==> Encodable(k)
  }

  ghost function XexpChunks(x: Xexp, child: bool): seq<Chunk>
    requires Encodable(x)
    decreases x, 2
  {
    StringChunks(Some(x.tag), child) + BodyChunks(x)
  }

  /** What follows the tag: a negative number and the text, or the number of children and
      the children. */
  ghost function BodyChunks(x: Xexp): seq<Chunk>
    requires Encodable(x)
    decreases x, 1
  {
    match x
    case Text(_, t) => [IntChunk(-1)] + StringChunks(Some(t), true)
    case List(_, ks) => [IntChunk(|ks|)] + KidsChunks(ks)
  }

  ghost function KidsChunks(ks: seq<Xexp>): seq<Chunk>
    requires forall k :: k in ks ==> Encodable(k)
    decreases ks, 0
  {
    if ks == [] then [] else XexpChunks(ks[0], true) + KidsChunks(ks[1..])
  }

  datatype Field =
    | IntField(i: int32)
    | LongField(l: int64)
    | StringField(s: Option<string>)
    | XexpField(x: Option<Xexp>)

  datatype FieldType = IntType | LongType | StringType | XexpType

  function TypeOf(f: Field): FieldType {
    match f
    case IntField(_) => IntType
    case LongField(_) => LongType
    case StringField(_) => StringType
    case XexpField(_) => XexpType
  }

  ghost predicate EncodableField(f: Field) {
    match f
    case IntField(_) => true
    case LongField(_) => true
    case StringField(s) => s.Some? ==> WireString(s.value)
    case XexpField(x) => x.Some? ==> Encodable(x.value)
  }

  ghost function FieldChunks(f: Field): seq<Chunk>
    requires EncodableField(f)
  {
    match f
    case IntField(i) => [IntChunk(i)]
    case LongField(l) => [Chunk(LongBytes(l), false)]
    case StringField(s) => StringChunks(s, false)
    case XexpField(None) => [IntChunk(-1)]
    case XexpField(Some(x)) => XexpChunks(x, false)
  }

  ghost predicate EncodableFields(fs: seq<Field>) {
    forall f :: f in fs ==> EncodableField(f)
  }

  ghost function AllChunks(fs: seq<Field>): seq<Chunk>
    requires EncodableFields(fs)
  {
    if fs == [] then [] else FieldChunks(fs[0]) + AllChunks(fs[1..])
  }

  function Bytes(cs: seq<Chunk>): seq<Byte> {
    if cs == [] then [] else cs[0].bytes + Bytes(cs[1..])
  }

  // ---- Well-formed UTF-8 (table 3-7 of the Unicode standard)

  predicate Tail(s: string, i: nat, n: nat) {
    i + n <= |s| && forall j :: i <= j < i + n ==> 0x80 <= s[j] as int < 0xC0
  }

  /** The length of the sequence at the start of `s`, or 0 if there is none. */
  function Utf8Length(s: string): (n: nat)
    requires s != ""
    ensures n <= |s|
  {
    var b := s[0] as int;
    if b < 0x80 then 1
    else if 0xC2 <= b < 0xE0 && Tail(s, 1, 1) then 2
    else if 0xE0 <= b < 0xF0 && Tail(s, 1, 2) then
      if (b == 0xE0 && s[1] as int < 0xA0) || (b == 0xED && s[1] as int >= 0xA0) then 0 else 3
    else if 0xF0 <= b < 0xF5 && Tail(s, 1, 3) then
      if (b == 0xF0 && s[1] as int < 0x90) || (b == 0xF4 && s[1] as int >= 0x90) then 0 else 4
    else 0
  }

  predicate Utf8(s: string)
    decreases |s|
  {
    s == "" || (Utf8Length(s) > 0 && Utf8(s[Utf8Length(s)..]))
  }

  // ---- Decoding

  datatype Decoder = Decoder(data: seq<Byte>, pos: nat, corrupted: bool, atEnd: bool) {
    ghost predicate Valid() {
      pos <= |data|
    }

    /** Bounds the work left; nothing is left once the data is found corrupted. */
    function Left(): nat
      requires pos <= |data|
    {
      if corrupted then 0 else |data| - pos + 1
    }
  }

  function Opened(data: seq<Byte>): Decoder {
    Decoder(data, 0, false, data == [])
  }

  /** Skips a block of `n` bytes, if the data holds it. */
  function SkipMem(d: Decoder, n: nat): (d': Decoder)
    requires d.Valid()
    ensures d'.Valid() && d'.data == d.data && d'.Left() <= d.Left()
    ensures !d'.corrupted && n > 0 ==> d'.Left() < d.Left()
    ensures d.corrupted ==> d' == d
  {
    if d.corrupted then d
    else
      var r := Roundup(n, WORD);
      if d.pos + r > |d.data| then d.(corrupted := true, atEnd := true)
      else d.(pos := d.pos + r, atEnd := d.atEnd || d.pos + r == |d.data|)
  }

  function DecodeInt(d: Decoder): (r: (int32, Decoder))
    requires d.Valid()
    ensures r.1.Valid() && r.1 == SkipMem(d, WORD)
  {
    var d' := SkipMem(d, WORD);
    (if d'.corrupted then 0 else IntValue(d.data[d.pos..d.pos + WORD]), d')
  }

  function DecodeLong(d: Decoder): (r: (int64, Decoder))
    requires d.Valid()
    ensures r.1.Valid()
  {
    var d' := SkipMem(d, 2 * WORD);
    (if d'.corrupted then 0 else LongValue(d.data[d.pos..d.pos + 2 * WORD]), d')
  }

  /** In place: bytes above 127 become question marks. */
  function Sanitized(b: seq<Byte>): (b': seq<Byte>)
    ensures |b'| == |b|
  {
    if b == [] || b[0] == 0 then b
    else [if b[0] > 127 then '?' as int else b[0]] + Sanitized(b[1..])
  }

  /** The string at a position and the data afterwards: unless it is UTF-8 it is made
      plain first. */
  function StringAt(data: seq<Byte>, pos: nat): (r: (string, seq<Byte>))
    requires pos <= |data|
    ensures |r.1| == |data|
  {
    var rest := data[pos..];
    if Utf8(BytesString(rest)) then (BytesString(rest), data)
    else (BytesString(Sanitized(rest)), data[..pos] + Sanitized(rest))
  }

  /** A string is decoded where it lies. */
  function DecodeString(d: Decoder): (r: (Option<string>, Decoder))
    requires d.Valid()
    ensures r.1.Valid() && |r.1.data| == |d.data| && r.1.Left() <= d.Left()
    ensures !r.1.corrupted ==> r.1.Left() < d.Left()
    ensures d.corrupted ==> r == (None, d)
  {
    var (len, d1) := DecodeInt(d);
    if len == -1 || d1.corrupted then (None, d1)
    else if len < -1 then (None, d1.(corrupted := true, atEnd := true))
    else
      var (text, data) := StringAt(d1.data, d1.pos);
      (Some(text), SkipMem(d1, len + 1).(data := data))
  }

  /** Decoding returns a value, or runs into a failed assertion or a null pointer. */
  datatype Result<+T> = Value(value: T) | Abort

  function DecodeXexp(d: Decoder): (r: (Result<Option<Xexp>>, Decoder))
    requires d.Valid()
    ensures r.1.Valid() && |r.1.data| == |d.data| && r.1.Left() <= d.Left()
    ensures d.corrupted ==> r == (Value(None), d)
    decreases d.Left(), 0, 0
  {
    var (tag, d1) := DecodeString(d);
    if tag.None? then (Value(None), d1)
    else
      var (x, d2) := DecodeBody(d1, tag.value);
      (if x.Abort? then Abort else Value(Some(x.value)), d2)
  }

  /** The rest of an x-expression once its tag is known. */
  function DecodeBody(d: Decoder, tag: string): (r: (Result<Xexp>, Decoder))
    requires d.Valid()
    ensures r.1.Valid() && |r.1.data| == |d.data| && r.1.Left() <= d.Left()
    ensures d.corrupted ==> r == (Value(List(tag, [])), d)
    decreases d.Left(), 2, 0
  {
    var (len, d1) := DecodeInt(d);
    if len >= 0 then
      var (kids, d2) := DecodeKids(d1, len);
      (if kids.Abort? then Abort else Value(List(tag, kids.value)), d2)
    else
      var (text, d2) := DecodeString(d1);
      (if text.None? then Abort else Value(NewText(tag, text.value)), d2)
  }

  /** Up to `n` children, until the data is found corrupted.  A child that is missing
      altogether cannot be linked in. */
  function DecodeKids(d: Decoder, n: nat): (r: (Result<seq<Xexp>>, Decoder))
    requires d.Valid()
    ensures r.1.Valid() && |r.1.data| == |d.data| && r.1.Left() <= d.Left()
    decreases d.Left(), 1, n
  {
    if d.corrupted || n == 0 then (Value([]), d)
    else
      var (kid, d1) := DecodeXexp(d);
      if kid.Abort? || kid.value.None? then (Abort, d1)
      else
        var (kids, d2) := DecodeKids(d1, n - 1);
        (if kids.Abort? then Abort else Value([kid.value.value] + kids.value), d2)
  }

  function DecodeField(d: Decoder, t: FieldType): (r: (Result<Field>, Decoder))
    requires d.Valid()
    ensures r.1.Valid()
  {
    match t
    case IntType => var (v, d') := DecodeInt(d); (Value(IntField(v)), d')
    case LongType => var (v, d') := DecodeLong(d); (Value(LongField(v)), d')
    case StringType => var (v, d') := DecodeString(d); (Value(StringField(v)), d')
    case XexpType =>
      var (v, d') := DecodeXexp(d);
      (if v.Abort? then Abort else Value(XexpField(v.value)), d')
  }

  function DecodeAll(d: Decoder, ts: seq<FieldType>): (r: (Result<seq<Field>>, Decoder))
    requires d.Valid()
    ensures r.1.Valid()
    decreases |ts|
  {
    if ts == [] then (Value([]), d)
    else
      var (f, d1) := DecodeField(d, ts[0]);
      if f.Abort? then (Abort, d1)
      else
        var (fs, d2) := DecodeAll(d1, ts[1..]);
        (if fs.Abort? then Abort else Value([f.value] + fs.value), d2)
  }
}
