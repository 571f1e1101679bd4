/** The bytes on the wire, and what the decoder makes of bytes that nobody encoded. */
module WireFormat {
  import opened Wrappers
  import opened Xexps
  import opened Wire
  import opened WireProofs

  // ---- Some encodings, byte by byte

  lemma NumberBytes()
    ensures IntBytes(1) == [1, 0, 0, 0] && IntBytes(-1) == [255, 255, 255, 255] && IntBytes(-2) == [254, 255, 255, 255]
    ensures IntBytes(0x0102_0304) == [4, 3, 2, 1]
    ensures LongBytes(0x0102_0304_0506) == [6, 5, 4, 3, 2, 1, 0, 0]
    ensures LongBytes(-2) == [254, 255, 255, 255, 255, 255, 255, 255]
  {
  }

  lemma {:induction false} AsciiIsUtf8(s: string)
    requires forall c :: c in s ==> c as int < 0x80
    ensures Utf8(s)
    decreases |s|
  {
    if s != "" {
      assert s[0] in s && forall c :: c in s[1..] ==> c in s;
      AsciiIsUtf8(s[1..]);
    }
  }

  lemma OneChunk(c: Chunk)
    ensures Bytes([c]) == c.bytes
  {
    assert [c][1..] == [] && Bytes([]) == [];
  }

  /** A string is its length, its bytes, a NUL and the padding; none is -1. */
  lemma StringEncoding()
    ensures Encoding([StringField(None)]) == [255, 255, 255, 255]
    ensures WireString("abcd")
    ensures Encoding([StringField(Some("abcd"))]) == [4, 0, 0, 0, 97, 98, 99, 100, 0, 0, 0, 0]
  {
    AsciiIsUtf8("abcd");
    StringChunksBytes(None, false);
    StringChunksBytes(Some("abcd"), false);
    NumberBytes();
    assert IntBytes(4) == [4, 0, 0, 0];
    SingleField(StringField(None));
    SingleField(StringField(Some("abcd")));
    assert StringBytes("abcd") == [97, 98, 99, 100];
    assert Padded([97, 98, 99, 100], 1) == [97, 98, 99, 100, 0, 0, 0, 0];
  }

  lemma SingleField(f: Field)
    requires EncodableField(f)
    ensures EncodableFields([f]) && Encoding([f]) == Bytes(FieldChunks(f))
  {
    hide EncodableField;
    assert [f][1..] == [] && AllChunks([]) == [];
    assert FieldChunks(f) + [] == FieldChunks(f);
  }

  lemma LetterBytes(s: string, vital: bool)
    requires |s| == 1 && 0 < s[0] as int < 0x80
    ensures WireString(s) && Bytes(StringChunks(Some(s), vital)) == [1, 0, 0, 0, s[0] as int, 0, 0, 0]
  {
    AsciiIsUtf8(s);
    StringChunksBytes(Some(s), vital);
    assert IntBytes(1) == [1, 0, 0, 0] && StringBytes(s) == [s[0] as int];
    assert Padded([s[0] as int], 1) == [s[0] as int, 0, 0, 0];
  }

  lemma TextBytes(tag: string, text: string, child: bool)
    requires |tag| == |text| == 1 && 0 < tag[0] as int < 0x80 && 0 < text[0] as int < 0x80
    ensures Encodable(Text(tag, text))
    ensures Bytes(XexpChunks(Text(tag, text), child)) ==
      [1, 0, 0, 0, tag[0] as int, 0, 0, 0, 255, 255, 255, 255, 1, 0, 0, 0, text[0] as int, 0, 0, 0]
  {
    LetterBytes(tag, child);
    LetterBytes(text, true);
    NumberBytes();
    OneChunk(IntChunk(-1));
    BytesAppend([IntChunk(-1)], StringChunks(Some(text), true));
    BytesAppend(StringChunks(Some(tag), child), BodyChunks(Text(tag, text)));
  }

  lemma OnlyChildBytes(tag: string, kid: Xexp)
    requires |tag| == 1 && 0 < tag[0] as int < 0x80 && Encodable(kid)
    ensures Encodable(List(tag, [kid]))
    ensures Bytes(XexpChunks(List(tag, [kid]), false)) ==
      [1, 0, 0, 0, tag[0] as int, 0, 0, 0] + ([1, 0, 0, 0] + Bytes(XexpChunks(kid, true)))
  {
    var x := List(tag, [kid]);
    LetterBytes(tag, false);
    hide WireString, StringChunks, XexpChunks;
    assert [kid][1..] == [] && KidsChunks([]) == [];
    assert KidsChunks([kid]) == XexpChunks(kid, true) + [] == XexpChunks(kid, true);
    NumberBytes();
    OneChunk(IntChunk(1));
    BytesAppend([IntChunk(1)], KidsChunks([kid]));
    ChunksOf(x);
    BytesAppend(StringChunks(Some(tag), false), BodyChunks(x));
  }

  lemma ChunksOf(x: Xexp)
    requires Encodable(x)
    ensures XexpChunks(x, false) == StringChunks(Some(x.tag), false) + BodyChunks(x)
  {
  }

  lemma Joined()
    ensures [1, 0, 0, 0, 97, 0, 0, 0]
            + ([1, 0, 0, 0] + [1, 0, 0, 0, 98, 0, 0, 0, 255, 255, 255, 255, 1, 0, 0, 0, 99, 0, 0, 0])
            == [1, 0, 0, 0, 97, 0, 0, 0, 1, 0, 0, 0, 1, 0, 0, 0, 98, 0, 0, 0, 255, 255, 255, 255, 1, 0, 0, 0, 99, 0, 0, 0]
  {
  }

  lemma NestedBytes()
    ensures Encodable(List("a", [Text("b", "c")]))
    ensures Bytes(XexpChunks(List("a", [Text("b", "c")]), false)) ==
      [1, 0, 0, 0, 97, 0, 0, 0]
      + ([1, 0, 0, 0] + [1, 0, 0, 0, 98, 0, 0, 0, 255, 255, 255, 255, 1, 0, 0, 0, 99, 0, 0, 0])
  {
    hide XexpChunks, Encodable;
    TextBytes("b", "c", true);
    OnlyChildBytes("a", Text("b", "c"));
  }

  lemma NoXexpEncoding()
    ensures Encoding([XexpField(None)]) == [255, 255, 255, 255]
  {
    NumberBytes();
    SingleField(XexpField(None));
    OneChunk(IntChunk(-1));
  }

  /** An x-expression is its tag and then -1 and the text, or the number of children and the
      children; none is -1. */
  lemma XexpEncoding()
    ensures Encoding([XexpField(None)]) == [255, 255, 255, 255]
    ensures Encodable(List("a", [Text("b", "c")]))
    ensures Encoding([XexpField(Some(List("a", [Text("b", "c")])))]) ==
      [1, 0, 0, 0, 97, 0, 0, 0, 1, 0, 0, 0, 1, 0, 0, 0, 98, 0, 0, 0, 255, 255, 255, 255, 1, 0, 0, 0, 99, 0, 0, 0]
  {
    hide Encodable, XexpChunks, Encoding, Bytes;
    NoXexpEncoding();
    NestedBytes();
    SingleField(XexpField(Some(List("a", [Text("b", "c")]))));
    Joined();
  }

  // ---- Strings that are not UTF-8

  /** Bytes above 127 are read as question marks, all others as they are; what lies behind the
      string is not touched. */
  lemma {:induction false} SanitizedReads(b: seq<Byte>)
    ensures var s, t := BytesString(b), BytesString(Sanitized(b));
      && |t| == |s| <= |b| && Sanitized(b)[|s|..] == b[|s|..]
      && forall i :: 0 <= i < |s| ==> t[i] == if s[i] as int > 127 then '?' else s[i]
  {
    if b != [] && b[0] != 0 {
      SanitizedReads(b[1..]);
      assert Sanitized(b)[1..] == Sanitized(b[1..]);
      var s := BytesString(b);
      assert Sanitized(b)[|s|..] == Sanitized(b[1..])[|s| - 1..] && b[|s|..] == b[1..][|s| - 1..];
    }
  }

  /** A string read in place is UTF-8 in any case, as long as the one that was sent, and the
      same but for the question marks; nothing before or behind it changes. */
  lemma StringReadIsUtf8(data: seq<Byte>, pos: nat)
    requires pos <= |data|
    ensures var (t, data') := StringAt(data, pos); var s := BytesString(data[pos..]);
      && Utf8(t) && |t| == |s| && pos + |s| <= |data| && |data'| == |data|
      && data'[..pos] == data[..pos] && data'[pos + |s|..] == data[pos + |s|..]
      && (Utf8(s) ==> t == s && data' == data)
      && (!Utf8(s) ==> forall i :: 0 <= i < |s| ==> t[i] == if s[i] as int > 127 then '?' else s[i])
  {
    hide Utf8;
    var rest := data[pos..];
    var s, t := BytesString(rest), BytesString(Sanitized(rest));
    SanitizedReads(rest);
    if !Utf8(s) {
      assert forall c :: c in t ==> c as int < 0x80;
      AsciiIsUtf8(t);
      var data' := data[..pos] + Sanitized(rest);
      assert data'[pos + |s|..] == Sanitized(rest)[|s|..];
      assert data[pos + |s|..] == rest[|s|..];
    }
  }

  // ---- The end of the data

  /** The end is reported exactly if everything has been read, or the data found corrupted. */
  ghost predicate EndKnown(d: Decoder) {
    d.atEnd <==> d.corrupted || d.pos == |d.data|
  }

  lemma SkipEnd(d: Decoder, n: nat)
    requires d.Valid() && EndKnown(d)
    ensures EndKnown(SkipMem(d, n))
  {
  }

  lemma StringEnd(d: Decoder)
    requires d.Valid() && EndKnown(d)
    ensures EndKnown(DecodeString(d).1)
  {
    hide SkipMem, StringAt;
    var (len, d1) := DecodeInt(d);
    SkipEnd(d, WORD);
    if len >= 0 {
      SkipEnd(d1, len + 1);
    }
  }

  lemma {:induction false} XexpEnd(d: Decoder)
    requires d.Valid() && EndKnown(d)
    ensures EndKnown(DecodeXexp(d).1)
    decreases d.Left(), 0, 0
  {
    hide EndKnown, DecodeString;
    StringEnd(d);
    var (tag, d1) := DecodeString(d);
    if tag.Some? {
      BodyEnd(d1, tag.value);
    }
  }

  lemma {:induction false} BodyEnd(d: Decoder, tag: string)
    requires d.Valid() && EndKnown(d)
    ensures EndKnown(DecodeBody(d, tag).1)
    decreases d.Left(), 2, 0
  {
    hide EndKnown, DecodeString;
    var (len, d1) := DecodeInt(d);
    SkipEnd(d, WORD);
    if len >= 0 {
      KidsEnd(d1, len);
    } else {
      StringEnd(d1);
    }
  }

  lemma {:induction false} KidsEnd(d: Decoder, n: nat)
    requires d.Valid() && EndKnown(d)
    ensures EndKnown(DecodeKids(d, n).1)
    decreases d.Left(), 1, n
  {
    hide EndKnown, DecodeString;
    if !d.corrupted && n > 0 {
      XexpEnd(d);
      var (kid, d1) := DecodeXexp(d);
      if kid.Value? && kid.value.Some? {
        KidsEnd(d1, n - 1);
      }
    }
  }

  lemma FieldEnd(d: Decoder, t: FieldType)
    requires d.Valid() && EndKnown(d)
    ensures EndKnown(DecodeField(d, t).1)
  {
    hide EndKnown, DecodeString, DecodeXexp;
    SkipEnd(d, WORD);
    SkipEnd(d, 2 * WORD);
    StringEnd(d);
    XexpEnd(d);
  }

  lemma {:induction false} AllEnd(d: Decoder, ts: seq<FieldType>)
    requires d.Valid() && EndKnown(d)
    ensures EndKnown(DecodeAll(d, ts).1)
    decreases |ts|
  {
    hide EndKnown, DecodeField;
    if ts != [] {
      FieldEnd(d, ts[0]);
      var (f, d1) := DecodeField(d, ts[0]);
      if f.Value? {
        AllEnd(d1, ts[1..]);
      }
    }
  }

  /** Whatever the data and whatever fields are read from it. */
  lemma EndIsKnown(data: seq<Byte>, ts: seq<FieldType>)
    ensures var d := DecodeAll(Opened(data), ts).1; d.atEnd <==> d.corrupted || d.pos == |d.data|
  {
    hide DecodeAll;
    AllEnd(Opened(data), ts);
  }
}
