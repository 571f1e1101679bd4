/** The encoder with its growing buffer and the decoder with its moving position. */
module WireBuffers {
  import opened Collections
  import opened Wrappers
  import opened Xexps
  import W = Wire
  import P = WireProofs

  const PAGE := 4096

  method MemCpy(a: array<W.Byte>, at: nat, val: seq<W.Byte>)
    requires at + |val| <= a.Length
    modifies a
    ensures a[..at + |val|] == old(a[..at]) + val
  {
    forall i | 0 <= i < |val| {
      a[at + i] := val[i];
    }
  }

  method MemSet(a: array<W.Byte>, at: nat, n: nat)
    requires at + n <= a.Length
    modifies a
    ensures a[..at + n] == old(a[..at]) + W.Zeros(n)
  {
    forall i | at <= i < at + n {
      a[i] := 0;
    }
  }

  class Encoder {
    var buf: array<W.Byte>
    var len: nat

    ghost predicate Valid()
      reads this
    {
      len <= buf.Length
    }

    ghost function Contents(): seq<W.Byte>
      requires Valid()
      reads this, buf
    {
      buf[..len]
    }

    constructor ()
      ensures Valid() && Contents() == [] && fresh(buf)
    {
      buf := new W.Byte[0];
      len := 0;
    }

    method Reset()
      requires Valid()
      modifies this`len
      ensures Valid() && Contents() == []
    {
      len := 0;
    }

    /** Makes room for `delta` more bytes. */
    method Grow(delta: nat)
      requires Valid()
      modifies this`buf
      ensures Valid() && len + delta <= buf.Length && Contents() == old(Contents())
      ensures buf == old(buf) || fresh(buf)
    {
      if len + delta > buf.Length {
        P.RoundupPage(len + delta);
        var grown := new W.Byte[W.Roundup(len + delta, PAGE)](_ => 0);
        forall i | 0 <= i < len {
          grown[i] := buf[i];
        }
        buf := grown;
      }
    }

    method EncodeMemPlusZeros(val: seq<W.Byte>, z: nat)
      requires Valid()
      modifies this, buf
      ensures Valid() && Contents() == old(Contents()) + W.Padded(val, z)
      ensures buf == old(buf) || fresh(buf)
    {
      P.RoundupMultiple(|val| + z);
      var r := W.Roundup(|val| + z, W.WORD);
      Grow(r);
      MemCpy(buf, len, val);
      MemSet(buf, len + |val|, r - |val|);
      len := len + r;
    }

    method EncodeInt(val: W.int32)
      requires Valid()
      modifies this, buf
      ensures Valid() && Contents() == old(Contents()) + W.IntBytes(val)
      ensures buf == old(buf) || fresh(buf)
    {
      P.RoundupMultiple(W.WORD);
      EncodeMemPlusZeros(W.IntBytes(val), 0);
      assert W.Padded(W.IntBytes(val), 0) == W.IntBytes(val);
    }

    method EncodeInt64(val: W.int64)
      requires Valid()
      modifies this, buf
      ensures Valid() && Contents() == old(Contents()) + W.LongBytes(val)
      ensures buf == old(buf) || fresh(buf)
    {
      P.RoundupMultiple(2 * W.WORD);
      EncodeMemPlusZeros(W.LongBytes(val), 0);
      assert W.Padded(W.LongBytes(val), 0) == W.LongBytes(val);
    }

    method EncodeString(val: Option<string>)
      requires Valid() && (val.Some? ==> |val.value| < W.TWO_31)
      modifies this, buf
      ensures Valid() && Contents() == old(Contents()) + W.Bytes(W.StringChunks(val, false))
      ensures buf == old(buf) || fresh(buf)
    {
      ghost var before := Contents();
      match val {
        case None =>
          EncodeInt(-1);
        case Some(s) =>
          EncodeInt(|s|);
          EncodeMemPlusZeros(W.StringBytes(s), 1);
      }
      P.StringChunksBytes(val, false);
    }

    method EncodeXexp(x: Option<Xexp>)
      requires Valid() && (x.Some? ==> W.Encodable(x.value))
      modifies this, buf
      ensures Valid() && Contents() == old(Contents()) + W.Bytes(W.FieldChunks(W.XexpField(x)))
      ensures buf == old(buf) || fresh(buf)
    {
      match x {
        case None =>
          EncodeString(None);
        case Some(y) =>
          EncodeTree(y, false);
      }
    }

    /** `child` only serves to say which chunks these bytes are. */
    method EncodeTree(x: Xexp, ghost child: bool)
      requires Valid() && W.Encodable(x)
      modifies this, buf
      ensures Valid() && Contents() == old(Contents()) + W.Bytes(W.XexpChunks(x, child))
      ensures buf == old(buf) || fresh(buf)
      decreases x, 2
    {
      hide W.IntBytes, W.StringChunks, W.Bytes, W.BodyChunks;
      EncodeString(Some(x.tag));
      P.VitalIsNoByte(Some(x.tag), child);
      EncodeBody(x);
      P.BytesAppend(W.StringChunks(Some(x.tag), child), W.BodyChunks(x));
    }

    /** What follows the tag. */
    method EncodeBody(x: Xexp)
      requires Valid() && W.Encodable(x)
      modifies this, buf
      ensures Valid() && Contents() == old(Contents()) + W.Bytes(W.BodyChunks(x))
      ensures buf == old(buf) || fresh(buf)
      decreases x, 1
    {
      hide W.IntBytes, W.StringChunks, W.Bytes;
      match x {
        case List(_, ks) =>
          EncodeInt(|ks|);
          EncodeKids(ks);
          P.IntChunkMissing(|ks|, W.KidsChunks(ks), 0);
        case Text(_, t) =>
          EncodeInt(-1);
          EncodeString(Some(t));
          P.VitalIsNoByte(Some(t), true);
          P.IntChunkMissing(-1, W.StringChunks(Some(t), true), 0);
      }
    }

    method EncodeKids(ks: seq<Xexp>)
      requires Valid() && forall k :: k in ks ==> W.Encodable(k)
      modifies this, buf
      ensures Valid() && Contents() == old(Contents()) + W.Bytes(W.KidsChunks(ks))
      ensures buf == old(buf) || fresh(buf)
      decreases ks, 0
    {
      hide W.XexpChunks, W.Bytes;
      var i := 0;
      while i < |ks|
        invariant 0 <= i <= |ks| && Valid() && (buf == old(buf) || fresh(buf))
        invariant Contents() + W.Bytes(W.KidsChunks(ks[i..])) == old(Contents()) + W.Bytes(W.KidsChunks(ks))
      {
        assert ks[i] in ks && ks[i..][1..] == ks[i + 1..];
        P.BytesAppend(W.XexpChunks(ks[i], true), W.KidsChunks(ks[i + 1..]));
        EncodeTree(ks[i], true);
        i := i + 1;
      }
      P.BytesNone();
      assert W.KidsChunks(ks[i..]) == [];
    }
  }

  /** The position and the flags move; the data changes only to make a string plain. */
  class Decoder {
    var data: array<W.Byte>
    var pos: nat
    var corrupted: bool
    var atEnd: bool

    ghost predicate Valid()
      reads this
    {
      pos <= data.Length
    }

    ghost function View(): (d: W.Decoder)
      requires Valid()
      reads this, data
      ensures d.Valid()
    {
      W.Decoder(data[..], pos, corrupted, atEnd)
    }

    constructor (data: array<W.Byte>)
      ensures Valid() && this.data == data && View() == W.Opened(data[..])
    {
      this.data, pos := data, 0;
      corrupted, atEnd := false, data.Length == 0;
    }

    /** Reads `n` bytes, or with `skip` only moves past them. */
    method DecodeMem(n: nat, skip: bool) returns (mem: seq<W.Byte>)
      requires Valid()
      modifies this`pos, this`corrupted, this`atEnd
      ensures Valid() && View() == W.SkipMem(old(View()), n)
      ensures mem == if corrupted || skip then [] else old(View()).data[old(pos)..old(pos) + n]
    {
      mem := [];
      if corrupted {
        return;
      }
      P.RoundupMultiple(n);
      var r := W.Roundup(n, W.WORD);
      if pos + r > data.Length {
        corrupted, atEnd := true, true;
      } else {
        if !skip {
          mem := data[pos..pos + n];
        }
        pos := pos + r;
        if pos == data.Length {
          atEnd := true;
        }
      }
    }

    method DecodeInt() returns (val: W.int32)
      requires Valid()
      modifies this`pos, this`corrupted, this`atEnd
      ensures Valid() && (val, View()) == W.DecodeInt(old(View()))
    {
      hide W.IntValue;
      val := 0;
      var mem := DecodeMem(W.WORD, false);
      if !corrupted {
        val := W.IntValue(mem);
      }
    }

    method DecodeInt64() returns (val: W.int64)
      requires Valid()
      modifies this`pos, this`corrupted, this`atEnd
      ensures Valid() && (val, View()) == W.DecodeLong(old(View()))
    {
      hide W.LongValue;
      val := 0;
      var mem := DecodeMem(2 * W.WORD, false);
      if !corrupted {
        val := W.LongValue(mem);
      }
    }

    /** Replaces bytes above 127 from `at` up to the next NUL. */
    method Sanitize(at: nat)
      requires at <= data.Length
      modifies data
      ensures data[..] == old(data[..at]) + W.Sanitized(old(data[at..]))
    {
      ghost var was := data[..];
      var p := at;
      while p < data.Length && data[p] != 0
        invariant at <= p <= data.Length
        invariant data[p..] == was[p..]
        invariant data[..p] + W.Sanitized(was[p..]) == was[..at] + W.Sanitized(was[at..])
      {
        ghost var done := data[..p];
        SanitizedStep(done, was, p);
        assert data[p] == data[p..][0];
        if data[p] > 127 {
          data[p] := '?' as int;
        }
        assert data[..p + 1] == done + [Plain(was[p])];
        assert data[p + 1..] == was[p..][1..];
        p := p + 1;
      }
      assert data[p..] == was[p..] == W.Sanitized(was[p..]);
      assert data[..] == data[..p] + data[p..];
      assert was[..at] == old(data[..at]) && was[at..] == old(data[at..]);
    }

    method DecodeStringInPlace() returns (str: Option<string>)
      requires Valid()
      modifies this`pos, this`corrupted, this`atEnd, data
      ensures Valid() && (str, View()) == W.DecodeString(old(View()))
    {
      hide W.IntValue, W.Utf8, W.BytesString, W.SkipMem, W.Sanitized;
      var len := DecodeInt();
      if len == -1 || corrupted {
        return None;
      }
      if len < -1 {
        corrupted, atEnd := true, true;
        return None;
      }
      var ptr := pos;
      ghost var before := data[..];
      var _ := DecodeMem(len + 1, true);
      assert data[ptr..] == before[ptr..];
      if !W.Utf8(W.BytesString(data[ptr..])) {
        Sanitize(ptr);
        assert data[ptr..] == W.Sanitized(before[ptr..]);
      }
      str := Some(W.BytesString(data[ptr..]));
    }

    method DecodeXexp() returns (x: W.Result<Option<Xexp>>)
      requires Valid()
      modifies this`pos, this`corrupted, this`atEnd, data
      ensures Valid() && (x, View()) == W.DecodeXexp(old(View()))
      decreases View().Left(), 0, 0
    {
      hide W.DecodeKids, W.DecodeString, W.DecodeInt;
      var tag := DecodeStringInPlace();
      if tag.None? {
        return W.Value(None);
      }
      var len := DecodeInt();
      if len >= 0 {
        var kids := DecodeKids(len);
        return if kids.Abort? then W.Abort else W.Value(Some(List(tag.value, kids.value)));
      } else {
        var text := DecodeStringInPlace();
        return if text.None? then W.Abort else W.Value(Some(NewText(tag.value, text.value)));
      }
    }

    /** Children are consed onto the list, which is reversed at the end. */
    method DecodeKids(n: nat) returns (r: W.Result<seq<Xexp>>)
      requires Valid()
      modifies this`pos, this`corrupted, this`atEnd, data
      ensures Valid() && (r, View()) == W.DecodeKids(old(View()), n)
      decreases View().Left(), 1, n
    {
      hide W.DecodeXexp;
      var kids: seq<Xexp>, len: nat := [], n;
      ghost var start := View();
      assert Reversed(kids) == [];
      PrependNothing(W.DecodeKids(start, n));
      while !corrupted && len > 0
        invariant Valid() && View().Left() <= start.Left() && len <= n
        invariant Prepend(Reversed(kids), W.DecodeKids(View(), len)) == W.DecodeKids(start, n)
        decreases len
      {
        var kid := DecodeXexp();
        if kid.Abort? || kid.value.None? {
          return W.Abort;
        }
        ReversedCons(kid.value.value, kids);
        PrependTwice(Reversed(kids), [kid.value.value], W.DecodeKids(View(), len - 1));
        kids := [kid.value.value] + kids;
        len := len - 1;
      }
      r := W.Value(Reversed(kids));
      assert Reversed(kids) + [] == Reversed(kids);
    }
  }

  function Plain(b: W.Byte): W.Byte {
    if b > 127 then '?' as int else b
  }

  lemma SanitizedStep(done: seq<W.Byte>, was: seq<W.Byte>, p: nat)
    requires p < |was| && was[p] != 0
    ensures done + W.Sanitized(was[p..]) == done + [Plain(was[p])] + W.Sanitized(was[p + 1..])
  {
    assert was[p..][1..] == was[p + 1..];
  }

  /** Children decoded earlier put before those decoded later. */
  ghost function Prepend(done: seq<Xexp>, r: (W.Result<seq<Xexp>>, W.Decoder)): (W.Result<seq<Xexp>>, W.Decoder) {
    (if r.0.Abort? then W.Abort else W.Value(done + r.0.value), r.1)
  }

  lemma PrependNothing(r: (W.Result<seq<Xexp>>, W.Decoder))
    ensures Prepend([], r) == r
  {
    if r.0.Value? {
      assert [] + r.0.value == r.0.value;
    }
  }

  lemma PrependTwice(a: seq<Xexp>, b: seq<Xexp>, r: (W.Result<seq<Xexp>>, W.Decoder))
    ensures Prepend(a, Prepend(b, r)) == Prepend(a + b, r)
  {
    if r.0.Value? {
      assert a + (b + r.0.value) == a + b + r.0.value;
    }
  }
}
