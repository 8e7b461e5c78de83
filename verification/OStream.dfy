/** pb_ostream_t and the stream primitives of pb_encode.c. */
module OStreams {
  import opened Basics
  import opened Pb
  import opened Wire
  import opened Numbers
  import opened EncodeSpec

  /** The abstract value of an output stream: what the buffer holds (nothing, for a sizing
      stream), the write position, the limit and the count. */
  datatype Out = Out(content: Option<seq<byte>>, state: nat, maxSize: nat, written: nat)
  {
    predicate Valid() {
      content.Some? ==> written <= maxSize && state + (maxSize - written) <= |content.value|
    }

    /** bs may still be written. */
    predicate Room(bs: seq<byte>) {
      content.Some? ==> written + |bs| <= maxSize
    }

    /** The stream after bs has been written. */
    function Put(bs: seq<byte>): (o: Out)
      requires Valid() && Room(bs)
      ensures o.Valid()
    {
      if content.None? then this.(written := written + |bs|)
      else this.(content := Some(content.value[..state] + bs + content.value[state + |bs|..]),
                 state := state + |bs|,
                 written := written + |bs|)
    }

    /** Whatever came of writing, o is as far ahead as bytes were counted and within the
        limit, and nothing before the old or from the new write position on has changed. */
    predicate SameOutside(o: Out) {
      content.Some? && Valid() ==>
        && o.content.Some? && |o.content.value| == |content.value|
        && o.maxSize == maxSize && written <= o.written <= maxSize
        && o.state == state + (o.written - written)
        && o.content.value[..state] == content.value[..state]
        && o.content.value[o.state..] == content.value[o.state..]
    }

    lemma {:induction false} PutPut(a: seq<byte>, b: seq<byte>)
      requires Valid() && Room(a) && Put(a).Room(b)
      ensures Room(a + b) && Put(a).Put(b) == Put(a + b)
    {
      if content.Some? {
        var c := content.value;
        var c1 := c[..state] + a + c[state + |a|..];
        assert c1[..state + |a|] == c[..state] + a;
        assert c1[state + |a| + |b|..] == c[state + |a| + |b|..];
        assert c1[..state + |a|] + b + c1[state + |a| + |b|..] == c[..state] + (a + b) + c[state + |a + b|..];
      }
    }

    lemma {:induction false} OutsidePut(a: seq<byte>, o: Out)
      requires Valid() && Room(a)
      ensures SameOutside(Put(a))
      ensures Put(a).SameOutside(o) ==> SameOutside(o)
    {
      if content.Some? {
        var c, c1 := content.value, Put(a).content.value;
        assert c1[..state] == c[..state];
        assert c1[state + |a|..] == c[state + |a|..];
        if Put(a).SameOutside(o) {
          assert o.content.value[..state] == o.content.value[..state + |a|][..state];
          assert c1[..state + |a|][..state] == c1[..state];
          assert c1[o.state..] == c1[state + |a|..][o.state - state - |a|..];
          assert c[o.state..] == c[state + |a|..][o.state - state - |a|..];
        }
      }
    }
  }

  /** An output stream.  A null buffer is the null callback of PB_OSTREAM_SIZING: bytes are
      counted and not stored. */
  class OStream {
    const buffer: array?<byte>
    var state: nat
    var maxSize: nat
    var bytesWritten: nat

    constructor (buffer: array?<byte>, state: nat, maxSize: nat)
      requires buffer != null ==> state + maxSize <= buffer.Length
      ensures this.buffer == buffer && Abs() == Out(if buffer == null then None else Some(buffer[..]), state,
          maxSize, 0)
      ensures Abs().Valid()
    {
      this.buffer, this.state, this.maxSize, this.bytesWritten := buffer, state, maxSize, 0;
    }

    ghost function Abs(): Out
      reads this, buffer
    {
      Out(if buffer == null then None else Some(buffer[..]), state, maxSize, bytesWritten)
    }

    /** pb_write.  `bs` stands for the bytes that are counted; only a sizing stream is ever
        given no data for them. */
    method Write(data: seq<byte>, count: nat, ghost bs: seq<byte>) returns (ok: bool)
      requires Abs().Valid() && |bs| == count && (buffer != null ==> data == bs)
      modifies this, buffer
      ensures ok <==> old(Abs()).Room(bs)
      ensures ok ==> Abs() == old(Abs()).Put(bs)
      ensures old(Abs()).SameOutside(Abs())
    {
      if count > 0 && buffer != null {
        if bytesWritten + count > maxSize {
          return false;
        }
        CopyIn(data);
      }
      bytesWritten := bytesWritten + count;
      ok := true;
      if buffer == null || count > 0 {
        old(Abs()).OutsidePut(bs, Abs());
      } else {
        assert old(buffer[..])[..state] + bs + old(buffer[..])[state..] == old(buffer[..]);
      }
    }

    /** buf_write */
    method CopyIn(data: seq<byte>)
      requires buffer != null && state + |data| <= buffer.Length
      modifies `state, buffer
      ensures state == old(state) + |data|
      ensures buffer[..] == old(buffer[..])[..old(state)] + data + old(buffer[..])[state..]
    {
      var at := state;
      ghost var was := buffer[..];
      state := state + |data|;
      var i := 0;
      while i < |data|
        invariant 0 <= i <= |data|
        invariant forall k :: 0 <= k < buffer.Length ==>
                    buffer[k] == if at <= k < at + i then data[k - at] else was[k]
        modifies buffer
      {
        buffer[at + i] := data[i];
        i := i + 1;
      }
      ghost var want := was[..at] + data + was[at + |data|..];
      assert forall k :: 0 <= k < |want| ==> buffer[..][k] == want[k];
    }

    /** pb_encode_varint */
    method WriteVarint(value: nat) returns (ok: bool)
      requires Abs().Valid() && value < U64
      modifies this, buffer
      ensures ok <==> old(Abs()).Room(EncodeVarint(value))
      ensures ok ==> Abs() == old(Abs()).Put(EncodeVarint(value))
      ensures old(Abs()).SameOutside(Abs())
    {
      if value <= 0x7F {
        ok := Write([value], 1, [value]);
        return;
      }
      var groups, i := VarintGroups(value);
      ok := Write(groups[..i], i, groups[..i]);
    }

    /** pb_encode_fixed32 */
    method WriteFixed32(value: nat) returns (ok: bool)
      requires Abs().Valid()
      modifies this, buffer
      ensures ok <==> old(Abs()).Room(ToLE(value, 4))
      ensures ok ==> Abs() == old(Abs()).Put(ToLE(value, 4))
      ensures old(Abs()).SameOutside(Abs())
    {
      var bytes := Word(value);
      BytesOfWord(value);
      hide Word;
      ok := Write(bytes, 4, bytes);
    }

    /** pb_encode_fixed64 */
    method WriteFixed64(value: nat) returns (ok: bool)
      requires Abs().Valid()
      modifies this, buffer
      ensures ok <==> old(Abs()).Room(ToLE(value, 8))
      ensures ok ==> Abs() == old(Abs()).Put(ToLE(value, 8))
      ensures old(Abs()).SameOutside(Abs())
    {
      var bytes := Word(value) + Word(value / U32);
      BytesOfWord(value);
      BytesOfWord(value / U32);
      SplitWord(value);
      hide Word;
      ok := Write(bytes, 8, bytes);
    }

    /** pb_encode_svarint, for an int64_t value */
    method WriteSVarint(value: int) returns (ok: bool)
      requires Abs().Valid() && InSigned(value, 8)
      modifies this, buffer
      ensures ok <==> old(Abs()).Room(EncodeVarint(ZigZag(value)))
      ensures ok ==> Abs() == old(Abs()).Put(EncodeVarint(ZigZag(value)))
      ensures old(Abs()).SameOutside(Abs())
    {
      hide EncodeVarint;
      var zigzagged: nat;
      if value < 0 {
        zigzagged := U64 - 1 - (value % U64 * 2) % U64;
      } else {
        zigzagged := (value % U64 * 2) % U64;
      }
      ShiftedSign(value);
      ok := WriteVarint(zigzagged);
    }

    /** pb_encode_string: a length and the bytes. */
    method WriteString(data: seq<byte>) returns (ok: bool)
      requires Abs().Valid()
      modifies this, buffer
      ensures ok <==> old(Abs()).Room(Prefixed(data))
      ensures ok ==> Abs() == old(Abs()).Put(Prefixed(data))
      ensures old(Abs()).SameOutside(Abs())
    {
      hide EncodeVarint;
      ghost var o := Abs();
      ghost var length := EncodeVarint(|data| % U64);
      ok := WriteVarint(|data| % U64);
      if !ok { return; }
      ok := Write(data, |data|, data);
      o.OutsidePut(length, Abs());
      if ok { o.PutPut(length, data); }
    }

    /** pb_encode_tag: the tag number is a pb_size_t. */
    method WriteTag(wireType: nat, tag: nat) returns (ok: bool)
      requires Abs().Valid() && wireType < 8 && tag <= PB_SIZE_MAX
      modifies this, buffer
      ensures ok <==> old(Abs()).Room(TagBytes(tag, wireType))
      ensures ok ==> Abs() == old(Abs()).Put(TagBytes(tag, wireType))
      ensures old(Abs()).SameOutside(Abs())
    {
      hide EncodeVarint;
      ok := WriteVarint(tag * 8 + wireType);
    }
  }

  /** The groups of a varint of more than one byte: every group gets a continuation bit,
      and the last one loses it again. */
  method VarintGroups(value: nat) returns (groups: array<byte>, i: nat)
    requires 0x7F < value < U64
    ensures fresh(groups) && i <= groups.Length && groups[..i] == EncodeVarint(value)
  {
    hide EncodeVarint;
    groups := new byte[10];
    var v := value;
    i := 0;
    LengthLimits(value);
    while v != 0
      invariant 0 <= i <= 10
      invariant v != 0 ==> groups[..i] + EncodeVarint(v) == EncodeVarint(value)
      invariant v == 0 ==> i > 0 && groups[..i - 1] + [groups[i - 1] % 128] == EncodeVarint(value)
    {
      assert i + |EncodeVarint(v)| == |EncodeVarint(value)|;
      ghost var was := groups[..i];
      groups[i] := v % 128 + 128;
      assert groups[..i] == was && groups[..i + 1] == was + [groups[i]];
      GroupStep(was, v);
      v := v / 128;
      i := i + 1;
    }
    ghost var head := groups[..i - 1];
    groups[i - 1] := groups[i - 1] % 128;
    assert groups[..i] == head + [groups[i - 1]];
  }

  lemma {:induction false} GroupStep(head: seq<byte>, v: nat)
    ensures v >= 128 ==> head + EncodeVarint(v) == (head + [v % 128 + 128]) + EncodeVarint(v / 128)
    ensures v < 128 ==> head + EncodeVarint(v) == head + [(v % 128 + 128) % 128]
  {
  }

  /** The four low bytes of a number, least significant first. */
  function Word(v: nat): seq<byte> {
    [v % 0x100, v / 0x100 % 0x100, v / 0x1_0000 % 0x100, v / 0x100_0000 % 0x100]
  }

  lemma {:induction false} BytesOfWord(v: nat)
    ensures Word(v) == ToLE(v, 4)
  {
    var v1, v2, v3 := v / 256, v / 256 / 256, v / 256 / 256 / 256;
    assert v2 == v / 0x1_0000 && v3 == v / 0x100_0000;
    assert ToLE(v3, 1) == [v3 % 256] + ToLE(v3 / 256, 0);
    assert ToLE(v2, 2) == [v2 % 256] + ToLE(v3, 1);
    assert ToLE(v1, 3) == [v1 % 256] + ToLE(v2, 2);
  }

  lemma {:induction false} SplitWord(v: nat)
    ensures ToLE(v, 8) == ToLE(v, 4) + ToLE(v / U32, 4)
  {
    var v1, v2, v3, v4 := v / 256, v / 256 / 256, v / 256 / 256 / 256, v / 256 / 256 / 256 / 256;
    assert v4 == v / U32;
    SplitStep(v, 4, 4); SplitStep(v1, 3, 4); SplitStep(v2, 2, 4); SplitStep(v3, 1, 4);
    assert ToLE(v4, 0) == [];
    hide ToLE;
  }

  lemma {:induction false} SplitStep(v: nat, k: nat, n: nat)
    requires k > 0
    ensures ToLE(v, k + n) == [v % 256] + ToLE(v / 256, k - 1 + n)
    ensures ToLE(v, k) == [v % 256] + ToLE(v / 256, k - 1)
  {
    assert k + n - 1 == k - 1 + n;
  }

  lemma {:induction false} ShiftedSign(v: int)
    requires InSigned(v, 8)
    ensures v < 0 ==> U64 - 1 - (v % U64 * 2) % U64 == ZigZag(v)
    ensures v >= 0 ==> (v % U64 * 2) % U64 == ZigZag(v)
  {
  }
}
