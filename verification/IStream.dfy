/** pb_istream_t and the stream primitives of pb_decode.c. */
module IStreams {
  import opened Basics
  import opened Pb
  import opened Wire
  import opened Numbers
  import opened DecodeSpec

  /** An input stream.  The callback of a buffer stream copies from `source`; a custom
      callback is assumed not to fail, so it also delivers the bytes of `source` in order. */
  class IStream {
    const source: seq<byte>
    const fromBuffer: bool
    var state: nat       // index of the next byte
    var bytesLeft: nat

    constructor (source: seq<byte>, fromBuffer: bool, state: nat, bytesLeft: nat)
      requires state + bytesLeft <= |source|
      ensures Valid() && this.source == source && this.fromBuffer == fromBuffer
      ensures this.state == state && this.bytesLeft == bytesLeft
    {
      this.source, this.fromBuffer := source, fromBuffer;
      this.state, this.bytesLeft := state, bytesLeft;
    }

    ghost predicate Valid()
      reads this
    {
      state + bytesLeft <= |source|
    }

    /** The bytes that may still be read. */
    ghost function Left(): seq<byte>
      requires Valid()
      reads this
    {
      source[state..state + bytesLeft]
    }

    ghost function End(): nat
      reads this
    {
      state + bytesLeft
    }

    /** The cursor stands in front of `rest`, which ends where the stream ended. */
    ghost predicate At(end: nat, rest: seq<byte>)
      reads this
    {
      Valid() && End() == end && Left() == rest
    }

    /** pb_read.  A null destination skips; a custom callback is never called without a
        buffer, so skipping goes through a 16-byte scratch area. */
    method Read(dest: array?<byte>, count: nat) returns (ok: bool)
      requires Valid()
      requires dest != null ==> count <= dest.Length
      modifies this, if dest == null then {} else {dest}
      ensures Valid() && End() == old(End())
      ensures ok <==> count <= old(bytesLeft)
      ensures ok ==> state == old(state) + count
      ensures ok && dest != null ==> dest[..count] == source[old(state)..state]
      decreases dest == null
    {
      if count == 0 {
        return true;
      }
      if dest == null && !fromBuffer {
        var tmp := new byte[16];
        var left := count;
        while left > 16
          invariant Valid() && End() == old(End()) && 0 < left <= count
          invariant state == old(state) + (count - left)
          modifies this, tmp
        {
          ok := Read(tmp, 16);
          if !ok { return; }
          left := left - 16;
        }
        ok := Read(tmp, left);
        return;
      }
      if bytesLeft < count {
        return false;
      }
      if dest != null {
        var i := 0;
        while i < count
          invariant 0 <= i <= count
          invariant dest[..i] == source[state..state + i]
          modifies dest
        {
          dest[i] := source[state + i];
          i := i + 1;
        }
      }
      state := state + count;
      bytesLeft := bytesLeft - count;
      ok := true;
    }

    /** pb_readbyte */
    method ReadByte() returns (ok: bool, b: byte)
      requires Valid()
      modifies this
      ensures Valid() && End() == old(End())
      ensures ok <==> old(Left()) != []
      ensures ok ==> b == old(Left())[0] && Left() == old(Left())[1..]
      ensures !ok ==> Left() == []
    {
      b := 0;
      if bytesLeft == 0 {
        return false, b;
      }
      b := source[state];
      state := state + 1;
      bytesLeft := bytesLeft - 1;
      ok := true;
    }

    /** pb_decode_varint32_eof */
    method DecodeVarint32Eof() returns (ok: bool, dest: nat, eof: bool)
      requires Valid()
      modifies this
      ensures Valid() && End() == old(End())
      ensures ok <==> DecodeVarint32(old(Left())).Done?
      ensures ok ==> dest == DecodeVarint32(old(Left())).value && Left() == DecodeVarint32(old(Left())).rest
      ensures eof <==> old(Left()) == []
      ensures eof ==> Left() == []
    {
      var b: byte;
      var result: nat;
      dest, eof := 0, false;
      ok, b := ReadByte();
      if !ok {
        eof := bytesLeft == 0;
        return;
      }
      if b < 128 {
        return true, b, eof;
      }
      var bitpos: nat := 7;
      result := b % 128;
      var more := true;
      while more
        invariant Valid() && End() == old(End())
        invariant more ==> DecodeVarint32(old(Left())) == Varint32Loop(Left(), bitpos, result)
        invariant !more ==> b < 128
        invariant !more ==> DecodeVarint32(old(Left())) ==
                            (if bitpos == 35 && (b / 16) % 8 != 0 then Fail else Done(result, Left()))
        decreases if more then bytesLeft + 1 else 0
      {
        hide BitOr, Pow2;
        ok, b := ReadByte();
        if !ok { return; }
        if bitpos >= 32 {
          var signExtension := if bitpos < 63 then 0xFF else 0x01;
          if b % 128 != 0 && (result / 0x8000_0000 == 0 || b != signExtension) {
            return false, 0, false;
          }
        } else {
          result := BitOr(result, ((b % 128) * Pow2(bitpos)) % U32);
        }
        bitpos := (bitpos + 7) % 256;
        more := b >= 128;
      }
      if bitpos == 35 && (b / 16) % 8 != 0 {
        return false, 0, false;
      }
      return true, result, false;
    }
 
    /** pb_decode_varint */
    method DecodeVarint64() returns (ok: bool, dest: nat)
      requires Valid()
      modifies this
      ensures Valid() && End() == old(End())
      ensures ok <==> DecodeVarint(old(Left())).Done?
      ensures ok ==> dest == DecodeVarint(old(Left())).value && Left() == DecodeVarint(old(Left())).rest
    {
      hide DecodeVarint, BitOr, Pow2, VarintValue;
      var b: byte := 128;
      var bitpos: nat, result: nat := 0, 0;
      ghost var start, n: nat := Left(), 0;
      assert VarintValue(start[..0]) == 0 by { NoGroups(start); }
      dest := 0;
      while b >= 128
        invariant Valid() && End() == old(End())
        invariant 0 <= n <= |start| && n <= 10 && bitpos == 7 * n && Left() == start[n..]
        invariant result == VarintValue(start[..n]) % U64
        invariant n > 0 ==> b == start[n - 1]
        invariant n == 0 ==> b >= 128
        invariant forall j :: 0 <= j < n - 1 ==> start[j] >= 128
        decreases 10 - n, if b >= 128 then 1 else 0
      {
        if bitpos >= 64 {
          NoShortVarint(start, n);
          return false, 0;
        }
        ok, b := ReadByte();
        if !ok {
          NoShortVarint(start, n);
          return;
        }
        GroupAdded(start, n);
        result := BitOr(result, ((b % 128) * Pow2(bitpos)) % U64);
        bitpos := (bitpos + 7) % 256;
        n := n + 1;
      }
      FoundVarint(start, n);
      return true, result;
    }

    /** pb_decode_tag.  The stream is left alone when a zero tag ends the message. */
    method DecodeTagAndType() returns (ok: bool, tag: nat, wireType: nat, eof: bool)
      requires Valid()
      modifies this
      ensures Valid() && End() == old(End())
      ensures var r := DecodeTag(old(Left()));
        && (ok <==> r.Tag?)
        && (eof <==> r.EndOfMessage?)
        && (ok ==> tag == r.tag && wireType == r.wireType && Left() == r.rest)
        && (eof ==> Left() == r.rest)
    {
      hide DecodeVarint32;
      var temp;
      tag, wireType := 0, 0;
      ok, temp, eof := DecodeVarint32Eof();
      if !ok { return; }
      if temp == 0 {
        return false, 0, 0, true;
      }
      return true, temp / 8, temp % 8, false;
    }

    /** pb_skip_varint */
    method SkipVarintBytes() returns (ok: bool)
      requires Valid()
      modifies this
      ensures Valid() && End() == old(End())
      ensures ok <==> SkipVarint(old(Left())).Done?
      ensures ok ==> Left() == SkipVarint(old(Left())).rest
    {
      hide Terminator;
      var b: byte := 128;
      ghost var start, n := Left(), 0;
      while b >= 128
        invariant Valid() && End() == old(End())
        invariant 0 <= n <= |start| && Left() == start[n..]
        invariant n > 0 ==> b == start[n - 1]
        invariant n == 0 ==> b >= 128
        invariant forall j :: 0 <= j < n - 1 ==> start[j] >= 128
        decreases |start| - n, if b >= 128 then 1 else 0
      {
        var buf := new byte[1];
        ok := Read(buf, 1);
        if !ok {
          TerminatorIs(start, n);
          return;
        }
        b := buf[0];
        assert buf[..1][0] == start[n];
        assert start[n..][1..] == start[n + 1..];
        n := n + 1;
      }
      TerminatorIs(start, n - 1);
      ok := true;
    }

    /** pb_skip_field, with pb_skip_string */
    method SkipField(wireType: nat) returns (ok: bool)
      requires Valid()
      modifies this
      ensures Valid() && End() == old(End())
      ensures ok <==> Skip(wireType, old(Left())).Done?
      ensures ok ==> Left() == Skip(wireType, old(Left())).rest
    {
      hide DecodeVarint32, Terminator;
      if wireType == WT_VARINT {
        ok := SkipVarintBytes();
      } else if wireType == WT_64BIT {
        ok := Read(null, 8);
      } else if wireType == WT_STRING {
        var length, eof;
        ok, length, eof := DecodeVarint32Eof();
        if !ok { return; }
        ok := Read(null, length);
      } else if wireType == WT_32BIT {
        ok := Read(null, 4);
      } else {
        ok := false;
      }
    }

    /** pb_make_string_substream: on success `sub` covers the payload, and this stream keeps
        only the count of the bytes after it until CloseSubstream moves it there. */
    method MakeSubstream() returns (ok: bool, sub: IStream)
      requires Valid()
      modifies this
      ensures Valid() && End() <= old(End())
                 && sub.Valid() && fresh(sub) && sub.source == source && sub.fromBuffer == fromBuffer
      ensures var p := Substream(old(Left()));
        && (ok <==> p.Done?)
        && (ok ==> && sub.Left() == p.value
                   && sub.End() + bytesLeft == old(End())
                   && source[sub.End()..old(End())] == p.rest
                   && sub.bytesLeft + bytesLeft < old(bytesLeft))
    {
      hide DecodeVarint32;
      var size, eof;
      ok, size, eof := DecodeVarint32Eof();
      sub := new IStream(source, fromBuffer, state, bytesLeft);
      if !ok { return; }
      if sub.bytesLeft < size {
        return false, sub;
      }
      ghost var rest, end := Left(), End();
      sub.bytesLeft := size;
      bytesLeft := bytesLeft - size;
      assert sub.Left() == rest[..size];
      assert source[sub.End()..end] == rest[size..];
    }

    /** pb_close_string_substream */
    method CloseSubstream(sub: IStream) returns (ok: bool)
      requires sub != this && sub.Valid() && sub.source == source && sub.End() + bytesLeft <= |source|
      modifies this, sub
      ensures ok && Valid() && state == old(sub.End()) && bytesLeft == old(bytesLeft)
    {
      if sub.bytesLeft != 0 {
        ok := sub.Read(null, sub.bytesLeft);
        if !ok { return; }
      }
      state := sub.state;
      ok := true;
    }

    /** pb_decode_svarint */
    method DecodeSVarint() returns (ok: bool, dest: int)
      requires Valid()
      modifies this
      ensures Valid() && End() == old(End())
      ensures ok <==> DecodeVarint(old(Left())).Done?
      ensures ok ==> dest == UnZigZag(DecodeVarint(old(Left())).value) && Left() == DecodeVarint(old(Left())).rest
    {
      hide DecodeVarint;
      var value;
      dest := 0;
      ok, value := DecodeVarint64();
      if !ok { return; }
      if value % 2 == 1 {
        dest := Signed(U64 - 1 - value / 2, 8);
        ComplementOfHalf(value);
      } else {
        dest := value / 2;
      }
    }

    /** pb_decode_fixed32 and pb_decode_fixed64 */
    method DecodeFixedWord(size: nat) returns (ok: bool, dest: nat)
      requires Valid() && (size == 4 || size == 8)
      modifies this
      ensures Valid() && End() == old(End())
      ensures ok <==> size <= |old(Left())|
      ensures ok ==> dest == FromLE(old(Left())[..size]) && Left() == old(Left())[size..]
    {
      hide FromLE, Word32, Bytes256;
      var bytes := new byte[size];
      dest := 0;
      ok := Read(bytes, size);
      if !ok { return; }
      assert bytes[..size] == old(Left())[..size];
      WordOfBytes(bytes[..size]);
      dest := Word32(bytes[0], bytes[1], bytes[2], bytes[3]);
      if size == 8 {
        dest := dest + U32 * Word32(bytes[4], bytes[5], bytes[6], bytes[7]);
      }
    }
  }

  // ----- Facts the loops rely on -----

  lemma {:induction false} TerminatorIs(s: seq<byte>, n: nat)
    requires n <= |s| && forall j :: 0 <= j < n ==> s[j] >= 128
    ensures n < |s| && s[n] < 128 ==> Terminator(s) == Some(n)
    ensures n == |s| ==> Terminator(s).None?
    ensures n < |s| && Terminator(s).Some? ==> n <= Terminator(s).value
    decreases n
  {
    if n > 0 { TerminatorIs(s[1..], n - 1); }
  }

  lemma {:induction false} NoGroups(s: seq<byte>)
    ensures VarintValue(s[..0]) == 0
  {
  }

  lemma {:induction false} NoShortVarint(s: seq<byte>, n: nat)
    requires n <= |s| && (n == |s| || n == 10) && forall j :: 0 <= j < n ==> s[j] >= 128
    ensures DecodeVarint(s).Fail?
  {
    TerminatorIs(s, n);
    hide VarintValue;
  }

  lemma {:induction false} FoundVarint(s: seq<byte>, n: nat)
    requires 1 <= n <= 10 && n <= |s| && s[n - 1] < 128 && forall j :: 0 <= j < n - 1 ==> s[j] >= 128
    ensures DecodeVarint(s) == Done(VarintValue(s[..n]) % U64, s[n..])
  {
    TerminatorIs(s, n - 1);
    hide VarintValue;
  }

  lemma {:induction false} Accumulate64(v: nat, x: nat, j: nat)
    requires v < Pow2(j) && j < 64
    ensures v < U64 && BitOr(v, (x * Pow2(j)) % U64) == (v + x * Pow2(j)) % U64
  {
    Pow2Values();
    SmallPow(j, 64);
    Pow2Add(j, 64 - j);
    hide BitOr, Pow2;
    AccumulateInside(v, x, j, Pow2(64 - j));
  }

  lemma {:induction false} ModSmall64(v: nat)
    ensures v < U64 ==> v % U64 == v
  {
  }

  lemma {:induction false} GroupAdded(s: seq<byte>, n: nat)
    requires n < |s| && n <= 9
    ensures BitOr(VarintValue(s[..n]) % U64, ((s[n] % 128) * Pow2(7 * n)) % U64) == VarintValue(s[..n + 1]) % U64
  {
    hide BitOr, Pow2, VarintValue;
    assert s[..n + 1] == s[..n] + [s[n]];
    ValueSnoc(s[..n], s[n]);
    ValueBound(s[..n]);
    Accumulate64(VarintValue(s[..n]), s[n] % 128, 7 * n);
    ModSmall64(VarintValue(s[..n]));
  }

  lemma {:induction false} ComplementOfHalf(u: nat)
    requires u < U64 && u % 2 == 1
    ensures Signed(U64 - 1 - u / 2, 8) == UnZigZag(u)
  {
  }

  /** Four bytes shifted into place; the shifted bytes have no bit in common. */
  function Word32(a: nat, b: nat, c: nat, d: nat): nat {
    a + 0x100 * b + 0x1_0000 * c + 0x100_0000 * d
  }

  lemma {:induction false} WordOfBytes(bs: seq<byte>)
    requires |bs| == 4 || |bs| == 8
    ensures FromLE(bs) == Word32(bs[0], bs[1], bs[2], bs[3])
                          + (if |bs| == 4 then 0 else U32 * Word32(bs[4], bs[5], bs[6], bs[7]))
  {
    LE4(bs[..4]);
    LEAppend(bs[..4], bs[4..]);
    assert bs == bs[..4] + bs[4..];
    if |bs| == 8 { LE4(bs[4..]); }
  }

  lemma {:induction false} LE4(bs: seq<byte>)
    requires |bs| == 4
    ensures FromLE(bs) == Word32(bs[0], bs[1], bs[2], bs[3])
    ensures Bytes256(4) == U32
  {
    WordSizes();
    var t := bs[2..];
    assert bs[1..][1..] == t && t[1..][1..] == [];
    assert FromLE(t) == t[0] + 256 * (t[1] + 256 * FromLE([]));
    assert FromLE(bs) == bs[0] + 256 * (bs[1] + 256 * FromLE(t));
  }

  lemma {:induction false} LEAppend(a: seq<byte>, b: seq<byte>)
    ensures FromLE(a + b) == FromLE(a) + Bytes256(|a|) * FromLE(b)
  {
    if a == [] {
      assert a + b == b;
    } else {
      assert (a + b)[1..] == a[1..] + b;
      assert FromLE(a + b) == a[0] + 256 * FromLE(a[1..] + b);
      assert FromLE(a) == a[0] + 256 * FromLE(a[1..]) && Bytes256(|a|) == 256 * Bytes256(|a| - 1);
      LEAppend(a[1..], b);
      hide FromLE, Bytes256;
      ScaleSum(FromLE(a[1..]), Bytes256(|a| - 1), FromLE(b));
    }
  }

  lemma {:induction false} ScaleSum(x: nat, m: nat, y: nat)
    ensures 256 * (x + m * y) == 256 * x + (256 * m) * y
  {
  }
}
