/** Laws about decoding the concatenation of byte sequences: messages merge, unknown
    fields are transparent, packed and unpacked arrays agree. */
module Merge {
  import opened Basics
  import opened Pb
  import opened Wire
  import opened DecodeSpec

  /** p run on a longer input: the same value, and the extra bytes are left over. */
  ghost predicate Extends<T(!new)>(p: Parse<T>, q: Parse<T>, t: seq<byte>) {
    p.Done? ==> q == Done(p.value, p.rest + t)
  }

  // ----- Every parser ignores what follows its value -----

  lemma {:induction false} ExtendLoop32(s: seq<byte>, bitpos: nat, result: nat, t: seq<byte>)
    ensures Extends(Varint32Loop(s, bitpos, result), Varint32Loop(s + t, bitpos, result), t)
  {
    hide AddGroup32;
    if s != [] {
      assert (s + t)[1..] == s[1..] + t;
      var acc := AddGroup32(s[0], bitpos, result);
      if acc.Some? { ExtendLoop32(s[1..], (bitpos + 7) % 256, acc.value, t); }
    }
  }

  lemma {:induction false} ExtendVarint32(s: seq<byte>, t: seq<byte>)
    ensures Extends(DecodeVarint32(s), DecodeVarint32(s + t), t)
  {
    hide Varint32Loop;
    if s != [] {
      assert (s + t)[1..] == s[1..] + t;
      ExtendLoop32(s[1..], 7, s[0] % 128, t);
    }
  }

  lemma {:induction false} ExtendTerminator(s: seq<byte>, t: seq<byte>)
    requires Terminator(s).Some?
    ensures Terminator(s + t) == Terminator(s)
    ensures forall k :: 0 <= k <= |s| ==> (s + t)[..k] == s[..k] && (s + t)[k..] == s[k..] + t
  {
    TerminatorPrefix(s, t);
  }

  lemma {:induction false} ExtendVarint(s: seq<byte>, t: seq<byte>)
    ensures Extends(DecodeVarint(s), DecodeVarint(s + t), t)
  {
    if Terminator(s).Some? {
      ExtendTerminator(s, t);
      hide VarintValue, Terminator;
    }
  }

  lemma {:induction false} ExtendTake(s: seq<byte>, n: nat, t: seq<byte>)
    ensures Extends(TakeBytes(s, n), TakeBytes(s + t, n), t)
  {
    if n <= |s| { assert (s + t)[..n] == s[..n] && (s + t)[n..] == s[n..] + t; }
  }

  lemma {:induction false} ExtendSubstream(s: seq<byte>, t: seq<byte>)
    ensures Extends(Substream(s), Substream(s + t), t)
  {
    hide DecodeVarint32, TakeBytes;
    ExtendVarint32(s, t);
    var p := DecodeVarint32(s);
    if p.Done? { ExtendTake(p.rest, p.value, t); }
  }

  lemma {:induction false} ExtendTag(s: seq<byte>, t: seq<byte>)
    requires DecodeTag(s).Tag?
    ensures var r := DecodeTag(s); DecodeTag(s + t) == Tag(r.tag, r.wireType, r.rest + t)
  {
    hide DecodeVarint32;
    ExtendVarint32(s, t);
  }

  lemma {:induction false} ExtendSkip(wireType: nat, s: seq<byte>, t: seq<byte>)
    ensures Extends(Skip(wireType, s), Skip(wireType, s + t), t)
  {
    if wireType == WT_VARINT {
      if Terminator(s).Some? { ExtendTerminator(s, t); }
    } else {
      hide Substream, TakeBytes, Terminator;
      ExtendTake(s, 8, t);
      ExtendSubstream(s, t);
      ExtendTake(s, 4, t);
    }
  }

  lemma {:induction false} ExtendBlob(s: seq<byte>, t: seq<byte>, n: nat)
    ensures Extends(DecodeBytes(s, n), DecodeBytes(s + t, n), t)
    ensures Extends(DecodeString(s, n), DecodeString(s + t, n), t)
    ensures Extends(DecodeFixedLength(s, n), DecodeFixedLength(s + t, n), t)
  {
    hide DecodeVarint32, TakeBytes;
    ExtendVarint32(s, t);
    var p := DecodeVarint32(s);
    if p.Done? { ExtendTake(p.rest, p.value, t); }
  }

  lemma {:induction false} ExtendNumber(f: Field, s: seq<byte>, t: seq<byte>, n: nat)
    requires n > 0
    ensures Extends(DecodeBool(s), DecodeBool(s + t), t)
    ensures Extends(DecodeInteger(f, s), DecodeInteger(f, s + t), t)
    ensures Extends(DecodeFixed(s, n), DecodeFixed(s + t, n), t)
  {
    hide DecodeVarint32, DecodeVarint, TakeBytes, Convert;
    ExtendVarint32(s, t);
    ExtendVarint(s, t);
    ExtendTake(s, n, t);
  }

  lemma {:induction false} ExtendScalar(f: Field, s: seq<byte>, t: seq<byte>)
    ensures Extends(DecodeScalar(f, s), DecodeScalar(f, s + t), t)
  {
    hide DecodeBool, DecodeInteger, DecodeFixed, DecodeString, DecodeBytes, DecodeFixedLength;
    ExtendNumber(f, s, t, 4);
    ExtendNumber(f, s, t, 8);
    ExtendBlob(s, t, f.dataSize);
  }

  lemma {:induction false} ExtendValue(f: Field, v: Value, s: seq<byte>, t: seq<byte>)
    ensures Extends(DecodeValue(f, v, s), DecodeValue(f, v, s + t), t)
  {
    hide DecodeScalar, Substream, DecodeNoInit;
    ExtendScalar(f, s, t);
    ExtendSubstream(s, t);
  }

  lemma {:induction false} ExtendRepeated(f: Field, wireType: nat, items: seq<Value>, k: nat, s: seq<byte>,
        t: seq<byte>)
    ensures Extends(DecodeRepeated(f, wireType, items, k, s), DecodeRepeated(f, wireType, items, k, s + t), t)
  {
    hide DecodeValue, Substream, DecodePacked;
    ExtendValue(f, Undefined, s, t);
    ExtendSubstream(s, t);
  }

  lemma {:induction false} ExtendStatic(d: Descriptor, i: nat, wireType: nat, st: State, s: seq<byte>, t: seq<byte>)
    requires i < |d|
    ensures Extends(DecodeStatic(d, i, wireType, st, s), DecodeStatic(d, i, wireType, st, s + t), t)
  {
    hide DecodeValue, DecodeRepeated, UnionReleasable, UnionBase;
    var f, slot := d[i], SlotAt(st.slots, Home(d, i));
    ExtendRepeated(f, wireType, slot.Items(), ArrayCount(f, slot, st), s, t);
    ExtendValue(f, if f.htype.OneOf? then UnionBase(f, slot) else slot.Val(), s, t);
  }

  lemma {:induction false} ExtendRecord(d: Descriptor, tag: nat, wireType: nat, st: State, s: seq<byte>, t: seq<byte>)
    ensures Extends(DecodeRecord(d, tag, wireType, st, s), DecodeRecord(d, tag, wireType, st, s + t), t)
  {
    hide DecodeVarint32, Skip, DecodeStatic, FindTag, EnterFixed, MarkSeen;
    ExtendVarint32(s, t);
    ExtendSkip(wireType, s, t);
    var i := FindTag(d, tag);
    if i.Some? {
      var st1 := EnterFixed(d, i.value, st);
      if st1.Some? { ExtendStatic(d, i.value, wireType, MarkSeen(d, i.value, st1.value), s, t); }
    }
  }

  // ----- Concatenation -----

  /** Decoding a then b is decoding a ++ b, when the records of a end where a ends. */
  lemma {:induction false} LoopConcat(d: Descriptor, st: State, a: seq<byte>, b: seq<byte>)
    requires var r := DecodeLoop(d, st, a); r.Ran? && !r.terminated
    ensures DecodeLoop(d, st, a + b) == DecodeLoop(d, DecodeLoop(d, st, a).st, b)
    decreases |a|
  {
    hide DecodeRecord, DecodeTag;
    if a == [] {
      assert a + b == b;
    } else {
      var r := DecodeTag(a);
      ExtendTag(a, b);
      ExtendRecord(d, r.tag, r.wireType, st, r.rest, b);
      var p := DecodeRecord(d, r.tag, r.wireType, st, r.rest);
      LoopConcat(d, p.value, p.rest, b);
    }
  }

  // ----- Which parts of the state the loop looks at -----

  function AlsoSeen(st: State, extra: set<nat>): State { st.(seen := st.seen + extra) }

  /** seen only accumulates; it never influences decoding. */
  lemma {:induction false} SeenFrame(d: Descriptor, st: State, s: seq<byte>, extra: set<nat>)
    ensures var r, r' := DecodeLoop(d, st, s), DecodeLoop(d, AlsoSeen(st, extra), s);
            if r.Ran? then r' == Ran(AlsoSeen(r.st, extra), r.rest, r.terminated) else r'.Stuck?
    decreases |s|
  {
    hide DecodeTag, DecodeRecord;
    if s != [] {
      var t := DecodeTag(s);
      if t.Tag? {
        SeenFrameRecord(d, t.tag, t.wireType, st, t.rest, extra);
        var p := DecodeRecord(d, t.tag, t.wireType, st, t.rest);
        if p.Done? { SeenFrame(d, p.value, p.rest, extra); }
      }
    }
  }

  lemma {:induction false} SeenFrameRecord(d: Descriptor, tag: nat, wireType: nat, st: State, s: seq<byte>,
        extra: set<nat>)
    ensures var p, p' := DecodeRecord(d, tag, wireType, st, s),
                         DecodeRecord(d, tag, wireType, AlsoSeen(st, extra), s);
            if p.Done? then p' == Done(AlsoSeen(p.value, extra), p.rest) else p'.Fail?
  {
    hide DecodeBool, Skip, FindTag, DecodeStatic;
    var i := FindTag(d, tag);
    if i.Some? {
      var st1 := EnterFixed(d, i.value, st);
      if st1.Some? {
        var st2 := MarkSeen(d, i.value, st1.value);
        assert MarkSeen(d, i.value, AlsoSeen(st1.value, extra)) == AlsoSeen(st2, extra);
        SeenFrameStatic(d, i.value, wireType, st2, s, extra);
      }
    }
  }

  lemma {:induction false} SeenFrameStatic(d: Descriptor, i: nat, wireType: nat, st: State, s: seq<byte>,
        extra: set<nat>)
    requires i < |d|
    ensures var p, p' := DecodeStatic(d, i, wireType, st, s), DecodeStatic(d, i, wireType, AlsoSeen(st, extra), s);
            if p.Done? then p' == Done(AlsoSeen(p.value, extra), p.rest) else p'.Fail?
  {
    hide DecodeValue, DecodeRepeated, UnionReleasable, UnionBase;
  }

  predicate NoFixedArrays(d: Descriptor) { forall i :: 0 <= i < |d| ==> !d[i].FixedCount() }

  lemma {:induction false} NeverFixed(d: Descriptor, st: State, s: seq<byte>)
    requires NoFixedArrays(d) && st.fixedField.None? && st.fixedSize == 0
    ensures var r := DecodeLoop(d, st, s); r.Ran? ==> r.st.fixedField.None? && r.st.fixedSize == 0
    decreases |s|
  {
    hide DecodeTag, DecodeRecord;
    if s != [] {
      var t := DecodeTag(s);
      if t.Tag? {
        NeverFixedRecord(d, t.tag, t.wireType, st, t.rest);
        var p := DecodeRecord(d, t.tag, t.wireType, st, t.rest);
        if p.Done? { NeverFixed(d, p.value, p.rest); }
      }
    }
  }

  lemma {:induction false} NeverFixedRecord(d: Descriptor, tag: nat, wireType: nat, st: State, s: seq<byte>)
    requires NoFixedArrays(d) && st.fixedField.None? && st.fixedSize == 0
    ensures var p := DecodeRecord(d, tag, wireType, st, s);
            p.Done? ==> p.value.fixedField.None? && p.value.fixedSize == 0
  {
    hide DecodeBool, Skip, DecodeValue, DecodeRepeated, UnionReleasable, UnionBase;
  }

  /** Concatenation is merge: pb_decode_noinit on a and then on b is pb_decode_noinit on
      a ++ b, when a is consumed to its end and no fixed-count array is involved. */
  lemma {:induction false} ConcatIsMerge(d: Descriptor, s0: seq<Slot>, a: seq<byte>, b: seq<byte>)
    requires NoFixedArrays(d)
    requires DecodeNoInit(d, s0, a).Done? && !DecodeLoop(d, Start(s0), a).terminated
    requires DecodeNoInit(d, DecodeNoInit(d, s0, a).value, b).Done?
    ensures DecodeNoInit(d, s0, a + b) == DecodeNoInit(d, DecodeNoInit(d, s0, a).value, b)
  {
    hide DecodeLoop, RequiredSeen;
    var ra := DecodeLoop(d, Start(s0), a);
    LoopConcat(d, Start(s0), a, b);
    NeverFixed(d, Start(s0), a);
    var st1 := Start(ra.st.slots);
    assert AlsoSeen(st1, ra.st.seen) == ra.st;
    SeenFrame(d, st1, b, ra.st.seen);
    NeverFixed(d, st1, b);
    MoreSeen(d, DecodeLoop(d, st1, b).st.seen, ra.st.seen);
  }

  lemma {:induction false} MoreSeen(d: Descriptor, seen: set<nat>, extra: set<nat>)
    ensures RequiredSeen(d, seen) ==> RequiredSeen(d, seen + extra)
  {
  }
}
