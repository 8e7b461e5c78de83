/** Which fields a byte sequence carries, by a walk of its own over the records, and what that
    means for the message: which required fields must be there, and what the others hold. */
module Presence {
  import opened Basics
  import opened Pb
  import opened Wire
  import opened DecodeSpec

  // ----- The records of a message -----

  /** What follows a length and that many bytes. */
  function BehindLength(s: seq<byte>): Option<seq<byte>> {
    var p := DecodeVarint32(s);
    if p.Done? && p.value <= |p.rest| then Some(p.rest[p.value..]) else None
  }

  function Behind(s: seq<byte>, n: nat): Option<seq<byte>> {
    if n <= |s| then Some(s[n..]) else None
  }

  /** What follows one value of a type. */
  function BehindValue(t: LType, s: seq<byte>): Option<seq<byte>> {
    match t
    case Bool => if DecodeVarint32(s).Done? then Some(DecodeVarint32(s).rest) else None
    case Varint | UVarint | SVarint => if DecodeVarint(s).Done? then Some(DecodeVarint(s).rest) else None
    case Fixed32 => Behind(s, 4)
    case Fixed64 => Behind(s, 8)
    case Extension => None
    case _ => BehindLength(s)
  }

  /** What follows the record whose tag has been read. */
  function BehindRecord(d: Descriptor, tag: nat, wireType: nat, s: seq<byte>): Option<seq<byte>> {
    if d == [] && tag == 0 then BehindValue(LType.Bool, s)
    else
      match FindTag(d, tag)
      case None => if Skip(wireType, s).Done? then Some(Skip(wireType, s).rest) else None
      case Some(i) =>
        if d[i].htype.Repeated? && d[i].ltype.Packable() && wireType == 2 then BehindLength(s)
        else BehindValue(d[i].ltype, s)
  }

  /** The tags of the records of s, up to a record that cannot be read or a zero tag. */
  function Tags(d: Descriptor, s: seq<byte>): set<nat>
    decreases |s|
  {
    if s == [] then {}
    else
      var t := DecodeTag(s);
      if !t.Tag? then {}
      else
        var next := BehindRecord(d, t.tag, t.wireType, t.rest);
        {t.tag} + if next.Some? && |next.value| < |s| then Tags(d, next.value) else {}
  }

  lemma {:induction false} ScalarEnds(f: Field, s: seq<byte>)
    requires DecodeScalar(f, s).Done?
    ensures BehindValue(f.ltype, s) == Some(DecodeScalar(f, s).rest)
  {
    hide DecodeVarint, DecodeVarint32, Convert;
  }

  lemma {:induction false} ValueEnds(f: Field, old_: Value, s: seq<byte>)
    requires DecodeValue(f, old_, s).Done?
    ensures BehindValue(f.ltype, s) == Some(DecodeValue(f, old_, s).rest)
  {
    hide DecodeScalar, DecodeVarint, DecodeVarint32, DecodeNoInit;
    if !f.ltype.Submessage? { ScalarEnds(f, s); }
  }

  lemma {:induction false} RepeatedEnds(f: Field, wireType: nat, items: seq<Value>, k: nat, s: seq<byte>)
    requires DecodeRepeated(f, wireType, items, k, s).Done?
    ensures (if f.ltype.Packable() && wireType == 2 then BehindLength(s) else BehindValue(f.ltype, s))
            == Some(DecodeRepeated(f, wireType, items, k, s).rest)
  {
    hide DecodeValue, DecodePacked, DecodeVarint32, BehindValue;
    if !(wireType == WT_STRING && f.ltype.Packable()) { ValueEnds(f, Undefined, s); }
  }

  lemma {:induction false} StaticEnds(d: Descriptor, i: nat, wireType: nat, st: State, s: seq<byte>)
    requires i < |d| && DecodeStatic(d, i, wireType, st, s).Done?
    ensures (if d[i].htype.Repeated? && d[i].ltype.Packable() && wireType == 2 then BehindLength(s)
             else BehindValue(d[i].ltype, s))
            == Some(DecodeStatic(d, i, wireType, st, s).rest)
  {
    hide DecodeValue, DecodeRepeated, BehindValue, BehindLength, UnionReleasable, UnionBase;
    var f, slot := d[i], SlotAt(st.slots, Home(d, i));
    if f.htype.Repeated? {
      RepeatedEnds(f, wireType, slot.Items(), ArrayCount(f, slot, st), s);
    } else {
      ValueEnds(f, if f.htype.OneOf? then UnionBase(f, slot) else slot.Val(), s);
    }
  }

  /** A record that decodes ends where the walk says. */
  lemma {:induction false} RecordEnds(d: Descriptor, tag: nat, wireType: nat, st: State, s: seq<byte>)
    requires DecodeRecord(d, tag, wireType, st, s).Done?
    ensures BehindRecord(d, tag, wireType, s) == Some(DecodeRecord(d, tag, wireType, st, s).rest)
  {
    hide DecodeStatic, Skip, FindTag, DecodeVarint32;
    var i := FindTag(d, tag);
    if !(d == [] && tag == 0) && i.Some? {
      StaticEnds(d, i.value, wireType, MarkSeen(d, i.value, EnterFixed(d, i.value, st).value), s);
    }
  }

  lemma {:induction false} TagsStep(d: Descriptor, st: State, s: seq<byte>)
    requires s != [] && DecodeTag(s).Tag? && DecodeLoop(d, st, s).Ran?
    ensures var t := DecodeTag(s);
            var p := DecodeRecord(d, t.tag, t.wireType, st, t.rest);
            && p.Done? && Tags(d, s) == {t.tag} + Tags(d, p.rest)
            && DecodeLoop(d, st, s) == DecodeLoop(d, p.value, p.rest)
  {
    hide DecodeTag, DecodeRecord, BehindRecord;
    var t := DecodeTag(s);
    RecordEnds(d, t.tag, t.wireType, st, t.rest);
  }

  // ----- Required fields -----

  function RequiredFields(d: Descriptor, i: nat): set<nat>
    requires i <= |d|
  {
    set j: nat | j < i && d[j].htype.Required?
  }

  /** The number of required fields in front of field i. */
  function RequiredBefore(d: Descriptor, i: nat): nat
    requires i <= |d|
  {
    |RequiredFields(d, i)|
  }

  lemma {:induction false} RankCounts(d: Descriptor, i: nat)
    requires i <= |d|
    ensures Rank(d, i) == RequiredBefore(d, i)
  {
    if i > 0 {
      RankCounts(d, i - 1);
      OneMoreField(d, i - 1);
      hide RequiredFields;
    }
  }

  lemma {:induction false} OneMoreField(d: Descriptor, i: nat)
    requires i < |d|
    ensures i !in RequiredFields(d, i)
    ensures RequiredFields(d, i + 1) == RequiredFields(d, i) + if d[i].htype.Required? then {i} else {}
  {
  }

  lemma {:induction false} RankGrows(d: Descriptor, i: nat, j: nat)
    requires i < j <= |d| && d[i].htype.Required?
    ensures Rank(d, i) < Rank(d, j)
    decreases j
  {
    if i < j - 1 { RankGrows(d, i, j - 1); }
  }

  /** The record of one field marks that field, if it is a required one, and no other. */
  lemma {:induction false} RecordSeen(d: Descriptor, tag: nat, wireType: nat, st: State, s: seq<byte>, i: nat)
    requires WellFormed(d) && i < |d| && d[i].htype.Required? && Rank(d, i) < 64
    requires DecodeRecord(d, tag, wireType, st, s).Done?
    ensures Rank(d, i) in DecodeRecord(d, tag, wireType, st, s).value.seen <==> Rank(d, i) in st.seen || tag == d[i].tag
  {
    FindUnique(d, i);
    hide WellFormed, DecodeBool, Skip;
    var k := FindTag(d, tag);
    if k.Some? {
      var st1 := EnterFixed(d, k.value, st);
      if k.value < i && d[k.value].htype.Required? { RankGrows(d, k.value, i); }
      if i < k.value { RankGrows(d, i, k.value); }
      if st1.Some? { StaticKeepsSeen(d, k.value, wireType, MarkSeen(d, k.value, st1.value), s); }
      hide DecodeStatic, FindTag, Rank;
    }
  }

  lemma {:induction false} StaticKeepsSeen(d: Descriptor, i: nat, wireType: nat, st: State, s: seq<byte>)
    requires i < |d|
    ensures var p := DecodeStatic(d, i, wireType, st, s); p.Done? ==> p.value.seen == st.seen
  {
    hide DecodeValue, DecodeRepeated, UnionReleasable, UnionBase;
  }

  lemma {:induction false} LoopSeen(d: Descriptor, st: State, s: seq<byte>, i: nat)
    requires WellFormed(d) && i < |d| && d[i].htype.Required? && Rank(d, i) < 64
    requires DecodeLoop(d, st, s).Ran?
    ensures Rank(d, i) in DecodeLoop(d, st, s).st.seen <==> Rank(d, i) in st.seen || d[i].tag in Tags(d, s)
    decreases |s|
  {
    hide WellFormed, DecodeTag, DecodeRecord, Rank;
    if s != [] && DecodeTag(s).Tag? {
      var t := DecodeTag(s);
      var p := DecodeRecord(d, t.tag, t.wireType, st, t.rest);
      TagsStep(d, st, s);
      RecordSeen(d, t.tag, t.wireType, st, t.rest, i);
      hide Tags, DecodeLoop;
      LoopSeen(d, p.value, p.rest, i);
    }
  }

  /** pb_decode_noinit accepts exactly the byte sequences whose records can be decoded one
      after the other, among which each of the first 64 required fields has one, and which
      leave the last fixed-count array complete. */
  lemma {:induction false} AcceptedIff(d: Descriptor, slots: seq<Slot>, s: seq<byte>)
    requires WellFormed(d)
    ensures var r := DecodeLoop(d, Start(slots), s);
            DecodeNoInit(d, slots, s).Done? <==>
              && r.Ran?
              && (forall i :: 0 <= i < |d| && d[i].htype.Required? && RequiredBefore(d, i) < 64 ==>
                    d[i].tag in Tags(d, s))
              && (r.st.fixedField.Some? && r.st.fixedField.value < |d| ==>
                    r.st.fixedSize == d[r.st.fixedField.value].arraySize)
  {
    var r := DecodeLoop(d, Start(slots), s);
    if r.Ran? {
      forall i | 0 <= i < |d| && d[i].htype.Required?
        ensures Rank(d, i) == RequiredBefore(d, i)
        ensures Rank(d, i) < 64 ==> (Rank(d, i) in r.st.seen <==> d[i].tag in Tags(d, s))
      {
        RankCounts(d, i);
        if Rank(d, i) < 64 { LoopSeen(d, Start(slots), s, i); }
      }
    }
    hide WellFormed, DecodeLoop, Tags, Rank, RequiredBefore;
  }

  /** In particular a message without one of its required fields is refused. */
  lemma {:induction false} MissingRequired(d: Descriptor, s: seq<byte>, i: nat)
    requires WellFormed(d) && i < |d| && d[i].htype.Required? && RequiredBefore(d, i) < 64
    requires d[i].tag !in Tags(d, s)
    ensures Decode(d, s).Fail? && forall slots :: DecodeNoInit(d, slots, s).Fail?
  {
    hide WellFormed, DecodeLoop, DecodeNoInit, Tags, RequiredBefore;
    AcceptedIff(d, Defaults(d), s);
    forall slots ensures DecodeNoInit(d, slots, s).Fail? { AcceptedIff(d, slots, s); }
  }

  // ----- Fields that are not there -----

  /** No record is one of field i or, if it is in a union, of another member. */
  predicate NoRecord(d: Descriptor, s: seq<byte>, i: nat) {
    forall j :: 0 <= j < |d| && Home(d, j) == Home(d, i) ==> d[j].tag !in Tags(d, s)
  }

  lemma {:induction false} StaticKeepsSlot(d: Descriptor, k: nat, wireType: nat, st: State, s: seq<byte>, h: nat)
    requires k < |d| && Home(d, k) != h && h < |st.slots|
    ensures var p := DecodeStatic(d, k, wireType, st, s);
            p.Done? ==> |p.value.slots| == |st.slots| && p.value.slots[h] == st.slots[h]
  {
    hide DecodeValue, DecodeRepeated, UnionReleasable, UnionBase, Home;
  }

  lemma {:induction false} RecordKeepsSlot(d: Descriptor, tag: nat, wireType: nat, st: State, s: seq<byte>, h: nat)
    requires h < |st.slots| && forall j :: 0 <= j < |d| && Home(d, j) == h ==> d[j].tag != tag
    ensures var p := DecodeRecord(d, tag, wireType, st, s);
            p.Done? ==> |p.value.slots| == |st.slots| && p.value.slots[h] == st.slots[h]
  {
    hide DecodeBool, Skip, DecodeStatic, Home;
    var k := FindTag(d, tag);
    if k.Some? {
      var st1 := EnterFixed(d, k.value, st);
      if st1.Some? { StaticKeepsSlot(d, k.value, wireType, MarkSeen(d, k.value, st1.value), s, h); }
    }
  }

  /** What a struct holds in a field stays there unless the bytes have a record for it. */
  lemma {:induction false} KeptWithoutRecord(d: Descriptor, st: State, s: seq<byte>, i: nat)
    requires i < |d| && Home(d, i) < |st.slots| && NoRecord(d, s, i) && DecodeLoop(d, st, s).Ran?
    ensures var r := DecodeLoop(d, st, s);
            |r.st.slots| == |st.slots| && r.st.slots[Home(d, i)] == st.slots[Home(d, i)]
    decreases |s|
  {
    hide DecodeTag, DecodeRecord, Home;
    if s != [] && DecodeTag(s).Tag? {
      var t := DecodeTag(s);
      var p := DecodeRecord(d, t.tag, t.wireType, st, t.rest);
      TagsStep(d, st, s);
      assert forall j :: 0 <= j < |d| && Home(d, j) == Home(d, i) ==> d[j].tag != t.tag;
      assert NoRecord(d, p.rest, i);
      RecordKeepsSlot(d, t.tag, t.wireType, st, t.rest, Home(d, i));
      hide Tags, DecodeLoop, NoRecord;
      KeptWithoutRecord(d, p.value, p.rest, i);
    }
  }

  /** What a singular item holds that nothing has been stored in: the default that its
      descriptor entry points to, or zero. */
  predicate InitialValue(f: Field, v: Value)
    decreases f, 0
  {
    if f.ltype.Submessage? then f.ptr.SubFields? && v.Struct? && InitialSlots(f.ptr.fields, v.slots)
    else if f.ptr.Initial? then v == f.ptr.value
    else
      match f.ltype
      case Bytes | String => v == Blob([])
      case FixedLengthBytes => v.Blob? && |v.bytes| == f.dataSize && forall k :: 0 <= k < f.dataSize ==> v.bytes[k] == 0
      case _ => v == Num(0)
  }

  predicate InitialSlot(f: Field, slot: Slot)
    decreases f, 1
  {
    match f.htype
    case Required => slot.Single? && InitialValue(f, slot.value)
    case Optional =>
      if f.sizeOffset != 0 then slot.Opt? && !slot.has && InitialValue(f, slot.value)
      else slot.Single? && InitialValue(f, slot.value)
    case Repeated => slot.Arr? && |slot.items| == if f.sizeOffset != 0 then 0 else f.arraySize
    case OneOf => slot.Union? && slot.which == 0
  }

  predicate InitialSlots(d: Descriptor, slots: seq<Slot>)
    decreases d
  {
    |slots| == |d| && forall i :: 0 <= i < |d| && !SharesStorage(d, i) ==> InitialSlot(d[i], slots[i])
  }

  lemma {:induction false} DefaultsInitial(d: Descriptor)
    requires WellFormed(d)
    ensures InitialSlots(d, Defaults(d))
    decreases d
  {
    forall i | 0 <= i < |d| && !SharesStorage(d, i) ensures InitialSlot(d[i], Defaults(d)[i]) {
      assert WellFormedField(d[i]);
      DefaultInitial(d[i]);
      hide InitialValue, DefaultValue;
    }
  }

  lemma {:induction false} DefaultInitial(f: Field)
    requires WellFormedField(f)
    ensures InitialValue(f, DefaultValue(f))
    decreases f
  {
    if f.ltype.Submessage? { DefaultsInitial(f.ptr.fields); }
  }

  /** A field that a message has no record for holds its default: the has flag is false, a
      counted array empty, a union without a member, and a singular item, with the structs
      inside it, what the descriptor says. */
  lemma {:induction false} AbsentHoldsDefault(d: Descriptor, s: seq<byte>, i: nat)
    requires WellFormed(d) && i < |d| && NoRecord(d, s, i) && Decode(d, s).Done?
    ensures var h := Home(d, i);
            h < |Decode(d, s).value| && InitialSlot(d[h], Decode(d, s).value[h])
  {
    DefaultsInitial(d);
    hide WellFormed, NoRecord, DecodeLoop, InitialSlot, Defaults, Accepts;
    KeptWithoutRecord(d, Start(Defaults(d)), s, i);
    assert !SharesStorage(d, Home(d, i));
  }

  /** The same inside an entry of an array of submessages. */
  lemma {:induction false} EntryHoldsDefaults(f: Field, s: seq<byte>, i: nat)
    requires WellFormedField(f) && f.ltype.Submessage? && f.htype.Repeated? && Substream(s).Done?
    requires var d := f.ptr.fields; i < |d| && NoRecord(d, Substream(s).value, i)
    requires DecodeValue(f, Undefined, s).Done?
    ensures var d, v := f.ptr.fields, DecodeValue(f, Undefined, s).value;
            && v.Struct? && Home(d, i) < |v.slots|
            && InitialSlot(d[Home(d, i)], v.slots[Home(d, i)])
  {
    hide Substream, WellFormed, NoRecord, InitialSlot, DecodeNoInit;
    AbsentHoldsDefault(f.ptr.fields, Substream(s).value, i);
  }
}
