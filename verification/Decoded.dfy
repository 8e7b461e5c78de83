/** What the decoder makes of arbitrary bytes: whenever it accepts them, the struct holds a
    message that the encoder can encode. */
module DecodedMessages {
  import opened Basics
  import opened Pb
  import opened Wire
  import opened Numbers
  import opened DecodeSpec
  import opened EncodeSpec
  import opened Records
  import opened RoundTrip
  import opened Messages

  // ----- Descriptors whose structs start out as messages -----

  /** Initialisation gives every field that is always encoded a content of its type, and
      there is no fixed-count array, whose entries it leaves as they are; so for the structs
      inside. */
  predicate SoundDefaults(d: Descriptor)
    decreases d
  {
    forall i :: 0 <= i < |d| ==> SoundDefault(d[i])
  }

  predicate SoundDefault(f: Field)
    decreases f
  {
    && !f.FixedCount()
    && (if f.ltype.Submessage? then f.ptr.SubFields? && SoundDefaults(f.ptr.fields)
        else f.htype.Required? || (f.htype.Optional? && f.sizeOffset == 0) ==> ValidScalar(f, DefaultValue(f)))
  }

  // ----- What every step of the decoder keeps -----

  /** Valid, and a submessage that is absent is valid too, since it is what its own record
      will be decoded over. */
  predicate SoundValue(f: Field, v: Value)
    decreases f, 0
  {
    if f.ltype.Submessage? then f.ptr.SubFields? && v.Struct? && Sound(f.ptr.fields, v.slots)
    else ValidScalar(f, v)
  }

  predicate SoundSlot(d: Descriptor, i: nat, slot: Slot)
    requires i < |d|
    decreases d, 0
  {
    var f := d[i];
    match f.htype
    case Required => slot.Single? && SoundValue(f, slot.value)
    case Optional =>
      if f.sizeOffset != 0 then slot.Opt? && (slot.has || f.ltype.Submessage? ==> SoundValue(f, slot.value))
      else slot.Single? && SoundValue(f, slot.value)
    case Repeated =>
      slot.Arr? && |slot.items| <= f.arraySize && forall j :: 0 <= j < |slot.items| ==> SoundValue(f, slot.items[j])
    case OneOf =>
      && slot.Union?
      && (slot.which != 0 ==>
            var k := FindTag(d, slot.which);
            k.Some? && d[k.value].htype.OneOf? && Home(d, k.value) == i && SoundValue(d[k.value], slot.value))
  }

  predicate Sound(d: Descriptor, slots: seq<Slot>)
    decreases d, 1
  {
    && |slots| == |d|
    && forall i :: 0 <= i < |d| && !SharesStorage(d, i) ==> SoundSlot(d, i, slots[i])
  }

  lemma {:induction false} SoundValueValid(f: Field, v: Value)
    requires SoundDefault(f) && SoundValue(f, v)
    ensures ValidValue(f, v)
    decreases f, 0
  {
    if f.ltype.Submessage? {
      hide SoundDefaults, Sound, Valid;
      SoundValid(f.ptr.fields, v.slots);
    }
  }

  lemma {:induction false} SoundSlotValid(d: Descriptor, i: nat, slot: Slot)
    requires SoundDefaults(d) && i < |d| && SoundSlot(d, i, slot)
    ensures ValidSlot(d, i, slot)
    decreases d, 0
  {
    var f := d[i];
    assert SoundDefault(f);
    if f.htype.Repeated? {
      forall j | 0 <= j < |slot.items| ensures ValidValue(f, slot.items[j]) { SoundValueValid(f, slot.items[j]); }
    } else if f.htype.OneOf? {
      if slot.which != 0 {
        var k := FindTag(d, slot.which).value;
        SoundValueValid(d[k], slot.value);
      }
    } else if SoundValue(f, slot.Val()) {
      SoundValueValid(f, slot.Val());
    }
    hide SoundDefaults, SoundValue, ValidValue;
  }

  lemma {:induction false} SoundValid(d: Descriptor, slots: seq<Slot>)
    requires SoundDefaults(d) && Sound(d, slots)
    ensures Valid(d, slots)
    decreases d, 1
  {
    hide SoundSlot, ValidSlot, SoundDefaults;
    forall i | 0 <= i < |d| && !SharesStorage(d, i) ensures ValidSlot(d, i, slots[i]) {
      SoundSlotValid(d, i, slots[i]);
    }
  }

  // ----- Initialisation -----

  lemma {:induction false} DefaultValueSound(f: Field)
    requires SoundDefault(f)
    ensures f.ltype.Submessage? || f.htype.Required? || (f.htype.Optional? && f.sizeOffset == 0)
            ==> SoundValue(f, DefaultValue(f))
    decreases f, 0
  {
    if f.ltype.Submessage? {
      hide SoundDefaults, Sound, Defaults;
      DefaultsSound(f.ptr.fields);
    }
  }

  lemma {:induction false} DefaultsSound(d: Descriptor)
    requires SoundDefaults(d)
    ensures Sound(d, Defaults(d))
    decreases d, 1
  {
    forall i | 0 <= i < |d| && !SharesStorage(d, i) ensures SoundSlot(d, i, Defaults(d)[i]) {
      DefaultValueSound(d[i]);
      hide SoundValue, DefaultValue;
    }
  }

  // ----- Scalars -----

  lemma {:induction false} LittleEndianBound(bs: seq<byte>)
    ensures FromLE(bs) < Bytes256(|bs|)
  {
    if bs != [] { LittleEndianBound(bs[1..]); }
  }

  lemma {:induction false} FixedSound(s: seq<byte>, size: nat)
    requires size == 4 || size == 8
    ensures var p := DecodeFixed(s, size); p.Done? ==> p.value.Num? && InUnsigned(p.value.n, size)
  {
    if size <= |s| {
      WordSizes();
      LittleEndianBound(s[..size]);
      hide FromLE, Bytes256;
    }
  }

  lemma {:induction false} IntegerSound(f: Field, s: seq<byte>)
    requires f.ltype.Varint? || f.ltype.UVarint? || f.ltype.SVarint?
    ensures var p := DecodeInteger(f, s); p.Done? ==> ValidScalar(f, p.value)
  {
    hide DecodeVarint, UnZigZag;
  }

  lemma {:induction false} BlobSound(f: Field, s: seq<byte>)
    requires f.ltype.Bytes? || f.ltype.String? || f.ltype.FixedLengthBytes?
    ensures var p := DecodeScalar(f, s); p.Done? ==> ValidScalar(f, p.value)
  {
    hide DecodeVarint32;
  }

  lemma {:induction false} ScalarSound(f: Field, s: seq<byte>)
    ensures var p := DecodeScalar(f, s); p.Done? ==> ValidScalar(f, p.value)
  {
    hide DecodeInteger, DecodeFixed, DecodeBytes, DecodeString, DecodeFixedLength, DecodeVarint32;
    match f.ltype
    case Varint | UVarint | SVarint => IntegerSound(f, s);
    case Fixed32 => FixedSound(s, 4);
    case Fixed64 => FixedSound(s, 8);
    case Bytes | String | FixedLengthBytes => BlobSound(f, s);
    case Bool =>
    case Submessage | Extension =>
  }

  // ----- Records -----

  predicate SoundItems(f: Field, items: seq<Value>) {
    |items| <= f.arraySize && forall j :: 0 <= j < |items| ==> SoundValue(f, items[j])
  }

  lemma {:induction false} PackedSound(f: Field, s: seq<byte>, items: seq<Value>)
    requires !f.ltype.Submessage? && SoundItems(f, items)
    ensures var r := DecodePacked(f, s, items, |items|); r.Filled? ==> SoundItems(f, r.items)
    decreases |s|
  {
    hide DecodeScalar, ValidScalar;
    if s != [] && |items| < f.arraySize {
      var p := DecodeScalar(f, s);
      ScalarSound(f, s);
      if p.Done? { PackedSound(f, p.rest, PutItem(items, |items|, p.value)); }
    }
  }

  lemma {:induction false} ValueSound(f: Field, old_: Value, s: seq<byte>)
    requires WellFormedField(f) && SoundDefault(f)
    requires f.ltype.Submessage? && !f.htype.Repeated? ==> SoundValue(f, old_)
    ensures var p := DecodeValue(f, old_, s); p.Done? ==> SoundValue(f, p.value)
    decreases |s|, 2
  {
    if f.ltype.Submessage? {
      var p := Substream(s);
      if p.Done? {
        DefaultsSound(f.ptr.fields);
        var base := if f.htype.Repeated? then Defaults(f.ptr.fields) else SlotsOf(old_);
        hide Substream, WellFormed, SoundDefaults, Sound, DecodeNoInit, Defaults;
        NoInitSound(f.ptr.fields, base, p.value);
      }
    } else {
      hide DecodeScalar, ValidScalar;
      ScalarSound(f, s);
    }
  }

  lemma {:induction false} RepeatedSound(f: Field, wireType: nat, items: seq<Value>, s: seq<byte>)
    requires WellFormedField(f) && SoundDefault(f) && f.htype.Repeated? && SoundItems(f, items)
    ensures var p := DecodeRepeated(f, wireType, items, |items|, s); p.Done? ==> SoundItems(f, p.value.items)
    decreases |s|, 3
  {
    hide DecodeValue, DecodePacked, Substream, WellFormedField, SoundDefault, SoundValue;
    if wireType == WT_STRING && f.ltype.Packable() {
      var p := Substream(s);
      if p.Done? { PackedSound(f, p.value, items); }
    } else {
      ValueSound(f, Undefined, s);
    }
  }

  /** The slot that field i is stored in. */
  lemma {:induction false} HomeSound(d: Descriptor, i: nat, slots: seq<Slot>)
    requires WellFormed(d) && SoundDefaults(d) && Sound(d, slots) && i < |d|
    ensures var f, h := d[i], Home(d, i);
      && WellFormedField(f) && SoundDefault(f) && FindTag(d, f.tag) == Some(i) && f.tag != 0
      && h < |d| && !SharesStorage(d, h) && SoundSlot(d, h, slots[h])
      && (d[h].htype.OneOf? <==> f.htype.OneOf?) && (!f.htype.OneOf? ==> h == i)
  {
    HomeKind(d, i);
    FindUnique(d, i);
    assert WellFormedField(d[i]);
    hide SoundSlot, SoundDefault;
  }

  lemma {:induction false} PutSound(d: Descriptor, h: nat, slots: seq<Slot>, slot: Slot)
    requires Sound(d, slots) && h < |d| && SoundSlot(d, h, slot)
    ensures Sound(d, Put(slots, h, slot))
  {
    hide SoundSlot;
  }

  /** What field i is decoded over, when it is a submessage. */
  lemma {:induction false} BaseSound(d: Descriptor, i: nat, slots: seq<Slot>)
    requires WellFormed(d) && SoundDefaults(d) && Sound(d, slots) && i < |d|
    requires d[i].ltype.Submessage? && !d[i].htype.Repeated?
    ensures var f, slot := d[i], SlotAt(slots, Home(d, i));
            SoundValue(f, if f.htype.OneOf? then UnionBase(f, slot) else slot.Val())
  {
    HomeSound(d, i, slots);
    DefaultValueSound(d[i]);
    hide Sound, SoundValue, WellFormed, SoundDefaults, SoundDefault, DefaultValue, FindTag, Home;
  }

  lemma {:induction false} StaticSound(d: Descriptor, i: nat, wireType: nat, st: State, s: seq<byte>)
    requires WellFormed(d) && SoundDefaults(d) && Sound(d, st.slots) && i < |d|
    ensures var p := DecodeStatic(d, i, wireType, st, s); p.Done? ==> Sound(d, p.value.slots)
    decreases |s|, 4
  {
    var f, h, p := d[i], Home(d, i), DecodeStatic(d, i, wireType, st, s);
    var slot := SlotAt(st.slots, h);
    HomeSound(d, i, st.slots);
    if p.Done? {
      if f.htype.Repeated? {
        assert SoundSlot(d, i, slot);
        RepeatedSound(f, wireType, slot.Items(), s);
        ArraySound(d, i, DecodeRepeated(f, wireType, slot.Items(), |slot.Items()|, s).value.items);
        PutSound(d, h, st.slots, p.value.slots[h]);
      } else {
        if f.ltype.Submessage? { BaseSound(d, i, st.slots); }
        var base := if f.htype.OneOf? then UnionBase(f, slot) else slot.Val();
        ValueSound(f, base, s);
        StoredSound(d, i, DecodeValue(f, base, s).value);
        PutSound(d, h, st.slots, Stored(f, DecodeValue(f, base, s).value));
      }
      hide WellFormed, SoundDefaults, Sound, SoundSlot, SoundValue, DecodeRepeated, DecodeValue, UnionBase,
           UnionReleasable;
    }
  }

  lemma {:induction false} ArraySound(d: Descriptor, i: nat, items: seq<Value>)
    requires i < |d| && d[i].htype.Repeated? && SoundItems(d[i], items)
    ensures SoundSlot(d, i, Arr(items))
  {
    hide SoundValue;
  }

  lemma {:induction false} StoredSound(d: Descriptor, i: nat, v: Value)
    requires i < |d| && !d[i].htype.Repeated? && SoundValue(d[i], v) && FindTag(d, d[i].tag) == Some(i)
    requires d[Home(d, i)].htype.OneOf? <==> d[i].htype.OneOf?
    requires !d[i].htype.OneOf? ==> Home(d, i) == i
    ensures SoundSlot(d, Home(d, i), Stored(d[i], v))
  {
    hide SoundValue, FindTag, Home;
  }

  lemma {:induction false} RecordSound(d: Descriptor, tag: nat, wireType: nat, st: State, s: seq<byte>)
    requires WellFormed(d) && SoundDefaults(d) && Sound(d, st.slots)
    ensures var p := DecodeRecord(d, tag, wireType, st, s); p.Done? ==> Sound(d, p.value.slots)
    decreases |s|, 5
  {
    hide WellFormed, Sound, DecodeStatic, DecodeBool, Skip;
    var k := FindTag(d, tag);
    if k.Some? {
      assert SoundDefault(d[k.value]);
      hide SoundDefaults, SoundDefault;
      StaticSound(d, k.value, wireType, MarkSeen(d, k.value, st), s);
    }
  }

  lemma {:induction false} LoopSound(d: Descriptor, st: State, s: seq<byte>)
    requires WellFormed(d) && SoundDefaults(d) && Sound(d, st.slots)
    ensures var r := DecodeLoop(d, st, s); r.Ran? ==> Sound(d, r.st.slots)
    decreases |s|, 0
  {
    hide WellFormed, SoundDefaults, Sound, DecodeRecord, DecodeTag;
    if s != [] {
      var t := DecodeTag(s);
      if t.Tag? {
        var p := DecodeRecord(d, t.tag, t.wireType, st, t.rest);
        RecordSound(d, t.tag, t.wireType, st, t.rest);
        if p.Done? { LoopSound(d, p.value, p.rest); }
      }
    }
  }

  lemma {:induction false} NoInitSound(d: Descriptor, slots: seq<Slot>, s: seq<byte>)
    requires WellFormed(d) && SoundDefaults(d) && Sound(d, slots)
    ensures var p := DecodeNoInit(d, slots, s); p.Done? ==> Sound(d, p.value)
    decreases |s|, 1
  {
    hide WellFormed, SoundDefaults, Sound, DecodeLoop, Accepts;
    LoopSound(d, Start(slots), s);
  }

  // ----- Main results -----

  /** Whatever bytes pb_decode accepts, the struct then holds a valid message: counts and
      sizes within their bounds, integers in range, strings terminated, which_ members naming
      members of their unions. */
  lemma {:induction false} DecodedIsValid(d: Descriptor, s: seq<byte>)
    requires WellFormed(d) && SoundDefaults(d)
    ensures Decode(d, s).Done? ==> Valid(d, Decode(d, s).value)
  {
    hide WellFormed, SoundDefaults, Sound, Valid, DecodeNoInit, Defaults;
    DefaultsSound(d);
    NoInitSound(d, Defaults(d), s);
    if Decode(d, s).Done? { SoundValid(d, Decode(d, s).value); }
  }

  /** Such a message can be encoded, and unless that takes 4 GiB its encoding is decoded to
      the message in normal form. */
  lemma {:induction false} AcceptedReencodes(d: Descriptor, s: seq<byte>)
    requires WellFormed(d) && SoundDefaults(d) && ZeroDefaults(d) && Decode(d, s).Done?
    ensures var m := Decode(d, s).value;
      && Encode(d, m).Ok?
      && (Fits(Encode(d, m)) ==> Decode(d, Encode(d, m).bytes) == Done(Normalize(d, m), []))
  {
    var m := Decode(d, s).value;
    DecodedIsValid(d, s);
    FieldsEncode(d, 0, m);
    hide WellFormed, SoundDefaults, ZeroDefaults, Valid, Decode, EncodeFrom, Normalize;
    if Fits(Encode(d, m)) { DecodeEncode(d, m); }
  }
}
