/** What comes back from a round trip is a canonical form of the message: encoding it again
    gives the same bytes. */
module Canonical {
  import opened Basics
  import opened Pb
  import opened DecodeSpec
  import opened EncodeSpec
  import opened Records
  import opened RoundTrip
  import opened Messages

  lemma {:induction false} ScalarNormEncodes(f: Field, v: Value)
    requires WellFormedField(f) && ValidScalar(f, v)
    ensures EncodeValue(f, NormScalar(f, v)) == EncodeValue(f, v)
    ensures ZeroItem(f, NormScalar(f, v)) <==> ZeroItem(f, v)
  {
    hide Prefixed;
    if f.ltype.String? { CStringPrefix(CString(v.bytes, f.dataSize), f.dataSize); }
  }

  lemma {:induction false} ValueNormEncodes(f: Field, v: Value)
    requires WellFormedField(f) && ZeroDefault(f) && ValidValue(f, v)
    ensures EncodeValue(f, NormValue(f, v)) == EncodeValue(f, v)
    ensures ZeroItem(f, NormValue(f, v)) <==> ZeroItem(f, v)
    decreases f, 0
  {
    if f.ltype.Submessage? {
      var d := f.ptr.fields;
      FieldsNormEncode(d, 0, v.slots);
      AllNormDefault(d, v.slots);
      hide WellFormedField, ZeroDefault, Valid, Encode, AllDefault, Normalize, SubmessageBytes;
    } else {
      ScalarNormEncodes(f, v);
      hide EncodeValue, ZeroItem;
    }
  }

  lemma {:induction false} ItemsNormEncode(f: Field, lead: seq<byte>, items: seq<Value>)
    requires WellFormedField(f) && ZeroDefault(f) && forall j :: 0 <= j < |items| ==> ValidValue(f, items[j])
    ensures EncodeItems(f, lead, NormItems(f, items)) == EncodeItems(f, lead, items)
    decreases f, 1, |items|
  {
    hide WellFormedField, ZeroDefault, ValidValue, NormValue, EncodeValue;
    if items != [] {
      ValueNormEncodes(f, items[0]);
      ItemsNormEncode(f, lead, items[1..]);
      assert NormItems(f, items)[1..] == NormItems(f, items[1..]);
    }
  }

  /** The slot that field i is encoded from, before and after. */
  lemma {:induction false} NormContent(d: Descriptor, i: nat, slots: seq<Slot>)
    requires WellFormed(d) && ZeroDefaults(d) && Valid(d, slots) && i < |d|
    ensures var f, h := d[i], Home(d, i);
            var slot, slot' := SlotAt(slots, h), SlotAt(Normalize(d, slots), h);
      && slot' == NormSlot(d, h, slot)
      && (f.htype.Repeated? ==> slot'.Items() == NormItems(f, slot.Items()))
      && (f.htype.OneOf? ==> slot'.Which() == slot.Which())
      && (f.htype.Optional? && f.sizeOffset != 0 ==> HasField(slot') == HasField(slot))
      && (f.htype.Required? || (f.htype.Optional? && f.sizeOffset == 0) || (f.htype.Optional? && HasField(slot))
          || (f.htype.OneOf? && slot.Which() == f.tag)
          ==> slot'.Val() == NormValue(f, slot.Val()) && ValidValue(f, slot.Val()))
  {
    HomeKind(d, i);
    FindUnique(d, i);
    assert WellFormedField(d[i]);
    assert ValidSlot(d, Home(d, i), slots[Home(d, i)]);
    hide WellFormed, ZeroDefaults, Valid, ValidValue, NormValue, NormItems;
  }

  lemma {:induction false} FieldNormEncodes(d: Descriptor, i: nat, slots: seq<Slot>)
    requires WellFormed(d) && ZeroDefaults(d) && Valid(d, slots) && i < |d|
    ensures EncodeField(d, i, Normalize(d, slots)) == EncodeField(d, i, slots)
    ensures DefaultField(d, i, Normalize(d, slots)) <==> DefaultField(d, i, slots)
    decreases d, 0
  {
    var f, slot := d[i], SlotAt(slots, Home(d, i));
    NormContent(d, i, slots);
    assert WellFormedField(f) && ZeroDefault(f);
    if f.htype.Repeated? {
      FieldContent(d, i, slots);
      HomeKind(d, i);
      ItemsNormEncode(f, [], slot.items);
      ItemsNormEncode(f, FieldTag(f), slot.items);
    } else if ValidValue(f, slot.Val()) {
      ValueNormEncodes(f, slot.Val());
    }
    hide WellFormed, ZeroDefaults, Valid, ValidValue, NormValue, EncodeValue, ZeroItem, EncodeItems, Normalize;
  }

  lemma {:induction false} FieldsNormEncode(d: Descriptor, i: nat, slots: seq<Slot>)
    requires WellFormed(d) && ZeroDefaults(d) && Valid(d, slots) && i <= |d|
    ensures EncodeFrom(d, i, Normalize(d, slots)) == EncodeFrom(d, i, slots)
    decreases d, 1, |d| - i
  {
    hide EncodeField, WellFormed, ZeroDefaults, Valid, Normalize;
    if i < |d| {
      FieldNormEncodes(d, i, slots);
      FieldsNormEncode(d, i + 1, slots);
    }
  }

  lemma {:induction false} AllNormDefault(d: Descriptor, slots: seq<Slot>)
    requires WellFormed(d) && ZeroDefaults(d) && Valid(d, slots)
    ensures AllDefault(d, Normalize(d, slots)) <==> AllDefault(d, slots)
    decreases d, 2
  {
    hide WellFormed, ZeroDefaults, Valid, Normalize, DefaultField;
    forall i | 0 <= i < |d|
      ensures DefaultField(d, i, Normalize(d, slots)) <==> DefaultField(d, i, slots)
    {
      FieldNormEncodes(d, i, slots);
    }
  }

  /** Encoding what was decoded gives the bytes that were decoded. */
  lemma {:induction false} ReencodeStable(d: Descriptor, slots: seq<Slot>)
    requires Sendable(d, slots)
    ensures Decode(d, Encode(d, slots).bytes).Done?
    ensures Encode(d, Decode(d, Encode(d, slots).bytes).value) == Encode(d, slots)
  {
    DecodeEncode(d, slots);
    FieldsNormEncode(d, 0, slots);
    hide Normalize, Decode, EncodeFrom;
  }
}
