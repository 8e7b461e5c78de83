/** Which fields pb_encode leaves out of the bytes. */
module Omission {
  import opened Basics
  import opened Pb
  import opened Wire
  import opened DecodeSpec
  import opened EncodeSpec
  import opened Records
  import opened RoundTrip

  lemma {:induction false} TagNotEmpty(f: Field, e: Encoded)
    ensures Tagged(f, e) != Ok([])
  {
    assert |FieldTag(f)| >= 1;
    hide FieldTag;
  }

  lemma {:induction false} ItemsNotEmpty(f: Field, lead: seq<byte>, items: seq<Value>)
    requires lead != [] && items != []
    ensures EncodeItems(f, lead, items) != Ok([])
  {
    hide EncodeValue;
  }

  lemma {:induction false} ArrayOmittedIff(f: Field, items: seq<Value>)
    ensures EncodeArray(f, items) == Ok([]) <==> items == []
  {
    if items != [] {
      assert |FieldTag(f)| >= 1 && |TagBytes(f.tag, WT_STRING)| >= 1;
      ItemsNotEmpty(f, FieldTag(f), items);
      hide FieldTag, TagBytes, EncodeItems, Prefixed;
    }
  }

  /** A singular scalar without a has_ flag is left out exactly when it is zero: the number
      0, an array or string without bytes or characters, or inline bytes of size 0. */
  lemma {:induction false} ScalarOmittedIff(d: Descriptor, i: nat, slots: seq<Slot>)
    requires i < |d| && d[i].htype.Optional? && d[i].sizeOffset == 0 && !d[i].ltype.Submessage?
    requires TypedValue(d[i], SlotAt(slots, i).Val())
    ensures EncodeField(d, i, slots) == Ok([]) <==>
            match SlotAt(slots, i).Val()
            case Num(n) => n == 0
            case Blob(b) => if d[i].ltype.FixedLengthBytes? then d[i].dataSize == 0
                            else b == [] || (d[i].ltype.String? && b[0] == 0)
            case _ => false
  {
    HomeKind(d, i);
    TagNotEmpty(d[i], EncodeValue(d[i], SlotAt(slots, i).Val()));
    hide EncodeValue, Tagged, Home;
  }

  lemma {:induction false} MemberOmittedIff(d: Descriptor, j: nat, slots: seq<Slot>)
    requires WellFormed(d) && Valid(d, slots) && j < |d|
    ensures var f, slot := d[j], SlotAt(slots, Home(d, j));
            EncodeField(d, j, slots) == Ok([]) <==>
              match f.htype
              case Required => false
              case Optional => if f.sizeOffset != 0 then !HasField(slot) else ZeroItem(f, slot.Val())
              case OneOf => slot.Which() != f.tag
              case Repeated => slot.Items() == [] && (f.sizeOffset != 0 || f.arraySize == 0)
  {
    var f, slot := d[j], SlotAt(slots, Home(d, j));
    TagNotEmpty(f, EncodeValue(f, slot.Val()));
    ArrayOmittedIff(f, slot.Items());
    hide EncodeValue, Tagged, Home, EncodeArray, WellFormed, Valid, ZeroItem;
  }

  /** If every member of a union is left out, the union has no active member. */
  lemma {:induction false} UnionOmitted(d: Descriptor, j: nat, slots: seq<Slot>)
    requires WellFormed(d) && Valid(d, slots) && j < |d| && d[j].htype.OneOf?
    requires forall k :: 0 <= k < |d| ==> EncodeField(d, k, slots) == Ok([])
    ensures SlotAt(slots, Home(d, j)).Which() == 0
  {
    var h := Home(d, j);
    HomeKind(d, j);
    assert ValidSlot(d, h, slots[h]);
    if slots[h].which != 0 {
      var k := FindTag(d, slots[h].which).value;
      MemberOmittedIff(d, k, slots);
      hide WellFormed, Valid, EncodeField, ZeroItem, ValidValue;
    }
  }

  /** A singular submessage without a has_ flag is left out exactly when every field in it is,
      and none of them is required or an array of fixed count. */
  lemma {:induction false} SubmessageOmittedIff(d: Descriptor, i: nat, slots: seq<Slot>)
    requires i < |d| && d[i].htype.Optional? && d[i].sizeOffset == 0 && d[i].ltype.Submessage?
    requires WellFormedField(d[i]) && ValidValue(d[i], SlotAt(slots, i).Val())
    ensures var sub, inner := d[i].ptr.fields, SlotAt(slots, i).Val().slots;
            EncodeField(d, i, slots) == Ok([]) <==>
            forall j :: 0 <= j < |sub| ==>
              EncodeField(sub, j, inner) == Ok([]) && !sub[j].htype.Required? && !sub[j].FixedCount()
  {
    var f, sub, inner := d[i], d[i].ptr.fields, SlotAt(slots, i).Val().slots;
    HomeKind(d, i);
    TagNotEmpty(f, EncodeValue(f, SlotAt(slots, i).Val()));
    assert EncodeField(d, i, slots) == Ok([]) <==> AllDefault(sub, inner) by {
      hide EncodeValue, Tagged, Home, AllDefault, WellFormed, Valid;
    }
    AllOmittedIff(sub, inner);
    hide EncodeField, AllDefault, WellFormed, Valid, WellFormedField, ValidValue;
  }

  lemma {:induction false} AllOmittedIff(d: Descriptor, slots: seq<Slot>)
    requires WellFormed(d) && Valid(d, slots)
    ensures AllDefault(d, slots) <==>
            forall j :: 0 <= j < |d| ==>
              EncodeField(d, j, slots) == Ok([]) && !d[j].htype.Required? && !d[j].FixedCount()
  {
    forall j | 0 <= j < |d|
      ensures DefaultField(d, j, slots) ==>
                EncodeField(d, j, slots) == Ok([]) && !d[j].htype.Required? && !d[j].FixedCount()
      ensures (forall k :: 0 <= k < |d| ==> EncodeField(d, k, slots) == Ok([])) ==>
                d[j].htype.Required? || d[j].FixedCount() || DefaultField(d, j, slots)
    {
      MemberOmittedIff(d, j, slots);
      assert WellFormedField(d[j]);
      if d[j].htype.OneOf? && forall k :: 0 <= k < |d| ==> EncodeField(d, k, slots) == Ok([]) {
        UnionOmitted(d, j, slots);
      }
      hide WellFormed, Valid, EncodeField, ZeroItem;
    }
    hide WellFormed, Valid, EncodeField, DefaultField;
  }

  /** Which other fields are left out. */
  lemma {:induction false} FieldOmittedIff(d: Descriptor, i: nat, slots: seq<Slot>)
    requires i < |d| && WellFormedField(d[i]) && (d[i].htype.Optional? ==> d[i].sizeOffset != 0)
    ensures var f, slot := d[i], SlotAt(slots, Home(d, i));
            EncodeField(d, i, slots) == Ok([]) <==>
              match f.htype
              case Required => false
              case Optional => !(slot.Opt? && slot.has)
              case OneOf => !(slot.Union? && slot.which == f.tag)
              case Repeated => slot.Items() == [] && (f.sizeOffset != 0 || f.arraySize == 0)
  {
    var f, slot := d[i], SlotAt(slots, Home(d, i));
    TagNotEmpty(f, EncodeValue(f, slot.Val()));
    ArrayOmittedIff(f, slot.Items());
    hide EncodeValue, Tagged, Home, EncodeArray;
  }
}
