/** pb_decode of what pb_encode wrote gives the message back. */
module RoundTrip {
  import opened Basics
  import opened Pb
  import opened Wire
  import opened DecodeSpec
  import opened EncodeSpec
  import opened Records

  // ----- Messages that the encoder accepts and the decoder can hold -----

  /** Proto3 singular fields have zero defaults, at every level. */
  predicate ZeroDefaults(d: Descriptor)
    decreases d
  {
    forall i :: 0 <= i < |d| ==> ZeroDefault(d[i])
  }

  predicate ZeroDefault(f: Field)
    decreases f
  {
    && (f.htype.Optional? && f.sizeOffset == 0 ==> !f.ptr.Initial?)
    && (f.ltype.Submessage? ==> f.ptr.SubFields? && ZeroDefaults(f.ptr.fields))
  }

  predicate ValidValue(f: Field, v: Value)
    decreases f, 0
  {
    if f.ltype.Submessage? then f.ptr.SubFields? && v.Struct? && Valid(f.ptr.fields, v.slots)
    else ValidScalar(f, v)
  }

  predicate ValidSlot(d: Descriptor, i: nat, slot: Slot)
    requires i < |d|
    decreases d, 0
  {
    var f := d[i];
    match f.htype
    case Required => slot.Single? && ValidValue(f, slot.value)
    case Optional =>
      if f.sizeOffset != 0 then slot.Opt? && (slot.has ==> ValidValue(f, slot.value))
      else slot.Single? && ValidValue(f, slot.value)
    case Repeated =>
      && slot.Arr? && |slot.items| <= f.arraySize
      && (f.FixedCount() ==> |slot.items| == f.arraySize)
      && forall j :: 0 <= j < |slot.items| ==> ValidValue(f, slot.items[j])
    case OneOf =>
      && slot.Union?
      && (slot.which != 0 ==>
            var k := FindTag(d, slot.which);
            k.Some? && d[k.value].htype.OneOf? && Home(d, k.value) == i && ValidValue(d[k.value], slot.value))
  }

  predicate Valid(d: Descriptor, slots: seq<Slot>)
    decreases d, 1
  {
    && |slots| == |d|
    && forall i :: 0 <= i < |d| && !SharesStorage(d, i) ==> ValidSlot(d, i, slots[i])
  }

  // ----- The message that comes back -----

  function NormValue(f: Field, v: Value): Value
    decreases f, 0
  {
    if f.ltype.Submessage? && f.ptr.SubFields? then Struct(Normalize(f.ptr.fields, SlotsOf(v)))
    else NormScalar(f, v)
  }

  function NormItems(f: Field, items: seq<Value>): (r: seq<Value>)
    ensures |r| == |items|
    decreases f, 1
  {
    seq(|items|, j requires 0 <= j < |items| => NormValue(f, items[j]))
  }

  /** The content of the slot of field i (the home of its union) after the round trip.
      Fields that are not on the wire are at their defaults. */
  function NormSlot(d: Descriptor, i: nat, slot: Slot): Slot
    requires i < |d|
    decreases d, 0
  {
    var f := d[i];
    if SharesStorage(d, i) then Alias
    else
      match f.htype
      case Required => Single(NormValue(f, slot.Val()))
      case Optional =>
        if f.sizeOffset == 0 then Single(NormValue(f, slot.Val()))
        else if HasField(slot) then Opt(true, NormValue(f, slot.Val()))
        else Opt(false, DefaultValue(f))
      case Repeated => Arr(NormItems(f, slot.Items()))
      case OneOf =>
        var k := FindTag(d, slot.Which());
        if slot.Which() == 0 || k.None? then Union(0, Undefined)
        else Union(slot.Which(), NormValue(d[k.value], slot.Val()))
  }

  function Normalize(d: Descriptor, slots: seq<Slot>): (r: seq<Slot>)
    ensures |r| == |d|
    decreases d, 1
  {
    seq(|d|, i requires 0 <= i < |d| => NormSlot(d, i, SlotAt(slots, i)))
  }

  // ----- What is not emitted was at its default -----

  /** A proto3 singular item that is not emitted loses nothing. */
  lemma {:induction false} ZeroItemIsDefault(f: Field, v: Value)
    requires WellFormedField(f) && ZeroDefault(f) && !f.ptr.Initial?
    requires ValidValue(f, v) && ZeroItem(f, v)
    ensures NormValue(f, v) == DefaultValue(f)
    decreases f
  {
    if f.ltype.Submessage? {
      var d, slots := f.ptr.fields, v.slots;
      forall i | 0 <= i < |d|
        ensures NormSlot(d, i, slots[i]) == DefaultSlot(d, i)
      {
        assert DefaultField(d, i, slots);
        if !SharesStorage(d, i) {
          assert ValidSlot(d, i, slots[i]);
          if d[i].htype.Optional? && d[i].sizeOffset == 0 { ZeroItemIsDefault(d[i], slots[i].value); }
          if d[i].htype.Repeated? { assert NormItems(d[i], slots[i].items) == []; }
        }
      }
      assert Normalize(d, slots) == Defaults(d);
    } else if f.ltype.FixedLengthBytes? {
      assert v.bytes == Zeros(0);
    }
  }

  // ----- Array contents, entry by entry -----

  /** Entries k, k+1, ... of an array, stored one after the other. */
  function Fill(f: Field, acc: seq<Value>, k: nat, items: seq<Value>): seq<Value>
    decreases |items|
  {
    if items == [] then acc else Fill(f, PutItem(acc, k, NormValue(f, items[0])), k + 1, items[1..])
  }

  lemma {:induction false} FillAll(f: Field, acc: seq<Value>, k: nat, items: seq<Value>)
    requires |acc| == k || |acc| == k + |items|
    ensures Fill(f, acc, k, items) == acc[..k] + NormItems(f, items)
    decreases |items|
  {
    hide NormValue;
    if items != [] {
      var v := NormValue(f, items[0]);
      var acc' := PutItem(acc, k, v);
      FillAll(f, acc', k + 1, items[1..]);
      assert acc'[..k + 1] == acc[..k] + [v];
      assert NormItems(f, items) == [v] + NormItems(f, items[1..]);
    } else {
      assert acc[..k] == acc;
    }
  }

  // ----- Valid messages are encodable -----

  /** The slot that field i is encoded from holds a valid content for it. */
  lemma {:induction false} FieldContent(d: Descriptor, i: nat, slots: seq<Slot>)
    requires WellFormed(d) && Valid(d, slots) && i < |d|
    ensures var f, slot := d[i], SlotAt(slots, Home(d, i));
      && (f.htype.Repeated? ==> ValidSlot(d, i, slot))
      && (!f.htype.Repeated? && Present(f, slot) ==> ValidValue(f, slot.Val()))
  {
    HomeKind(d, i);
    FindUnique(d, i);
    assert WellFormedField(d[i]);
    assert ValidSlot(d, Home(d, i), slots[Home(d, i)]);
    hide ValidValue, Valid, ZeroItem;
  }

  lemma {:induction false} ValueEncodes(f: Field, v: Value)
    requires WellFormedField(f) && ValidValue(f, v)
    ensures EncodeValue(f, v).Ok?
    decreases f, 0
  {
    if f.ltype.Submessage? {
      FieldsEncode(f.ptr.fields, 0, v.slots);
    } else {
      ScalarRoundTrip(f, v, []);
    }
  }

  lemma {:induction false} ItemsEncode(f: Field, lead: seq<byte>, items: seq<Value>)
    requires WellFormedField(f) && forall j :: 0 <= j < |items| ==> ValidValue(f, items[j])
    ensures EncodeItems(f, lead, items).Ok?
    decreases f, 1, |items|
  {
    hide ValidValue, WellFormedField;
    if items != [] {
      ValueEncodes(f, items[0]);
      ItemsEncode(f, lead, items[1..]);
    }
  }

  lemma {:induction false} FieldEncodes(d: Descriptor, i: nat, slots: seq<Slot>)
    requires WellFormed(d) && Valid(d, slots) && i < |d|
    ensures EncodeField(d, i, slots).Ok?
    decreases d, 0
  {
    var f, slot := d[i], SlotAt(slots, Home(d, i));
    FieldContent(d, i, slots);
    assert WellFormedField(f);
    if f.htype.Repeated? {
      ItemsEncode(f, [], slot.items);
      ItemsEncode(f, FieldTag(f), slot.items);
    } else if Present(f, slot) {
      ValueEncodes(f, slot.Val());
    }
    hide Valid, ValidValue, EncodeValue, EncodeItems;
  }

  lemma {:induction false} FieldsEncode(d: Descriptor, i: nat, slots: seq<Slot>)
    requires WellFormed(d) && Valid(d, slots) && i <= |d|
    ensures EncodeFrom(d, i, slots).Ok?
    decreases d, 1, |d| - i
  {
    hide EncodeField, Valid, WellFormed;
    if i < |d| {
      FieldEncodes(d, i, slots);
      FieldsEncode(d, i + 1, slots);
    }
  }

  // ----- Single records -----

  /** One record at the front of the input is one turn of the loop. */
  lemma {:induction false} LoopOne(d: Descriptor, tag: nat, wireType: nat, body: seq<byte>, t: seq<byte>, st: State,
        st': State)
    requires 1 <= tag < 0x2000_0000 && wireType < 8
    requires DecodeRecord(d, tag, wireType, st, body + t) == Done(st', t)
    ensures DecodeLoop(d, st, TagBytes(tag, wireType) + body + t) == DecodeLoop(d, st', t)
  {
    hide DecodeRecord, DecodeTag, TagBytes;
    TagRoundTrip(tag, wireType, body + t);
    assert TagBytes(tag, wireType) + body + t == TagBytes(tag, wireType) + (body + t);
    assert TagBytes(tag, wireType) + (body + t) != [];
  }

  /** A record of field i, once decode_static_field is known. */
  lemma {:induction false} RecordIs(d: Descriptor, i: nat, wireType: nat, s: seq<byte>, t: seq<byte>, st: State,
        st1: State, st': State)
    requires WellFormed(d) && i < |d|
    requires EnterFixed(d, i, st) == Some(st1)
    requires DecodeStatic(d, i, wireType, MarkSeen(d, i, st1), s) == Done(st', t)
    ensures DecodeRecord(d, d[i].tag, wireType, st, s) == Done(st', t)
  {
    FindUnique(d, i);
    assert WellFormedField(d[i]);
    hide DecodeStatic, WellFormed, WellFormedField, FindTag, EnterFixed, MarkSeen;
  }

  /** The slot that a decoded singular field is stored in. */
  function Stored(f: Field, v: Value): Slot {
    if f.htype.OneOf? then Union(f.tag, v)
    else if f.htype.Optional? && f.sizeOffset != 0 then Opt(true, v)
    else Single(v)
  }

  /** The state after field i, a singular field, has been decoded. */
  function AfterSingular(d: Descriptor, i: nat, st: State, v: Value): State
    requires i < |d|
  {
    MarkSeen(d, i, st).(slots := Put(st.slots, Home(d, i), Stored(d[i], v)))
  }

  /** What a singular field is decoded over. */
  function OldValue(d: Descriptor, i: nat, st: State): Value
    requires i < |d|
  {
    var f, slot := d[i], SlotAt(st.slots, Home(d, i));
    if f.htype.OneOf? then UnionBase(f, slot) else slot.Val()
  }

  lemma {:induction false} SingularRecord(d: Descriptor, i: nat, wireType: nat, st: State, s: seq<byte>,
        t: seq<byte>, v: Value)
    requires WellFormed(d) && i < |d| && !d[i].htype.Repeated?
    requires d[i].htype.OneOf? ==> UnionReleasable(d, SlotAt(st.slots, Home(d, i)).Which(), d[i].tag)
    requires DecodeValue(d[i], OldValue(d, i, st), s) == Done(v, t)
    ensures DecodeRecord(d, d[i].tag, wireType, st, s) == Done(AfterSingular(d, i, st, v), t)
  {
    hide DecodeValue, UnionReleasable, UnionBase, DecodeRepeated, WellFormed;
    var st2 := MarkSeen(d, i, st);
    assert st2.slots == st.slots;
    assert DecodeStatic(d, i, wireType, st2, s) == Done(AfterSingular(d, i, st, v), t);
    RecordIs(d, i, wireType, s, t, st, st, AfterSingular(d, i, st, v));
  }

  predicate Fits(e: Encoded) { e.Ok? && |e.bytes| < U32 }

  // ----- Array records -----

  lemma {:induction false} ArrayRecord(d: Descriptor, i: nat, wireType: nat, st: State, st1: State, s: seq<byte>,
        t: seq<byte>, r: Filled)
    requires WellFormed(d) && i < |d| && d[i].htype.Repeated? && r.Filled?
    requires EnterFixed(d, i, st) == Some(st1)
    requires var f, slot := d[i], SlotAt(st1.slots, i);
             DecodeRepeated(f, wireType, slot.Items(), ArrayCount(f, slot, st1), s) == Done(r, t)
    ensures DecodeRecord(d, d[i].tag, wireType, st, s) == Done(StoreArray(d[i], i, st1, r), t)
  {
    HomeKind(d, i);
    hide DecodeRepeated, WellFormed;
    assert DecodeStatic(d, i, wireType, st1, s) == Done(StoreArray(d[i], i, st1, r), t);
    assert MarkSeen(d, i, st1) == st1;
    RecordIs(d, i, wireType, s, t, st, st1, StoreArray(d[i], i, st1, r));
  }

  /** The payload of a packed record is read back entry by entry. */
  lemma {:induction false} PackedTrip(f: Field, acc: seq<Value>, k: nat, items: seq<Value>)
    requires WellFormedField(f) && f.ltype.Packable() && k + |items| <= f.arraySize
    requires forall j :: 0 <= j < |items| ==> ValidScalar(f, items[j])
    ensures EncodeItems(f, [], items).Ok?
    ensures DecodePacked(f, EncodeItems(f, [], items).bytes, acc, k) == Filled(Fill(f, acc, k, items), k + |items|)
    decreases |items|
  {
    hide WellFormedField, DecodeScalar, EncodeValue, ValidScalar, NormValue;
    if items != [] {
      var acc', v := PutItem(acc, k, NormValue(f, items[0])), EncodeValue(f, items[0]);
      PackedTrip(f, acc', k + 1, items[1..]);
      var rest := EncodeItems(f, [], items[1..]).bytes;
      PackableScalar(f, items[0], rest);
      assert EncodeItems(f, [], items).bytes == v.bytes + rest;
      hide EncodeItems, PutItem;
    }
  }

  lemma {:induction false} PackableScalar(f: Field, v: Value, t: seq<byte>)
    requires WellFormedField(f) && f.ltype.Packable() && ValidScalar(f, v)
    ensures EncodeValue(f, v).Ok? && EncodeValue(f, v).bytes != []
    ensures DecodeScalar(f, EncodeValue(f, v).bytes + t) == Done(NormValue(f, v), t)
  {
    ScalarRoundTrip(f, v, t);
    hide DecodeScalar, EncodeVarint;
  }

  /** The array slot and counter after `count` entries. */
  function AfterArray(d: Descriptor, i: nat, st: State, items: seq<Value>, count: nat): State
    requires i < |d|
  {
    StoreArray(d[i], i, st, Filled(items, count))
  }

  /** Where the next entry of array i goes. */
  predicate AtEntry(d: Descriptor, i: nat, st: State, acc: seq<Value>, k: nat)
    requires i < |d|
  {
    && i < |st.slots| && st.slots[i] == Arr(acc)
    && if d[i].FixedCount() then st.fixedField == Some(i) && st.fixedSize == k else |acc| == k
  }

  /** Entries from k on can be decoded from one packed record. */
  predicate PackedReady(d: Descriptor, i: nat, st: State, st1: State, acc: seq<Value>, k: nat, items: seq<Value>) {
    && WellFormed(d) && i < |d| && d[i].htype.Repeated? && d[i].ltype.Packable()
    && EnterFixed(d, i, st) == Some(st1) && AtEntry(d, i, st1, acc, k)
    && k + |items| <= d[i].arraySize
    && forall j :: 0 <= j < |items| ==> ValidScalar(d[i], items[j])
  }

  lemma {:induction false} PackedRecord(d: Descriptor, i: nat, st: State, st1: State, acc: seq<Value>, k: nat,
        items: seq<Value>, t: seq<byte>)
    requires PackedReady(d, i, st, st1, acc, k, items)
    requires Fits(EncodeItems(d[i], [], items))
    ensures DecodeLoop(d, st, TagBytes(d[i].tag, WT_STRING) + Prefixed(EncodeItems(d[i], [], items).bytes) + t)
         == DecodeLoop(d, AfterArray(d, i, st1, Fill(d[i], acc, k, items), k + |items|), t)
  {
    var f := d[i];
    assert WellFormedField(f);
    PackedTrip(f, acc, k, items);
    var p := EncodeItems(f, [], items).bytes;
    SubstreamRoundTrip(p, t);
    hide DecodePacked, WellFormed, WellFormedField, EnterFixed, Fill, EncodeItems, Substream, Prefixed;
    var r := Filled(Fill(f, acc, k, items), k + |items|);
    assert DecodeRepeated(f, WT_STRING, acc, k, Prefixed(p) + t) == Done(r, t);
    ArrayRecord(d, i, WT_STRING, st, st1, Prefixed(p) + t, t, r);
    hide DecodeRepeated;
    LoopOne(d, f.tag, WT_STRING, Prefixed(p), t, st, AfterArray(d, i, st1, r.items, r.count)) by {
      assert 1 <= f.tag < 0x2000_0000 by { TagRange(d, i); }
    }
  }

  lemma {:induction false} TagRange(d: Descriptor, i: nat)
    requires WellFormed(d) && i < |d|
    ensures 1 <= d[i].tag < 0x2000_0000 && d[i].atype.Static? && !d[i].ltype.Extension?
  {
    assert WellFormedField(d[i]);
  }

  // ----- Values, arrays, fields and messages, by recursion on the descriptor -----

  lemma {:induction false} ValueTrip(f: Field, old_: Value, v: Value, t: seq<byte>)
    requires WellFormedField(f) && ZeroDefault(f) && ValidValue(f, v) && Fits(EncodeValue(f, v))
    requires f.ltype.Submessage? && !f.htype.Repeated? ==> old_ == DefaultValue(f)
    ensures DecodeValue(f, old_, EncodeValue(f, v).bytes + t) == Done(NormValue(f, v), t)
    decreases f, 0
  {
    if f.ltype.Submessage? {
      var d := f.ptr.fields;
      var p := Encode(d, v.slots).bytes;
      MessageTrip(d, v.slots);
      SubstreamRoundTrip(p, t);
      hide Encode, DecodeNoInit, Defaults, Normalize, Substream, Valid, WellFormed, ZeroDefaults;
    } else {
      ScalarRoundTrip(f, v, t);
      hide DecodeScalar, EncodeValue;
    }
  }

  /** Entry k and those after it can be decoded one record each. */
  predicate ArrayReady(d: Descriptor, i: nat, st: State, st1: State, acc: seq<Value>, k: nat, items: seq<Value>) {
    && WellFormed(d) && i < |d| && ZeroDefault(d[i])
    && d[i].htype.Repeated? && !d[i].ltype.Packable()
    && EnterFixed(d, i, st) == Some(st1) && AtEntry(d, i, st1, acc, k)
    && k + |items| <= d[i].arraySize
    && forall j :: 0 <= j < |items| ==> ValidValue(d[i], items[j])
  }

  lemma {:induction false} ReadyStep(d: Descriptor, i: nat, st: State, st1: State, acc: seq<Value>, k: nat,
        items: seq<Value>, v: Value)
    requires ArrayReady(d, i, st, st1, acc, k, items) && items != []
    ensures var st' := AfterArray(d, i, st1, PutItem(acc, k, v), k + 1);
            ArrayReady(d, i, st', st', PutItem(acc, k, v), k + 1, items[1..])
  {
    hide WellFormed, ZeroDefault, ValidValue;
  }

  /** The record of entry k. */
  lemma {:induction false} EntryTrip(d: Descriptor, i: nat, st: State, st1: State, acc: seq<Value>, k: nat,
        items: seq<Value>, t: seq<byte>)
    requires ArrayReady(d, i, st, st1, acc, k, items) && items != [] && Fits(EncodeValue(d[i], items[0]))
    ensures DecodeLoop(d, st, FieldTag(d[i]) + EncodeValue(d[i], items[0]).bytes + t)
         == DecodeLoop(d, AfterArray(d, i, st1, PutItem(acc, k, NormValue(d[i], items[0])), k + 1), t)
    decreases d[i], 1
  {
    assert WellFormedField(d[i]);
    ValueTrip(d[i], Undefined, items[0], t);
    hide DecodeLoop, DecodeValue, EncodeValue, NormValue, WellFormed, ZeroDefault, ValidValue;
    UnpackedRecord(d, i, st, st1, acc, k, EncodeValue(d[i], items[0]).bytes, NormValue(d[i], items[0]), t);
  }

  /** Entries of an array that cannot be packed, one record each. */
  lemma {:induction false} UnpackedTrip(d: Descriptor, i: nat, st: State, st1: State, acc: seq<Value>, k: nat,
        items: seq<Value>, t: seq<byte>)
    requires ArrayReady(d, i, st, st1, acc, k, items) && items != []
    requires Fits(EncodeItems(d[i], FieldTag(d[i]), items))
    ensures DecodeLoop(d, st, EncodeItems(d[i], FieldTag(d[i]), items).bytes + t)
         == DecodeLoop(d, AfterArray(d, i, st1, Fill(d[i], acc, k, items), k + |items|), t)
    decreases d[i], 2, |items|
  {
    hide DecodeLoop, NormValue, EncodeValue, WellFormed, WellFormedField, FieldTag, EncodeItems, AfterArray, PutItem;
    var f := d[i];
    ItemsUnfold(f, FieldTag(f), items, t);
    var rest := EncodeItems(f, FieldTag(f), items[1..]).bytes;
    EntryTrip(d, i, st, st1, acc, k, items, rest + t);
    ReadyStep(d, i, st, st1, acc, k, items, NormValue(f, items[0]));
    hide ArrayReady;
    var acc' := PutItem(acc, k, NormValue(f, items[0]));
    var st' := AfterArray(d, i, st1, acc', k + 1);
    if |items| > 1 {
      UnpackedTrip(d, i, st', st', acc', k + 1, items[1..], t);
      AfterTwice(d, i, st1, acc', k + 1, Fill(f, acc', k + 1, items[1..]), k + |items|);
    } else {
      assert rest + t == t by { NoItems(f, FieldTag(f), items[1..]); }
    }
  }

  lemma {:induction false} AfterTwice(d: Descriptor, i: nat, st: State, a: seq<Value>, x: nat, b: seq<Value>, y: nat)
    requires i < |d|
    ensures AfterArray(d, i, AfterArray(d, i, st, a, x), b, y) == AfterArray(d, i, st, b, y)
  {
    if i < |st.slots| { assert st.slots[i := Arr(a)][i := Arr(b)] == st.slots[i := Arr(b)]; }
  }

  lemma {:induction false} ItemsUnfold(f: Field, lead: seq<byte>, items: seq<Value>, t: seq<byte>)
    requires items != [] && Fits(EncodeItems(f, lead, items))
    ensures Fits(EncodeValue(f, items[0])) && Fits(EncodeItems(f, lead, items[1..]))
    ensures EncodeItems(f, lead, items).bytes + t
         == lead + EncodeValue(f, items[0]).bytes + (EncodeItems(f, lead, items[1..]).bytes + t)
  {
    hide EncodeValue;
  }

  lemma {:induction false} NoItems(f: Field, lead: seq<byte>, items: seq<Value>)
    requires items == []
    ensures EncodeItems(f, lead, items) == Ok([])
  {
  }

  lemma {:induction false} UnpackedRecord(d: Descriptor, i: nat, st: State, st1: State, acc: seq<Value>, k: nat,
        body: seq<byte>, v: Value, t: seq<byte>)
    requires WellFormed(d) && i < |d| && d[i].htype.Repeated? && !d[i].ltype.Packable()
    requires EnterFixed(d, i, st) == Some(st1) && AtEntry(d, i, st1, acc, k) && k < d[i].arraySize
    requires DecodeValue(d[i], Undefined, body + t) == Done(v, t)
    ensures DecodeLoop(d, st, FieldTag(d[i]) + body + t)
         == DecodeLoop(d, AfterArray(d, i, st1, PutItem(acc, k, v), k + 1), t)
  {
    var f, r := d[i], Filled(PutItem(acc, k, v), k + 1);
    hide DecodeValue, WellFormed, EnterFixed;
    assert DecodeRepeated(f, WireTypeOf(f.ltype), acc, k, body + t) == Done(r, t);
    ArrayRecord(d, i, WireTypeOf(f.ltype), st, st1, body + t, t, r);
    TagRange(d, i);
    hide DecodeRepeated;
    LoopOne(d, f.tag, WireTypeOf(f.ltype), body, t, st, AfterArray(d, i, st1, r.items, r.count));
  }

  // ----- Progress through the fields of a message -----

  /** The field that writes slot j: itself, or the active member of the union. */
  function WriterOf(d: Descriptor, slots: seq<Slot>, j: nat): nat
    requires j < |d|
  {
    var k := FindTag(d, SlotAt(slots, j).Which());
    if d[j].htype.OneOf? && k.Some? then k.value else j
  }

  /** The slots after fields 0..i have been decoded. */
  predicate SlotsReached(d: Descriptor, slots: seq<Slot>, i: nat, current: seq<Slot>) {
    && |current| == |d|
    && forall j :: 0 <= j < |d| ==>
         current[j] == if WriterOf(d, slots, j) < i then NormSlot(d, j, SlotAt(slots, j)) else DefaultSlot(d, j)
  }

  ghost predicate Reached(d: Descriptor, slots: seq<Slot>, i: nat, st: State) {
    && SlotsReached(d, slots, i, st.slots)
    && (forall j :: 0 <= j < i && j < |d| && d[j].htype.Required? && Rank(d, j) < PB_MAX_REQUIRED_FIELDS ==>
          Rank(d, j) in st.seen)
    && FixedComplete(d, st)
    && (st.fixedField.Some? ==> st.fixedField.value < i)
  }

  /** Field i is the only one that decides its slot. */
  lemma {:induction false} OtherWriters(d: Descriptor, i: nat, slots: seq<Slot>, j: nat)
    requires WellFormed(d) && Valid(d, slots) && i < |d| && j < |d|
    requires WriterOf(d, slots, j) == i && j != Home(d, i)
    ensures SharesStorage(d, j) || (d[j].htype.OneOf? && SlotAt(slots, j).Which() == 0)
  {
    if !SharesStorage(d, j) {
      assert ValidSlot(d, j, slots[j]);
      HomeKind(d, i);
    }
  }

  lemma {:induction false} NextSlots(d: Descriptor, i: nat, slots: seq<Slot>, was: seq<Slot>, now: seq<Slot>)
    requires SlotsReached(d, slots, i, was) && |now| == |d|
    requires forall j :: 0 <= j < |d| ==>
               now[j] == if WriterOf(d, slots, j) == i then NormSlot(d, j, SlotAt(slots, j)) else was[j]
    ensures SlotsReached(d, slots, i + 1, now)
  {
    hide NormSlot, DefaultSlot, WriterOf, SlotAt;
  }

  lemma {:induction false} NextReached(d: Descriptor, i: nat, slots: seq<Slot>, st: State, st': State)
    requires i < |d| && Reached(d, slots, i, st)
    requires |st'.slots| == |d|
    requires forall j :: 0 <= j < |d| ==>
               st'.slots[j] == if WriterOf(d, slots, j) == i then NormSlot(d, j, SlotAt(slots, j)) else st.slots[j]
    requires st.seen <= st'.seen
    requires d[i].htype.Required? && Rank(d, i) < PB_MAX_REQUIRED_FIELDS ==> Rank(d, i) in st'.seen
    requires FixedComplete(d, st') && (st'.fixedField.Some? ==> st'.fixedField.value <= i)
    ensures Reached(d, slots, i + 1, st')
  {
    hide SlotsReached, Rank, WriterOf, NormSlot, SlotAt, FixedComplete;
    NextSlots(d, i, slots, st.slots, st'.slots);
  }

  /** A slot that field i leaves alone is already in its final state. */
  lemma {:induction false} SettledSlot(d: Descriptor, i: nat, slots: seq<Slot>, j: nat)
    requires WellFormed(d) && Valid(d, slots) && i < |d| && j < |d|
    requires WriterOf(d, slots, j) == i && j != Home(d, i)
    ensures NormSlot(d, j, SlotAt(slots, j)) == DefaultSlot(d, j)
  {
    OtherWriters(d, i, slots, j);
  }

  lemma {:induction false} AbsentSlot(d: Descriptor, i: nat, slots: seq<Slot>)
    requires WellFormed(d) && ZeroDefaults(d) && Valid(d, slots) && i < |d| && !d[i].htype.Repeated?
    requires var h := Home(d, i); WriterOf(d, slots, h) == i && !Present(d[i], SlotAt(slots, h))
    ensures var h := Home(d, i); NormSlot(d, h, SlotAt(slots, h)) == DefaultSlot(d, h)
  {
    var f, h := d[i], Home(d, i);
    HomeKind(d, i);
    assert ValidSlot(d, h, slots[h]);
    assert WellFormedField(f) && ZeroDefault(f);
    if f.htype.Optional? && f.sizeOffset == 0 { ZeroItemIsDefault(f, slots[h].value); }
    if f.htype.OneOf? { assert slots[h].Which() == 0; }
  }

  lemma {:induction false} AbsentReached(d: Descriptor, i: nat, slots: seq<Slot>, st: State)
    requires WellFormed(d) && ZeroDefaults(d) && Valid(d, slots) && i < |d|
    requires Reached(d, slots, i, st)
    requires !d[i].htype.Repeated? && !Present(d[i], SlotAt(slots, Home(d, i)))
    ensures Reached(d, slots, i + 1, st)
  {
    forall j | 0 <= j < |d| && WriterOf(d, slots, j) == i
      ensures st.slots[j] == NormSlot(d, j, SlotAt(slots, j))
    {
      if j == Home(d, i) { AbsentSlot(d, i, slots); } else { SettledSlot(d, i, slots, j); }
    }
    NextReached(d, i, slots, st, st);
  }

  /** The slot of a field that is about to be decoded for the first time. */
  lemma {:induction false} UntouchedSlot(d: Descriptor, i: nat, slots: seq<Slot>, st: State)
    requires WellFormed(d) && Valid(d, slots) && i < |d| && Reached(d, slots, i, st)
    requires d[i].htype.Repeated? || Present(d[i], SlotAt(slots, Home(d, i)))
    ensures var h := Home(d, i); WriterOf(d, slots, h) == i && st.slots[h] == DefaultSlot(d, h)
  {
    HomeKind(d, i);
    FindUnique(d, i);
    assert WellFormedField(d[i]);
    hide WellFormed, Valid, DefaultSlot, NormSlot, ZeroItem;
  }

  lemma {:induction false} OldValueIsDefault(d: Descriptor, i: nat, slots: seq<Slot>, st: State)
    requires WellFormed(d) && Valid(d, slots) && i < |d| && Reached(d, slots, i, st)
    requires !d[i].htype.Repeated? && Present(d[i], SlotAt(slots, Home(d, i)))
    ensures d[i].htype.OneOf? ==> UnionReleasable(d, SlotAt(st.slots, Home(d, i)).Which(), d[i].tag)
    ensures d[i].ltype.Submessage? ==> OldValue(d, i, st) == DefaultValue(d[i])
  {
    UntouchedSlot(d, i, slots, st);
    HomeKind(d, i);
    TagRange(d, i);
    hide WellFormed, Valid, Reached, Present, WriterOf;
  }

  lemma {:induction false} StoredIsNorm(d: Descriptor, i: nat, slots: seq<Slot>)
    requires WellFormed(d) && Valid(d, slots) && i < |d|
    requires !d[i].htype.Repeated? && Present(d[i], SlotAt(slots, Home(d, i)))
    ensures var h := Home(d, i);
            Stored(d[i], NormValue(d[i], SlotAt(slots, h).Val())) == NormSlot(d, h, SlotAt(slots, h))
  {
    var h := Home(d, i);
    HomeKind(d, i);
    FindUnique(d, i);
    assert WellFormedField(d[i]);
    assert ValidSlot(d, h, slots[h]);
    hide WellFormed, Valid, ZeroItem, ValidValue, NormValue;
  }

  lemma {:induction false} SingularReached(d: Descriptor, i: nat, slots: seq<Slot>, st: State)
    requires WellFormed(d) && Valid(d, slots) && i < |d| && Reached(d, slots, i, st)
    requires !d[i].htype.Repeated? && Present(d[i], SlotAt(slots, Home(d, i)))
    ensures Reached(d, slots, i + 1, AfterSingular(d, i, st, NormValue(d[i], SlotAt(slots, Home(d, i)).Val())))
  {
    var h := Home(d, i);
    var st' := AfterSingular(d, i, st, NormValue(d[i], SlotAt(slots, h).Val()));
    StoredIsNorm(d, i, slots);
    UntouchedSlot(d, i, slots, st);
    hide NormValue, Stored, Present, Valid, WellFormed;
    forall j | 0 <= j < |d| && WriterOf(d, slots, j) == i && j != h
      ensures st.slots[j] == NormSlot(d, j, SlotAt(slots, j))
    {
      SettledSlot(d, i, slots, j);
    }
    hide NormSlot, DefaultSlot;
    NextReached(d, i, slots, st, st');
  }

  lemma {:induction false} SingularTrip(d: Descriptor, i: nat, slots: seq<Slot>, st: State,
        t: seq<byte>) returns (st': State)
    requires WellFormed(d) && ZeroDefaults(d) && Valid(d, slots) && i < |d| && Fits(EncodeField(d, i, slots))
    requires Reached(d, slots, i, st)
    requires !d[i].htype.Repeated? && Present(d[i], SlotAt(slots, Home(d, i)))
    ensures DecodeLoop(d, st, EncodeField(d, i, slots).bytes + t) == DecodeLoop(d, st', t)
    ensures Reached(d, slots, i + 1, st')
    decreases d[i], 3
  {
    var f, slot := d[i], SlotAt(slots, Home(d, i));
    assert WellFormedField(f) && ZeroDefault(f);
    TagRange(d, i);
    FieldContent(d, i, slots);
    OldValueIsDefault(d, i, slots, st);
    SingularReached(d, i, slots, st);
    hide Present, Valid, WellFormed, WellFormedField, ZeroDefault, ZeroDefaults, Reached, EncodeValue, NormValue,
         DecodeValue, DecodeLoop, ValidValue, UnionReleasable, OldValue, DefaultValue, AfterSingular;
    var v := NormValue(f, slot.Val());
    var body := EncodeValue(f, slot.Val()).bytes;
    st' := AfterSingular(d, i, st, v);
    ValueTrip(f, OldValue(d, i, st), slot.Val(), t);
    SingularRecord(d, i, WireTypeOf(f.ltype), st, body + t, t, v);
    LoopOne(d, f.tag, WireTypeOf(f.ltype), body, t, st, st');
  }

  /** The state in which the first entry of array i is decoded. */
  function Entered(d: Descriptor, i: nat, st: State): State
    requires i < |d|
  {
    if d[i].FixedCount() then st.(fixedField := Some(i), fixedSize := 0) else st
  }

  lemma {:induction false} ArrayEntered(d: Descriptor, i: nat, slots: seq<Slot>, st: State)
    requires WellFormed(d) && Valid(d, slots) && i < |d| && Reached(d, slots, i, st) && d[i].htype.Repeated?
    ensures EnterFixed(d, i, st) == Some(Entered(d, i, st))
    ensures AtEntry(d, i, Entered(d, i, st), DefaultSlot(d, i).Items(), 0)
    ensures d[i].FixedCount() ==> |DefaultSlot(d, i).Items()| == d[i].arraySize
  {
    UntouchedSlot(d, i, slots, st);
    HomeKind(d, i);
    hide WellFormed, Valid, SlotsReached, WriterOf;
  }

  lemma {:induction false} ArrayReached(d: Descriptor, i: nat, slots: seq<Slot>, st: State)
    requires WellFormed(d) && Valid(d, slots) && i < |d| && Reached(d, slots, i, st) && d[i].htype.Repeated?
    ensures var items := SlotAt(slots, i).Items();
            Reached(d, slots, i + 1, AfterArray(d, i, Entered(d, i, st), NormItems(d[i], items), |items|))
  {
    var items := SlotAt(slots, i).Items();
    var st' := AfterArray(d, i, Entered(d, i, st), NormItems(d[i], items), |items|);
    HomeKind(d, i);
    UntouchedSlot(d, i, slots, st);
    assert ValidSlot(d, i, slots[i]);
    assert NormSlot(d, i, slots[i]) == Arr(NormItems(d[i], items));
    hide Valid, WellFormed, NormItems;
    forall j | 0 <= j < |d| && WriterOf(d, slots, j) == i && j != i
      ensures st.slots[j] == NormSlot(d, j, SlotAt(slots, j))
    {
      SettledSlot(d, i, slots, j);
    }
    hide NormSlot, DefaultSlot;
    NextReached(d, i, slots, st, st');
  }

  /** An empty array is not on the wire; the counter stays clear. */
  lemma {:induction false} EmptyArrayReached(d: Descriptor, i: nat, slots: seq<Slot>, st: State)
    requires WellFormed(d) && Valid(d, slots) && i < |d| && Reached(d, slots, i, st)
    requires d[i].htype.Repeated? && SlotAt(slots, i).Items() == []
    ensures Reached(d, slots, i + 1, st)
  {
    HomeKind(d, i);
    UntouchedSlot(d, i, slots, st);
    assert ValidSlot(d, i, slots[i]);
    hide Valid, WellFormed;
    assert NormSlot(d, i, slots[i]) == DefaultSlot(d, i);
    forall j | 0 <= j < |d| && WriterOf(d, slots, j) == i && j != i
      ensures st.slots[j] == NormSlot(d, j, SlotAt(slots, j))
    {
      SettledSlot(d, i, slots, j);
    }
    hide NormSlot, DefaultSlot;
    NextReached(d, i, slots, st, st);
  }

  lemma {:induction false} ArrayTrip(d: Descriptor, i: nat, slots: seq<Slot>, st: State,
        t: seq<byte>) returns (st': State)
    requires WellFormed(d) && ZeroDefaults(d) && Valid(d, slots) && i < |d| && Fits(EncodeField(d, i, slots))
    requires Reached(d, slots, i, st)
    requires d[i].htype.Repeated?
    ensures DecodeLoop(d, st, EncodeField(d, i, slots).bytes + t) == DecodeLoop(d, st', t)
    ensures Reached(d, slots, i + 1, st')
    decreases d[i], 3, 1
  {
    var f, items := d[i], SlotAt(slots, i).Items();
    HomeKind(d, i);
    TagRange(d, i);
    if items == [] {
      EmptyArrayReached(d, i, slots, st);
      st' := st;
      hide DecodeLoop, Reached;
      assert EncodeField(d, i, slots).bytes + t == t;
    } else {
      var st1, acc := Entered(d, i, st), DefaultSlot(d, i).Items();
      ArrayEntered(d, i, slots, st);
      ArrayReached(d, i, slots, st);
      ArrayFilled(d, i, slots, acc);
      st' := AfterArray(d, i, st1, NormItems(f, items), |items|);
      ArrayRecords(d, i, slots, st, st1, acc, t);
      hide DecodeLoop, Reached, EncodeField, Fill, NormItems, AfterArray;
    }
  }

  lemma {:induction false} ArrayFilled(d: Descriptor, i: nat, slots: seq<Slot>, acc: seq<Value>)
    requires WellFormed(d) && Valid(d, slots) && i < |d| && d[i].htype.Repeated?
    requires if d[i].FixedCount() then |acc| == d[i].arraySize else acc == []
    ensures var items := SlotAt(slots, i).Items(); Fill(d[i], acc, 0, items) == NormItems(d[i], items)
  {
    var items := SlotAt(slots, i).Items();
    HomeKind(d, i);
    assert ValidSlot(d, i, slots[i]);
    FillAll(d[i], acc, 0, items);
    assert acc[..0] + NormItems(d[i], items) == NormItems(d[i], items);
  }

  lemma {:induction false} ArrayRecords(d: Descriptor, i: nat, slots: seq<Slot>, st: State, st1: State,
        acc: seq<Value>, t: seq<byte>)
    requires WellFormed(d) && ZeroDefaults(d) && Valid(d, slots) && i < |d| && Fits(EncodeField(d, i, slots))
    requires d[i].htype.Repeated? && SlotAt(slots, i).Items() != []
    requires EnterFixed(d, i, st) == Some(st1) && AtEntry(d, i, st1, acc, 0)
    ensures var items := SlotAt(slots, i).Items();
            DecodeLoop(d, st, EncodeField(d, i, slots).bytes + t) ==
            DecodeLoop(d, AfterArray(d, i, st1, Fill(d[i], acc, 0, items), |items|), t)
    decreases d[i], 3, 0
  {
    var items := SlotAt(slots, i).Items();
    ArrayContent(d, i, slots);
    assert ZeroDefault(d[i]);
    assert d[i].ltype.Packable() ==> PackedReady(d, i, st, st1, acc, 0, items);
    assert !d[i].ltype.Packable() ==> ArrayReady(d, i, st, st1, acc, 0, items);
    hide *;
    if d[i].ltype.Packable() {
      PackedArrayTrip(d, i, st, st1, acc, items, t);
    } else {
      UnpackedArrayTrip(d, i, st, st1, acc, items, t);
    }
  }

  lemma {:induction false} PackedArrayTrip(d: Descriptor, i: nat, st: State, st1: State, acc: seq<Value>,
        items: seq<Value>, t: seq<byte>)
    requires i < |d| && d[i].ltype.Packable() && items != [] && Fits(EncodeArray(d[i], items))
    requires PackedReady(d, i, st, st1, acc, 0, items)
    ensures DecodeLoop(d, st, EncodeArray(d[i], items).bytes + t) ==
            DecodeLoop(d, AfterArray(d, i, st1, Fill(d[i], acc, 0, items), |items|), t)
  {
    hide *;
    PackedSize(d[i], items);
    PackedRecord(d, i, st, st1, acc, 0, items, t);
  }

  lemma {:induction false} UnpackedArrayTrip(d: Descriptor, i: nat, st: State, st1: State, acc: seq<Value>,
        items: seq<Value>, t: seq<byte>)
    requires i < |d| && !d[i].ltype.Packable() && items != [] && Fits(EncodeArray(d[i], items))
    requires ArrayReady(d, i, st, st1, acc, 0, items)
    ensures DecodeLoop(d, st, EncodeArray(d[i], items).bytes + t) ==
            DecodeLoop(d, AfterArray(d, i, st1, Fill(d[i], acc, 0, items), |items|), t)
    decreases d[i], 2
  {
    hide *;
    NotPackedSize(d[i], items);
    UnpackedTrip(d, i, st, st1, acc, 0, items, t);
  }

  lemma {:induction false} NotPackedSize(f: Field, items: seq<Value>)
    requires items != [] && !f.ltype.Packable() && Fits(EncodeArray(f, items))
    ensures EncodeArray(f, items) == EncodeItems(f, FieldTag(f), items)
  {
    hide EncodeItems;
  }

  lemma {:induction false} ArrayContent(d: Descriptor, i: nat, slots: seq<Slot>)
    requires WellFormed(d) && Valid(d, slots) && i < |d|
    requires d[i].htype.Repeated? && SlotAt(slots, i).Items() != []
    ensures var items := SlotAt(slots, i).Items();
      && |items| <= d[i].arraySize
      && EncodeField(d, i, slots) == EncodeArray(d[i], items)
      && (forall j :: 0 <= j < |items| ==> ValidValue(d[i], items[j]))
      && (d[i].ltype.Packable() ==> forall j :: 0 <= j < |items| ==> ValidScalar(d[i], items[j]))
  {
    HomeKind(d, i);
    TagRange(d, i);
    assert ValidSlot(d, i, slots[i]);
    hide Valid, WellFormed, EncodeArray, ValidScalar;
  }

  lemma {:induction false} PackedSize(f: Field, items: seq<Value>)
    requires items != [] && f.ltype.Packable() && Fits(EncodeArray(f, items))
    ensures Fits(EncodeItems(f, [], items))
    ensures EncodeArray(f, items).bytes == TagBytes(f.tag, WT_STRING) + Prefixed(EncodeItems(f, [], items).bytes)
  {
    hide EncodeItems, EncodeVarint;
  }

  lemma {:induction false} FieldTrip(d: Descriptor, i: nat, slots: seq<Slot>, st: State,
        t: seq<byte>) returns (st': State)
    requires WellFormed(d) && ZeroDefaults(d) && Valid(d, slots) && i < |d| && Fits(EncodeField(d, i, slots))
    requires Reached(d, slots, i, st)
    ensures DecodeLoop(d, st, EncodeField(d, i, slots).bytes + t) == DecodeLoop(d, st', t)
    ensures Reached(d, slots, i + 1, st')
    decreases d, 0
  {
    var f, h := d[i], Home(d, i);
    var slot := SlotAt(slots, h);
    FieldContent(d, i, slots);
    if f.htype.Repeated? {
      st' := ArrayTrip(d, i, slots, st, t);
    } else if Present(f, slot) {
      st' := SingularTrip(d, i, slots, st, t);
    } else {
      st' := st;
      assert EncodeField(d, i, slots).bytes + t == t by { TagRange(d, i); }
      AbsentReached(d, i, slots, st);
    }
  }

  lemma {:induction false} FieldsTrip(d: Descriptor, i: nat, slots: seq<Slot>, st: State) returns (st': State)
    requires WellFormed(d) && ZeroDefaults(d) && Valid(d, slots) && i <= |d| && Fits(EncodeFrom(d, i, slots))
    requires Reached(d, slots, i, st)
    ensures DecodeLoop(d, st, EncodeFrom(d, i, slots).bytes) == Ran(st', [], false)
    ensures Reached(d, slots, |d|, st')
    decreases d, 1, |d| - i
  {
    hide Reached, Valid, WellFormed, ZeroDefaults, EncodeField, DecodeRecord, DecodeTag;
    if i == |d| {
      st' := st;
    } else {
      var rest := EncodeFrom(d, i + 1, slots).bytes;
      var st1 := FieldTrip(d, i, slots, st, rest);
      st' := FieldsTrip(d, i + 1, slots, st1);
    }
  }

  /** The sub-result that a length-delimited submessage needs: all bytes are consumed. */
  lemma {:induction false} MessageTrip(d: Descriptor, slots: seq<Slot>)
    requires WellFormed(d) && ZeroDefaults(d) && Valid(d, slots) && Fits(Encode(d, slots))
    ensures DecodeNoInit(d, Defaults(d), Encode(d, slots).bytes) == Done(Normalize(d, slots), [])
    ensures !DecodeLoop(d, Start(Defaults(d)), Encode(d, slots).bytes).terminated
    decreases d, 2
  {
    StartReached(d, slots);
    var st := FieldsTrip(d, 0, slots, Start(Defaults(d)));
    EndReached(d, slots, st);
    hide DecodeLoop, Defaults, Reached, Normalize, Accepts;
  }

  lemma {:induction false} StartReached(d: Descriptor, slots: seq<Slot>)
    ensures Reached(d, slots, 0, Start(Defaults(d)))
  {
  }

  lemma {:induction false} EndReached(d: Descriptor, slots: seq<Slot>, st: State)
    requires Reached(d, slots, |d|, st)
    ensures st.slots == Normalize(d, slots) && Accepts(d, st)
  {
    hide NormSlot;
  }
}
