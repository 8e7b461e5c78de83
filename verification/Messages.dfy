/** Whole messages on a stream: framing, canonical contents, and what the wire determines. */
module Messages {
  import opened Basics
  import opened Pb
  import opened Wire
  import opened DecodeSpec
  import opened EncodeSpec
  import opened Records
  import opened RoundTrip
  import Merge

  /** A message that an encoder can be given and its bytes can be given back by. */
  ghost predicate Sendable(d: Descriptor, slots: seq<Slot>) {
    WellFormed(d) && ZeroDefaults(d) && Valid(d, slots) && Fits(Encode(d, slots))
  }

  /** pb_decode of pb_encode gives the message back, with absent fields at their defaults,
      and consumes exactly the bytes that were written. */
  lemma {:induction false} DecodeEncode(d: Descriptor, slots: seq<Slot>)
    requires Sendable(d, slots)
    ensures Decode(d, Encode(d, slots).bytes) == Done(Normalize(d, slots), [])
  {
    MessageTrip(d, slots);
  }

  /** Equal encodings carry equal messages. */
  lemma {:induction false} EncodingDetermines(d: Descriptor, a: seq<Slot>, b: seq<Slot>)
    requires Sendable(d, a) && Sendable(d, b) && Encode(d, a) == Encode(d, b)
    ensures Normalize(d, a) == Normalize(d, b)
  {
    hide Sendable, Encode, Normalize, Decode;
    DecodeEncode(d, a);
    DecodeEncode(d, b);
  }

  // ----- Valid messages are what the encoder expects -----

  lemma {:induction false} ValidValueTyped(f: Field, v: Value)
    requires WellFormedField(f) && ValidValue(f, v)
    ensures TypedValue(f, v)
    decreases f, 0
  {
    if f.ltype.Submessage? {
      hide WellFormed, Valid, WellTyped;
      ValidTyped(f.ptr.fields, v.slots);
    }
  }

  lemma {:induction false} ValidSlotTyped(d: Descriptor, i: nat, slots: seq<Slot>)
    requires WellFormed(d) && Valid(d, slots) && i < |d|
    ensures TypedSlot(d[i], SlotAt(slots, Home(d, i)))
    decreases d, 0
  {
    var f, slot := d[i], SlotAt(slots, Home(d, i));
    HomeKind(d, i);
    assert WellFormedField(f);
    FindUnique(d, i);
    assert ValidSlot(d, Home(d, i), slot);
    hide WellFormed, Valid, WellFormedField, ValidValue, TypedValue;
    if f.htype.Repeated? {
      forall j | 0 <= j < |slot.Items()| ensures TypedValue(f, slot.Items()[j]) { ValidValueTyped(f, slot.items[j]); }
    } else if Present(f, slot) || f.htype.Required? || (f.htype.Optional? && f.sizeOffset == 0) {
      ValidValueTyped(f, slot.Val());
    }
  }

  lemma {:induction false} ValidTyped(d: Descriptor, slots: seq<Slot>)
    requires WellFormed(d) && Valid(d, slots)
    ensures WellTyped(d, slots)
    decreases d, 1
  {
    forall i | 0 <= i < |d| ensures TypedSlot(d[i], SlotAt(slots, Home(d, i))) {
      ValidSlotTyped(d, i, slots);
    }
  }

  // ----- What the encoder refuses -----

  /** Bytes that fit into the array that holds them, and so in the structs inside. */
  ghost predicate EncodableValue(f: Field, v: Value)
    decreases f, 0
  {
    match f.ltype
    case Bytes => v.Blob? && |v.bytes| + 4 <= f.dataSize
    case Submessage => v.Struct? && f.ptr.SubFields? && Encodable(f.ptr.fields, v.slots)
    case _ => true
  }

  /** No array has more entries than it can hold, and every content that is emitted fits. */
  ghost predicate Encodable(d: Descriptor, slots: seq<Slot>)
    decreases d, 1
  {
    forall i :: 0 <= i < |d| ==> EncodableField(d[i], SlotAt(slots, Home(d, i)))
  }

  ghost predicate EncodableField(f: Field, slot: Slot)
    decreases f, 1
  {
    if f.htype.Repeated? then
      |slot.Items()| <= f.arraySize && forall j :: 0 <= j < |slot.Items()| ==> EncodableValue(f, slot.Items()[j])
    else
      Present(f, slot) ==> EncodableValue(f, slot.Val())
  }

  lemma {:induction false} ValueEncodesIff(f: Field, v: Value)
    requires TypedValue(f, v)
    ensures EncodeValue(f, v).Ok? <==> EncodableValue(f, v)
    decreases f, 0
  {
    if f.ltype.Submessage? {
      hide WellTyped, Encodable;
      EncodesIff(f.ptr.fields, v.slots);
    }
    hide EncodeVarint, Prefixed, CString, EncodeFrom, WellTyped, Encodable;
  }

  lemma {:induction false} ItemsEncodeIff(f: Field, lead: seq<byte>, items: seq<Value>)
    requires forall j :: 0 <= j < |items| ==> TypedValue(f, items[j])
    ensures EncodeItems(f, lead, items).Ok? <==> forall j :: 0 <= j < |items| ==> EncodableValue(f, items[j])
    decreases f, 1, |items|
  {
    hide TypedValue, EncodableValue, EncodeValue;
    if items != [] {
      ValueEncodesIff(f, items[0]);
      ItemsEncodeIff(f, lead, items[1..]);
      assert items == [items[0]] + items[1..];
    }
  }

  lemma {:induction false} FieldEncodesIff(d: Descriptor, i: nat, slots: seq<Slot>)
    requires i < |d| && TypedSlot(d[i], SlotAt(slots, Home(d, i)))
    ensures EncodeField(d, i, slots).Ok? <==> EncodableField(d[i], SlotAt(slots, Home(d, i)))
    decreases d, 0
  {
    var f, slot := d[i], SlotAt(slots, Home(d, i));
    if f.htype.Repeated? {
      ItemsEncodeIff(f, [], slot.Items());
      ItemsEncodeIff(f, FieldTag(f), slot.Items());
    } else if Present(f, slot) {
      ValueEncodesIff(f, slot.Val());
    }
    hide TypedValue, EncodableValue, EncodeValue, EncodeItems, FieldTag, TagBytes, Prefixed, Home;
  }

  lemma {:induction false} FieldsEncodeIff(d: Descriptor, i: nat, slots: seq<Slot>)
    requires WellTyped(d, slots) && i <= |d|
    ensures EncodeFrom(d, i, slots).Ok? <==> EncodableFrom(d, i, slots)
    decreases d, 1, |d| - i
  {
    if i < |d| {
      assert TypedSlot(d[i], SlotAt(slots, Home(d, i)));
      hide EncodeField, EncodableField, EncodableFrom, WellTyped, TypedSlot, Home;
      FieldEncodesIff(d, i, slots);
      FieldsEncodeIff(d, i + 1, slots);
      EncodableStep(d, i, slots);
    }
  }

  ghost predicate EncodableFrom(d: Descriptor, i: nat, slots: seq<Slot>) {
    forall k :: i <= k < |d| ==> EncodableField(d[k], SlotAt(slots, Home(d, k)))
  }

  lemma {:induction false} EncodableStep(d: Descriptor, i: nat, slots: seq<Slot>)
    requires i < |d|
    ensures EncodableFrom(d, i, slots) <==>
            EncodableField(d[i], SlotAt(slots, Home(d, i))) && EncodableFrom(d, i + 1, slots)
  {
    hide EncodableField, Home, SlotAt;
  }

  /** Encoding a struct of the right types succeeds exactly when no array that it emits has
      too many entries and no bytes array too many bytes, at any level. */
  lemma {:induction false} EncodesIff(d: Descriptor, slots: seq<Slot>)
    requires WellTyped(d, slots)
    ensures Encode(d, slots).Ok? <==> Encodable(d, slots)
    decreases d, 2
  {
    FieldsEncodeIff(d, 0, slots);
    hide EncodableField, WellTyped, EncodeFrom, Home;
  }

  // ----- Framing -----

  /** Any number of messages laid end to end with pb_encode_delimited. */
  ghost function Frames(d: Descriptor, ms: seq<seq<Slot>>): seq<byte> {
    if ms == [] then []
    else (if Encode(d, ms[0]).Ok? then Prefixed(Encode(d, ms[0]).bytes) else []) + Frames(d, ms[1..])
  }

  /** Reading delimited messages until the input is used up. */
  ghost function DecodeFrames(d: Descriptor, s: seq<byte>): Option<seq<seq<Slot>>>
    decreases |s|
  {
    if s == [] then Some([])
    else
      var p := DecodeDelimited(d, s);
      if p.Fail? || |p.rest| >= |s| then None
      else
        var more := DecodeFrames(d, p.rest);
        if more.None? then None else Some([p.value] + more.value)
  }

  function NormalizeAll(d: Descriptor, ms: seq<seq<Slot>>): (r: seq<seq<Slot>>)
    ensures |r| == |ms|
  {
    if ms == [] then [] else [Normalize(d, ms[0])] + NormalizeAll(d, ms[1..])
  }

  lemma {:induction false} DelimitedRoundTrip(d: Descriptor, slots: seq<Slot>, t: seq<byte>)
    requires Sendable(d, slots)
    ensures DecodeDelimited(d, Prefixed(Encode(d, slots).bytes) + t) == Done(Normalize(d, slots), t)
  {
    var p := Encode(d, slots).bytes;
    assert |p| < U32;
    DecodeEncode(d, slots);
    hide Sendable, Encode, Normalize, Decode, Prefixed, Substream;
    SubstreamRoundTrip(p, t);
  }

  /** Whatever a delimited message makes of its payload, also if it ends early, the stream
      continues right behind the payload. */
  lemma {:induction false} DelimitedIs(d: Descriptor, p: seq<byte>, t: seq<byte>)
    requires |p| < U32
    ensures DecodeDelimited(d, Prefixed(p) + t) ==
            if Decode(d, p).Done? then Done(Decode(d, p).value, t) else Fail
  {
    hide Decode, Prefixed, Substream;
    SubstreamRoundTrip(p, t);
  }

  /** Delimited messages laid end to end decode one by one. */
  lemma {:induction false} FramesRoundTrip(d: Descriptor, ms: seq<seq<Slot>>)
    requires forall i :: 0 <= i < |ms| ==> Sendable(d, ms[i])
    ensures DecodeFrames(d, Frames(d, ms)) == Some(NormalizeAll(d, ms))
    decreases |ms|
  {
    hide Encode, Normalize, DecodeDelimited, EncodeVarint;
    if ms != [] {
      assert Sendable(d, ms[0]);
      var frame := Prefixed(Encode(d, ms[0]).bytes);
      DelimitedRoundTrip(d, ms[0], Frames(d, ms[1..]));
      FramesRoundTrip(d, ms[1..]);
      assert |frame| > 0;
      assert Frames(d, ms) == frame + Frames(d, ms[1..]);
    }
  }

  /** pb_encode_nullterminated: the zero byte ends the message, and what follows it is left
      on the stream. */
  lemma {:induction false} NullTerminatedRoundTrip(d: Descriptor, slots: seq<Slot>, t: seq<byte>)
    requires Sendable(d, slots)
    ensures Decode(d, Encode(d, slots).bytes + ([0] + t)) == Done(Normalize(d, slots), t)
  {
    var bytes, st0 := Encode(d, slots).bytes, Start(Defaults(d));
    MessageTrip(d, slots);
    ZeroTag(t);
    Merge.LoopConcat(d, st0, bytes, [0] + t);
    hide Encode, Normalize, Sendable, Defaults, DecodeTag, Accepts;
    var r := DecodeLoop(d, st0, bytes);
    assert DecodeLoop(d, r.st, [0] + t) == Ran(r.st, t, true);
  }

  lemma {:induction false} ZeroTag(t: seq<byte>)
    ensures DecodeTag([0] + t) == EndOfMessage(t)
  {
    assert ([0] + t)[1..] == t;
  }
}
