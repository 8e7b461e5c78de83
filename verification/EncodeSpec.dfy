/** The meaning of pb_encode.c as functions from struct contents to bytes.  Encoder.dfy
    proves that both the sizing pass and the writing pass compute these functions. */
module EncodeSpec {
  import opened Basics
  import opened Pb
  import opened Wire
  import opened Numbers
  import opened DecodeSpec

  datatype Encoded = Error | Ok(bytes: seq<byte>)

  function Join(a: Encoded, b: Encoded): Encoded {
    if a.Ok? && b.Ok? then Ok(a.bytes + b.bytes) else Error
  }

  // ----- Tags and length prefixes -----

  /** pb_encode_tag */
  function TagBytes(tag: nat, wireType: nat): seq<byte> { EncodeVarint((tag * 8 + wireType) % U64) }

  function WireTypeOf(t: LType): nat {
    match t
    case Bool | Varint | UVarint | SVarint => WT_VARINT
    case Fixed32 => WT_32BIT
    case Fixed64 => WT_64BIT
    case _ => WT_STRING
  }

  /** pb_encode_tag_for_field */
  function FieldTag(f: Field): seq<byte> { TagBytes(f.tag, WireTypeOf(f.ltype)) }

  /** pb_encode_string: the length is cast to a 64-bit varint. */
  function Prefixed(bs: seq<byte>): seq<byte> { EncodeVarint(|bs| % U64) + bs }

  /** pb_encode_submessage */
  function SubmessageBytes(e: Encoded): Encoded { if e.Ok? then Ok(Prefixed(e.bytes)) else Error }

  // ----- Values -----

  /** The characters that strnlen counts in a buffer of max bytes. */
  function CString(b: seq<byte>, max: nat): (r: seq<byte>)
    ensures |r| <= |b| && |r| <= max && r == b[..|r|] && 0 !in r
    ensures |r| < |b| && |r| < max ==> b[|r|] == 0
  {
    if b == [] || max == 0 || b[0] == 0 then [] else [b[0]] + CString(b[1..], max - 1)
  }

  /** The number that an integer field puts in its varint; None for a content that an
      integer of the field's size cannot have. */
  function VarintOfField(f: Field, n: int): Option<nat> {
    match f.ltype
    case Bool => Some(if n != 0 then 1 else 0)
    case Varint => if IntegerSize(f.dataSize) && InSigned(n, f.dataSize) then Some(n % U64) else None
    case UVarint => if IntegerSize(f.dataSize) && InUnsigned(n, f.dataSize) then Some(n) else None
    case SVarint => if IntegerSize(f.dataSize) && InSigned(n, f.dataSize) then Some(ZigZag(n)) else None
    case _ => None
  }

  function EncodeNumber(f: Field, n: int): Encoded {
    match f.ltype
    case Fixed32 => if InUnsigned(n, 4) then Ok(ToLE(n, 4)) else Error
    case Fixed64 => if InUnsigned(n, 8) then Ok(ToLE(n, 8)) else Error
    case _ =>
      var u := VarintOfField(f, n);
      if u.Some? then Ok(EncodeVarint(u.value)) else Error
  }

  function EncodeBlob(f: Field, b: seq<byte>): Encoded {
    match f.ltype
    case Bytes => if |b| + BYTES_HEADER > f.dataSize then Error else Ok(Prefixed(b))
    case String => Ok(Prefixed(CString(b, f.dataSize)))
    case FixedLengthBytes => if |b| == f.dataSize then Ok(Prefixed(b)) else Error
    case _ => Error
  }

  /** The PB_ENCODERS entry.  A content of the wrong kind is an error here; it cannot occur
      in a struct that matches its descriptor. */
  ghost function EncodeValue(f: Field, v: Value): Encoded
    decreases f, 1
  {
    match v
    case Num(n) => EncodeNumber(f, n)
    case Blob(b) => EncodeBlob(f, b)
    case Struct(slots) =>
      if f.ltype.Submessage? && f.ptr.SubFields? then SubmessageBytes(Encode(f.ptr.fields, slots)) else Error
    case Undefined => Error
  }

  /** Array entries one after the other, each one led by `lead`. */
  ghost function EncodeItems(f: Field, lead: seq<byte>, items: seq<Value>): Encoded
    decreases f, 2, |items|
  {
    if items == [] then Ok([])
    else
      var e := EncodeValue(f, items[0]);
      if e.Error? then Error else Join(Ok(lead + e.bytes), EncodeItems(f, lead, items[1..]))
  }

  /** encode_array: packed whenever the type allows it. */
  ghost function EncodeArray(f: Field, items: seq<Value>): Encoded
    decreases f, 3
  {
    if items == [] then Ok([])
    else if |items| > f.arraySize then Error
    else if f.ltype.Packable() then
      var e := EncodeItems(f, [], items);
      if e.Ok? then Ok(TagBytes(f.tag, WT_STRING) + Prefixed(e.bytes)) else Error
    else EncodeItems(f, FieldTag(f), items)
  }

  // ----- Proto3 defaults -----

  /** pb_check_proto3_default_value for the contents of a singular item. */
  ghost predicate ZeroItem(f: Field, v: Value)
    decreases f, 0
  {
    match f.ltype
    case Bytes => v.Blob? && v.bytes == []
    case String => v.Blob? && (v.bytes == [] || v.bytes[0] == 0)
    case FixedLengthBytes => f.dataSize == 0
    case Submessage => !f.ptr.SubFields? || AllDefault(f.ptr.fields, SlotsOf(v))
    case _ => v.Num? && v.n == 0
  }

  ghost predicate AllDefault(d: Descriptor, slots: seq<Slot>)
    decreases d, 1
  {
    forall j :: 0 <= j < |d| ==> DefaultField(d, j, slots)
  }

  /** pb_check_proto3_default_value */
  ghost predicate DefaultField(d: Descriptor, i: nat, slots: seq<Slot>)
    requires i < |d|
    decreases d, 0
  {
    var f, slot := d[i], SlotAt(slots, Home(d, i));
    match f.htype
    case Required => false
    case Repeated => f.sizeOffset != 0 && slot.Items() == []
    case OneOf => slot.Which() == 0
    case Optional => if f.sizeOffset != 0 then !HasField(slot) else ZeroItem(f, slot.Val())
  }

  predicate HasField(slot: Slot) { slot.Opt? && slot.has }

  // ----- Fields and messages -----

  function Tagged(f: Field, e: Encoded): Encoded {
    if e.Ok? then Ok(FieldTag(f) + e.bytes) else Error
  }

  /** Whether encode_basic_field emits a singular field. */
  ghost predicate Present(f: Field, slot: Slot) {
    match f.htype
    case Required => true
    case Optional => if f.sizeOffset != 0 then HasField(slot) else !ZeroItem(f, slot.Val())
    case OneOf => slot.Which() == f.tag
    case Repeated => true
  }

  /** encode_field */
  ghost function EncodeField(d: Descriptor, i: nat, slots: seq<Slot>): Encoded
    requires i < |d|
    decreases d, 1
  {
    var f, slot := d[i], SlotAt(slots, Home(d, i));
    if f.htype.Repeated? then
      if f.FixedCount() && |slot.Items()| != f.arraySize then Error
      else EncodeArray(f, slot.Items())
    else if Present(f, slot) then Tagged(f, EncodeValue(f, slot.Val()))
    else Ok([])
  }

  /** pb_encode, from field i on */
  ghost function EncodeFrom(d: Descriptor, i: nat, slots: seq<Slot>): Encoded
    requires i <= |d|
    decreases d, 2, |d| - i
  {
    if i == |d| then Ok([])
    else Join(EncodeField(d, i, slots), EncodeFrom(d, i + 1, slots))
  }

  /** pb_encode */
  ghost function Encode(d: Descriptor, slots: seq<Slot>): Encoded
    decreases d, 3
  {
    EncodeFrom(d, 0, slots)
  }

  // ----- Structs that match their descriptor -----

  /** The content is one that the C type of the field can hold. */
  predicate TypedValue(f: Field, v: Value)
    decreases f, 0
  {
    match f.ltype
    case Bool => v.Num?
    case Varint | SVarint => v.Num? && IntegerSize(f.dataSize) && InSigned(v.n, f.dataSize)
    case UVarint => v.Num? && IntegerSize(f.dataSize) && InUnsigned(v.n, f.dataSize)
    case Fixed32 => v.Num? && InUnsigned(v.n, 4)
    case Fixed64 => v.Num? && InUnsigned(v.n, 8)
    case Bytes | String => v.Blob?
    case FixedLengthBytes => v.Blob? && |v.bytes| == f.dataSize
    case Submessage => v.Struct? && f.ptr.SubFields? && WellTyped(f.ptr.fields, v.slots)
    case Extension => false
  }

  /** The slot that field i is encoded from. */
  predicate TypedSlot(f: Field, slot: Slot)
    decreases f, 1
  {
    match f.htype
    case Required => TypedValue(f, slot.Val())
    case Optional => (f.sizeOffset != 0 && !HasField(slot)) || TypedValue(f, slot.Val())
    case OneOf => slot.Which() == f.tag ==> TypedValue(f, slot.Val())
    case Repeated =>
      && (f.FixedCount() ==> |slot.Items()| == f.arraySize)
      && forall j :: 0 <= j < |slot.Items()| ==> TypedValue(f, slot.Items()[j])
  }

  predicate WellTyped(d: Descriptor, slots: seq<Slot>)
    decreases d
  {
    forall i :: 0 <= i < |d| ==> TypedSlot(d[i], SlotAt(slots, Home(d, i)))
  }
}
