/** The data that pb.h defines: wire types, field descriptors, and the C struct a
    descriptor talks about.

    A struct is modelled as one typed slot per field.  The members of a union share
    storage, so only the first member of a union (its "home") owns a slot; FieldIter.dfy
    proves that this is what the offsets computed by the iterator mean. */
module Pb {
  import opened Basics

  const U32: nat := 0x1_0000_0000
  const U64: nat := 0x1_0000_0000_0000_0000

  // The build defines PB_FIELD_32BIT, so pb_size_t is uint32_t.
  const PB_SIZE_MAX: nat := 0xFFFF_FFFF
  // offsetof(pb_bytes_array_t, bytes), the room taken by the size member
  const BYTES_HEADER: nat := 4
  const PB_MAX_REQUIRED_FIELDS: nat := 64

  datatype LType = Bool | Varint | UVarint | SVarint | Fixed32 | Fixed64
                 | Bytes | String | Submessage | Extension | FixedLengthBytes
  {
    // ltype <= PB_LTYPE_LAST_PACKABLE
    predicate Packable() {
      Bool? || Varint? || UVarint? || SVarint? || Fixed32? || Fixed64?
    }
  }

  datatype HType = Required | Optional | Repeated | OneOf
  datatype AType = Static | Callback | Pointer

  datatype Ptr = Null | SubFields(fields: seq<Field>) | Initial(value: Value)

  /** One pb_field_t.  A descriptor is the sequence of its entries up to, and not
      including, the PB_LAST_FIELD terminator, which is what index |d| stands for. */
  datatype Field = Field(tag: nat, ltype: LType, htype: HType, atype: AType,
                         dataOffset: nat, sizeOffset: int,
                         dataSize: nat, arraySize: nat, ptr: Ptr)
  {
    // A repeated field without a _count member
    predicate FixedCount() { htype.Repeated? && sizeOffset == 0 }

    // A struct that is initialised along with the struct that it is a member of
    predicate InitRecurses() { (htype.Required? || htype.Optional?) && ltype.Submessage? && ptr.SubFields? }

    // A struct that is initialised when it is decoded
    predicate InitOnDecode() { (htype.Repeated? || htype.OneOf?) && ltype.Submessage? && ptr.SubFields? }

    function Sub(): seq<Field> { if ptr.SubFields? then ptr.fields else [] }
  }

  type Descriptor = seq<Field>

  /** The content of one data item.  Num holds integers, bools and the bit patterns of
      fixed-width words; Blob holds bytes arrays, inline byte arrays and the characters
      of a string before the terminator its decoder wrote. */
  datatype Value = Num(n: int) | Blob(bytes: seq<byte>) | Struct(slots: seq<Slot>)
                 | Undefined

  datatype Slot =
    | Single(value: Value)                // required, or proto3 singular without has_
    | Opt(has: bool, value: Value)        // optional with a has_ member
    | Arr(items: seq<Value>)              // repeated; the _count member is |items|
    | Union(which: nat, value: Value)     // a whole union and its which_ member
    | Alias                               // a union member that is not the first one
  {
    function Val(): Value { if Single? || Opt? || Union? then this.value else Undefined }
    function Items(): seq<Value> { if Arr? then items else [] }
    function Which(): nat { if Union? then which else 0 }
  }

  // Reading and writing a slot.  Out of range cannot happen on a struct that matches
  // its descriptor.
  function SlotAt(slots: seq<Slot>, i: nat): Slot {
    if i < |slots| then slots[i] else Alias
  }

  function Put(slots: seq<Slot>, i: nat, s: Slot): seq<Slot> {
    if i < |slots| then slots[i := s] else slots
  }

  // Item k of an array; an append when k is the current count.
  function PutItem(items: seq<Value>, k: nat, v: Value): seq<Value> {
    if k < |items| then items[k := v] else items + [v]
  }

  // ----- Finding fields -----

  /** True for a union member that shares its storage with the field before it. */
  predicate SharesStorage(d: Descriptor, i: nat) {
    0 < i < |d| && d[i-1].htype.OneOf? && d[i].htype.OneOf? && d[i].dataOffset == PB_SIZE_MAX
  }

  /** The field whose slot holds field i. */
  function Home(d: Descriptor, i: nat): (h: nat)
    ensures h <= i
    ensures !SharesStorage(d, h)
    ensures forall j :: h < j <= i ==> SharesStorage(d, j)
  {
    if SharesStorage(d, i) then Home(d, i - 1) else i
  }

  lemma {:induction false} HomeKind(d: Descriptor, i: nat)
    requires i < |d|
    ensures d[Home(d, i)].htype.OneOf? <==> d[i].htype.OneOf?
    ensures !SharesStorage(d, i) <==> Home(d, i) == i
    ensures !d[i].htype.OneOf? ==> Home(d, i) == i
  {
    if SharesStorage(d, i) { HomeKind(d, i - 1); }
  }

  /** The number of required fields before field i. */
  function Rank(d: Descriptor, i: nat): (r: nat)
    requires i <= |d|
    ensures r <= i
  {
    if i == 0 then 0 else Rank(d, i - 1) + (if d[i-1].htype.Required? then 1 else 0)
  }

  predicate Matches(f: Field, tag: nat) { f.tag == tag && !f.ltype.Extension? }

  /** The first field at or after i that carries the tag. */
  function FindTag(d: Descriptor, tag: nat, i: nat := 0): (r: Option<nat>)
    requires i <= |d|
    ensures r.Some? ==> i <= r.value < |d| && Matches(d[r.value], tag)
    ensures r.None? ==> forall j :: i <= j < |d| ==> !Matches(d[j], tag)
    decreases |d| - i
  {
    if i == |d| then None
    else if Matches(d[i], tag) then Some(i)
    else FindTag(d, tag, i + 1)
  }

  // ----- Offsets of members -----

  // sizeof(void*)
  const SIZEOF_POINTER: nat := 8

  /** How far one entry moves the data pointer. */
  function Advance(f: Field): nat {
    if f.atype.Static? && f.htype.Repeated? then f.dataSize * f.arraySize
    else if f.atype.Pointer? then SIZEOF_POINTER
    else f.dataSize
  }

  /** The entry at an index; the terminator is all zeros. */
  function EntryOffset(d: Descriptor, i: nat): nat { if i < |d| then d[i].dataOffset else 0 }

  /** Offset of the data of field i from the start of the struct, step by step. */
  function DataOffset(d: Descriptor, i: nat): nat
    requires i < |d| || i == 0
  {
    if i == 0 then EntryOffset(d, 0)
    else if SharesStorage(d, i) then DataOffset(d, i - 1)
    else DataOffset(d, i - 1) + Advance(d[i-1]) + d[i].dataOffset
  }

  // sizeof(pb_size_t)
  const SIZEOF_SIZE: nat := 4

  /** Initialisation clears a count also where a fixed-count array has none, at the start of
      the array itself.  Counting from the start of the struct, or of the member, none of
      these stores reaches beyond n bytes. */
  predicate InitWithin(d: Descriptor, n: int)
    decreases d
  {
    forall i :: 0 <= i < |d| ==> FieldInitWithin(d[i], n - DataOffset(d, i))
  }

  predicate FieldInitWithin(f: Field, n: int)
    decreases f
  {
    && (f.FixedCount() ==> SIZEOF_SIZE <= n)
    && (f.InitRecurses() ==> InitWithin(f.ptr.fields, n))
  }

  // ----- Well-formed descriptors -----

  predicate UniqueTags(d: Descriptor) {
    forall i, j :: 0 <= i < j < |d| ==> d[i].tag != d[j].tag
  }

  predicate IntegerSize(n: nat) { n == 1 || n == 2 || n == 4 || n == 8 }

  // ----- Array entries in memory -----

  /** The offset of entry k of an array: a product of two pb_size_t numbers. */
  function ItemOffset(f: Field, k: nat): nat { f.dataSize * k % U32 }

  /** The entry that this offset is the place of. */
  function ItemIndex(f: Field, k: nat): nat {
    if f.dataSize == 0 then k else ItemOffset(f, k) / f.dataSize
  }

  /** No offset of an entry wraps around. */
  predicate ItemsInReach(f: Field) {
    f.arraySize > 0 ==> f.dataSize * (f.arraySize - 1) < U32
  }

  lemma {:induction false} ProductAtMost(a: nat, x: nat, y: nat)
    requires x <= y
    ensures a * x <= a * y
  {
  }

  /** Every entry is stored in its own place exactly when the offset of the last one does
      not wrap around. */
  lemma {:induction false} ItemsInPlaceIff(f: Field)
    ensures (forall k :: 0 <= k < f.arraySize ==> ItemOffset(f, k) == f.dataSize * k) <==> ItemsInReach(f)
  {
    if f.arraySize > 0 {
      var last := f.arraySize - 1;
      if ItemsInReach(f) {
        forall k | 0 <= k < f.arraySize ensures ItemOffset(f, k) == f.dataSize * k {
          ProductAtMost(f.dataSize, k, last);
        }
      } else {
        assert ItemOffset(f, last) != f.dataSize * last;
      }
    }
  }

  lemma {:induction false} ItemIndexIs(f: Field, k: nat)
    requires ItemsInReach(f) && k < f.arraySize
    ensures ItemIndex(f, k) == k
  {
    ItemsInPlaceIff(f);
    if f.dataSize > 0 { QuotientOfProduct(f.dataSize, k); }
  }

  lemma {:induction false} QuotientOfProduct(a: int, k: int)
    requires a > 0
    ensures a * k / a == k
  {
    var x := k - a * k / a;
    assert 0 <= a * x < a;
    assert x >= 1 ==> a * x >= a;
    assert x <= -1 ==> a * x <= -a;
  }

  /** What the field macros of pb.h and the generator guarantee about one entry, for
      statically allocated fields; that its array, if it is one, has entries that can be told
      apart by their offsets; and that initialising an array entry or a union member does not
      reach beyond it.  DefaultStores.dfy shows when that is so, and that elsewhere a member
      that is overrun is initialised afterwards. */
  predicate WellFormedField(f: Field)
    decreases f
  {
    && 1 <= f.tag < 0x2000_0000
    && f.atype.Static?
    && !f.ltype.Extension?
    && f.dataSize <= PB_SIZE_MAX && f.arraySize <= PB_SIZE_MAX
    && (f.ltype.Varint? || f.ltype.UVarint? || f.ltype.SVarint? ==> IntegerSize(f.dataSize))
    && (f.ltype.Submessage? ==> f.ptr.SubFields? && WellFormed(f.ptr.fields))
    && (f.htype.OneOf? ==> f.sizeOffset != 0)
    && (f.htype.Repeated? ==> ItemsInReach(f))
    && (f.InitOnDecode() ==> InitWithin(f.ptr.fields, f.dataSize))
  }

  predicate WellFormed(d: Descriptor)
    decreases d
  {
    && UniqueTags(d)
    && forall i :: 0 <= i < |d| ==> WellFormedField(d[i])
  }

  lemma {:induction false} FindUnique(d: Descriptor, i: nat)
    requires WellFormed(d) && i < |d|
    ensures FindTag(d, d[i].tag) == Some(i)
  {
  }

  // ----- Default values -----

  function Zeros(n: nat): (bs: seq<byte>)
    ensures |bs| == n
  {
    seq(n, _ => 0)
  }

  /** memset(0) of one item. */
  function ZeroValue(f: Field): Value {
    match f.ltype
    case Bytes | String => Blob([])
    case FixedLengthBytes => Blob(Zeros(f.dataSize))
    case _ => Num(0)
  }

  function DefaultValue(f: Field): Value
    decreases f, 0
  {
    if f.ltype.Submessage? then
      (if f.ptr.SubFields? then Struct(Defaults(f.ptr.fields)) else Undefined)
    else if f.ptr.Initial? then f.ptr.value
    else ZeroValue(f)
  }

  /** pb_field_set_to_default.  A fixed-count array has no counter to clear, and its
      entries are not initialised. */
  function DefaultSlot(d: Descriptor, i: nat): Slot
    requires i < |d|
    decreases d, 1
  {
    var f := d[i];
    if SharesStorage(d, i) then Alias
    else
      match f.htype
      case Required => Single(DefaultValue(f))
      case Optional => if f.sizeOffset != 0 then Opt(false, DefaultValue(f)) else Single(DefaultValue(f))
      case Repeated => if f.FixedCount() then Arr(seq(f.arraySize, _ => Undefined)) else Arr([])
      case OneOf => Union(0, Undefined)
  }

  /** pb_message_set_to_defaults */
  function Defaults(d: Descriptor): (slots: seq<Slot>)
    ensures |slots| == |d|
    decreases d, 2
  {
    seq(|d|, i requires 0 <= i < |d| => DefaultSlot(d, i))
  }
}
