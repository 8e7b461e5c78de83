/** What initialised memory holds: the default message, field by field and byte by byte. */
module DefaultMemory {
  import opened Basics
  import opened Pb
  import opened Numbers
  import opened FieldIteration
  import opened DefaultStores
  import Records

  // ----- Contents in memory -----

  /** The w bytes from an address are the number n, lowest byte first. */
  predicate HoldsWord(mem: Memory, at: int, n: int, w: nat) {
    forall k :: 0 <= k < w ==> mem(at + k) == n % Bytes256(w) / Bytes256(k) % 256
  }

  predicate HoldsBytes(mem: Memory, at: int, bs: seq<byte>) {
    forall k :: 0 <= k < |bs| ==> mem(at + k) == bs[k]
  }

  /** A pb_bytes_array_t, a string with its NUL, or inline bytes. */
  predicate HoldsBlob(mem: Memory, f: Field, at: int, b: seq<byte>) {
    match f.ltype
    case Bytes => |b| + 4 <= f.dataSize && HoldsWord(mem, at, |b|, 4) && HoldsBytes(mem, at + 4, b)
    case String => |b| < f.dataSize && HoldsBytes(mem, at, b) && mem(at + |b|) == 0
    case _ => |b| == f.dataSize && HoldsBytes(mem, at, b)
  }

  /** The item at an address has the given content; nothing is said where it is undefined. */
  predicate HoldsValue(mem: Memory, f: Field, at: int, v: Value)
    decreases f, 0
  {
    if f.ltype.Submessage? then f.ptr.SubFields? && v.Struct? && HoldsSlots(mem, f.ptr.fields, at, v.slots)
    else
      match v
      case Num(n) => HoldsWord(mem, at, n, f.dataSize)
      case Blob(b) => HoldsBlob(mem, f, at, b)
      case Struct(_) => false
      case Undefined => true
  }

  predicate HoldsItems(mem: Memory, f: Field, at: int, items: seq<Value>)
    decreases f, 1
  {
    forall k :: 0 <= k < |items| ==> items[k].Undefined? || HoldsValue(mem, f, at + f.dataSize * k, items[k])
  }

  /** The member at data, with its companion at size, is the slot. */
  predicate HoldsSlot(mem: Memory, f: Field, data: int, size: int, slot: Slot)
    decreases f, 2
  {
    match f.htype
    case Required => slot.Single? && HoldsValue(mem, f, data, slot.value)
    case Optional =>
      if f.sizeOffset != 0 then
        slot.Opt? && mem(size) == (if slot.has then 1 else 0) && HoldsValue(mem, f, data, slot.value)
      else slot.Single? && HoldsValue(mem, f, data, slot.value)
    case Repeated =>
      && slot.Arr? && HoldsItems(mem, f, data, slot.items)
      && (if f.FixedCount() then |slot.items| == f.arraySize else HoldsWord(mem, size, |slot.items|, SIZEOF_SIZE))
    case OneOf =>
      && slot.Union? && HoldsWord(mem, size, slot.which, SIZEOF_SIZE)
      && (slot.which == f.tag ==> HoldsValue(mem, f, data, slot.value))
  }

  predicate HoldsSlots(mem: Memory, d: Descriptor, base: int, slots: seq<Slot>)
    decreases d, 1
  {
    |slots| == |d| && forall i :: 0 <= i < |d| && !SharesStorage(d, i) ==> HoldsMember(mem, d, i, base, slots[i])
  }

  predicate HoldsMember(mem: Memory, d: Descriptor, i: nat, base: int, slot: Slot)
    requires i < |d|
    decreases d, 0
  {
    HoldsSlot(mem, d[i], base + DataOffset(d, i), base + SizeOffset(d, i), slot)
  }

  // ----- Structs whose defaults have a place -----

  /** The default fits the item. */
  predicate FittingDefault(f: Field) {
    var v := DefaultValue(f);
    match f.ltype
    case Bytes => v.Blob? && |v.bytes| + 4 <= f.dataSize && |v.bytes| < U32
    case String => v.Blob? && |v.bytes| < f.dataSize
    case FixedLengthBytes => v.Blob? && |v.bytes| == f.dataSize
    case _ => v.Num?
  }

  predicate Fitting(d: Descriptor)
    decreases d
  {
    forall i :: 0 <= i < |d| ==> FittingField(d[i])
  }

  /** So it does in every singular field, and the structs inside are laid out in order. */
  predicate FittingField(f: Field)
    decreases f
  {
    && 1 <= f.tag
    && ((f.htype.Required? || f.htype.Optional?) && !f.ltype.Submessage? ==> FittingDefault(f))
    && (f.InitRecurses() ==> Ordered(f.ptr.fields) && Fitting(f.ptr.fields))
  }

  // ----- Single items -----

  lemma {:induction false} StoreHolds(mem: Memory, at: int, bs: seq<byte>)
    ensures HoldsBytes(Store(mem, at, bs), at, bs)
  {
  }

  /** The parts of what memory holds. */
  lemma {:induction false} HoldsParts(mem: Memory, at: int, a: seq<byte>, b: seq<byte>)
    requires HoldsBytes(mem, at, a + b)
    ensures HoldsBytes(mem, at, a) && HoldsBytes(mem, at + |a|, b)
  {
    forall k | 0 <= k < |a| ensures mem(at + k) == a[k] { assert (a + b)[k] == a[k]; }
    forall k | 0 <= k < |b| ensures mem(at + |a| + k) == b[k] { assert (a + b)[|a| + k] == b[k]; }
  }

  lemma {:induction false} StoredWord(mem: Memory, at: int, n: int, w: nat)
    requires HoldsBytes(mem, at, ToLE(n % Bytes256(w), w))
    ensures HoldsWord(mem, at, n, w)
  {
    forall k | 0 <= k < w ensures mem(at + k) == n % Bytes256(w) / Bytes256(k) % 256 {
      Records.WordByte(n % Bytes256(w), w, k);
    }
    hide ToLE, Bytes256;
  }

  lemma {:induction false} ZeroWord(mem: Memory, at: int, w: nat)
    requires HoldsBytes(mem, at, Zeros(w))
    ensures HoldsWord(mem, at, 0, w)
  {
    forall k | 0 <= k < w ensures mem(at + k) == 0 % Bytes256(w) / Bytes256(k) % 256 {
      ZeroDigit(Bytes256(w), Bytes256(k));
      assert Zeros(w)[k] == 0;
    }
    hide Bytes256;
  }

  lemma {:induction false} ZeroDigit(m: nat, p: nat)
    requires m > 0 && p > 0
    ensures 0 % m / p % 256 == 0
  {
    assert 0 % m == 0 && 0 / p == 0;
  }

  lemma {:induction false} FitsWhole(bs: seq<byte>, n: nat)
    requires |bs| <= n
    ensures Fit(bs, n) == bs + Zeros(n - |bs|)
  {
    if |bs| == n { assert bs[..n] == bs && bs + Zeros(0) == bs; }
  }

  /** The stored image of a default is that default. */
  lemma {:induction false} ImageHolds(mem: Memory, f: Field, at: int)
    requires !f.ltype.Submessage? && !f.ptr.SubFields? && FittingDefault(f)
    requires HoldsBytes(mem, at, Image(f))
    ensures HoldsValue(mem, f, at, DefaultValue(f))
  {
    match DefaultValue(f)
    case Num(n) =>
      hide HoldsBytes, Bytes256, ToLE;
      if f.ptr.Initial? {
        StoredWord(mem, at, n, f.dataSize);
      } else {
        ZeroWord(mem, at, f.dataSize);
      }
    case Blob(b) =>
      if f.ptr.Initial? {
        InitialBlob(mem, f, at, b);
      } else {
        ZeroBlob(mem, f, at, b);
      }
    case Struct(_) =>
    case Undefined =>
  }

  lemma {:induction false} ZeroBlob(mem: Memory, f: Field, at: int, b: seq<byte>)
    requires !f.ltype.Submessage? && !f.ptr.Initial? && FittingDefault(f) && DefaultValue(f) == Blob(b)
    requires HoldsBytes(mem, at, Zeros(f.dataSize))
    ensures HoldsBlob(mem, f, at, b)
  {
    if f.ltype.Bytes? {
      assert Zeros(f.dataSize) == Zeros(4) + Zeros(f.dataSize - 4);
      HoldsParts(mem, at, Zeros(4), Zeros(f.dataSize - 4));
      ZeroWord(mem, at, 4);
    } else if f.ltype.String? {
      assert Zeros(f.dataSize)[0] == 0;
    }
    hide HoldsWord;
  }

  lemma {:induction false} InitialBlob(mem: Memory, f: Field, at: int, b: seq<byte>)
    requires !f.ltype.Submessage? && f.ptr == Ptr.Initial(Blob(b)) && FittingDefault(f)
    requires HoldsBytes(mem, at, Image(f))
    ensures HoldsBlob(mem, f, at, b)
  {
    var header := if f.ltype.Bytes? then ToLE(|b|, 4) else [];
    assert |header + b| <= f.dataSize && Image(f) == Fit(header + b, f.dataSize);
    FitsWhole(header + b, f.dataSize);
    hide Image, Fit, ToLE, HoldsWord, HoldsBytes, Bytes256;
    var rest := f.dataSize - |header + b|;
    HoldsParts(mem, at, header + b, Zeros(rest));
    if f.ltype.Bytes? {
      HoldsParts(mem, at, header, b);
      SmallRemainder(|b|);
      StoredWord(mem, at, |b|, 4);
    } else {
      assert header + b == b;
      if f.ltype.String? { FirstByte(mem, at + |b|, Zeros(rest)); }
    }
  }

  lemma {:induction false} FirstByte(mem: Memory, at: int, bs: seq<byte>)
    requires HoldsBytes(mem, at, bs) && bs != []
    ensures mem(at) == bs[0]
  {
    assert mem(at + 0) == bs[0];
  }

  lemma {:induction false} SmallRemainder(n: nat)
    ensures n < U32 ==> n % Bytes256(4) == n
  {
    WordSizes();
  }

  // ----- Memory that agrees -----

  predicate Agree(mem: Memory, mem': Memory, lo: int, n: int) {
    forall a: int :: lo <= a < lo + n ==> mem'(a) == mem(a)
  }

  /** What an item holds depends on its own bytes only; here for defaults. */
  lemma {:induction false} ValueFrame(mem: Memory, mem': Memory, f: Field, at: int)
    requires FieldContained(f) && Agree(mem, mem', at, f.dataSize)
    requires FittingField(f) && (f.htype.Required? || f.htype.Optional?)
    requires HoldsValue(mem, f, at, DefaultValue(f))
    ensures HoldsValue(mem', f, at, DefaultValue(f))
    decreases f, 0
  {
    if f.ltype.Submessage? {
      hide Contained, Ordered, Fitting, Defaults, HoldsSlots, Agree;
      SlotsFrame(mem, mem', f.ptr.fields, at, f.dataSize);
    } else {
      BlobFrame(mem, mem', f, at);
    }
  }

  lemma {:induction false} BlobFrame(mem: Memory, mem': Memory, f: Field, at: int)
    requires Agree(mem, mem', at, f.dataSize) && !f.ltype.Submessage? && FittingDefault(f)
    requires HoldsValue(mem, f, at, DefaultValue(f))
    ensures HoldsValue(mem', f, at, DefaultValue(f))
  {
    hide Bytes256, DefaultValue;
  }

  lemma {:induction false} SlotFrame(mem: Memory, mem': Memory, d: Descriptor, i: nat, data: int, size: int)
    requires i < |d| && FieldContained(d[i]) && FittingField(d[i]) && !SharesStorage(d, i)
    requires forall a :: Owns(d[i], data, size, a) ==> mem'(a) == mem(a)
    requires HoldsSlot(mem, d[i], data, size, DefaultSlot(d, i))
    ensures HoldsSlot(mem', d[i], data, size, DefaultSlot(d, i))
    decreases d[i], 1
  {
    var f := d[i];
    assert Agree(mem, mem', data, Advance(f)) && Agree(mem, mem', size, CompanionSize(f));
    hide Owns, Contained, Bytes256;
    if f.htype.Required? || f.htype.Optional? {
      ValueFrame(mem, mem', f, data);
      hide HoldsValue, DefaultValue;
    }
  }

  lemma {:induction false} SlotsFrame(mem: Memory, mem': Memory, d: Descriptor, base: int, n: nat)
    requires Contained(d, n) && Fitting(d) && Agree(mem, mem', base, n)
    requires HoldsSlots(mem, d, base, Defaults(d))
    ensures HoldsSlots(mem', d, base, Defaults(d))
    decreases d, 1
  {
    forall i | 0 <= i < |d| && !SharesStorage(d, i) ensures HoldsMember(mem', d, i, base, Defaults(d)[i]) {
      hide HoldsMember, Contained, Fitting, SharesStorage, DefaultSlot, Agree;
      assert HoldsMember(mem, d, i, base, Defaults(d)[i]);
      MemberFrame(mem, mem', d, i, base, n);
    }
    hide HoldsMember, DefaultSlot, Contained, Fitting, Agree;
  }

  lemma {:induction false} MemberFrame(mem: Memory, mem': Memory, d: Descriptor, i: nat, base: int, n: nat)
    requires Contained(d, n) && Fitting(d) && Agree(mem, mem', base, n) && i < |d| && !SharesStorage(d, i)
    requires HoldsMember(mem, d, i, base, DefaultSlot(d, i))
    ensures HoldsMember(mem', d, i, base, DefaultSlot(d, i))
    decreases d, 0
  {
    hide *;
    MemberContained(d, n, i);
    MemberFits(d, i);
    OwnedAgree(mem, mem', d, i, base, n);
    MemberIs(mem, d, i, base, DefaultSlot(d, i));
    MemberIs(mem', d, i, base, DefaultSlot(d, i));
    SlotFrame(mem, mem', d, i, base + DataOffset(d, i), base + SizeOffset(d, i));
  }

  lemma {:induction false} MemberIs(mem: Memory, d: Descriptor, i: nat, base: int, slot: Slot)
    requires i < |d|
    ensures HoldsMember(mem, d, i, base, slot) <==>
            HoldsSlot(mem, d[i], base + DataOffset(d, i), base + SizeOffset(d, i), slot)
  {
    hide HoldsSlot, DataOffset, SizeOffset;
  }

  lemma {:induction false} MemberFits(d: Descriptor, i: nat)
    requires Fitting(d) && i < |d|
    ensures FittingField(d[i])
  {
    hide FittingField;
  }

  lemma {:induction false} OwnedAgree(mem: Memory, mem': Memory, d: Descriptor, i: nat, base: int, n: nat)
    requires i < |d| && DataOffset(d, i) + Advance(d[i]) <= n && Agree(mem, mem', base, n)
    requires 0 <= SizeOffset(d, i) && SizeOffset(d, i) + CompanionSize(d[i]) <= n
    ensures forall a :: Owns(d[i], base + DataOffset(d, i), base + SizeOffset(d, i), a) ==> mem'(a) == mem(a)
  {
    hide DataOffset, SizeOffset, Advance, CompanionSize;
  }

  // ----- Initialised memory -----

  /** Initialising a member makes it its default. */
  lemma {:induction false} FieldInMemory(mem: Memory, d: Descriptor, i: nat, data: int, size: int)
    requires i < |d| && FieldContained(d[i]) && FittingField(d[i]) && !SharesStorage(d, i)
    requires size == data + d[i].sizeOffset
    requires CompanionSize(d[i]) > 0 ==> size + CompanionSize(d[i]) <= data
    ensures HoldsSlot(InitField(mem, d[i], data, size), d[i], data, size, DefaultSlot(d, i))
    decreases d[i], 1
  {
    var f, after := d[i], InitField(mem, d[i], data, size);
    if f.htype.Repeated? || f.htype.OneOf? {
      StoreHolds(mem, size, Zeros(SIZEOF_SIZE));
      ZeroWord(after, size, SIZEOF_SIZE);
      hide HoldsValue, InitFrom, Contained;
    } else {
      SingularInMemory(mem, f, data, size);
      hide HoldsValue, InitField, DefaultValue;
    }
  }

  lemma {:induction false} SingularInMemory(mem: Memory, f: Field, data: int, size: int)
    requires FieldContained(f) && FittingField(f) && (f.htype.Required? || f.htype.Optional?)
    requires size == data + f.sizeOffset
    requires CompanionSize(f) > 0 ==> size + CompanionSize(f) <= data
    ensures var after := InitField(mem, f, data, size);
            && HoldsValue(after, f, data, DefaultValue(f))
            && (f.htype.Optional? && f.sizeOffset != 0 ==> after(size) == 0)
    decreases f, 0
  {
    var mem' := if f.htype.Optional? && size != data then Store(mem, size, [0]) else mem;
    assert f.htype.Optional? && size != data ==> mem'(size) == 0;
    if f.ltype.Submessage? {
      hide Contained, Ordered, Fitting, Defaults, HoldsSlots, InitFrom;
      DefaultsInMemory(mem', f.ptr.fields, data, f.dataSize);
      if size < data { MessageBefore(mem', f.ptr.fields, 0, data, f.dataSize, size); }
    } else {
      var after := Store(mem', data, Image(f));
      StoreHolds(mem', data, Image(f));
      ImageHolds(after, f, data);
      hide Image, HoldsValue, DefaultValue, FittingDefault;
    }
  }

  lemma {:induction false} MemberInMemory(mem: Memory, d: Descriptor, i: nat, dest: int, n: nat)
    requires Contained(d, n) && Ordered(d) && Fitting(d) && i < |d| && !SharesStorage(d, i)
    ensures HoldsMember(InitFrom(mem, d, 0, dest), d, i, dest, DefaultSlot(d, i))
    decreases d, 0
  {
    hide *;
    var data, size := dest + DataOffset(d, i), dest + SizeOffset(d, i);
    var after, before := InitFrom(mem, d, 0, dest), InitUpTo(mem, d, i, dest);
    MemberContained(d, n, i);
    OrderedMember(d, i);
    FieldInMemory(before, d, i, data, size);
    OneIs(before, d, i, dest);
    forall a | Owns(d[i], data, size, a) ensures after(a) == InitOne(before, d, i, dest)(a) {
      OwnsIs(d, i, dest, a);
      MembersInitialised(mem, d, i, dest, n, a);
    }
    SlotFrame(InitOne(before, d, i, dest), after, d, i, data, size);
    MemberIs(after, d, i, dest, DefaultSlot(d, i));
  }

  lemma {:induction false} OneIs(mem: Memory, d: Descriptor, i: nat, dest: int)
    requires i < |d|
    ensures InitOne(mem, d, i, dest) == InitField(mem, d[i], dest + DataOffset(d, i), dest + SizeOffset(d, i))
  {
    hide InitField;
  }

  lemma {:induction false} OwnsIs(d: Descriptor, i: nat, dest: int, a: int)
    requires i < |d|
    ensures OwnsByte(d, i, dest, a) <==> Owns(d[i], dest + DataOffset(d, i), dest + SizeOffset(d, i), a)
  {
    hide Owns, DataOffset, SizeOffset;
  }

  lemma {:induction false} OrderedMember(d: Descriptor, i: nat)
    requires Ordered(d) && Fitting(d) && i < |d|
    ensures FittingField(d[i])
    ensures CompanionSize(d[i]) > 0 ==> SizeOffset(d, i) + CompanionSize(d[i]) <= DataOffset(d, i)
  {
    hide FittingField, DataOffset, SizeOffset, CompanionSize, Precedes;
    assert CompanionSize(d[i]) > 0 ==> CompanionFirst(d, i);
  }

  /** After pb_message_set_to_defaults the bytes of the struct are the default message of the
      model, whatever was in memory and whatever short arrays have overrun. */
  lemma {:induction false} DefaultsInMemory(mem: Memory, d: Descriptor, dest: int, n: nat)
    requires Contained(d, n) && Ordered(d) && Fitting(d)
    ensures HoldsSlots(InitFrom(mem, d, 0, dest), d, dest, Defaults(d))
    decreases d, 1
  {
    hide HoldsMember, InitFrom, DefaultSlot, Contained, Ordered, Fitting, SharesStorage;
    forall i | 0 <= i < |d| && !SharesStorage(d, i)
      ensures HoldsMember(InitFrom(mem, d, 0, dest), d, i, dest, Defaults(d)[i])
    {
      MemberInMemory(mem, d, i, dest, n);
    }
  }

  /** For the struct of a short array and a flag behind it: the flag is absent and its
      default stands. */
  lemma {:induction false} FlagInMemory(mem: Memory, dest: int)
    ensures HoldsSlots(InitFrom(mem, ShortThenFlag(), 0, dest), ShortThenFlag(), dest,
                       [Arr([Undefined, Undefined]), Opt(false, Num(1))])
  {
    var d := ShortThenFlag();
    FlagLayout(d);
    FlagFits(d);
    hide *;
    DefaultsInMemory(mem, d, dest, 4);
  }

  lemma {:induction false} FlagFits(d: Descriptor)
    requires d == ShortThenFlag()
    ensures Fitting(d) && Defaults(d) == [Arr([Undefined, Undefined]), Opt(false, Num(1))]
  {
    assert seq(2, _ => Undefined) == [Undefined, Undefined];
    assert DefaultSlot(d, 0) == Arr([Undefined, Undefined]);
  }
}
