/** The packed branch of decode_pointer_field: an array that grows while it is decoded. */
module PointerArray {
  import opened Basics
  import opened Pb
  import opened Wire
  import Spec = DecodeSpec
  import opened IStreams
  import opened Decoder

  // size_t is 64 bits wide
  const SIZE_MAX: nat := 0xFFFF_FFFF_FFFF_FFFF

  /** A repeated pointer field: the pointer in the struct and its _count member.  Memory
      that no entry has been stored to is Undefined. */
  class PointerField {
    var data: array?<Value>
    var size: nat

    constructor ()
      ensures data == null && size == 0
    {
      data, size := null, 0;
    }

    ghost predicate Valid()
      reads this, data
    {
      && size <= PB_SIZE_MAX
      && (if data == null then size == 0 else size <= data.Length)
      && (data != null ==> forall j :: size <= j < data.Length ==> data[j] == Undefined)
    }

    ghost function Contents(): seq<Value>
      requires Valid()
      reads this, data
    {
      if data == null then [] else data[..size]
    }
  }

  /** The overflow test of allocate_field: sizes that are both below half the word cannot
      overflow, otherwise a division decides. */
  method SizeTooLarge(dataSize: nat, arraySize: nat) returns (tooLarge: bool)
    requires 0 < dataSize <= SIZE_MAX && 0 < arraySize <= SIZE_MAX
    ensures tooLarge <==> dataSize * arraySize > SIZE_MAX
  {
    var checkLimit := 0x1_0000_0000;
    tooLarge := false;
    if dataSize >= checkLimit || arraySize >= checkLimit {
      QuotientTest(dataSize, arraySize);
      if SIZE_MAX / arraySize < dataSize {
        tooLarge := true;
      }
    } else {
      SmallProduct(dataSize, arraySize);
    }
  }

  lemma {:induction false} QuotientTest(a: nat, b: nat)
    requires b > 0
    ensures SIZE_MAX / b < a <==> a * b > SIZE_MAX
  {
    var q := SIZE_MAX / b;
    assert SIZE_MAX == b * q + SIZE_MAX % b;
    MulMonotone(b, a, q);
    MulMonotone(b, q + 1, a);
  }

  lemma {:induction false} SmallProduct(a: nat, b: nat)
    requires a < 0x1_0000_0000 && b < 0x1_0000_0000
    ensures a * b <= SIZE_MAX
  {
    MulMonotone(a, b, 0xFFFF_FFFF);
  }

  /** realloc may fail; otherwise it keeps the common prefix. */
  method Realloc(old_: array?<Value>, count: nat) returns (p: array?<Value>)
    ensures p != null ==> fresh(p) && p.Length == count
    ensures p != null ==> forall j :: 0 <= j < count ==>
                                        p[j] == if old_ != null && j < old_.Length then old_[j] else Undefined
  {
    if * {
      return null;
    }
    p := new Value[count](_ => Undefined);
    if old_ != null {
      var i := 0;
      while i < count && i < old_.Length
        invariant 0 <= i <= count && i <= old_.Length
        invariant forall j :: 0 <= j < count ==> p[j] == if j < i then old_[j] else Undefined
      {
        p[i] := old_[i];
        i := i + 1;
      }
    }
  }

  /** allocate_field.  `refused` tells a refused size from a failure of realloc. */
  method AllocateField(field: PointerField, dataSize: nat, arraySize: nat) returns (ok: bool, refused: bool)
    requires field.Valid() && dataSize <= SIZE_MAX && arraySize <= SIZE_MAX
    modifies field
    ensures refused <==> dataSize == 0 || arraySize == 0 || dataSize * arraySize > SIZE_MAX
    ensures refused ==> !ok
    ensures !ok ==> field.data == old(field.data)
    ensures ok ==> field.data != null && fresh(field.data) && field.data.Length == arraySize
    ensures ok ==> forall j :: 0 <= j < arraySize && j < old(field.size) ==> field.data[j] == old(field.Contents())[j]
    ensures field.size == old(field.size)
    ensures !ok || field.size <= arraySize ==> field.Valid() && field.Contents() == old(field.Contents())
  {
    refused := false;
    if dataSize == 0 || arraySize == 0 {
      return false, true;
    }
    refused := SizeTooLarge(dataSize, arraySize);
    if refused {
      return false, refused;
    }
    var p := Realloc(field.data, arraySize);
    if p == null {
      return false, refused;
    }
    ghost var was := field.Contents();
    field.data := p;
    ok := true;
    if field.size <= arraySize { assert p[..field.size] == was; }
  }

  /** The field as the packed decoder sees it, bounded only by the counter's range. */
  function Entry(f: Field): Field { f.(arraySize := PB_SIZE_MAX) }

  /** The field as its scalar decoder sees it. */
  function Item(f: Field): Field { f.(atype := Static, htype := Required) }

  /** The growth step: a guess at the number of remaining entries, or one more. */
  function Grown(capacity: nat, bytesLeft: nat, dataSize: nat): nat
    requires dataSize > 0 && bytesLeft > 0
  {
    var remain := (bytesLeft - 1) / dataSize + 1;
    if remain < PB_SIZE_MAX - capacity then capacity + remain else capacity + 1
  }

  lemma {:induction false} GrowthBounds(capacity: nat, bytesLeft: nat, dataSize: nat)
    requires dataSize > 0 && bytesLeft > 0 && capacity < PB_SIZE_MAX
    ensures capacity < Grown(capacity, bytesLeft, dataSize) <= PB_SIZE_MAX
    ensures var more := Grown(capacity, bytesLeft, dataSize) - capacity;
            (dataSize * more >= bytesLeft || more == 1) && dataSize * (more - 1) < bytesLeft
  {
    var remain := (bytesLeft - 1) / dataSize + 1;
    assert dataSize * (remain - 1) <= bytesLeft - 1 < dataSize * remain;
  }

  /** Room for one more entry, when every allocated entry is in use. */
  method EnsureRoom(field: PointerField, f: Field, bytesLeft: nat, capacity: nat) returns (ok: bool, capacity': nat)
    requires field.Valid() && 0 < f.dataSize <= 8 && bytesLeft > 0 && field.size < PB_SIZE_MAX
    requires field.size <= capacity <= PB_SIZE_MAX
    requires capacity > field.size ==> field.data != null && field.data.Length == capacity
    modifies field
    ensures field.Valid() && field.size == old(field.size) && field.Contents() == old(field.Contents())
    ensures field.size <= capacity' <= PB_SIZE_MAX
    ensures ok ==> field.size < capacity' && field.data != null && field.data.Length == capacity'
    ensures field.data == old(field.data) || fresh(field.data)
    ensures ok && capacity == field.size ==> fresh(field.data)
  {
    ok, capacity' := true, capacity;
    if field.size + 1 > capacity {
      GrowthBounds(capacity, bytesLeft, f.dataSize);
      capacity' := Grown(capacity, bytesLeft, f.dataSize);
      SmallAllocation(f.dataSize, capacity');
      var refused;
      ok, refused := AllocateField(field, f.dataSize, capacity');
    }
  }

  lemma {:induction false} SmallAllocation(a: nat, b: nat)
    requires a <= 8 && b <= PB_SIZE_MAX
    ensures a * b <= SIZE_MAX
  {
    MulMonotone(b, a, 8);
  }

  // ----- Where the entries go -----

  /** How many entries have an offset of their own below 2^32. */
  function Places(f: Field): (n: nat)
    requires IntegerSize(f.dataSize)
    ensures n > 0
  {
    U32 / f.dataSize
  }

  lemma {:induction false} WrappedIndex(f: Field, k: nat)
    requires IntegerSize(f.dataSize)
    ensures ItemIndex(f, k) == k % Places(f)
  {
    var d, n := f.dataSize, Places(f);
    assert d * n == U32;
    hide Places;
    var q, r := k / n, k % n;
    RemainderAtMost(k, n);
    assert k == q * n + r;
    WrapProduct(d, n, q, r);
    DivModUnique(d * k, U32, q, d * r);
    QuotientOfProduct(d, r);
  }

  lemma {:induction false} WrapProduct(d: nat, n: nat, q: nat, r: nat)
    requires r < n
    ensures d * (q * n + r) == q * (d * n) + d * r
    ensures d > 0 ==> 0 <= d * r < d * n
  {
    if d > 0 { MulMonotone(d, r + 1, n); }
  }

  /** One more entry in use, with v stored where its offset, modulo n places, says. */
  function Store(cells: seq<Value>, v: Value, n: nat): (r: seq<Value>)
    requires n > 0
    ensures |r| == |cells| + 1
  {
    (cells + [Undefined])[|cells| % n := v]
  }

  function Overlay(cells: seq<Value>, vs: seq<Value>, n: nat): (r: seq<Value>)
    requires n > 0
    ensures |r| == |cells| + |vs|
  {
    if vs == [] then cells else Store(Overlay(cells, vs[..|vs| - 1], n), vs[|vs| - 1], n)
  }

  lemma {:induction false} OverlaySnoc(cells: seq<Value>, vs: seq<Value>, v: Value, n: nat)
    requires n > 0
    ensures Overlay(cells, vs + [v], n) == Store(Overlay(cells, vs, n), v, n)
  {
    assert (vs + [v])[..|vs|] == vs;
  }

  lemma {:induction false} StoreShort(cells: seq<Value>, v: Value, n: nat)
    requires |cells| < n
    ensures Store(cells, v, n) == cells + [v]
  {
    RemainderAtMost(|cells|, n);
  }

  lemma {:induction false} OverlayShort(cells: seq<Value>, vs: seq<Value>, n: nat)
    requires n > 0 && |cells| + |vs| <= n
    ensures Overlay(cells, vs, n) == cells + vs
  {
    if vs == [] {
      assert cells + vs == cells;
    } else {
      var rest, v := vs[..|vs| - 1], vs[|vs| - 1];
      OverlayShort(cells, rest, n);
      StoreShort(cells + rest, v, n);
      hide Store;
      assert cells + rest + [v] == cells + vs by { assert rest + [v] == vs; }
    }
  }

  /** The last entry is where its offset says; its own place, if that is another one, is
      left as it was allocated. */
  lemma {:induction false} LastPlace(cells: seq<Value>, vs: seq<Value>, n: nat)
    requires n > 0 && vs != []
    ensures var last := |cells| + |vs| - 1;
      && last % n <= last
      && Overlay(cells, vs, n)[last % n] == vs[|vs| - 1]
      && (last >= n ==> Overlay(cells, vs, n)[last] == Undefined)
  {
    var before := Overlay(cells, vs[..|vs| - 1], n);
    assert Overlay(cells, vs, n) == Store(before, vs[|vs| - 1], n);
    hide Overlay, Store;
    StorePlaces(before, vs[|vs| - 1], n);
  }

  lemma {:induction false} StorePlaces(cells: seq<Value>, v: Value, n: nat)
    requires n > 0
    ensures |cells| % n <= |cells| && Store(cells, v, n)[|cells| % n] == v
    ensures |cells| >= n ==> Store(cells, v, n)[|cells|] == Undefined
  {
    RemainderAtMost(|cells|, n);
  }

  lemma {:induction false} RemainderAtMost(k: nat, n: nat)
    requires n > 0
    ensures k % n <= k && k % n < n && (k < n ==> k % n == k)
  {
  }

  lemma {:induction false} OverlayIff(cells: seq<Value>, vs: seq<Value>, n: nat)
    requires n > 0 && vs != [] && Undefined !in vs
    ensures Overlay(cells, vs, n) == cells + vs <==> |cells| + |vs| <= n
  {
    if |cells| + |vs| <= n {
      OverlayShort(cells, vs, n);
    } else {
      LastPlace(cells, vs, n);
      hide Overlay;
      assert (cells + vs)[|cells| + |vs| - 1] == vs[|vs| - 1];
    }
  }

  // ----- The packed loop -----

  lemma {:induction false} SameScalar(f: Field, s: seq<byte>)
    ensures Spec.DecodeScalar(Item(f), s) == Spec.DecodeScalar(Entry(f), s)
    ensures var p := Spec.DecodeScalar(Entry(f), s); p.Done? ==> p.value != Undefined
  {
    hide DecodeVarint, DecodeVarint32, Spec.TakeBytes;
  }

  /** The decoded values follow those that were there, and each of them is defined. */
  lemma {:induction false} PackedAppends(f: Field, s: seq<byte>, items: seq<Value>)
    ensures var r := Spec.DecodePacked(Entry(f), s, items, |items|);
            r.Filled? ==> items <= r.items && |r.items| == r.count && Undefined !in r.items[|items|..]
    decreases |s|
  {
    if s != [] && |items| < PB_SIZE_MAX {
      SameScalar(f, s);
      hide Spec.DecodeScalar;
      var p := Spec.DecodeScalar(Entry(f), s);
      if p.Done? {
        PackedAppends(f, p.rest, items + [p.value]);
        var r := Spec.DecodePacked(Entry(f), p.rest, items + [p.value], |items| + 1);
        if r.Filled? { assert r.items[|items|..] == [p.value] + r.items[|items| + 1..]; }
      }
    }
  }

  /** The abstract progress of the loop: what has been decoded so far, and what is left. */
  ghost predicate Progress(f: Field, s0: seq<byte>, items0: seq<Value>, s: seq<byte>, items: seq<Value>) {
    && items0 <= items
    && Spec.DecodePacked(Entry(f), s0, items0, |items0|) == Spec.DecodePacked(Entry(f), s, items, |items|)
  }

  lemma {:induction false} ProgressStep(f: Field, s0: seq<byte>, items0: seq<Value>, s: seq<byte>, items: seq<Value>)
    requires Progress(f, s0, items0, s, items) && s != []
    ensures var p := Spec.DecodeScalar(Item(f), s);
            if p.Done? && |items| < PB_SIZE_MAX then Progress(f, s0, items0, p.rest, items + [p.value])
            else Spec.DecodePacked(Entry(f), s0, items0, |items0|).Overflow?
  {
    SameScalar(f, s);
    hide Spec.DecodeScalar;
  }

  /** The array after the entries `all` were to follow items0. */
  ghost predicate Holds(field: PointerField, f: Field, items0: seq<Value>, all: seq<Value>)
    requires IntegerSize(f.dataSize) && field.Valid()
    reads field, field.data
  {
    && items0 <= all && |all| == field.size
    && field.Contents() == Overlay(items0, all[|items0|..], Places(f))
  }

  /** pItem = data + data_size * *size, the store through it, and the new count. */
  method StoreItem(field: PointerField, f: Field, item: Value, ghost items0: seq<Value>, ghost all: seq<Value>)
    requires IntegerSize(f.dataSize) && field.Valid() && field.data != null
    requires field.size < field.data.Length && field.size < PB_SIZE_MAX && Holds(field, f, items0, all)
    modifies field, field.data
    ensures field.data == old(field.data) && field.size == old(field.size) + 1
    ensures field.Valid() && Holds(field, f, items0, all + [item])
  {
    hide Overlay, ItemIndex, Places;
    ghost var was := field.Contents();
    var index := ItemIndex(f, field.size);
    WrappedIndex(f, field.size);
    RemainderAtMost(field.size, Places(f));
    OverlaySnoc(items0, all[|items0|..], item, Places(f));
    assert (all + [item])[|items0|..] == all[|items0|..] + [item];
    field.data[index] := item;
    field.size := field.size + 1;
    assert field.Contents() == (was + [Undefined])[index := item];
  }

  /** A value that was refused may have been stored all the same. */
  method SpoilItem(field: PointerField, f: Field)
    requires IntegerSize(f.dataSize) && field.Valid() && field.data != null && field.size < field.data.Length
    modifies field.data
    ensures field.Valid() && |field.Contents()| == |old(field.Contents())|
    ensures field.size < Places(f) ==> field.Contents() == old(field.Contents())
  {
    hide ItemIndex, Places;
    WrappedIndex(f, field.size);
    RemainderAtMost(field.size, Places(f));
    ghost var was := field.Contents();
    field.data[ItemIndex(f, field.size)] := Undefined;
    assert field.size < Places(f) ==> field.Contents() == was;
  }

  /** The allocation has room for `capacity` entries, once there has been one. */
  ghost predicate Allocated(field: PointerField, capacity: nat)
    requires field.Valid()
    reads field, field.data
  {
    && field.size <= capacity <= PB_SIZE_MAX
    && (capacity > field.size ==> field.data != null && field.data.Length == capacity)
  }

  /** One turn of the packed loop. */
  method DecodeEntry(sub: IStream, f: Field, field: PointerField, allocatedSize: nat,
                     ghost items0: seq<Value>, ghost all: seq<Value>)
    returns (status: bool, allocFailed: bool, allocatedSize': nat, ghost item: Value)
    requires sub.Valid() && sub.bytesLeft > 0 && field.Valid() && field.size < PB_SIZE_MAX
    requires f.ltype.Packable() && IntegerSize(f.dataSize) && WellFormedField(Item(f))
    requires Allocated(field, allocatedSize) && Holds(field, f, items0, all)
    modifies sub, field, if allocatedSize > field.size then {field.data} else {}
    ensures sub.Valid() && field.Valid() && field.size <= allocatedSize' <= PB_SIZE_MAX
    ensures !allocFailed ==> Allocated(field, allocatedSize')
    ensures field.data == old(field.data) || fresh(field.data)
    ensures var p := Spec.DecodeScalar(Item(f), old(sub.Left()));
      && (status ==> p == Done(item, sub.Left()) && sub.bytesLeft < old(sub.bytesLeft)
                     && Holds(field, f, items0, all + [item]))
      && (!status && !allocFailed ==> p.Fail?)
    ensures status && allocatedSize == old(field.size) ==> fresh(field.data)
    ensures status ==> !allocFailed
    ensures field.size < Places(f) ==> items0 <= field.Contents()
  {
    hide WellFormedField, Spec.DecodeScalar, Holds, Places;
    HoldsMeans(field, f, items0, all);
    HoldsPrefix(field, f, items0, all);
    allocFailed, item := false, Undefined;
    status, allocatedSize' := EnsureRoom(field, f, sub.bytesLeft, allocatedSize);
    if !status {
      allocFailed := true;
      return;
    }
    HoldsIf(field, f, items0, all);
    var v;
    status, v := DecScalar(sub, Item(f));
    item := v;
    if !status {
      SpoilItem(field, f);
      return;
    }
    StoreItem(field, f, v, items0, all);
    HoldsPrefix(field, f, items0, all + [v]);
  }

  /** The packed loop.  Without a failed realloc it takes the entries that a static array
      with room for PB_SIZE_MAX of them would, and stores each at its 32-bit offset. */
  method DecodePackedPointer(sub: IStream, f: Field, field: PointerField)
    returns (status: bool, allocFailed: bool, ghost capacity: nat)
    requires sub.Valid() && field.Valid() && f.ltype.Packable() && IntegerSize(f.dataSize) && WellFormedField(Item(f))
    modifies sub, field, field.data
    ensures sub.Valid() && field.Valid() && field.size <= capacity <= PB_SIZE_MAX
    ensures !allocFailed ==> Allocated(field, capacity)
    ensures var r := Spec.DecodePacked(Entry(f), old(sub.Left()), old(field.Contents()), old(field.size));
      && (status ==> r.Filled? && sub.Left() == [] && Holds(field, f, old(field.Contents()), r.items))
      && (!status && !allocFailed ==> r.Overflow?)
    ensures field.size < Places(f) ==> old(field.Contents()) <= field.Contents()
  {
    hide WellFormedField, Spec.DecodeScalar, Spec.DecodePacked, Progress, Holds, Places;
    ghost var s0, items0 := sub.Left(), field.Contents();
    ghost var all := items0;
    StartProgress(f, s0, items0);
    HoldsAtStart(field, f, items0);
    capacity := field.size;
    var allocatedSize := field.size;
    status, allocFailed := true, false;
    while sub.bytesLeft != 0
      invariant sub.Valid() && field.Valid() && status && !allocFailed
      invariant Allocated(field, allocatedSize)
      invariant field.data == old(field.data) || fresh(field.data)
      invariant field.data == old(field.data) ==> allocatedSize == field.size
      invariant Progress(f, s0, items0, sub.Left(), all) && Holds(field, f, items0, all)
      decreases sub.bytesLeft
    {
      HoldsMeans(field, f, items0, all);
      ProgressStep(f, s0, items0, sub.Left(), all);
      if field.size == PB_SIZE_MAX {
        status := false;
        HoldsPrefix(field, f, items0, all);
        break;
      }
      ghost var item;
      status, allocFailed, allocatedSize, item := DecodeEntry(sub, f, field, allocatedSize, items0, all);
      if !status {
        break;
      }
      all := all + [item];
    }
    capacity := allocatedSize;
    if status { HoldsPrefix(field, f, items0, all); }
    EndProgress(f, s0, items0, sub.Left(), all);
  }

  lemma {:induction false} HoldsAtStart(field: PointerField, f: Field, items0: seq<Value>)
    requires IntegerSize(f.dataSize) && field.Valid() && field.Contents() == items0
    ensures Holds(field, f, items0, items0)
  {
    assert items0[|items0|..] == [];
  }

  lemma {:induction false} HoldsMeans(field: PointerField, f: Field, items0: seq<Value>, all: seq<Value>)
    requires IntegerSize(f.dataSize) && field.Valid() && Holds(field, f, items0, all)
    ensures items0 <= all && |all| == field.size
    ensures field.Contents() == Overlay(items0, all[|items0|..], Places(f))
  {
  }

  lemma {:induction false} HoldsIf(field: PointerField, f: Field, items0: seq<Value>, all: seq<Value>)
    requires IntegerSize(f.dataSize) && field.Valid() && items0 <= all && |all| == field.size
    requires field.Contents() == Overlay(items0, all[|items0|..], Places(f))
    ensures Holds(field, f, items0, all)
  {
  }

  lemma {:induction false} HoldsPrefix(field: PointerField, f: Field, items0: seq<Value>, all: seq<Value>)
    requires IntegerSize(f.dataSize) && field.Valid() && Holds(field, f, items0, all)
    ensures field.size < Places(f) ==> items0 <= field.Contents()
  {
    if field.size < Places(f) { OverlayShort(items0, all[|items0|..], Places(f)); }
  }

  lemma {:induction false} StartProgress(f: Field, s: seq<byte>, items: seq<Value>)
    ensures Progress(f, s, items, s, items)
  {
  }

  lemma {:induction false} EndProgress(f: Field, s0: seq<byte>, items0: seq<Value>, s: seq<byte>, items: seq<Value>)
    ensures Progress(f, s0, items0, s, items) && s == [] ==>
              Spec.DecodePacked(Entry(f), s0, items0, |items0|) == Spec.Filled(items, |items|)
  {
  }

  // ----- When the array is what was decoded -----

  /** The array holds the old entries followed by the decoded ones exactly when the offset
      of the last one stays below 2^32. */
  lemma {:induction false} GrownArrayIff(f: Field, s: seq<byte>, items: seq<Value>, all: seq<Value>, count: nat)
    requires IntegerSize(f.dataSize) && s != []
    requires Spec.DecodePacked(Entry(f), s, items, |items|) == Spec.Filled(all, count)
    ensures |items| < |all| == count
    ensures Overlay(items, all[|items|..], Places(f)) == all <==> f.dataSize * (count - 1) < U32
  {
    PackedAppends(f, s, items);
    SomethingDecoded(f, s, items);
    hide Spec.DecodePacked;
    var vs := all[|items|..];
    assert items + vs == all;
    OverlayIff(items, vs, Places(f));
    PlacesIff(f, count);
  }

  lemma {:induction false} SomethingDecoded(f: Field, s: seq<byte>, items: seq<Value>)
    requires s != [] && Spec.DecodePacked(Entry(f), s, items, |items|).Filled?
    ensures Spec.DecodePacked(Entry(f), s, items, |items|).count > |items|
  {
    hide Spec.DecodeScalar;
    var p := Spec.DecodeScalar(Entry(f), s);
    PackedAppends(f, p.rest, items + [p.value]);
  }

  lemma {:induction false} PlacesIff(f: Field, count: nat)
    requires IntegerSize(f.dataSize) && count > 0
    ensures count <= Places(f) <==> f.dataSize * (count - 1) < U32
  {
  }

  // ----- An array that is too long -----

  /** m varints of 1, and one of 2. */
  function Payload(m: nat): seq<byte> { if m == 0 then [2] else [1] + Payload(m - 1) }

  function Values(m: nat): (vs: seq<Value>)
    ensures |vs| == m + 1
    ensures forall j :: 0 <= j < m ==> vs[j] == Num(1)
    ensures vs[m] == Num(2)
  {
    if m == 0 then [Num(2)] else [Num(1)] + Values(m - 1)
  }

  lemma {:induction false} PayloadDecodes(f: Field, m: nat, items: seq<Value>)
    requires f.ltype.Varint? && f.dataSize == 8 && |items| + m < PB_SIZE_MAX
    ensures Spec.DecodePacked(Entry(f), Payload(m), items, |items|)
         == Spec.Filled(items + Values(m), |items| + m + 1)
  {
    hide Spec.DecodePacked;
    if m == 0 {
      OneMore(f, 2, [], items);
      assert items + [Num(2)] == items + Values(0);
    } else {
      OneMore(f, 1, Payload(m - 1), items);
      PayloadDecodes(f, m - 1, items + [Num(1)]);
      assert items + [Num(1)] + Values(m - 1) == items + Values(m);
    }
  }

  lemma {:induction false} OneMore(f: Field, b: byte, rest: seq<byte>, items: seq<Value>)
    requires f.ltype.Varint? && f.dataSize == 8 && |items| < PB_SIZE_MAX && b < 128
    ensures Spec.DecodePacked(Entry(f), [b] + rest, items, |items|)
         == Spec.DecodePacked(Entry(f), rest, items + [Num(b)], |items| + 1)
    ensures rest == [] ==>
              Spec.DecodePacked(Entry(f), [b], items, |items|) == Spec.Filled(items + [Num(b)], |items| + 1)
  {
    SmallVarint(f, b, rest);
    hide Spec.DecodeScalar;
    if rest == [] { assert [b] + rest == [b]; }
  }

  lemma {:induction false} SmallVarint(f: Field, b: byte, t: seq<byte>)
    requires f.ltype.Varint? && f.dataSize == 8 && b < 128
    ensures Spec.DecodeScalar(Entry(f), [b] + t) == Done(Num(b), t)
  {
    assert EncodeVarint(b) == [b];
    VarintRoundTrip(b, t);
    hide DecodeVarint;
  }

  lemma {:induction false} RemainderOfItself(m: nat)
    requires m > 0
    ensures m % m == 0
  {
  }

  /** An int64 array of 2^29 + 1 entries: it is decoded, and the last entry is stored over
      the first one. */
  lemma {:induction false} LongArrayLosesFirst(f: Field, m: nat)
    requires f.ltype.Varint? && f.dataSize == 8 && m == 0x2000_0000
    ensures var r := Spec.DecodePacked(Entry(f), Payload(m), [], 0);
            && r == Spec.Filled(Values(m), m + 1)
            && Values(m)[0] == Num(1) && Overlay([], Values(m), Places(f))[0] == Num(2)
            && Overlay([], Values(m), Places(f))[m] == Undefined
  {
    assert Places(f) == m;
    hide Values, Payload, Spec.DecodePacked, Overlay, Places;
    PayloadDecodes(f, m, []);
    assert [] + Values(m) == Values(m);
    LastPlace([], Values(m), m);
    assert m % m == 0 by { RemainderOfItself(m); }
  }
}
