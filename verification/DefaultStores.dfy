/** pb_field_set_to_default on memory: which bytes the initialisation of a struct writes. */
module DefaultStores {
  import opened Basics
  import opened Pb
  import opened Numbers
  import opened FieldIteration
  import opened Layout

  type Memory = int -> byte

  function Store(mem: Memory, at: int, bs: seq<byte>): Memory {
    (a: int) => if at <= a < at + |bs| then bs[a - at] else mem(a)
  }

  function Fit(bs: seq<byte>, n: nat): (r: seq<byte>)
    ensures |r| == n
  {
    if |bs| >= n then bs[..n] else bs + Zeros(n - |bs|)
  }

  /** The data_size bytes that ptr points to when it holds a default value. */
  function Image(f: Field): (bs: seq<byte>)
    ensures |bs| == f.dataSize
  {
    if !f.ptr.Initial? then Zeros(f.dataSize)
    else
      match f.ptr.value
      case Num(n) => ToLE(n % Bytes256(f.dataSize), f.dataSize)
      case Blob(b) => Fit((if f.ltype.Bytes? then ToLE(|b|, BYTES_HEADER) else []) + b, f.dataSize)
      case Struct(_) => Zeros(f.dataSize)
      case Undefined => Zeros(f.dataSize)
  }

  /** pb_field_set_to_default for a static field at the given addresses. */
  function InitField(mem: Memory, f: Field, data: int, size: int): Memory
    decreases f, 0
  {
    if f.htype.Repeated? || f.htype.OneOf? then Store(mem, size, Zeros(SIZEOF_SIZE))
    else
      var mem' := if f.htype.Optional? && size != data then Store(mem, size, [0]) else mem;
      if f.ltype.Submessage? then
        if f.ptr.SubFields? then InitFrom(mem', f.ptr.fields, 0, data) else mem'
      else Store(mem', data, Image(f))
  }

  /** pb_message_set_to_defaults, from field i on */
  function InitFrom(mem: Memory, d: Descriptor, i: nat, dest: int): Memory
    requires i <= |d|
    decreases d, 1, |d| - i
  {
    if i == |d| then mem
    else InitFrom(InitField(mem, d[i], dest + DataOffset(d, i), dest + SizeOffset(d, i)), d, i + 1, dest)
  }

  // ----- Whose bytes they are -----

  /** The size of the has_, _count or which_ member of a field that has one. */
  function CompanionSize(f: Field): nat {
    if f.sizeOffset == 0 || f.htype.Required? then 0
    else if f.htype.Optional? then 1
    else SIZEOF_SIZE
  }

  predicate Owns(f: Field, data: int, size: int, a: int) {
    data <= a < data + Advance(f) || size <= a < size + CompanionSize(f)
  }

  /** Whatever memory holds and wherever the field is, initialising it changes no byte of
      another member. */
  ghost predicate KeepsOthers(f: Field) {
    forall mem: Memory, data: int, size: int, a: int ::
      size == data + f.sizeOffset && !Owns(f, data, size, a) ==> InitField(mem, f, data, size)(a) == mem(a)
  }

  ghost predicate AllKeepOthers(d: Descriptor)
    decreases d
  {
    forall i :: 0 <= i < |d| ==> FieldKeepsOthers(d[i])
  }

  /** The same for a field and for the members of the struct that it is. */
  ghost predicate FieldKeepsOthers(f: Field)
    decreases f
  {
    KeepsOthers(f) && (f.ptr.SubFields? ==> AllKeepOthers(f.ptr.fields))
  }

  /** A fixed-count array is at least as long as a count. */
  predicate RoomForCount(f: Field) {
    f.FixedCount() ==> f.dataSize * f.arraySize >= SIZEOF_SIZE
  }

  /** No fixed-count array, at any level, is shorter than a count. */
  predicate Roomy(d: Descriptor)
    decreases d
  {
    forall i :: 0 <= i < |d| ==> FieldRoomy(d[i])
  }

  predicate FieldRoomy(f: Field)
    decreases f
  {
    RoomForCount(f) && (f.ptr.SubFields? ==> Roomy(f.ptr.fields))
  }

  /** The members of a struct of n bytes lie inside it, and so do those of the structs in
      it. */
  predicate Contained(d: Descriptor, n: nat)
    decreases d
  {
    forall i :: 0 <= i < |d| ==>
      && DataOffset(d, i) + Advance(d[i]) <= n
      && 0 <= SizeOffset(d, i) && SizeOffset(d, i) + CompanionSize(d[i]) <= n
      && SizeOffset(d, i) == DataOffset(d, i) + d[i].sizeOffset
      && FieldContained(d[i])
  }

  predicate FieldContained(f: Field)
    decreases f
  {
    && f.atype.Static? && (f.htype.OneOf? ==> f.sizeOffset != 0)
    && (f.ltype.Submessage? <==> f.ptr.SubFields?)
    && (f.ptr.SubFields? ==> Contained(f.ptr.fields, f.dataSize))
  }

  lemma {:induction false} FieldInside(mem: Memory, f: Field, data: int, size: int, a: int)
    requires FieldContained(f) && FieldRoomy(f)
    requires size == data + f.sizeOffset && !Owns(f, data, size, a)
    ensures InitField(mem, f, data, size)(a) == mem(a)
    decreases f, 0
  {
    hide InitFrom, Contained, Roomy;
    if (f.htype.Required? || f.htype.Optional?) && f.ltype.Submessage? {
      var mem' := if f.htype.Optional? && size != data then Store(mem, size, [0]) else mem;
      MessageInside(mem', f.ptr.fields, 0, data, f.dataSize, a);
    }
  }

  lemma {:induction false} MemberInside(d: Descriptor, n: nat, i: nat, dest: int, a: int)
    requires i < |d| && Contained(d, n) && Roomy(d) && !(dest <= a < dest + n)
    ensures FieldContained(d[i]) && FieldRoomy(d[i])
    ensures SizeOffset(d, i) == DataOffset(d, i) + d[i].sizeOffset
    ensures !Owns(d[i], dest + DataOffset(d, i), dest + SizeOffset(d, i), a)
  {
    hide FieldContained, FieldRoomy, DataOffset, SizeOffset;
  }

  lemma {:induction false} MessageInside(mem: Memory, d: Descriptor, i: nat, dest: int, n: nat, a: int)
    requires i <= |d| && Contained(d, n) && Roomy(d) && !(dest <= a < dest + n)
    ensures InitFrom(mem, d, i, dest)(a) == mem(a)
    decreases d, 1, |d| - i
  {
    hide InitField, Contained, Roomy, DataOffset, SizeOffset, Owns, FieldContained, FieldRoomy;
    if i < |d| {
      var data, size := dest + DataOffset(d, i), dest + SizeOffset(d, i);
      MemberInside(d, n, i, dest, a);
      FieldInside(mem, d[i], data, size, a);
      MessageInside(InitField(mem, d[i], data, size), d, i + 1, dest, n, a);
    }
  }

  /** A fixed-count array that is shorter than a count is overrun. */
  lemma {:induction false} ShortArrayOverrun(f: Field)
    requires f.atype.Static? && !RoomForCount(f)
    ensures !KeepsOthers(f)
  {
    var mem: Memory := a => 1;
    var after := InitField(mem, f, 0, 0);
    assert !Owns(f, 0, 0, Advance(f));
    assert after(Advance(f)) == 0 != mem(Advance(f));
  }

  /** Initialisation stays inside the members it is for, at every level of a struct, exactly
      when no fixed-count array is shorter than the count that is cleared in its place. */
  lemma {:induction false} DefaultsKeepOthersIff(d: Descriptor, n: nat)
    requires Contained(d, n)
    ensures AllKeepOthers(d) <==> Roomy(d)
    decreases d
  {
    forall i | 0 <= i < |d| ensures FieldKeepsOthers(d[i]) <==> FieldRoomy(d[i]) {
      assert FieldContained(d[i]);
      FieldKeepsIff(d[i]);
    }
    hide FieldKeepsOthers, FieldRoomy;
  }

  lemma {:induction false} FieldKeepsIff(f: Field)
    requires FieldContained(f)
    ensures FieldKeepsOthers(f) <==> FieldRoomy(f)
    decreases f
  {
    if f.ptr.SubFields? { DefaultsKeepOthersIff(f.ptr.fields, f.dataSize); }
    if !RoomForCount(f) {
      ShortArrayOverrun(f);
    } else if FieldRoomy(f) {
      forall mem: Memory, data: int, size: int, a: int | size == data + f.sizeOffset && !Owns(f, data, size, a)
        ensures InitField(mem, f, data, size)(a) == mem(a)
      {
        FieldInside(mem, f, data, size, a);
      }
    }
  }

  // ----- Behind the struct -----

  /** Behind the member, a byte is cleared if one of the stores reaches it, and kept
      otherwise. */
  lemma {:induction false} FieldBehind(mem: Memory, f: Field, data: int, size: int, a: int)
    requires FieldContained(f) && size == data + f.sizeOffset
    requires a >= data + Advance(f) && a >= size + CompanionSize(f)
    ensures InitField(mem, f, data, size)(a) == if FieldInitWithin(f, a - data) then mem(a) else 0
    decreases f, 0
  {
    hide InitFrom, Contained, InitWithin, RestWithin;
    if f.InitRecurses() {
      var mem' := if f.htype.Optional? && size != data then Store(mem, size, [0]) else mem;
      MessageBehind(mem', f.ptr.fields, 0, data, f.dataSize, a);
      FromZero(f.ptr.fields, a - data);
    } else {
      PlainBehind(mem, f, data, size, a);
      hide InitField, Advance;
    }
  }

  lemma {:induction false} PlainBehind(mem: Memory, f: Field, data: int, size: int, a: int)
    requires FieldContained(f) && size == data + f.sizeOffset && !f.InitRecurses()
    requires a >= data + Advance(f) && a >= size + CompanionSize(f)
    ensures InitField(mem, f, data, size)(a) == if f.FixedCount() && a < data + SIZEOF_SIZE then 0 else mem(a)
  {
    hide InitFrom, Contained;
    if f.htype.Repeated? { ProductAtMost(f.dataSize, 0, f.arraySize); }
  }

  /** No store of the fields from i on reaches beyond n bytes. */
  predicate RestWithin(d: Descriptor, i: nat, n: int) {
    forall k :: i <= k < |d| ==> FieldInitWithin(d[k], n - DataOffset(d, k))
  }

  lemma {:induction false} FromZero(d: Descriptor, n: int)
    ensures RestWithin(d, 0, n) <==> InitWithin(d, n)
  {
  }

  lemma {:induction false} MemberContained(d: Descriptor, n: nat, i: nat)
    requires Contained(d, n) && i < |d|
    ensures DataOffset(d, i) + Advance(d[i]) <= n
    ensures 0 <= SizeOffset(d, i) && SizeOffset(d, i) + CompanionSize(d[i]) <= n
    ensures SizeOffset(d, i) == DataOffset(d, i) + d[i].sizeOffset && FieldContained(d[i])
  {
    hide FieldContained, DataOffset, SizeOffset;
  }

  lemma {:induction false} MessageBehind(mem: Memory, d: Descriptor, i: nat, dest: int, n: nat, a: int)
    requires i <= |d| && Contained(d, n) && a >= dest + n
    ensures InitFrom(mem, d, i, dest)(a) == if RestWithin(d, i, a - dest) then mem(a) else 0
    decreases d, 1, |d| - i
  {
    hide InitField, Contained, DataOffset, SizeOffset, FieldContained, FieldInitWithin;
    if i < |d| {
      var data, size := dest + DataOffset(d, i), dest + SizeOffset(d, i);
      MemberContained(d, n, i);
      FieldBehind(mem, d[i], data, size, a);
      MessageBehind(InitField(mem, d[i], data, size), d, i + 1, dest, n, a);
    }
  }

  /** Initialisation writes nothing in front of the member and of its companion. */
  lemma {:induction false} FieldBefore(mem: Memory, f: Field, data: int, size: int, a: int)
    requires FieldContained(f) && size == data + f.sizeOffset
    requires a < data && (CompanionSize(f) > 0 ==> a < size)
    ensures InitField(mem, f, data, size)(a) == mem(a)
    decreases f, 0
  {
    if f.InitRecurses() {
      var mem' := if f.htype.Optional? && size != data then Store(mem, size, [0]) else mem;
      MessageBefore(mem', f.ptr.fields, 0, data, f.dataSize, a);
      hide InitFrom, Contained;
    }
  }

  lemma {:induction false} MessageBefore(mem: Memory, d: Descriptor, i: nat, dest: int, n: nat, a: int)
    requires i <= |d| && Contained(d, n) && a < dest
    ensures InitFrom(mem, d, i, dest)(a) == mem(a)
    decreases d, 1, |d| - i
  {
    hide InitField, Contained, DataOffset, SizeOffset, FieldContained;
    if i < |d| {
      var data, size := dest + DataOffset(d, i), dest + SizeOffset(d, i);
      MemberContained(d, n, i);
      FieldBefore(mem, d[i], data, size, a);
      MessageBefore(InitField(mem, d[i], data, size), d, i + 1, dest, n, a);
    }
  }

  lemma {:induction false} WithinMore(d: Descriptor, n: int, m: int)
    requires InitWithin(d, n) && n <= m
    ensures InitWithin(d, m)
    decreases d
  {
    hide FieldInitWithin, DataOffset;
    forall i | 0 <= i < |d| ensures FieldInitWithin(d[i], m - DataOffset(d, i)) {
      assert FieldInitWithin(d[i], n - DataOffset(d, i));
      FieldWithinMore(d[i], n - DataOffset(d, i), m - DataOffset(d, i));
    }
  }

  lemma {:induction false} FieldWithinMore(f: Field, n: int, m: int)
    requires FieldInitWithin(f, n) && n <= m
    ensures FieldInitWithin(f, m)
    decreases f
  {
    if f.InitRecurses() { WithinMore(f.ptr.fields, n, m); }
  }

  /** Initialising a struct of n bytes changes no byte outside it. */
  ghost predicate StaysInside(d: Descriptor, n: nat) {
    forall mem: Memory, dest: int, a: int ::
      !(dest <= a < dest + n) ==> InitFrom(mem, d, 0, dest)(a) == mem(a)
  }

  /** That is so exactly when no clearing of a count reaches beyond its end. */
  lemma {:induction false} StaysInsideIff(d: Descriptor, n: nat)
    requires Contained(d, n)
    ensures StaysInside(d, n) <==> InitWithin(d, n)
  {
    hide InitFrom, InitWithin, Contained, RestWithin;
    if InitWithin(d, n) {
      forall mem: Memory, dest: int, a: int | !(dest <= a < dest + n)
        ensures InitFrom(mem, d, 0, dest)(a) == mem(a)
      {
        if a < dest {
          MessageBefore(mem, d, 0, dest, n, a);
        } else {
          MessageBehind(mem, d, 0, dest, n, a);
          FromZero(d, a - dest);
          WithinMore(d, n, a - dest);
        }
      }
    } else {
      var mem: Memory := a => 1;
      MessageBehind(mem, d, 0, 0, n, n);
      FromZero(d, n);
      assert InitFrom(mem, d, 0, 0)(n) == 0 != mem(n);
    }
  }

  // ----- Inside the struct -----

  /** The first byte of a member or its companion. */
  function Low(d: Descriptor, i: nat): int
    requires i < |d|
  {
    if CompanionSize(d[i]) > 0 && SizeOffset(d, i) < DataOffset(d, i) then SizeOffset(d, i) else DataOffset(d, i)
  }

  predicate Precedes(d: Descriptor, i: nat, j: nat)
    requires i < |d| && j < |d|
  {
    DataOffset(d, i) + Advance(d[i]) <= Low(d, j) && SizeOffset(d, i) + CompanionSize(d[i]) <= Low(d, j)
  }

  predicate CompanionFirst(d: Descriptor, i: nat)
    requires i < |d|
  {
    SizeOffset(d, i) + CompanionSize(d[i]) <= DataOffset(d, i)
  }

  /** The members come in the order of their fields, each with its companion in front of it. */
  predicate Ordered(d: Descriptor) {
    && (forall i, j :: 0 <= i < j < |d| && Home(d, i) != Home(d, j) ==> Precedes(d, i, j))
    && (forall i :: 0 <= i < |d| && CompanionSize(d[i]) > 0 ==> CompanionFirst(d, i))
  }

  predicate OwnsByte(d: Descriptor, i: nat, dest: int, a: int)
    requires i < |d|
  {
    Owns(d[i], dest + DataOffset(d, i), dest + SizeOffset(d, i), a)
  }

  function InitOne(mem: Memory, d: Descriptor, i: nat, dest: int): Memory
    requires i < |d|
  {
    InitField(mem, d[i], dest + DataOffset(d, i), dest + SizeOffset(d, i))
  }

  /** Memory when the first i fields have been initialised. */
  function InitUpTo(mem: Memory, d: Descriptor, i: nat, dest: int): Memory
    requires i <= |d|
  {
    if i == 0 then mem else InitOne(InitUpTo(mem, d, i - 1, dest), d, i - 1, dest)
  }

  lemma {:induction false} InitSplit(mem: Memory, d: Descriptor, i: nat, dest: int)
    requires i <= |d|
    ensures InitFrom(mem, d, 0, dest) == InitFrom(InitUpTo(mem, d, i, dest), d, i, dest)
  {
    hide InitField;
    if i > 0 { InitSplit(mem, d, i - 1, dest); }
  }

  lemma {:induction false} SharedOffsets(d: Descriptor, i: nat)
    requires i < |d|
    ensures DataOffset(d, i) == DataOffset(d, Home(d, i)) && SizeOffset(d, i) == SizeOffset(d, Home(d, i))
    ensures d[i].htype.OneOf? || Home(d, i) == i
  {
    if SharesStorage(d, i) { SharedOffsets(d, i - 1); }
  }

  /** A later field leaves the bytes of field i alone; if it is a member of the same union, it
      clears which_ once more. */
  lemma {:induction false} LaterKeeps(mem: Memory, d: Descriptor, i: nat, j: nat, dest: int, n: nat, a: int)
    requires Contained(d, n) && Ordered(d) && i < j < |d| && OwnsByte(d, i, dest, a)
    requires d[i].htype.OneOf? && a < dest + SizeOffset(d, i) + SIZEOF_SIZE ==> mem(a) == 0
    ensures InitOne(mem, d, j, dest)(a) == mem(a)
  {
    hide *;
    if Home(d, i) != Home(d, j) {
      BehindKeeps(mem, d, i, j, dest, n, a);
    } else {
      SiblingKeeps(mem, d, i, j, dest, n, a);
    }
  }

  lemma {:induction false} PrecedesByte(d: Descriptor, i: nat, j: nat, dest: int, a: int)
    requires i < |d| && j < |d| && Precedes(d, i, j) && OwnsByte(d, i, dest, a)
    ensures a < dest + DataOffset(d, j) && (CompanionSize(d[j]) > 0 ==> a < dest + SizeOffset(d, j))
  {
    hide DataOffset, SizeOffset, Advance;
  }

  lemma {:induction false} BehindKeeps(mem: Memory, d: Descriptor, i: nat, j: nat, dest: int, n: nat, a: int)
    requires Contained(d, n) && Ordered(d) && i < j < |d| && OwnsByte(d, i, dest, a) && Home(d, i) != Home(d, j)
    ensures InitOne(mem, d, j, dest)(a) == mem(a)
  {
    assert Precedes(d, i, j) by { hide Contained, Precedes, OwnsByte, Home; }
    hide Contained, Ordered, DataOffset, SizeOffset, Home, InitField, FieldContained, CompanionSize, Precedes, OwnsByte;
    MemberContained(d, n, j);
    PrecedesByte(d, i, j, dest, a);
    FieldBefore(mem, d[j], dest + DataOffset(d, j), dest + SizeOffset(d, j), a);
  }

  lemma {:induction false} SiblingKeeps(mem: Memory, d: Descriptor, i: nat, j: nat, dest: int, n: nat, a: int)
    requires Contained(d, n) && Ordered(d) && i < j < |d| && OwnsByte(d, i, dest, a) && Home(d, i) == Home(d, j)
    requires d[i].htype.OneOf? && a < dest + SizeOffset(d, i) + SIZEOF_SIZE ==> mem(a) == 0
    ensures InitOne(mem, d, j, dest)(a) == mem(a)
  {
    hide *;
    HomeKind(d, i);
    HomeKind(d, j);
    SiblingStore(mem, d, i, j, dest, n);
    ZerosStored(mem, dest + SizeOffset(d, i), a);
  }

  lemma {:induction false} SiblingStore(mem: Memory, d: Descriptor, i: nat, j: nat, dest: int, n: nat)
    requires Contained(d, n) && i < j < |d| && d[i].htype.OneOf? && Home(d, i) == Home(d, j)
    ensures InitOne(mem, d, j, dest) == Store(mem, dest + SizeOffset(d, i), Zeros(SIZEOF_SIZE))
  {
    SharedOffsets(d, i);
    SharedOffsets(d, j);
    HomeKind(d, i);
    HomeKind(d, j);
    hide Contained, SizeOffset, DataOffset, Home, Store;
  }

  lemma {:induction false} ZerosStored(mem: Memory, at: int, a: int)
    requires a >= at + SIZEOF_SIZE || mem(a) == 0
    ensures Store(mem, at, Zeros(SIZEOF_SIZE))(a) == mem(a)
  {
  }

  lemma {:induction false} RestKeeps(mem: Memory, d: Descriptor, i: nat, j: nat, dest: int, n: nat, a: int)
    requires Contained(d, n) && Ordered(d) && i < j <= |d| && OwnsByte(d, i, dest, a)
    requires d[i].htype.OneOf? && a < dest + SizeOffset(d, i) + SIZEOF_SIZE ==> mem(a) == 0
    ensures InitFrom(mem, d, j, dest)(a) == mem(a)
    decreases |d| - j
  {
    hide Contained, Ordered, DataOffset, SizeOffset, InitField, OwnsByte;
    if j < |d| {
      LaterKeeps(mem, d, i, j, dest, n, a);
      RestKeeps(InitOne(mem, d, j, dest), d, i, j + 1, dest, n, a);
    }
  }

  /** Whatever the stores for the members in front of it have overrun, every byte of a member
      ends up as the initialisation of that member leaves it. */
  lemma {:induction false} MembersInitialised(mem: Memory, d: Descriptor, i: nat, dest: int, n: nat, a: int)
    requires Contained(d, n) && Ordered(d) && i < |d| && OwnsByte(d, i, dest, a)
    ensures InitFrom(mem, d, 0, dest)(a) == InitOne(InitUpTo(mem, d, i, dest), d, i, dest)(a)
  {
    var before := InitUpTo(mem, d, i, dest);
    InitSplit(mem, d, i + 1, dest);
    if d[i].htype.OneOf? { WhichCleared(before, d, i, dest, n, a); }
    hide Contained, Ordered, DataOffset, SizeOffset, InitField, OwnsByte, InitFrom;
    RestKeeps(InitOne(before, d, i, dest), d, i, i + 1, dest, n, a);
  }

  lemma {:induction false} WhichCleared(mem: Memory, d: Descriptor, i: nat, dest: int, n: nat, a: int)
    requires Contained(d, n) && Ordered(d) && i < |d| && d[i].htype.OneOf? && OwnsByte(d, i, dest, a)
    ensures a < dest + SizeOffset(d, i) + SIZEOF_SIZE ==> InitOne(mem, d, i, dest)(a) == 0
  {
    hide DataOffset, SizeOffset, FieldContained;
  }

  /** So initialising the whole struct does what the model says, and so does initialising an
      array entry or a union member while a message is being decoded: it changes nothing
      else. */
  lemma {:induction false} EntriesStayInside(d: Descriptor, n: nat, i: nat)
    requires WellFormed(d) && Contained(d, n) && i < |d| && d[i].InitOnDecode()
    ensures StaysInside(d[i].ptr.fields, d[i].dataSize)
  {
    MemberContained(d, n, i);
    assert WellFormedField(d[i]);
    StaysInsideIff(d[i].ptr.fields, d[i].dataSize);
    hide WellFormed, Contained, StaysInside, InitWithin;
  }

  // ----- A struct where it goes wrong, and one where it does not -----

  /** S { repeated bool a = 1, two entries, fixed count } in two bytes. */
  function ShortStruct(): Descriptor {
    [Field(1, LType.Bool, Repeated, Static, 0, 0, 1, 2, Null)]
  }

  /** P { repeated S s = 1, at most one entry; optional bool h = 2, default true }:
      s_count at 0, s at 4, has_h at 6, h at 7. */
  function NeighbourStruct(): seq<Member> {
    [Member(1, LType.Submessage, Repeated, Static, Placement.First, 4, 2, 2, Some(0), SubFields(ShortStruct())),
     Member(2, LType.Bool, Optional, Static, Placement.Other, 7, 1, 1, Some(6), Ptr.Initial(Num(1)))]
  }

  /** Initialising the entry of s, as decoding it does first, clears has_h and h. */
  lemma {:induction false} ShortArrayErasesNeighbour(mem: Memory)
    ensures var ms := NeighbourStruct();
      && WellPlaced(ms)
      && DataOffset(Build(ms), 0) == 4 && DataOffset(Build(ms), 1) == 7 && SizeOffset(Build(ms), 1) == 6
    ensures Contained(ShortStruct(), 2) && !Roomy(ShortStruct()) && !InitWithin(ShortStruct(), 2)
    ensures InitFrom(mem, ShortStruct(), 0, 4)(6) == 0 && InitFrom(mem, ShortStruct(), 0, 4)(7) == 0
  {
    var ms, d := NeighbourStruct(), ShortStruct();
    assert WellPlaced(ms);
    WalkIsLookup(ms, 0);
    WalkIsLookup(ms, 1);
    assert DataOffset(d, 0) == 0 && SizeOffset(d, 0) == 0;
    assert !RoomForCount(d[0]);
    var after := InitField(mem, d[0], 4, 4);
    assert InitFrom(mem, d, 0, 4) == InitFrom(after, d, 1, 4) == after;
  }

  /** Q { repeated bool a = 1, two entries, fixed count; optional bool h = 2, default true }:
      a at 0, has_h at 2, h at 3. */
  function ShortThenFlag(): Descriptor {
    [Field(1, LType.Bool, Repeated, Static, 0, 0, 1, 2, Null),
     Field(2, LType.Bool, Optional, Static, 1, -1, 1, 0, Ptr.Initial(Num(1)))]
  }

  lemma {:induction false} FlagOffsets(d: Descriptor)
    requires d == ShortThenFlag()
    ensures DataOffset(d, 0) == 0 && DataOffset(d, 1) == 3 && SizeOffset(d, 0) == 0 && SizeOffset(d, 1) == 2
  {
  }

  lemma {:induction false} FlagLayout(d: Descriptor)
    requires d == ShortThenFlag()
    ensures WellFormed(d) && Contained(d, 4) && Ordered(d) && InitWithin(d, 4) && !Roomy(d)
  {
    FlagWellFormed(d);
    FlagOrdered(d);
    FlagContained(d);
    FlagOffsets(d);
    hide DataOffset, SizeOffset, WellFormed, Ordered, Contained;
    assert !RoomForCount(d[0]) && !FieldRoomy(d[0]);
  }

  lemma {:induction false} FlagContained(d: Descriptor)
    requires d == ShortThenFlag()
    ensures Contained(d, 4)
  {
    FlagOffsets(d);
    hide DataOffset, SizeOffset;
  }

  lemma {:induction false} FlagOrdered(d: Descriptor)
    requires d == ShortThenFlag()
    ensures Ordered(d)
  {
    FlagOffsets(d);
    hide DataOffset, SizeOffset, Home;
    assert Precedes(d, 0, 1);
    hide Precedes;
  }

  lemma {:induction false} FlagWellFormed(d: Descriptor)
    requires d == ShortThenFlag()
    ensures WellFormed(d)
  {
  }

  lemma {:induction false} FlagStores(mem: Memory, d: Descriptor, dest: int)
    requires d == ShortThenFlag()
    ensures InitOne(mem, d, 0, dest)(dest + 3) == 0
    ensures InitOne(mem, d, 1, dest)(dest + 2) == 0 && InitOne(mem, d, 1, dest)(dest + 3) == 1
  {
    FlagOffsets(d);
    hide DataOffset, SizeOffset;
    assert Image(d[1]) == [1] by { assert Bytes256(1) == 256; }
    hide Image;
  }

  /** Here has_h and h are overrun too, but their own initialisation follows. */
  lemma {:induction false} ShortArrayRepaired(mem: Memory, dest: int)
    ensures var d := ShortThenFlag();
      && WellFormed(d) && Contained(d, 4) && Ordered(d) && InitWithin(d, 4) && !Roomy(d)
      && InitUpTo(mem, d, 1, dest)(dest + 3) == 0
      && InitFrom(mem, d, 0, dest)(dest + 2) == 0 && InitFrom(mem, d, 0, dest)(dest + 3) == 1
  {
    var d := ShortThenFlag();
    FlagLayout(d);
    FlagOffsets(d);
    var one := InitUpTo(mem, d, 1, dest);
    assert one == InitOne(mem, d, 0, dest) by { assert InitUpTo(mem, d, 0, dest) == mem; }
    FlagStores(mem, d, dest);
    FlagStores(one, d, dest);
    assert OwnsByte(d, 1, dest, dest + 2) && OwnsByte(d, 1, dest, dest + 3) by { hide DataOffset, SizeOffset; }
    hide *;
    MembersInitialised(mem, d, 1, dest, 4, dest + 2);
    MembersInitialised(mem, d, 1, dest, 4, dest + 3);
  }
}
