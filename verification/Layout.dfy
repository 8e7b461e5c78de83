/** The descriptor entries that the field macros of pb.h build from a struct layout, and
    what the iterator makes of them. */
module Layout {
  import opened Basics
  import opened Pb
  import opened Numbers
  import opened FieldIteration

  datatype Placement = First | Other | InUnion

  /** A member of a C struct, as the macros see it. */
  datatype Member = Member(tag: nat, ltype: LType, htype: HType, atype: AType, placement: Placement,
                           offset: nat,          // offsetof(st, m)
                           size: nat,            // sizeof of the member
                           itemSize: nat,        // sizeof of one entry, or of what it points to
                           companion: Option<nat>, // offset of has_m, m_count or which_u
                           ptr: Ptr)
  {
    predicate StaticArray() { atype.Static? && htype.Repeated? }
  }

  /** PB_DATAOFFSET_FIRST, _OTHER and _UNION. */
  function DataOffsetMacro(m: Member, prev: Member): int {
    match m.placement
    case First => m.offset
    case Other => m.offset - prev.offset - prev.size
    case InUnion => PB_SIZE_MAX
  }

  /** A number in an entry's pb_size_t field. */
  function Narrow(n: int): (r: nat)
    ensures r <= PB_SIZE_MAX
    ensures n >= 0 ==> r <= n
    ensures r == n <==> 0 <= n <= PB_SIZE_MAX
  {
    n % U32
  }

  /** PB_REQUIRED_STATIC ... PB_ONEOF_POINTER.  The numbers become fields of 32 bits; pb_delta
      subtracts casts to int. */
  function EntryMacro(m: Member, prev: Member): Field
    requires m.StaticArray() ==> m.itemSize > 0
  {
    Field(m.tag, m.ltype, m.htype, m.atype,
          Narrow(DataOffsetMacro(m, prev)),
          if m.companion.Some? then Signed(m.companion.value - m.offset, 4) else 0,
          Narrow(if m.StaticArray() || m.atype.Pointer? then m.itemSize else m.size),
          if m.StaticArray() then Narrow(m.size / m.itemSize) else 0,
          m.ptr)
  }

  /** Member i of a layout that a C compiler produces for members listed in order. */
  predicate PlacedAt(ms: seq<Member>, i: nat)
    requires i < |ms|
  {
    && (ms[i].placement.First? <==> i == 0)
    && (ms[i].placement.Other? ==> ms[i].offset >= ms[i-1].offset + ms[i-1].size)
    && (ms[i].placement.InUnion? ==>
          && ms[i-1].htype.OneOf? && ms[i].htype.OneOf?
          && ms[i].offset == ms[i-1].offset && ms[i].companion == ms[i-1].companion)
  }

  predicate SizesAgree(m: Member) {
    && (m.StaticArray() ==> m.itemSize > 0 && m.size % m.itemSize == 0)
    && (m.atype.Pointer? ==> m.size == SIZEOF_POINTER)
  }

  predicate WellPlaced(ms: seq<Member>) {
    && (forall i :: 0 <= i < |ms| ==> SizesAgree(ms[i]))
    && (forall i :: 0 <= i < |ms| ==> PlacedAt(ms, i))
  }

  function EntryAt(ms: seq<Member>, i: nat): Field
    requires WellPlaced(ms) && i < |ms|
  {
    EntryMacro(ms[i], ms[if i == 0 then 0 else i - 1])
  }

  function Build(ms: seq<Member>): (d: Descriptor)
    requires WellPlaced(ms)
    ensures |d| == |ms|
  {
    seq(|ms|, i requires 0 <= i < |ms| => EntryAt(ms, i))
  }

  // ----- What an entry can express -----

  /** The size of the member survives the entry's 32-bit fields. */
  predicate SizeFits(m: Member)
    requires m.StaticArray() ==> m.itemSize > 0
  {
    if m.StaticArray() then m.size == 0 || (m.itemSize <= PB_SIZE_MAX && m.size / m.itemSize <= PB_SIZE_MAX)
    else m.atype.Pointer? || m.size <= PB_SIZE_MAX
  }

  /** The padding between two members. */
  function Gap(ms: seq<Member>, i: nat): (g: nat)
    requires 0 < i < |ms| && PlacedAt(ms, i) && ms[i].placement.Other?
  {
    ms[i].offset - ms[i-1].offset - ms[i-1].size
  }

  /** A union that follows another union at a distance that is mistaken for PB_SIZE_MAX. */
  predicate Collides(ms: seq<Member>, i: nat)
    requires WellPlaced(ms) && i < |ms|
  {
    assert PlacedAt(ms, i);
    i > 0 && ms[i].placement.Other? && ms[i-1].htype.OneOf? && ms[i].htype.OneOf? && Gap(ms, i) == PB_SIZE_MAX
  }

  /** The walk can step onto member i without going wrong. */
  predicate StepFits(ms: seq<Member>, i: nat)
    requires WellPlaced(ms) && i < |ms|
  {
    assert PlacedAt(ms, i);
    if i == 0 then ms[0].offset <= PB_SIZE_MAX
    else ms[i].placement.InUnion?
         || (Gap(ms, i) <= PB_SIZE_MAX && SizeFits(ms[i-1]) && !Collides(ms, i))
  }

  predicate CompanionFits(m: Member) {
    m.companion.Some? ==> -0x8000_0000 <= m.companion.value - m.offset < 0x8000_0000
  }

  function Companion(m: Member): nat { if m.companion.Some? then m.companion.value else m.offset }

  // ----- The walk against offsetof -----

  lemma {:induction false} ProductWraps(a: nat, b: nat)
    requires a > 0
    ensures Narrow(a) * Narrow(b) <= a * b
    ensures Narrow(a) * Narrow(b) == a * b <==> a * b == 0 || (a <= PB_SIZE_MAX && b <= PB_SIZE_MAX)
  {
    hide Narrow;
    var x, y := Narrow(a), Narrow(b);
    ProductAtMost(x, y, b);
    ProductAtMost(b, x, a);
    assert b * x == x * b && b * a == a * b;
    if x * y == a * b && b > 0 {
      Cancels(b, x, a);
      Cancels(a, y, b);
    }
  }

  lemma {:induction false} Cancels(k: nat, x: nat, y: nat)
    requires k > 0 && x <= y
    ensures k * x == k * y ==> x == y
  {
    if x < y { ProductAtMost(k, x + 1, y); }
  }

  lemma {:induction false} BuildAt(ms: seq<Member>, i: nat)
    requires WellPlaced(ms) && i < |ms|
    ensures Build(ms)[i] == EntryAt(ms, i)
  {
    hide WellPlaced, EntryAt;
  }

  lemma {:induction false} EntryIs(ms: seq<Member>, i: nat)
    requires WellPlaced(ms) && i < |ms|
    ensures Build(ms)[i] == EntryMacro(ms[i], ms[if i == 0 then 0 else i - 1])
  {
    hide EntryMacro, WellPlaced, Build;
    BuildAt(ms, i);
  }

  lemma {:induction false} MacroAdvance(m: Member, prev: Member)
    requires SizesAgree(m)
    ensures Advance(EntryMacro(m, prev)) <= m.size
    ensures Advance(EntryMacro(m, prev)) == m.size <==> SizeFits(m)
  {
    hide DataOffsetMacro, Signed, Narrow;
    if m.StaticArray() {
      EntriesFill(m.itemSize, m.size);
      ProductWraps(m.itemSize, m.size / m.itemSize);
    }
  }

  lemma {:induction false} EntriesFill(item: nat, size: nat)
    requires item > 0 && size % item == 0
    ensures item * (size / item) == size
  {
  }

  lemma {:induction false} AdvanceAtMost(ms: seq<Member>, i: nat)
    requires WellPlaced(ms) && i < |ms|
    ensures Advance(Build(ms)[i]) <= ms[i].size
    ensures Advance(Build(ms)[i]) == ms[i].size <==> SizeFits(ms[i])
  {
    EntryIs(ms, i);
    assert SizesAgree(ms[i]);
    hide *;
    MacroAdvance(ms[i], ms[if i == 0 then 0 else i - 1]);
  }

  /** What sharing asks of an entry, in terms of the members. */
  lemma {:induction false} EntryShares(ms: seq<Member>, i: nat)
    requires WellPlaced(ms) && i < |ms|
    ensures SharesStorage(Build(ms), i) <==>
            i > 0 && ms[i-1].htype.OneOf? && ms[i].htype.OneOf?
            && Narrow(DataOffsetMacro(ms[i], ms[i-1])) == PB_SIZE_MAX
    ensures i == 0 ==> Build(ms)[0].dataOffset == Narrow(ms[0].offset)
    ensures i > 0 && ms[i].placement.Other? ==>
              assert PlacedAt(ms, i); Build(ms)[i].dataOffset == Narrow(Gap(ms, i))
  {
    hide Signed, Build, Narrow;
    EntryIs(ms, i);
    assert PlacedAt(ms, i) && SizesAgree(ms[i]);
    assert Build(ms)[i].dataOffset == Narrow(DataOffsetMacro(ms[i], ms[if i == 0 then 0 else i - 1]));
    if i > 0 {
      EntryIs(ms, i - 1);
      assert SizesAgree(ms[i-1]);
      assert Build(ms)[i-1].htype == ms[i-1].htype;
    }
  }

  lemma {:induction false} SharingIs(ms: seq<Member>, i: nat)
    requires WellPlaced(ms) && i < |ms|
    ensures ms[i].placement.InUnion? || Collides(ms, i) ==> SharesStorage(Build(ms), i)
    ensures SharesStorage(Build(ms), i) ==>
              ms[i].placement.InUnion? ||
              (i > 0 && ms[i].placement.Other? && (assert PlacedAt(ms, i); Narrow(Gap(ms, i)) == PB_SIZE_MAX))
    ensures SharesStorage(Build(ms), i) && StepFits(ms, i) ==> ms[i].placement.InUnion?
  {
    hide Narrow, Build, SharesStorage, SizeFits;
    assert PlacedAt(ms, i);
    assert Narrow(PB_SIZE_MAX) == PB_SIZE_MAX;
    EntryShares(ms, i);
  }

  /** The walk never gets ahead of offsetof, and keeps up with it as long as every step
      fits. */
  lemma {:induction false} WalkAtMost(ms: seq<Member>, i: nat)
    requires WellPlaced(ms) && i < |ms|
    ensures DataOffset(Build(ms), i) <= ms[i].offset
    ensures DataOffset(Build(ms), i) == ms[i].offset <==> forall j :: 0 <= j <= i ==> StepFits(ms, j)
  {
    hide *;
    if i == 0 {
      FirstAtMost(ms);
    } else {
      WalkAtMost(ms, i - 1);
      StepAtMost(ms, i);
      assert (forall j :: 0 <= j <= i ==> StepFits(ms, j))
        <==> (forall j :: 0 <= j <= i - 1 ==> StepFits(ms, j)) && StepFits(ms, i);
    }
  }

  lemma {:induction false} FirstAtMost(ms: seq<Member>)
    requires WellPlaced(ms) && ms != []
    ensures DataOffset(Build(ms), 0) <= ms[0].offset
    ensures DataOffset(Build(ms), 0) == ms[0].offset <==> StepFits(ms, 0)
  {
    EntryShares(ms, 0);
    hide Build, SharesStorage, Narrow, WellPlaced;
  }

  lemma {:induction false} StepAtMost(ms: seq<Member>, i: nat)
    requires WellPlaced(ms) && 0 < i < |ms| && DataOffset(Build(ms), i - 1) <= ms[i-1].offset
    ensures DataOffset(Build(ms), i) <= ms[i].offset
    ensures DataOffset(Build(ms), i) == ms[i].offset <==>
            DataOffset(Build(ms), i - 1) == ms[i-1].offset && StepFits(ms, i)
  {
    assert PlacedAt(ms, i);
    hide Build, Advance, SizeFits, SharesStorage, Narrow, WellPlaced;
    SharingIs(ms, i);
    if !SharesStorage(Build(ms), i) {
      AdvanceAtMost(ms, i - 1);
      EntryShares(ms, i);
    }
  }

  /** Where the step fits, storage is shared with the member before inside a union only. */
  lemma {:induction false} FittingShares(ms: seq<Member>, i: nat)
    requires WellPlaced(ms) && i < |ms| && StepFits(ms, i)
    ensures SharesStorage(Build(ms), i) ==>
              i > 0 && ms[i].offset == ms[i-1].offset && ms[i].companion == ms[i-1].companion
  {
    SharingIs(ms, i);
    assert PlacedAt(ms, i);
    hide Build, StepFits, SharesStorage, WellPlaced;
  }

  lemma {:induction false} SameCompanion(m: Member, n: Member)
    requires m.offset == n.offset && m.companion == n.companion
    ensures Companion(m) == Companion(n) && (CompanionFits(m) <==> CompanionFits(n))
  {
  }

  lemma {:induction false} EntryCompanion(ms: seq<Member>, i: nat)
    requires WellPlaced(ms) && i < |ms|
    ensures ms[i].offset + Build(ms)[i].sizeOffset == Companion(ms[i]) <==> CompanionFits(ms[i])
  {
    hide Build, WellPlaced, DataOffsetMacro, Narrow, Signed;
    EntryIs(ms, i);
    if ms[i].companion.Some? { DeltaFits(ms[i].companion.value - ms[i].offset); }
  }

  lemma {:induction false} SizeOffsetStep(d: Descriptor, i: nat)
    requires i < |d|
    ensures SizeOffset(d, i) ==
            if SharesStorage(d, i) then SizeOffset(d, i - 1) else DataOffset(d, i) + d[i].sizeOffset
  {
  }

  /** The iterator computes offsetof of every member up to i, and of its companion, when every
      step and the distance to the companion fit. */
  lemma {:induction false} WalkIsLookup(ms: seq<Member>, i: nat)
    requires WellPlaced(ms) && i < |ms|
    requires forall j :: 0 <= j <= i ==> StepFits(ms, j)
    ensures DataOffset(Build(ms), i) == ms[i].offset
    ensures SizeOffset(Build(ms), i) == Companion(ms[i]) <==> CompanionFits(ms[i])
  {
    WalkAtMost(ms, i);
    SizeOffsetStep(Build(ms), i);
    hide *;
    assert StepFits(ms, i);
    FittingShares(ms, i);
    if SharesStorage(Build(ms), i) {
      WalkIsLookup(ms, i - 1);
      SameCompanion(ms[i], ms[i-1]);
    } else {
      EntryCompanion(ms, i);
    }
  }

  lemma {:induction false} DeltaFits(n: int)
    ensures Signed(n, 4) == n <==> -0x8000_0000 <= n < 0x8000_0000
  {
    if -0x8000_0000 <= n < 0x8000_0000 { SignedOfRange(n, 4); }
  }

  /** Once a step does not fit, that member and every later one is looked for too early. */
  lemma {:induction false} MisfitMisplaces(ms: seq<Member>, i: nat, j: nat)
    requires WellPlaced(ms) && i <= j < |ms| && !StepFits(ms, i)
    ensures DataOffset(Build(ms), j) < ms[j].offset
  {
    WalkAtMost(ms, j);
  }

  /** The iterator finds every member where the compiler put it exactly when every step fits:
      no size and no padding needs more than 32 bits before a member that comes after it,
      and no union is mistaken for a continuation of the one before it. */
  lemma {:induction false} OffsetsCorrectIff(ms: seq<Member>)
    requires WellPlaced(ms)
    ensures (forall i :: 0 <= i < |ms| ==> DataOffset(Build(ms), i) == ms[i].offset)
       <==> (forall i :: 0 <= i < |ms| ==> StepFits(ms, i))
  {
    forall i | 0 <= i < |ms|
      ensures DataOffset(Build(ms), i) == ms[i].offset <==> forall j :: 0 <= j <= i ==> StepFits(ms, j)
    {
      WalkAtMost(ms, i);
    }
    hide StepFits, DataOffset;
  }

  /** And it finds every companion too exactly when the distances also fit. */
  lemma {:induction false} CompanionsCorrectIff(ms: seq<Member>)
    requires WellPlaced(ms) && forall i :: 0 <= i < |ms| ==> StepFits(ms, i)
    ensures (forall i :: 0 <= i < |ms| ==> SizeOffset(Build(ms), i) == Companion(ms[i]))
       <==> (forall i :: 0 <= i < |ms| ==> CompanionFits(ms[i]))
  {
    forall i | 0 <= i < |ms| ensures SizeOffset(Build(ms), i) == Companion(ms[i]) <==> CompanionFits(ms[i]) {
      WalkIsLookup(ms, i);
    }
    hide CompanionFits, Companion, SizeOffset;
  }

  // ----- Layouts where it goes wrong -----

  /** Two unions with nothing between them but PB_SIZE_MAX bytes, that is almost 4 GiB, of
      padding. */
  function FarUnions(): seq<Member> {
    [Member(1, LType.Fixed32, OneOf, Static, First, 8, 4, 4, Some(0), Null),
     Member(2, LType.Fixed32, OneOf, Static, Other, 12 + PB_SIZE_MAX, 4, 4, Some(8 + PB_SIZE_MAX), Null)]
  }

  lemma {:induction false} FarUnionsCollide()
    ensures WellPlaced(FarUnions()) && Collides(FarUnions(), 1) && CompanionFits(FarUnions()[1])
    ensures DataOffset(Build(FarUnions()), 1) == 8
  {
    var ms := FarUnions();
    assert WellPlaced(ms);
    SharingIs(ms, 1);
    WalkIsLookup(ms, 0);
  }

  /** Inline bytes of more than 4 GiB in front of a bool. */
  function BigBytes(): seq<Member> {
    [Member(1, LType.FixedLengthBytes, Required, Static, First, 0, 0x1_0000_0008, 1, None, Null),
     Member(2, LType.Bool, Required, Static, Other, 0x1_0000_0008, 1, 1, None, Null)]
  }

  lemma {:induction false} BigBytesTruncated()
    ensures WellPlaced(BigBytes()) && !SizeFits(BigBytes()[0])
    ensures DataOffset(Build(BigBytes()), 1) == 8
  {
    var ms := BigBytes();
    assert WellPlaced(ms);
    SharingIs(ms, 1);
    WalkIsLookup(ms, 0);
  }

  /** A count that is more than 2 GiB in front of its array. */
  function FarCount(): seq<Member> {
    [Member(1, LType.Bool, Repeated, Static, First, 0x8000_0001, 8, 1, Some(0), Null)]
  }

  lemma {:induction false} FarCountMissed()
    ensures WellPlaced(FarCount()) && StepFits(FarCount(), 0) && SizeOffset(Build(FarCount()), 0) != 0
  {
    assert WellPlaced(FarCount());
    WalkIsLookup(FarCount(), 0);
  }

  // ----- Slots are storage -----

  /** Every step fits, so no two unions are taken for one. */
  predicate Walkable(ms: seq<Member>)
    requires WellPlaced(ms)
  {
    forall i :: 0 <= i < |ms| ==> StepFits(ms, i)
  }

  /** Members do not overlap, except inside a union. */
  predicate Disjoint(ms: seq<Member>)
    requires WellPlaced(ms)
  {
    forall i, j :: 0 <= i < j < |ms| && Home(Build(ms), i) != Home(Build(ms), j) ==>
      ms[i].offset + ms[i].size <= ms[j].offset
  }

  lemma {:induction false} HomeStep(d: Descriptor, i: nat)
    ensures Home(d, i) == if SharesStorage(d, i) then Home(d, i - 1) else i
  {
  }

  lemma {:induction false} HomeOffset(ms: seq<Member>, i: nat)
    requires WellPlaced(ms) && i < |ms| && Walkable(ms)
    ensures ms[Home(Build(ms), i)].offset == ms[i].offset
  {
    HomeStep(Build(ms), i);
    assert StepFits(ms, i);
    hide Build, StepFits, SharesStorage, WellPlaced, Home;
    FittingShares(ms, i);
    if SharesStorage(Build(ms), i) { HomeOffset(ms, i - 1); }
  }

  /** Two fields have the same data address exactly when they share a slot. */
  lemma {:induction false} SlotIsAddress(ms: seq<Member>, i: nat, j: nat)
    requires WellPlaced(ms) && Disjoint(ms) && Walkable(ms) && i < |ms| && j < |ms|
    requires forall k :: 0 <= k < |ms| ==> ms[k].size > 0
    ensures DataOffset(Build(ms), i) == DataOffset(Build(ms), j) <==> Home(Build(ms), i) == Home(Build(ms), j)
  {
    WalkIsLookup(ms, i);
    WalkIsLookup(ms, j);
    HomeOffset(ms, i);
    HomeOffset(ms, j);
  }
}
