/** What a receiver may rely on however a sender splits or extends its records. */
module WireLaws {
  import opened Basics
  import opened Pb
  import opened Wire
  import opened DecodeSpec
  import opened EncodeSpec
  import opened Records
  import opened Merge
  import opened RoundTrip
  import FixedArrays

  // ----- Unknown fields -----

  /** The bytes of one value of a wire type, by the wire format alone. */
  predicate WireValue(wireType: nat, body: seq<byte>) {
    match wireType
    case 0 => Terminator(body) == Some(|body| - 1)
    case 1 => |body| == 8
    case 2 => DecodeVarint32(body).Done? && |DecodeVarint32(body).rest| == DecodeVarint32(body).value
    case 5 => |body| == 4
    case _ => false
  }

  /** Skipping consumes exactly one value of the wire type. */
  lemma {:induction false} SkipsOneValue(wireType: nat, body: seq<byte>, t: seq<byte>)
    ensures Skip(wireType, body) == Done((), []) <==> WireValue(wireType, body)
    ensures WireValue(wireType, body) ==> Skip(wireType, body + t) == Done((), t)
  {
    ExtendSkip(wireType, body, t);
    assert [] + t == t;
    hide DecodeVarint32, Terminator;
  }

  /** Part of a message: bytes the receiver may know, or a record with a tag that its
      descriptor does not have. */
  datatype Piece = Known(bytes: seq<byte>) | Unknown(tag: nat, wireType: nat, body: seq<byte>)
  {
    function Bytes(): seq<byte> {
      if Known? then bytes else TagBytes(tag, wireType) + body
    }
  }

  function AllBytes(ps: seq<Piece>): seq<byte> {
    if ps == [] then [] else ps[0].Bytes() + AllBytes(ps[1..])
  }

  function KnownBytes(ps: seq<Piece>): seq<byte> {
    if ps == [] then []
    else (if ps[0].Known? then ps[0].bytes else []) + KnownBytes(ps[1..])
  }

  /** Unknown records are well formed, and known bytes end where a record ends. */
  ghost predicate Separated(d: Descriptor, st: State, ps: seq<Piece>)
    decreases |ps|
  {
    ps != [] ==>
      match ps[0]
      case Known(bs) =>
        var r := DecodeLoop(d, st, bs);
        r.Ran? && !r.terminated && Separated(d, r.st, ps[1..])
      case Unknown(tag, wireType, body) =>
        && 1 <= tag < 0x2000_0000 && wireType < 8 && FindTag(d, tag).None?
        && WireValue(wireType, body)
        && Separated(d, st, ps[1..])
  }

  lemma {:induction false} SkipUnknown(d: Descriptor, st: State, tag: nat, wireType: nat, body: seq<byte>, t: seq<byte>)
    requires 1 <= tag < 0x2000_0000 && wireType < 8 && FindTag(d, tag).None? && WireValue(wireType, body)
    ensures DecodeLoop(d, st, TagBytes(tag, wireType) + body + t) == DecodeLoop(d, st, t)
  {
    hide WireValue, DecodeLoop, Skip, FindTag, TagBytes;
    SkipsOneValue(wireType, body, t);
    LoopOne(d, tag, wireType, body, t, st, st);
  }

  /** Unknown fields are transparent: wherever records with unknown tags are inserted
      between the records of a message, and whatever follows, decoding gives the same
      outcome as without them. */
  lemma {:induction false} UnknownTransparent(d: Descriptor, st: State, ps: seq<Piece>, t: seq<byte>)
    requires Separated(d, st, ps)
    ensures DecodeLoop(d, st, AllBytes(ps) + t) == DecodeLoop(d, st, KnownBytes(ps) + t)
    decreases |ps|
  {
    hide DecodeLoop, WireValue, TagBytes, FindTag;
    if ps != [] {
      var all, known := AllBytes(ps[1..]) + t, KnownBytes(ps[1..]) + t;
      assert AllBytes(ps) + t == ps[0].Bytes() + all;
      match ps[0]
      case Known(bs) =>
        assert KnownBytes(ps) + t == bs + known;
        hide AllBytes, KnownBytes;
        var r := DecodeLoop(d, st, bs);
        UnknownTransparent(d, r.st, ps[1..], t);
        LoopConcat(d, st, bs, all);
        LoopConcat(d, st, bs, known);
      case Unknown(tag, wireType, body) =>
        assert KnownBytes(ps) + t == known;
        hide AllBytes, KnownBytes;
        UnknownTransparent(d, st, ps[1..], t);
        SkipUnknown(d, st, tag, wireType, body, all);
    }
  }

  /** The same for a whole message. */
  lemma {:induction false} UnknownFieldsIgnored(d: Descriptor, slots: seq<Slot>, ps: seq<Piece>)
    requires Separated(d, Start(slots), ps)
    ensures DecodeNoInit(d, slots, AllBytes(ps)) == DecodeNoInit(d, slots, KnownBytes(ps))
  {
    hide DecodeLoop, Separated, Accepts;
    UnknownTransparent(d, Start(slots), ps, []);
    assert AllBytes(ps) + [] == AllBytes(ps) && KnownBytes(ps) + [] == KnownBytes(ps);
  }

  // ----- Embedded messages merge -----

  /** A record of a length-delimited field. */
  function Delimited(f: Field, payload: seq<byte>): seq<byte> {
    TagBytes(f.tag, WT_STRING) + Prefixed(payload)
  }

  /** How field i, a singular submessage, changes the state when its payload decodes. */
  lemma {:induction false} SubmessageRecord(d: Descriptor, i: nat, st: State, payload: seq<byte>, t: seq<byte>)
    requires WellFormed(d) && i < |d| && d[i].ltype.Submessage? && !d[i].htype.Repeated?
    requires d[i].htype.OneOf? ==> UnionReleasable(d, SlotAt(st.slots, Home(d, i)).Which(), d[i].tag)
    requires |payload| < U32
    requires DecodeNoInit(d[i].Sub(), SlotsOf(OldValue(d, i, st)), payload).Done?
    ensures DecodeLoop(d, st, Delimited(d[i], payload) + t) ==
            DecodeLoop(d, AfterSingular(d, i, st, Struct(DecodeNoInit(d[i].Sub(), SlotsOf(OldValue(d, i, st)),
                payload).value)), t)
  {
    var f := d[i];
    var v := Struct(DecodeNoInit(f.Sub(), SlotsOf(OldValue(d, i, st)), payload).value);
    assert WellFormedField(f);
    TagRange(d, i);
    hide WellFormed, WellFormedField, DecodeLoop, DecodeNoInit, UnionReleasable, OldValue, AfterSingular,
        Substream, Prefixed, TagBytes;
    SubstreamRoundTrip(payload, t);
    assert DecodeValue(f, OldValue(d, i, st), Prefixed(payload) + t) == Done(v, t);
    SingularRecord(d, i, WT_STRING, st, Prefixed(payload) + t, t, v);
    LoopOne(d, f.tag, WT_STRING, Prefixed(payload), t, st, AfterSingular(d, i, st, v));
  }

  /** Both payloads decode, one over the other, and the second begins its fixed-count
      arrays elsewhere than the first ended. */
  ghost predicate PayloadsMerge(f: Field, old_: seq<Slot>, p: seq<byte>, q: seq<byte>) {
    FixedArrays.Continues(f.Sub(), old_, p, q) && FixedArrays.StartsElsewhere(f.Sub(), old_, p, q)
  }

  /** Two records of one embedded message merge like one record with both payloads. */
  lemma {:induction false} EmbeddedMerge(d: Descriptor, i: nat, st: State, p: seq<byte>, q: seq<byte>, t: seq<byte>)
    requires WellFormed(d) && i < |d| && d[i].ltype.Submessage? && !d[i].htype.Repeated?
    requires Home(d, i) < |st.slots|
    requires d[i].htype.OneOf? ==> UnionReleasable(d, SlotAt(st.slots, Home(d, i)).Which(), d[i].tag)
    requires |p| + |q| < U32
    ensures PayloadsMerge(d[i], SlotsOf(OldValue(d, i, st)), p, q) ==>
              DecodeLoop(d, st, Delimited(d[i], p) + (Delimited(d[i], q) + t)) ==
              DecodeLoop(d, st, Delimited(d[i], p + q) + t)
  {
    var f, old_ := d[i], SlotsOf(OldValue(d, i, st));
    if PayloadsMerge(f, old_, p, q) {
      var v1 := DecodeNoInit(f.Sub(), old_, p).value;
      var v2 := DecodeNoInit(f.Sub(), v1, q).value;
      var st1 := AfterSingular(d, i, st, Struct(v1));
      MergedValue(d, i, st, Struct(v1));
      hide WellFormed, DecodeLoop, DecodeNoInit, Delimited, UnionReleasable, OldValue, AfterSingular,
          FixedArrays.StartsElsewhere;
      FixedArrays.ConcatMerges(f.Sub(), old_, p, q);
      SubmessageRecord(d, i, st, p, Delimited(f, q) + t);
      SubmessageRecord(d, i, st1, q, t);
      SubmessageRecord(d, i, st, p + q, t);
      SingularTwice(d, i, st, Struct(v1), Struct(v2));
    }
  }

  /** After a record of field i, the next one is decoded over the value just stored. */
  lemma {:induction false} MergedValue(d: Descriptor, i: nat, st: State, v: Value)
    requires i < |d| && !d[i].htype.Repeated? && Home(d, i) < |st.slots|
    ensures var st1 := AfterSingular(d, i, st, v);
      && OldValue(d, i, st1) == v
      && (d[i].htype.OneOf? ==> UnionReleasable(d, SlotAt(st1.slots, Home(d, i)).Which(), d[i].tag))
  {
  }

  /** The last value stored by field i wins. */
  lemma {:induction false} SingularTwice(d: Descriptor, i: nat, st: State, v: Value, w: Value)
    requires i < |d|
    ensures AfterSingular(d, i, AfterSingular(d, i, st, v), w) == AfterSingular(d, i, st, w)
  {
    var h := Home(d, i);
    if h < |st.slots| {
      assert st.slots[h := Stored(d[i], v)][h := Stored(d[i], w)] == st.slots[h := Stored(d[i], w)];
    }
  }

  // ----- The last scalar wins -----

  lemma {:induction false} ScalarRecord(d: Descriptor, i: nat, wireType: nat, st: State, body: seq<byte>, v: Value,
        t: seq<byte>)
    requires WellFormed(d) && i < |d| && !d[i].ltype.Submessage? && !d[i].htype.Repeated? && wireType < 8
    requires d[i].htype.OneOf? ==> UnionReleasable(d, SlotAt(st.slots, Home(d, i)).Which(), d[i].tag)
    requires DecodeScalar(d[i], body) == Done(v, [])
    ensures DecodeLoop(d, st, TagBytes(d[i].tag, wireType) + body + t) == DecodeLoop(d, AfterSingular(d, i, st, v), t)
  {
    TagRange(d, i);
    hide WellFormed, DecodeLoop, DecodeScalar, UnionReleasable, OldValue, AfterSingular, TagBytes;
    ExtendScalar(d[i], body, t);
    assert [] + t == t;
    assert DecodeValue(d[i], OldValue(d, i, st), body + t) == Done(v, t);
    SingularRecord(d, i, wireType, st, body + t, t, v);
    LoopOne(d, d[i].tag, wireType, body, t, st, AfterSingular(d, i, st, v));
  }

  /** Of two values for one singular scalar field, only the last one has an effect. */
  lemma {:induction false} LastOneWins(d: Descriptor, i: nat, wireType: nat, st: State, x: seq<byte>, v: Value,
        y: seq<byte>, w: Value, t: seq<byte>)
    requires WellFormed(d) && i < |d| && !d[i].ltype.Submessage? && !d[i].htype.Repeated? && wireType < 8
    requires Home(d, i) < |st.slots|
    requires d[i].htype.OneOf? ==> UnionReleasable(d, SlotAt(st.slots, Home(d, i)).Which(), d[i].tag)
    ensures DecodeScalar(d[i], x) == Done(v, []) && DecodeScalar(d[i], y) == Done(w, []) ==>
              DecodeLoop(d, st, TagBytes(d[i].tag, wireType) + x + (TagBytes(d[i].tag, wireType) + y + t)) ==
              DecodeLoop(d, st, TagBytes(d[i].tag, wireType) + y + t)
  {
    var st1 := AfterSingular(d, i, st, v);
    MergedValue(d, i, st, v);
    hide WellFormed, DecodeLoop, DecodeScalar, UnionReleasable, OldValue, AfterSingular, TagBytes;
    if DecodeScalar(d[i], x) == Done(v, []) && DecodeScalar(d[i], y) == Done(w, []) {
      ScalarRecord(d, i, wireType, st, x, v, TagBytes(d[i].tag, wireType) + y + t);
      ScalarRecord(d, i, wireType, st1, y, w, t);
      ScalarRecord(d, i, wireType, st, y, w, t);
      SingularTwice(d, i, st, v, w);
    }
  }

  // ----- The last member of a union wins -----

  /** No member of the union is active, or one that the descriptor has. */
  predicate UnionSound(d: Descriptor, slot: Slot) {
    slot.Which() == 0 || exists k :: 0 <= k < |d| && Matches(d[k], slot.Which())
  }

  lemma {:induction false} SoundReleasable(d: Descriptor, slot: Slot, tag: nat)
    requires UnionSound(d, slot)
    ensures UnionReleasable(d, slot.Which(), tag)
  {
  }

  /** What the union holds in another member makes no difference to a record of member i: a
      submessage starts from its defaults. */
  lemma {:induction false} UnionSwitch(d: Descriptor, i: nat, wireType: nat, st: State, s: seq<byte>)
    requires WellFormed(d) && i < |d| && d[i].htype.OneOf? && Home(d, i) < |st.slots|
    requires var slot := st.slots[Home(d, i)]; UnionSound(d, slot) && slot.Which() != d[i].tag
    ensures DecodeRecord(d, d[i].tag, wireType, st, s) ==
            DecodeRecord(d, d[i].tag, wireType, st.(slots := Put(st.slots, Home(d, i), Union(0, Undefined))), s)
  {
    var f, h := d[i], Home(d, i);
    var slot, st0 := st.slots[h], st.(slots := Put(st.slots, h, Union(0, Undefined)));
    FindUnique(d, i);
    assert WellFormedField(f);
    SoundReleasable(d, slot, f.tag);
    assert SlotAt(st0.slots, h) == Union(0, Undefined);
    BaseIrrelevant(f, slot, s);
    hide WellFormed, WellFormedField, DecodeValue, UnionReleasable, UnionBase, FindTag, Home;
    assert UnionReleasable(d, 0, f.tag) by { SoundReleasable(d, Union(0, Undefined), f.tag); }
    assert forall v: Slot :: Put(Put(st.slots, h, Union(0, Undefined)), h, v) == Put(st.slots, h, v);
  }

  /** A union whose which_ member names no field cannot be released, so no record of it is
      decoded. */
  lemma {:induction false} StaleUnionRefused(d: Descriptor, i: nat, wireType: nat, st: State, s: seq<byte>)
    requires WellFormed(d) && i < |d| && d[i].htype.OneOf? && Home(d, i) < |st.slots|
    requires var slot := st.slots[Home(d, i)]; !UnionSound(d, slot) && slot.Which() != d[i].tag
    ensures DecodeRecord(d, d[i].tag, wireType, st, s).Fail?
  {
    FindUnique(d, i);
    hide WellFormed, DecodeValue, UnionBase, Home;
  }

  lemma {:induction false} BaseIrrelevant(f: Field, slot: Slot, s: seq<byte>)
    requires slot.Which() != f.tag && f.tag != 0
    ensures DecodeValue(f, UnionBase(f, slot), s) == DecodeValue(f, UnionBase(f, Union(0, Undefined)), s)
  {
    hide DecodeScalar, Substream, DecodeNoInit, DefaultValue;
  }

  /** Of two records of scalar members of one union only the last one has an effect. */
  lemma {:induction false} LastMemberWins(d: Descriptor, i: nat, j: nat, wi: nat, wj: nat, st: State, x: seq<byte>,
        v: Value, y: seq<byte>, w: Value, t: seq<byte>)
    requires WellFormed(d) && i < |d| && j < |d| && d[i].htype.OneOf? && Home(d, i) == Home(d, j) < |st.slots|
    requires !d[i].ltype.Submessage? && !d[j].ltype.Submessage? && wi < 8 && wj < 8
    requires UnionSound(d, st.slots[Home(d, i)])
    ensures DecodeScalar(d[i], x) == Done(v, []) && DecodeScalar(d[j], y) == Done(w, []) ==>
              DecodeLoop(d, st, TagBytes(d[i].tag, wi) + x + (TagBytes(d[j].tag, wj) + y + t)) ==
              DecodeLoop(d, st, TagBytes(d[j].tag, wj) + y + t)
  {
    var h, st1 := Home(d, i), AfterSingular(d, i, st, v);
    HomeKind(d, i);
    HomeKind(d, j);
    SoundReleasable(d, st.slots[h], d[i].tag);
    SoundReleasable(d, st.slots[h], d[j].tag);
    assert WellFormedField(d[i]);
    assert st1.slots[h] == Union(d[i].tag, v);
    assert Matches(d[i], d[i].tag);
    SoundReleasable(d, st1.slots[h], d[j].tag);
    assert AfterSingular(d, j, st1, w) == AfterSingular(d, j, st, w) by {
      assert st.slots[h := Union(d[i].tag, v)][h := Union(d[j].tag, w)] == st.slots[h := Union(d[j].tag, w)];
    }
    hide WellFormed, DecodeLoop, DecodeScalar, UnionReleasable, AfterSingular, TagBytes, UnionSound, WellFormedField,
         Home;
    if DecodeScalar(d[i], x) == Done(v, []) && DecodeScalar(d[j], y) == Done(w, []) {
      ScalarRecord(d, i, wi, st, x, v, TagBytes(d[j].tag, wj) + y + t);
      ScalarRecord(d, j, wj, st1, y, w, t);
      ScalarRecord(d, j, wj, st, y, w, t);
    }
  }

  // ----- Packed and unpacked arrays agree -----

  /** Part of an array on the wire: a packed record with any number of entries, or a record
      with one entry. */
  datatype Chunk = Packed(values: seq<Value>) | Lone(value: Value)
  {
    function Values(): seq<Value> { if Packed? then values else [value] }
  }

  ghost predicate ValidChunk(f: Field, c: Chunk) {
    && (forall j :: 0 <= j < |c.Values()| ==> ValidScalar(f, c.Values()[j]))
    && Fits(EncodeItems(f, [], c.Values()))
  }

  ghost function ChunkBytes(f: Field, c: Chunk): seq<byte> {
    var e := EncodeItems(f, [], c.Values());
    if e.Error? then []
    else if c.Packed? then TagBytes(f.tag, WT_STRING) + Prefixed(e.bytes)
    else FieldTag(f) + e.bytes
  }

  ghost function ChunksBytes(f: Field, cs: seq<Chunk>): seq<byte> {
    if cs == [] then [] else ChunkBytes(f, cs[0]) + ChunksBytes(f, cs[1..])
  }

  /** The entries that some chunks carry. */
  function AllValues(cs: seq<Chunk>): seq<Value> {
    if cs == [] then [] else cs[0].Values() + AllValues(cs[1..])
  }

  ghost predicate ChunksReady(d: Descriptor, i: nat, st: State, st1: State, acc: seq<Value>, k: nat, cs: seq<Chunk>) {
    && WellFormed(d) && i < |d| && d[i].htype.Repeated? && d[i].ltype.Packable()
    && EnterFixed(d, i, st) == Some(st1) && AtEntry(d, i, st1, acc, k) && k <= d[i].arraySize
    && forall c :: 0 <= c < |cs| ==> ValidChunk(d[i], cs[c])
  }

  lemma {:induction false} LoneRecord(d: Descriptor, i: nat, st: State, st1: State, acc: seq<Value>, k: nat,
        v: Value, t: seq<byte>)
    requires i < |d| && d[i].htype.Repeated? && d[i].ltype.Packable() && k < d[i].arraySize
    requires WellFormed(d) && EnterFixed(d, i, st) == Some(st1) && AtEntry(d, i, st1, acc, k)
    requires ValidScalar(d[i], v)
    ensures EncodeValue(d[i], v).Ok?
    ensures DecodeLoop(d, st, FieldTag(d[i]) + EncodeValue(d[i], v).bytes + t) ==
            DecodeLoop(d, AfterArray(d, i, st1, PutItem(acc, k, NormValue(d[i], v)), k + 1), t)
  {
    var f, r := d[i], Filled(PutItem(acc, k, NormValue(d[i], v)), k + 1);
    TagRange(d, i);
    assert WellFormedField(f);
    hide WellFormed, WellFormedField, EnterFixed, DecodeScalar, EncodeValue, ValidScalar, NormValue, DecodeLoop;
    PackableScalar(f, v, t);
    var body := EncodeValue(f, v).bytes;
    assert DecodeRepeated(f, WireTypeOf(f.ltype), acc, k, body + t) == Done(r, t);
    ArrayRecord(d, i, WireTypeOf(f.ltype), st, st1, body + t, t, r);
    hide DecodeRepeated;
    LoopOne(d, f.tag, WireTypeOf(f.ltype), body, t, st, AfterArray(d, i, st1, r.items, r.count));
  }

  lemma {:induction false} OneItem(f: Field, v: Value)
    requires EncodeItems(f, [], [v]).Ok?
    ensures EncodeValue(f, v) == EncodeItems(f, [], [v])
    ensures forall acc, k: nat :: Fill(f, acc, k, [v]) == PutItem(acc, k, NormValue(f, v))
  {
    hide EncodeValue, NormValue;
    assert [v][1..] == [];
    assert EncodeItems(f, [], [v][1..]) == Ok([]);
    assert [] + EncodeValue(f, v).bytes + [] == EncodeValue(f, v).bytes;
  }

  /** One chunk stores its entries. */
  lemma {:induction false} ChunkRecord(d: Descriptor, i: nat, st: State, st1: State, acc: seq<Value>, k: nat,
        c: Chunk, t: seq<byte>)
    requires i < |d| && k + |c.Values()| <= d[i].arraySize
    requires ChunksReady(d, i, st, st1, acc, k, [c])
    ensures DecodeLoop(d, st, ChunkBytes(d[i], c) + t) ==
            DecodeLoop(d, AfterArray(d, i, st1, Fill(d[i], acc, k, c.Values()), k + |c.Values()|), t)
  {
    hide ChunksReady, DecodeLoop, ChunkBytes, ValidChunk, Fill, AfterArray;
    ChunkIsValid(d, i, st, st1, acc, k, c);
    match c
    case Packed(vs) => PackedChunk(d, i, st, st1, acc, k, vs, t);
    case Lone(v) => LoneChunk(d, i, st, st1, acc, k, v, t);
  }

  lemma {:induction false} ChunkIsValid(d: Descriptor, i: nat, st: State, st1: State, acc: seq<Value>, k: nat, c: Chunk)
    requires i < |d| && ChunksReady(d, i, st, st1, acc, k, [c])
    ensures ValidChunk(d[i], c)
  {
    assert [c][0] == c;
    hide WellFormed, EnterFixed, ValidChunk;
  }

  lemma {:induction false} PackedChunk(d: Descriptor, i: nat, st: State, st1: State, acc: seq<Value>, k: nat,
        vs: seq<Value>, t: seq<byte>)
    requires i < |d| && k + |vs| <= d[i].arraySize && ValidChunk(d[i], Packed(vs))
    requires ChunksReady(d, i, st, st1, acc, k, [Packed(vs)])
    ensures DecodeLoop(d, st, ChunkBytes(d[i], Packed(vs)) + t) ==
            DecodeLoop(d, AfterArray(d, i, st1, Fill(d[i], acc, k, vs), k + |vs|), t)
  {
    assert Packed(vs).Values() == vs;
    hide WellFormed, DecodeLoop, EncodeItems, Fill, ValidScalar, EnterFixed, AtEntry, AfterArray;
    assert PackedReady(d, i, st, st1, acc, k, vs);
    hide PackedReady;
    PackedRecord(d, i, st, st1, acc, k, vs, t);
  }

  lemma {:induction false} LoneChunk(d: Descriptor, i: nat, st: State, st1: State, acc: seq<Value>, k: nat, v: Value,
        t: seq<byte>)
    requires i < |d| && k < d[i].arraySize && ValidChunk(d[i], Lone(v))
    requires ChunksReady(d, i, st, st1, acc, k, [Lone(v)])
    ensures DecodeLoop(d, st, ChunkBytes(d[i], Lone(v)) + t) ==
            DecodeLoop(d, AfterArray(d, i, st1, Fill(d[i], acc, k, [v]), k + 1), t)
  {
    assert ValidScalar(d[i], Lone(v).Values()[0]);
    hide WellFormed, DecodeLoop, EncodeItems, Fill, ValidScalar, EnterFixed, AtEntry, EncodeValue, AfterArray,
        NormValue;
    OneItem(d[i], v);
    LoneRecord(d, i, st, st1, acc, k, v, t);
  }

  lemma {:induction false} FillAppend(f: Field, acc: seq<Value>, k: nat, a: seq<Value>, b: seq<Value>)
    ensures Fill(f, acc, k, a + b) == Fill(f, Fill(f, acc, k, a), k + |a|, b)
    decreases |a|
  {
    hide NormValue;
    if a == [] {
      assert a + b == b;
    } else {
      assert (a + b)[1..] == a[1..] + b;
      FillAppend(f, PutItem(acc, k, NormValue(f, a[0])), k + 1, a[1..], b);
    }
  }

  lemma {:induction false} FillLength(f: Field, acc: seq<Value>, k: nat, items: seq<Value>)
    ensures |acc| == k ==> |Fill(f, acc, k, items)| == k + |items|
    decreases |items|
  {
    hide NormValue;
    if items != [] { FillLength(f, PutItem(acc, k, NormValue(f, items[0])), k + 1, items[1..]); }
  }

  lemma {:induction false} ChunksStep(d: Descriptor, i: nat, st: State, st1: State, acc: seq<Value>, k: nat,
        cs: seq<Chunk>)
    requires i < |d| && cs != [] && ChunksReady(d, i, st, st1, acc, k, cs) && k + |cs[0].Values()| <= d[i].arraySize
    ensures ChunksReady(d, i, st, st1, acc, k, [cs[0]])
    ensures var vs := cs[0].Values();
            var acc', k' := Fill(d[i], acc, k, vs), k + |vs|;
            var st' := AfterArray(d, i, st1, acc', k');
            ChunksReady(d, i, st', st', acc', k', cs[1..])
  {
    FillLength(d[i], acc, k, cs[0].Values());
    hide WellFormed, ValidChunk, Fill;
  }

  /** Packed and unpacked agree: however the entries of an array are split over packed and
      unpacked records, the array receives the same contents and count. */
  lemma {:induction false} ChunksAgree(d: Descriptor, i: nat, st: State, st1: State, acc: seq<Value>, k: nat,
        cs: seq<Chunk>, t: seq<byte>)
    requires i < |d| && cs != [] && ChunksReady(d, i, st, st1, acc, k, cs)
    requires k + |AllValues(cs)| <= d[i].arraySize
    ensures DecodeLoop(d, st, ChunksBytes(d[i], cs) + t) ==
            DecodeLoop(d, AfterArray(d, i, st1, Fill(d[i], acc, k, AllValues(cs)), k + |AllValues(cs)|), t)
    decreases |cs|
  {
    hide DecodeLoop, ChunksReady, ChunkBytes, Fill, AfterArray;
    var f, vs := d[i], cs[0].Values();
    var acc', k' := Fill(f, acc, k, vs), k + |vs|;
    var st' := AfterArray(d, i, st1, acc', k');
    ChunksStep(d, i, st, st1, acc, k, cs);
    FillAppend(f, acc, k, vs, AllValues(cs[1..]));
    assert ChunksBytes(f, cs) + t == ChunkBytes(f, cs[0]) + (ChunksBytes(f, cs[1..]) + t);
    ChunkRecord(d, i, st, st1, acc, k, cs[0], ChunksBytes(f, cs[1..]) + t);
    if |cs| > 1 {
      ChunksAgree(d, i, st', st', acc', k', cs[1..], t);
      AfterTwice(d, i, st1, acc', k', Fill(f, acc', k', AllValues(cs[1..])), k + |AllValues(cs)|);
    } else {
      LastChunk(f, cs, acc', k');
      assert [] + t == t;
    }
  }

  lemma {:induction false} LastChunk(f: Field, cs: seq<Chunk>, acc: seq<Value>, k: nat)
    requires |cs| == 1
    ensures AllValues(cs) == cs[0].Values() && AllValues(cs[1..]) == [] && ChunksBytes(f, cs[1..]) == []
    ensures Fill(f, acc, k, []) == acc
  {
  }

  /** The outcome for an array with a _count member, spelled out. */
  lemma {:induction false} ChunksAppend(d: Descriptor, i: nat, st: State, acc: seq<Value>, cs: seq<Chunk>, t: seq<byte>)
    requires i < |d| && !d[i].FixedCount() && cs != [] && |acc| + |AllValues(cs)| <= d[i].arraySize
    requires ChunksReady(d, i, st, st, acc, |acc|, cs)
    ensures DecodeLoop(d, st, ChunksBytes(d[i], cs) + t) ==
            DecodeLoop(d, st.(slots := Put(st.slots, i, Arr(acc + NormItems(d[i], AllValues(cs))))), t)
  {
    var vs := AllValues(cs);
    hide DecodeLoop, ChunksReady, Fill, NormItems, ChunksBytes, AllValues;
    FillAll(d[i], acc, |acc|, vs);
    assert acc[..|acc|] == acc;
    ChunksAgree(d, i, st, st, acc, |acc|, cs, t);
  }

  /** Two senders that split one list of entries differently produce the same outcome. */
  lemma {:induction false} SplitIrrelevant(d: Descriptor, i: nat, st: State, acc: seq<Value>, cs: seq<Chunk>,
        cs': seq<Chunk>, t: seq<byte>)
    requires i < |d| && !d[i].FixedCount() && cs != [] && cs' != []
    requires AllValues(cs) == AllValues(cs') && |acc| + |AllValues(cs)| <= d[i].arraySize
    requires ChunksReady(d, i, st, st, acc, |acc|, cs) && ChunksReady(d, i, st, st, acc, |acc|, cs')
    ensures DecodeLoop(d, st, ChunksBytes(d[i], cs) + t) == DecodeLoop(d, st, ChunksBytes(d[i], cs') + t)
  {
    hide *;
    ChunksAppend(d, i, st, acc, cs, t);
    ChunksAppend(d, i, st, acc, cs', t);
  }

  // ----- Arrays that do not fit are rejected -----

  lemma {:induction false} PackedOverflow(f: Field, acc: seq<Value>, k: nat, items: seq<Value>)
    requires WellFormedField(f) && f.ltype.Packable() && k <= f.arraySize < k + |items|
    requires forall j :: 0 <= j < |items| ==> ValidScalar(f, items[j])
    ensures EncodeItems(f, [], items).Ok? && DecodePacked(f, EncodeItems(f, [], items).bytes, acc, k) == Overflow
    decreases |items|
  {
    hide WellFormedField, DecodeScalar, EncodeValue, ValidScalar, NormValue;
    var rest := EncodeItems(f, [], items[1..]);
    ItemsOk(f, items[1..]);
    PackableScalar(f, items[0], rest.bytes);
    assert EncodeItems(f, [], items).bytes == EncodeValue(f, items[0]).bytes + rest.bytes;
    if k < f.arraySize { PackedOverflow(f, PutItem(acc, k, NormValue(f, items[0])), k + 1, items[1..]); }
  }

  lemma {:induction false} ItemsOk(f: Field, items: seq<Value>)
    requires WellFormedField(f) && f.ltype.Packable()
    requires forall j :: 0 <= j < |items| ==> ValidScalar(f, items[j])
    ensures EncodeItems(f, [], items).Ok?
    decreases |items|
  {
    hide WellFormedField, ValidScalar, EncodeValue;
    if items != [] {
      PackableScalar(f, items[0], []);
      ItemsOk(f, items[1..]);
    }
  }

  lemma {:induction false} ArrayRecordFails(d: Descriptor, i: nat, wireType: nat, st: State, st1: State,
        acc: seq<Value>, k: nat, s: seq<byte>)
    requires i < |d| && d[i].htype.Repeated? && WellFormed(d)
    requires EnterFixed(d, i, st) == Some(st1) && AtEntry(d, i, st1, acc, k)
    requires DecodeRepeated(d[i], wireType, acc, k, s).Fail?
    ensures DecodeRecord(d, d[i].tag, wireType, st, s).Fail?
  {
    HomeKind(d, i);
    TagRange(d, i);
    FindUnique(d, i);
    hide WellFormed, DecodeRepeated, FindTag;
    assert MarkSeen(d, i, st1) == st1;
    assert DecodeStatic(d, i, wireType, st1, s).Fail?;
  }

  lemma {:induction false} LoopFails(d: Descriptor, tag: nat, wireType: nat, body: seq<byte>, t: seq<byte>, st: State)
    requires 1 <= tag < 0x2000_0000 && wireType < 8
    requires DecodeRecord(d, tag, wireType, st, body + t).Fail?
    ensures DecodeLoop(d, st, TagBytes(tag, wireType) + body + t).Stuck?
  {
    hide DecodeRecord, DecodeTag, TagBytes;
    TagRoundTrip(tag, wireType, body + t);
    assert TagBytes(tag, wireType) + body + t == TagBytes(tag, wireType) + (body + t);
    assert TagBytes(tag, wireType) + (body + t) != [];
  }

  /** The chunk that overflows the array stops decoding. */
  lemma {:induction false} ChunkOverflow(d: Descriptor, i: nat, st: State, st1: State, acc: seq<Value>, k: nat,
        c: Chunk, t: seq<byte>)
    requires i < |d| && k <= d[i].arraySize < k + |c.Values()|
    requires ChunksReady(d, i, st, st1, acc, k, [c])
    ensures DecodeLoop(d, st, ChunkBytes(d[i], c) + t).Stuck?
  {
    ChunkIsValid(d, i, st, st1, acc, k, c);
    var f := d[i];
    assert WellFormedField(f);
    TagRange(d, i);
    var e := EncodeItems(f, [], c.Values()).bytes;
    hide WellFormed, WellFormedField, EnterFixed, AtEntry, EncodeItems, ValidScalar, DecodeLoop, TagBytes,
        Prefixed, Substream;
    if c.Packed? {
      PackedOverflow(f, acc, k, c.values);
      SubstreamRoundTrip(e, t);
      hide DecodePacked;
      ArrayRecordFails(d, i, WT_STRING, st, st1, acc, k, Prefixed(e) + t);
      LoopFails(d, f.tag, WT_STRING, Prefixed(e), t, st);
    } else {
      assert DecodeRepeated(f, WireTypeOf(f.ltype), acc, k, e + t).Fail?;
      ArrayRecordFails(d, i, WireTypeOf(f.ltype), st, st1, acc, k, e + t);
      LoopFails(d, f.tag, WireTypeOf(f.ltype), e, t, st);
    }
  }

  /** Exactly the lists that fit array_size are accepted, however they are split. */
  lemma {:induction false} ChunksOverflow(d: Descriptor, i: nat, st: State, st1: State, acc: seq<Value>, k: nat,
        cs: seq<Chunk>, t: seq<byte>)
    requires i < |d| && cs != [] && ChunksReady(d, i, st, st1, acc, k, cs)
    requires k + |AllValues(cs)| > d[i].arraySize
    ensures DecodeLoop(d, st, ChunksBytes(d[i], cs) + t).Stuck?
    decreases |cs|
  {
    hide ChunksReady, DecodeLoop, ChunkBytes, Fill, AfterArray;
    var f, vs, rest := d[i], cs[0].Values(), ChunksBytes(d[i], cs[1..]) + t;
    assert ChunksBytes(f, cs) + t == ChunkBytes(f, cs[0]) + rest;
    assert |AllValues(cs)| == |vs| + |AllValues(cs[1..])|;
    assert |cs| == 1 ==> AllValues(cs[1..]) == [];
    FirstReady(d, i, st, st1, acc, k, cs);
    hide ChunksBytes, AllValues;
    if k + |vs| > f.arraySize {
      ChunkOverflow(d, i, st, st1, acc, k, cs[0], rest);
    } else {
      var acc', k' := Fill(f, acc, k, vs), k + |vs|;
      var st' := AfterArray(d, i, st1, acc', k');
      ChunksStep(d, i, st, st1, acc, k, cs);
      ChunkRecord(d, i, st, st1, acc, k, cs[0], rest);
      ChunksOverflow(d, i, st', st', acc', k', cs[1..], t);
    }
  }

  lemma {:induction false} FirstReady(d: Descriptor, i: nat, st: State, st1: State, acc: seq<Value>, k: nat,
        cs: seq<Chunk>)
    requires i < |d| && cs != [] && ChunksReady(d, i, st, st1, acc, k, cs)
    ensures k <= d[i].arraySize && ChunksReady(d, i, st, st1, acc, k, [cs[0]])
  {
    hide WellFormed, ValidChunk, EnterFixed;
  }
}
