/** The meaning of pb_decode.c as functions on byte sequences.  Decoder.dfy proves that the
    stream-based code computes these functions. */
module DecodeSpec {
  import opened Basics
  import opened Pb
  import opened Wire
  import opened Numbers

  const WT_VARINT: nat := 0
  const WT_64BIT: nat := 1
  const WT_STRING: nat := 2
  const WT_32BIT: nat := 5

  /** A parser that consumes at least one byte when it succeeds. */
  predicate Consumes<T>(p: Parse<T>, s: seq<byte>) {
    Leaves(p, s) && (p.Done? ==> |p.rest| < |s|)
  }

  // ----- Tags and skipping -----

  datatype TagResult = BadTag | EndOfMessage(rest: seq<byte>)
                     | Tag(tag: nat, wireType: nat, rest: seq<byte>)

  /** pb_decode_tag.  A zero tag ends the message. */
  function DecodeTag(s: seq<byte>): (r: TagResult)
    ensures r.Tag? ==> |r.rest| < |s|
    ensures r.EndOfMessage? ==> |r.rest| <= |s|
    ensures r.EndOfMessage? && s != [] ==> |r.rest| < |s|
  {
    if s == [] then EndOfMessage([])
    else
      match DecodeVarint32(s)
      case Fail => BadTag
      case Done(temp, rest) =>
        if temp == 0 then EndOfMessage(rest) else Tag(temp / 8, temp % 8, rest)
  }

  function TakeBytes(s: seq<byte>, n: nat): (p: Parse<seq<byte>>)
    ensures Leaves(p, s) && (p.Done? ==> s == p.value + p.rest && |p.value| == n)
  {
    if |s| < n then Fail else Done(s[..n], s[n..])
  }

  /** pb_make_string_substream: a length and that many bytes. */
  function Substream(s: seq<byte>): (p: Parse<seq<byte>>)
    ensures Consumes(p, s) && (p.Done? ==> |p.value| + |p.rest| < |s|)
  {
    match DecodeVarint32(s)
    case Fail => Fail
    case Done(size, rest) => TakeBytes(rest, size)
  }

  function SkipVarint(s: seq<byte>): (p: Parse<()>)
    ensures Leaves(p, s)
  {
    match Terminator(s)
    case None => Fail
    case Some(k) => Done((), s[k + 1..])
  }

  function Discard(p: Parse<seq<byte>>): Parse<()> {
    if p.Done? then Done((), p.rest) else Fail
  }

  /** pb_skip_field */
  function Skip(wireType: nat, s: seq<byte>): (p: Parse<()>)
    ensures Leaves(p, s)
  {
    if wireType == WT_VARINT then SkipVarint(s)
    else if wireType == WT_64BIT then Discard(TakeBytes(s, 8))
    else if wireType == WT_STRING then Discard(Substream(s))
    else if wireType == WT_32BIT then Discard(TakeBytes(s, 4))
    else Fail
  }

  // ----- Single values -----

  function Convert(f: Field, u: nat): Option<int> {
    if !IntegerSize(f.dataSize) then None
    else
      match f.ltype
      case UVarint => FromUVarint(u, f.dataSize)
      case SVarint => FromSVarint(u, f.dataSize)
      case _ => FromVarint(u, f.dataSize)
  }

  /** pb_dec_varint, pb_dec_uvarint and pb_dec_svarint */
  function DecodeInteger(f: Field, s: seq<byte>): (p: Parse<Value>)
    ensures Consumes(p, s)
  {
    match DecodeVarint(s)
    case Fail => Fail
    case Done(u, rest) =>
      var n := Convert(f, u);
      if n.Some? then Done(Num(n.value), rest) else Fail
  }

  function DecodeBool(s: seq<byte>): (p: Parse<Value>)
    ensures Consumes(p, s)
  {
    match DecodeVarint32(s)
    case Fail => Fail
    case Done(u, rest) => Done(Num(if u != 0 then 1 else 0), rest)
  }

  function DecodeFixed(s: seq<byte>, size: nat): (p: Parse<Value>)
    requires size > 0
    ensures Consumes(p, s)
  {
    match TakeBytes(s, size)
    case Fail => Fail
    case Done(bs, rest) => Done(Num(FromLE(bs)), rest)
  }

  /** pb_dec_bytes, into a struct of dataSize bytes that starts with the size member. */
  function DecodeBytes(s: seq<byte>, dataSize: nat): (p: Parse<Value>)
    ensures Consumes(p, s)
  {
    match DecodeVarint32(s)
    case Fail => Fail
    case Done(size, rest) =>
      if size > PB_SIZE_MAX || size + BYTES_HEADER > dataSize then Fail
      else
        match TakeBytes(rest, size)
        case Fail => Fail
        case Done(bs, rest') => Done(Blob(bs), rest')
  }

  /** pb_dec_string: there must be room for the terminator; size + 1 is a 32-bit sum. */
  function DecodeString(s: seq<byte>, dataSize: nat): (p: Parse<Value>)
    ensures Consumes(p, s)
  {
    match DecodeVarint32(s)
    case Fail => Fail
    case Done(size, rest) =>
      var allocSize := (size + 1) % U32;
      if allocSize < size || allocSize > dataSize then Fail
      else
        match TakeBytes(rest, size)
        case Fail => Fail
        case Done(bs, rest') => Done(Blob(bs), rest')
  }

  /** pb_dec_fixed_length_bytes: an empty string stands for all zeros. */
  function DecodeFixedLength(s: seq<byte>, dataSize: nat): (p: Parse<Value>)
    ensures Consumes(p, s)
  {
    match DecodeVarint32(s)
    case Fail => Fail
    case Done(size, rest) =>
      if size > PB_SIZE_MAX then Fail
      else if size == 0 then Done(Blob(Zeros(dataSize)), rest)
      else if size != dataSize then Fail
      else
        match TakeBytes(rest, size)
        case Fail => Fail
        case Done(bs, rest') => Done(Blob(bs), rest')
  }

  /** The PB_DECODERS entry of every type other than a submessage. */
  function DecodeScalar(f: Field, s: seq<byte>): (p: Parse<Value>)
    ensures Consumes(p, s)
  {
    match f.ltype
    case Bool => DecodeBool(s)
    case Varint | UVarint | SVarint => DecodeInteger(f, s)
    case Fixed32 => DecodeFixed(s, 4)
    case Fixed64 => DecodeFixed(s, 8)
    case Bytes => DecodeBytes(s, f.dataSize)
    case String => DecodeString(s, f.dataSize)
    case FixedLengthBytes => DecodeFixedLength(s, f.dataSize)
    case Submessage | Extension => Fail
  }

  // ----- Arrays -----

  datatype Filled = Overflow | Filled(items: seq<Value>, count: nat)

  /** The packed loop of decode_static_field: every byte of the payload must fit. */
  function DecodePacked(f: Field, s: seq<byte>, items: seq<Value>, k: nat): Filled
    decreases |s|
  {
    if s == [] then Filled(items, k)
    else if k >= f.arraySize then Overflow
    else
      match DecodeScalar(f, s)
      case Fail => Overflow
      case Done(v, rest) => DecodePacked(f, rest, PutItem(items, k, v), k + 1)
  }

  // ----- Messages -----

  /** The local variables of pb_decode_noinit, with the struct being filled. */
  datatype State = State(slots: seq<Slot>, seen: set<nat>, fixedField: Option<nat>, fixedSize: nat)

  function Start(slots: seq<Slot>): State { State(slots, {}, None, 0) }

  function SlotsOf(v: Value): seq<Slot> { if v.Struct? then v.slots else [] }

  /** A fixed-count array that has been started has all its entries. */
  predicate FixedComplete(d: Descriptor, st: State) {
    st.fixedField.Some? && st.fixedField.value < |d| ==>
      st.fixedSize == d[st.fixedField.value].arraySize
  }

  /** Every required field that the bitmap can track has been seen. */
  ghost predicate RequiredSeen(d: Descriptor, seen: set<nat>) {
    forall i :: 0 <= i < |d| && d[i].htype.Required? && Rank(d, i) < PB_MAX_REQUIRED_FIELDS ==>
      Rank(d, i) in seen
  }

  /** Starting or continuing a fixed-count array. */
  function EnterFixed(d: Descriptor, i: nat, st: State): Option<State>
    requires i < |d|
  {
    if !d[i].FixedCount() || st.fixedField == Some(i) then Some(st)
    else if !FixedComplete(d, st) then None
    else Some(st.(fixedField := Some(i), fixedSize := 0))
  }

  function MarkSeen(d: Descriptor, i: nat, st: State): State
    requires i < |d|
  {
    if d[i].htype.Required? && Rank(d, i) < PB_MAX_REQUIRED_FIELDS
    then st.(seen := st.seen + {Rank(d, i)})
    else st
  }

  /** pb_release_union_field on static members: it only checks the old which_ value. */
  predicate UnionReleasable(d: Descriptor, which: nat, tag: nat) {
    which == 0 || which == tag || FindTag(d, which).Some?
  }

  /** The value a union member is decoded over. */
  function UnionBase(f: Field, slot: Slot): Value {
    if f.ltype.Submessage? && slot.Which() != f.tag then DefaultValue(f) else slot.Val()
  }

  function ArrayCount(f: Field, slot: Slot, st: State): nat {
    if f.FixedCount() then st.fixedSize else |slot.Items()|
  }

  function StoreArray(f: Field, h: nat, st: State, r: Filled): State
    requires r.Filled?
  {
    st.(slots := Put(st.slots, h, Arr(r.items)),
        fixedSize := if f.FixedCount() then r.count else st.fixedSize)
  }

  /** One value: the PB_DECODERS call, over the old value. */
  ghost function DecodeValue(f: Field, old_: Value, s: seq<byte>): (p: Parse<Value>)
    ensures Consumes(p, s)
    decreases |s|, 2
  {
    if f.ltype.Submessage? then
      match Substream(s)
      case Fail => Fail
      case Done(payload, rest) =>
        if !f.ptr.SubFields? then Fail
        else
          var base := if f.htype.Repeated? then Defaults(f.ptr.fields) else SlotsOf(old_);
          match DecodeNoInit(f.ptr.fields, base, payload)
          case Fail => Fail
          case Done(slots, _) => Done(Struct(slots), rest)
    else DecodeScalar(f, s)
  }

  /** The repeated branch of decode_static_field. */
  ghost function DecodeRepeated(f: Field, wireType: nat, items: seq<Value>, k: nat, s: seq<byte>)
    : (p: Parse<Filled>)
    ensures Consumes(p, s) && (p.Done? ==> p.value.Filled?)
    decreases |s|, 3
  {
    if wireType == WT_STRING && f.ltype.Packable() then
      match Substream(s)
      case Fail => Fail
      case Done(payload, rest) =>
        var r := DecodePacked(f, payload, items, k);
        if r.Filled? then Done(r, rest) else Fail
    else if k >= f.arraySize then Fail
    else
      match DecodeValue(f, Undefined, s)
      case Fail => Fail
      case Done(v, rest) => Done(Filled(PutItem(items, k, v), k + 1), rest)
  }

  /** decode_static_field for field i. */
  ghost function DecodeStatic(d: Descriptor, i: nat, wireType: nat, st: State, s: seq<byte>): (p: Parse<State>)
    requires i < |d|
    ensures Consumes(p, s)
    decreases |s|, 4
  {
    var f, h := d[i], Home(d, i);
    var slot := SlotAt(st.slots, h);
    if f.htype.Repeated? then
      match DecodeRepeated(f, wireType, slot.Items(), ArrayCount(f, slot, st), s)
      case Fail => Fail
      case Done(r, rest) => Done(StoreArray(f, h, st, r), rest)
    else if f.htype.OneOf? && !UnionReleasable(d, slot.Which(), f.tag) then Fail
    else
      var base := if f.htype.OneOf? then UnionBase(f, slot) else slot.Val();
      match DecodeValue(f, base, s)
      case Fail => Fail
      case Done(v, rest) =>
        var slot' := if f.htype.OneOf? then Union(f.tag, v)
                     else if f.htype.Optional? && f.sizeOffset != 0 then Opt(true, v)
                     else Single(v);
        Done(st.(slots := Put(st.slots, h, slot')), rest)
  }

  /** One record whose tag has been read: the body of the loop in pb_decode_noinit. */
  ghost function DecodeRecord(d: Descriptor, tag: nat, wireType: nat, st: State, s: seq<byte>): (p: Parse<State>)
    ensures Leaves(p, s)
    decreases |s|, 5
  {
    if d == [] && tag == 0 then
      // The terminator entry matches: it is an all-zero pb_field_t, a required bool.
      match DecodeBool(s)
      case Fail => Fail
      case Done(_, rest) => Done(st, rest)
    else
      match FindTag(d, tag)
      case None =>
        (match Skip(wireType, s)
         case Fail => Fail
         case Done(_, rest) => Done(st, rest))
      case Some(i) =>
        (match EnterFixed(d, i, st)
         case None => Fail
         case Some(st1) => DecodeStatic(d, i, wireType, MarkSeen(d, i, st1), s))
  }

  datatype Run = Stuck | Ran(st: State, rest: seq<byte>, terminated: bool)

  /** The record loop of pb_decode_noinit. */
  ghost function DecodeLoop(d: Descriptor, st: State, s: seq<byte>): (r: Run)
    ensures r.Ran? ==> |r.rest| <= |s|
    ensures r.Ran? && !r.terminated ==> r.rest == []
    decreases |s|, 0
  {
    if s == [] then Ran(st, [], false)
    else
      match DecodeTag(s)
      case BadTag => Stuck
      case EndOfMessage(rest) => Ran(st, rest, true)
      case Tag(tag, wireType, rest) =>
        match DecodeRecord(d, tag, wireType, st, rest)
        case Fail => Stuck
        case Done(st', rest') => DecodeLoop(d, st', rest')
  }

  /** The checks after the loop. */
  ghost predicate Accepts(d: Descriptor, st: State) {
    FixedComplete(d, st) && RequiredSeen(d, st.seen)
  }

  /** pb_decode_noinit */
  ghost function DecodeNoInit(d: Descriptor, slots: seq<Slot>, s: seq<byte>): (p: Parse<seq<Slot>>)
    ensures Leaves(p, s)
    decreases |s|, 1
  {
    var r := DecodeLoop(d, Start(slots), s);
    if r.Ran? && Accepts(d, r.st) then Done(r.st.slots, r.rest) else Fail
  }

  /** pb_decode */
  ghost function Decode(d: Descriptor, s: seq<byte>): (p: Parse<seq<Slot>>)
    ensures Leaves(p, s)
  {
    DecodeNoInit(d, Defaults(d), s)
  }

  /** pb_decode_delimited */
  ghost function DecodeDelimited(d: Descriptor, s: seq<byte>): (p: Parse<seq<Slot>>)
    ensures Leaves(p, s)
  {
    match Substream(s)
    case Fail => Fail
    case Done(payload, rest) =>
      match Decode(d, payload)
      case Fail => Fail
      case Done(slots, _) => Done(slots, rest)
  }
}
