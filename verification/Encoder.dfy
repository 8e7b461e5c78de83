/** pb_encode.c: the recursive encoder over streams, proved to compute EncodeSpec on sizing
    streams and on buffer streams alike. */
module Encoder {
  import opened Basics
  import opened Pb
  import opened Wire
  import opened Numbers
  import opened Spec = EncodeSpec
  import DecodeSpec
  import opened OStreams
  import opened FieldIteration

  /** What every encoder promises: it succeeds exactly when there is an encoding and room
      for it, it emits that encoding, and it never writes outside the stream's limits. */
  ghost predicate Emits(ok: bool, e: Encoded, was: Out, now: Out)
    requires was.Valid()
  {
    && (ok <==> e.Ok? && was.Room(e.bytes))
    && (ok ==> now == was.Put(e.bytes))
    && was.SameOutside(now)
  }

  lemma {:induction false} EmitsThen(a: seq<byte>, was: Out, mid: Out, ok: bool, e: Encoded, now: Out)
    requires was.Valid() && Emits(true, Ok(a), was, mid)
    requires Emits(ok, e, mid, now)
    ensures Emits(ok, Join(Ok(a), e), was, now)
  {
    was.OutsidePut(a, now);
    if e.Ok? {
      if mid.Room(e.bytes) { was.PutPut(a, e.bytes); }
    }
  }

  lemma {:induction false} EmitsNot(a: seq<byte>, was: Out, now: Out, e: Encoded)
    requires was.Valid() && Emits(false, Ok(a), was, now)
    ensures Emits(false, Join(Ok(a), e), was, now)
  {
  }

  lemma {:induction false} EmitsNothing(o: Out)
    requires o.Valid()
    ensures Emits(true, Ok([]), o, o) && Emits(false, Error, o, o)
  {
    if o.content.Some? {
      var c := o.content.value;
      assert c[..o.state] + [] + c[o.state + 0..] == c;
    }
  }

  // ----- Scalars -----

  /** pb_encode_tag_for_field */
  method WriteTagForField(stream: OStream, f: Field) returns (ok: bool)
    requires stream.Abs().Valid() && f.tag <= PB_SIZE_MAX
    modifies stream, stream.buffer
    ensures Emits(ok, Ok(FieldTag(f)), old(stream.Abs()), stream.Abs())
  {
    ok := stream.WriteTag(WireTypeOf(f.ltype), f.tag);
  }

  /** The strnlen loop of pb_enc_string; reading past the characters finds the terminator. */
  method StringLength(b: seq<byte>, max: nat) returns (size: nat)
    ensures size <= |b| && b[..size] == CString(b, max)
  {
    size := 0;
    while size < max && size < |b| && b[size] != 0
      invariant size <= |b| && size <= max && 0 !in b[..size]
    {
      size := size + 1;
    }
    CStringIs(b, max, size);
  }

  lemma {:induction false} CStringIs(b: seq<byte>, max: nat, size: nat)
    requires size <= |b| && size <= max && 0 !in b[..size]
    requires size == max || size == |b| || b[size] == 0
    ensures CString(b, max) == b[..size]
    decreases size
  {
    if size > 0 {
      assert b[0] != 0 by { assert b[..size][0] == b[0]; }
      assert b[1..][..size - 1] == b[..size][1..];
      CStringIs(b[1..], max - 1, size - 1);
      assert [b[0]] + b[1..][..size - 1] == b[..size];
    }
  }

  /** pb_enc_fixed32 and pb_enc_fixed64 */
  method EncFixed(stream: OStream, f: Field, n: int) returns (ok: bool)
    requires stream.Abs().Valid() && (f.ltype.Fixed32? || f.ltype.Fixed64?) && TypedValue(f, Num(n))
    modifies stream, stream.buffer
    ensures Emits(ok, EncodeNumber(f, n), old(stream.Abs()), stream.Abs())
  {
    EmitsNothing(stream.Abs());
    hide ToLE, Modulus;
    if f.ltype.Fixed32? {
      ok := stream.WriteFixed32(n);
    } else {
      ok := stream.WriteFixed64(n);
    }
  }

  lemma {:induction false} VarintOfFieldRange(f: Field, n: int)
    requires VarintOfField(f, n).Some?
    ensures VarintOfField(f, n).value < U64
    ensures f.ltype.SVarint? ==> InSigned(n, 8) && VarintOfField(f, n).value == ZigZag(n)
    ensures f.ltype.Varint? || f.ltype.UVarint? ==> VarintOfField(f, n).value == n % U64
  {
    if f.ltype.SVarint? { ZigZagInverse(n, 0); }
  }

  /** The C integer that n was read from. */
  predicate HeldBy(f: Field, n: int) {
    match f.ltype
    case Bool => true
    case Varint | SVarint => IntegerSize(f.dataSize) ==> InSigned(n, f.dataSize)
    case UVarint => IntegerSize(f.dataSize) ==> InUnsigned(n, f.dataSize)
    case _ => false
  }

  /** pb_enc_bool, pb_enc_varint, pb_enc_uvarint and pb_enc_svarint */
  method EncInteger(stream: OStream, f: Field, n: int) returns (ok: bool)
    requires stream.Abs().Valid() && HeldBy(f, n)
    modifies stream, stream.buffer
    ensures Emits(ok, EncodeNumber(f, n), old(stream.Abs()), stream.Abs())
  {
    EmitsNothing(stream.Abs());
    hide EncodeVarint, ToLE;
    if f.ltype.Bool? {
      ok := stream.WriteVarint(if n != 0 then 1 else 0);
      return;
    }
    if !IntegerSize(f.dataSize) {
      return false;
    }
    VarintOfFieldRange(f, n);
    hide VarintOfField, ZigZag, Modulus, InSigned;
    if f.ltype.SVarint? {
      ok := stream.WriteSVarint(n);
    } else {
      ok := stream.WriteVarint(n % U64);
    }
  }

  /** pb_enc_bytes, pb_enc_string and pb_enc_fixed_length_bytes */
  method EncBlob(stream: OStream, f: Field, b: seq<byte>) returns (ok: bool)
    requires stream.Abs().Valid() && (f.ltype.Bytes? || f.ltype.String? || f.ltype.FixedLengthBytes?)
    requires f.ltype.FixedLengthBytes? ==> |b| == f.dataSize
    modifies stream, stream.buffer
    ensures Emits(ok, EncodeBlob(f, b), old(stream.Abs()), stream.Abs())
  {
    EmitsNothing(stream.Abs());
    hide Prefixed, CString;
    match f.ltype {
      case Bytes =>
        var allocSize := |b| + BYTES_HEADER;
        if allocSize > f.dataSize {
          return false;
        }
        ok := stream.WriteString(b);
      case String =>
        var size := StringLength(b, f.dataSize);
        ok := stream.WriteString(b[..size]);
      case FixedLengthBytes =>
        ok := stream.WriteString(b);
    }
  }

  // ----- Proto3 defaults -----

  /** pb_check_proto3_default_value, for the contents of a singular item */
  method CheckZeroItem(f: Field, v: Value) returns (zero: bool)
    requires WellFormedField(f)
    ensures zero <==> ZeroItem(f, v)
    decreases f, 0
  {
    match f.ltype {
      case Bytes => zero := v.Blob? && v.bytes == [];
      case String => zero := v.Blob? && (v.bytes == [] || v.bytes[0] == 0);
      case FixedLengthBytes => zero := f.dataSize == 0;
      case Submessage =>
        assert WellFormed(f.ptr.fields);
        hide WellFormed, WellFormedField, DefaultField;
        zero := CheckAllDefault(f.ptr.fields, DecodeSpec.SlotsOf(v));
      case Bool | Varint | UVarint | SVarint | Fixed32 | Fixed64 => zero := v.Num? && v.n == 0;
    }
  }

  /** The walk over the fields of a submessage */
  method CheckAllDefault(fields: Descriptor, slots: seq<Slot>) returns (zero: bool)
    requires WellFormed(fields)
    ensures zero <==> AllDefault(fields, slots)
    decreases fields, 1
  {
    hide WellFormed, DefaultField;
    var iter := new FieldIter(fields, 0);
    var more := iter.Begin();
    ghost var done := 0;
    while more
      invariant iter.Valid() && done <= |fields|
      invariant more ==> iter.pos == done < |fields|
      invariant !more ==> done == |fields|
      invariant forall j :: 0 <= j < done ==> DefaultField(fields, j, slots)
      decreases |fields| - done
    {
      var default_ := CheckDefaultField(fields, iter.pos, slots);
      if !default_ {
        return false;
      }
      more := iter.Next();
      done := done + 1;
    }
    zero := true;
  }

  /** pb_check_proto3_default_value */
  method CheckDefaultField(fields: Descriptor, pos: nat, slots: seq<Slot>) returns (default_: bool)
    requires WellFormed(fields) && pos < |fields|
    ensures default_ <==> DefaultField(fields, pos, slots)
    decreases fields[pos], 1
  {
    var f, slot := fields[pos], SlotAt(slots, Home(fields, pos));
    assert WellFormedField(f);
    hide WellFormed, WellFormedField, ZeroItem;
    if f.htype.Required? {
      return false;
    } else if f.htype.Repeated? {
      if f.sizeOffset != 0 {
        return slot.Items() == [];
      } else {
        return false;
      }
    } else if f.htype.OneOf? {
      return slot.Which() == 0;
    } else if f.sizeOffset != 0 {
      return !HasField(slot);
    }
    default_ := CheckZeroItem(f, slot.Val());
  }

  // ----- Values, arrays, fields and messages -----

  /** One call through PB_ENCODERS. */
  method EncValue(stream: OStream, f: Field, v: Value) returns (ok: bool)
    requires stream.Abs().Valid() && WellFormedField(f) && TypedValue(f, v)
    modifies stream, stream.buffer
    ensures Emits(ok, EncodeValue(f, v), old(stream.Abs()), stream.Abs())
    decreases f, 1
  {
    if f.ltype.Submessage? {
      assert WellFormed(f.ptr.fields) && WellTyped(f.ptr.fields, v.slots);
      hide WellFormed, WellTyped, Encode;
      ok := EncodeSubmessage(stream, f.ptr.fields, v.slots);
    } else {
      hide EncodeNumber, EncodeBlob, WellFormedField;
      match v {
        case Num(n) =>
          if f.ltype.Fixed32? || f.ltype.Fixed64? {
            ok := EncFixed(stream, f, n);
          } else {
            ok := EncInteger(stream, f, n);
          }
        case Blob(b) => ok := EncBlob(stream, f, b);
      }
    }
  }

  /** What precedes an array entry on the wire. */
  function Lead(f: Field, tagged: bool): seq<byte> { if tagged then FieldTag(f) else [] }

  /** One array entry, with its own tag unless the array is packed. */
  method EncodeEntry(stream: OStream, f: Field, tagged: bool, v: Value) returns (ok: bool)
    requires stream.Abs().Valid() && WellFormedField(f) && TypedValue(f, v)
    modifies stream, stream.buffer
    ensures Emits(ok, Join(Ok(Lead(f, tagged)), EncodeValue(f, v)), old(stream.Abs()), stream.Abs())
    decreases f, 2
  {
    ghost var was, e := stream.Abs(), EncodeValue(f, v);
    TagInRange(f);
    hide WellFormedField, TypedValue, EncodeValue, FieldTag;
    EmitsNothing(was);
    if tagged {
      ok := WriteTagForField(stream, f);
      if !ok {
        EmitsNot(FieldTag(f), was, stream.Abs(), e);
        return;
      }
    }
    ghost var mid := stream.Abs();
    ok := EncValue(stream, f, v);
    EmitsThen(Lead(f, tagged), was, mid, ok, e, stream.Abs());
  }

  lemma {:induction false} TagInRange(f: Field)
    requires WellFormedField(f)
    ensures f.tag <= PB_SIZE_MAX
  {
  }

  /** The entry loops of encode_array */
  method EncodeEntries(stream: OStream, f: Field, tagged: bool, items: seq<Value>) returns (ok: bool)
    requires stream.Abs().Valid() && WellFormedField(f)
    requires forall j :: 0 <= j < |items| ==> TypedValue(f, items[j])
    modifies stream, stream.buffer
    ensures Emits(ok, EncodeItems(f, Lead(f, tagged), items), old(stream.Abs()), stream.Abs())
    decreases f, 3
  {
    ghost var was, lead, done := stream.Abs(), Lead(f, tagged), [];
    hide WellFormedField, TypedValue, EncodeValue, EncodeItems, Lead;
    EmitsNothing(was);
    JoinNothing(EncodeItems(f, lead, items));
    var i := 0;
    assert items[0..] == items;
    ok := true;
    while i < |items|
      invariant 0 <= i <= |items| && ok
      invariant stream.Abs().Valid() && Emits(true, Ok(done), was, stream.Abs())
      invariant EncodeItems(f, lead, items) == Join(Ok(done), EncodeItems(f, lead, items[i..]))
    {
      ghost var mid, e := stream.Abs(), Join(Ok(lead), EncodeValue(f, items[i]));
      ghost var more := EncodeItems(f, lead, items[i + 1..]);
      NextItem(f, lead, items, i);
      ok := EncodeEntry(stream, f, tagged, items[i]);
      EmitsThen(done, was, mid, ok, e, stream.Abs());
      JoinAssociative(done, e, more);
      if !ok {
        NoRoomForMore(was, stream.Abs(), Join(Ok(done), e), more);
        return;
      }
      done := done + e.bytes;
      i := i + 1;
    }
    assert items[i..] == [];
    NoMoreItems(f, lead);
    JoinNothing(Ok(done));
  }

  lemma {:induction false} JoinNothing(e: Encoded)
    ensures Join(Ok([]), e) == e && Join(e, Ok([])) == e
  {
    if e.Ok? { assert [] + e.bytes == e.bytes && e.bytes + [] == e.bytes; }
  }

  lemma {:induction false} JoinAssociative(a: seq<byte>, b: Encoded, c: Encoded)
    ensures Join(Ok(a), Join(b, c)) == Join(Join(Ok(a), b), c)
  {
    if b.Ok? && c.Ok? { assert a + (b.bytes + c.bytes) == (a + b.bytes) + c.bytes; }
  }

  lemma {:induction false} NextItem(f: Field, lead: seq<byte>, items: seq<Value>, i: nat)
    requires i < |items|
    ensures EncodeItems(f, lead, items[i..]) ==
            Join(Join(Ok(lead), EncodeValue(f, items[i])), EncodeItems(f, lead, items[i + 1..]))
  {
    assert items[i..][1..] == items[i + 1..];
    hide EncodeValue;
  }

  lemma {:induction false} NoMoreItems(f: Field, lead: seq<byte>)
    ensures EncodeItems(f, lead, []) == Ok([])
  {
  }

  /** What failed on a prefix fails on the whole. */
  lemma {:induction false} NoRoomForMore(was: Out, now: Out, e: Encoded, more: Encoded)
    requires was.Valid() && Emits(false, e, was, now)
    ensures Emits(false, Join(e, more), was, now)
  {
  }

  lemma {:induction false} PackedItemsOk(f: Field, items: seq<Value>)
    requires WellFormedField(f) && f.ltype.Packable()
    requires forall j :: 0 <= j < |items| ==> TypedValue(f, items[j])
    ensures EncodeItems(f, [], items).Ok?
    ensures f.ltype.Fixed32? ==> |EncodeItems(f, [], items).bytes| == 4 * |items|
    ensures f.ltype.Fixed64? ==> |EncodeItems(f, [], items).bytes| == 8 * |items|
    decreases |items|
  {
    if items != [] {
      PackedItemsOk(f, items[1..]);
      assert TypedValue(f, items[0]);
      hide EncodeVarint, ToLE;
    }
  }

  /** The payload size of a packed array: a product for fixed-width types, and otherwise a
      sizing pass. */
  method PackedPayloadSize(f: Field, items: seq<Value>) returns (ok: bool, size: nat)
    requires WellFormedField(f) && f.ltype.Packable()
    requires forall j :: 0 <= j < |items| ==> TypedValue(f, items[j])
    ensures ok && EncodeItems(f, [], items).Ok? && size == |EncodeItems(f, [], items).bytes|
    decreases f, 4
  {
    PackedItemsOk(f, items);
    hide WellFormedField, TypedValue, EncodeItems;
    if f.ltype.Fixed32? {
      return true, 4 * |items|;
    } else if f.ltype.Fixed64? {
      return true, 8 * |items|;
    }
    var sizing := new OStream(null, 0, 0);
    ok := EncodeEntries(sizing, f, false, items);
    size := sizing.bytesWritten;
  }

  /** The packed branch of encode_array, after the tag. */
  method EncodePacked(stream: OStream, f: Field, items: seq<Value>) returns (ok: bool)
    requires stream.Abs().Valid() && WellFormedField(f) && f.ltype.Packable()
    requires forall j :: 0 <= j < |items| ==> TypedValue(f, items[j])
    modifies stream, stream.buffer
    ensures Emits(ok, SubmessageBytes(EncodeItems(f, [], items)), old(stream.Abs()), stream.Abs())
    decreases f, 5
  {
    ghost var was, e := stream.Abs(), EncodeItems(f, [], items);
    hide WellFormedField, TypedValue, EncodeItems, EncodeVarint;
    var size;
    ok, size := PackedPayloadSize(f, items);
    ghost var length := EncodeVarint(size % U64);
    assert SubmessageBytes(e) == Join(Ok(length), e);
    ok := stream.WriteVarint(size % U64);
    if !ok {
      EmitsNot(length, was, stream.Abs(), e);
      return;
    }
    if stream.buffer == null {
      ok := stream.Write([], size, e.bytes);
    } else {
      ok := EncodeEntries(stream, f, false, items);
    }
    EmitsThen(length, was, was.Put(length), ok, e, stream.Abs());
  }

  /** encode_array */
  method EncodeArrayField(stream: OStream, f: Field, items: seq<Value>) returns (ok: bool)
    requires stream.Abs().Valid() && WellFormedField(f)
    requires forall j :: 0 <= j < |items| ==> TypedValue(f, items[j])
    modifies stream, stream.buffer
    ensures Emits(ok, EncodeArray(f, items), old(stream.Abs()), stream.Abs())
    decreases f, 6
  {
    ghost var was := stream.Abs();
    EmitsNothing(was);
    TagInRange(f);
    if |items| == 0 {
      return true;
    }
    if |items| > f.arraySize {
      return false;
    }
    hide WellFormedField, TypedValue, EncodeItems, TagBytes;
    if f.ltype.Packable() {
      ghost var tag, e := TagBytes(f.tag, DecodeSpec.WT_STRING), SubmessageBytes(EncodeItems(f, [], items));
      assert EncodeArray(f, items) == Join(Ok(tag), e);
      ok := stream.WriteTag(DecodeSpec.WT_STRING, f.tag);
      if !ok {
        EmitsNot(tag, was, stream.Abs(), e);
        return;
      }
      ok := EncodePacked(stream, f, items);
      EmitsThen(tag, was, was.Put(tag), ok, e, stream.Abs());
    } else {
      ok := EncodeEntries(stream, f, true, items);
    }
  }

  /** encode_basic_field */
  method EncodeFieldAt(stream: OStream, iter: FieldIter, slots: seq<Slot>) returns (ok: bool)
    requires stream.Abs().Valid() && iter.Valid() && iter.start != []
    requires WellFormed(iter.start) && WellTyped(iter.start, slots)
    modifies stream, stream.buffer
    ensures Emits(ok, EncodeField(iter.start, iter.pos, slots), old(stream.Abs()), stream.Abs())
    decreases iter.start[iter.pos], 7
  {
    var f, slot := iter.start[iter.pos], SlotAt(slots, Home(iter.start, iter.pos));
    assert WellFormedField(f) && TypedSlot(f, slot);
    hide WellFormed, WellTyped, WellFormedField, TypedValue, ZeroItem, EncodeValue, EncodeArray, FieldTag;
    EmitsNothing(stream.Abs());
    if f.htype.Repeated? {
      ok := EncodeArrayField(stream, f, slot.Items());
      return;
    }
    var present;
    match f.htype {
      case Required => present := true;
      case Optional =>
        if f.sizeOffset != 0 {
          present := HasField(slot);
        } else {
          var zero := CheckZeroItem(f, slot.Val());
          present := !zero;
        }
      case OneOf => present := slot.Which() == f.tag;
    }
    if !present {
      return true;
    }
    ok := EncodeSingular(stream, f, slot.Val());
  }

  /** A tag and a value */
  method EncodeSingular(stream: OStream, f: Field, v: Value) returns (ok: bool)
    requires stream.Abs().Valid() && WellFormedField(f) && TypedValue(f, v)
    modifies stream, stream.buffer
    ensures Emits(ok, Tagged(f, EncodeValue(f, v)), old(stream.Abs()), stream.Abs())
    decreases f, 2
  {
    ghost var was, e := stream.Abs(), EncodeValue(f, v);
    TagInRange(f);
    hide WellFormedField, TypedValue, EncodeValue, FieldTag;
    assert Tagged(f, e) == Join(Ok(FieldTag(f)), e);
    ok := WriteTagForField(stream, f);
    if !ok {
      EmitsNot(FieldTag(f), was, stream.Abs(), e);
      return;
    }
    ok := EncValue(stream, f, v);
    EmitsThen(FieldTag(f), was, was.Put(FieldTag(f)), ok, e, stream.Abs());
  }

  /** The writing pass of pb_encode_submessage, on a substream that may hold exactly the
      bytes that the sizing pass counted.  The size cannot have changed. */
  method WritePass(stream: OStream, fields: Descriptor, slots: seq<Slot>, size: nat) returns (ok: bool)
    requires stream.Abs().Valid() && WellFormed(fields) && WellTyped(fields, slots) && stream.buffer != null
    requires Encode(fields, slots).Ok? && |Encode(fields, slots).bytes| == size
    requires stream.bytesWritten + size <= stream.maxSize
    modifies stream, stream.buffer
    ensures ok && Emits(true, Encode(fields, slots), old(stream.Abs()), stream.Abs())
    decreases fields, 5
  {
    ghost var was, bytes := stream.Abs(), Encode(fields, slots).bytes;
    hide WellFormed, WellTyped, Encode;
    var sub := new OStream(stream.buffer, stream.state, size);
    ghost var subWas := sub.Abs();
    var status := EncodeMessage(sub, fields, slots);
    assert status && sub.Abs() == subWas.Put(bytes);
    stream.bytesWritten := stream.bytesWritten + sub.bytesWritten;
    stream.state := sub.state;
    assert sub.bytesWritten == size;
    ok := sub.bytesWritten == size && status;
    assert stream.Abs() == was.Put(bytes);
    was.OutsidePut(bytes, stream.Abs());
  }

  /** pb_encode_submessage: a sizing pass, the length, and then the writing pass. */
  method EncodeSubmessage(stream: OStream, fields: Descriptor, slots: seq<Slot>) returns (ok: bool)
    requires stream.Abs().Valid() && WellFormed(fields) && WellTyped(fields, slots)
    modifies stream, stream.buffer
    ensures Emits(ok, SubmessageBytes(Encode(fields, slots)), old(stream.Abs()), stream.Abs())
    decreases fields, 6, 1
  {
    ghost var e, was := Encode(fields, slots), stream.Abs();
    hide WellFormed, WellTyped, Encode, EncodeVarint;
    EmitsNothing(was);
    var sizing := new OStream(null, 0, 0);
    ok := EncodeMessage(sizing, fields, slots);
    if !ok { return; }
    var size := sizing.bytesWritten;
    assert e.Ok? && size == |e.bytes|;
    ghost var length := EncodeVarint(size % U64);
    assert SubmessageBytes(e) == Join(Ok(length), e);
    ok := stream.WriteVarint(size % U64);
    if !ok {
      EmitsNot(length, was, stream.Abs(), e);
      return;
    }
    ok := EncodeCounted(stream, fields, slots, size);
    EmitsThen(length, was, was.Put(length), ok, e, stream.Abs());
  }

  /** The part of pb_encode_submessage after the length. */
  method EncodeCounted(stream: OStream, fields: Descriptor, slots: seq<Slot>, size: nat) returns (ok: bool)
    requires stream.Abs().Valid() && WellFormed(fields) && WellTyped(fields, slots)
    requires Encode(fields, slots).Ok? && |Encode(fields, slots).bytes| == size
    modifies stream, stream.buffer
    ensures Emits(ok, Encode(fields, slots), old(stream.Abs()), stream.Abs())
    decreases fields, 6, 0
  {
    hide WellFormed, WellTyped, Encode;
    if stream.buffer == null {
      ok := stream.Write([], size, Encode(fields, slots).bytes);
      return;
    }
    if stream.bytesWritten + size > stream.maxSize {
      return false;
    }
    ok := WritePass(stream, fields, slots, size);
  }

  /** Fields before pos have been emitted as `done`. */
  ghost predicate EncodedUpTo(fields: Descriptor, pos: nat, slots: seq<Slot>, done: seq<byte>, was: Out, now: Out) {
    && pos <= |fields| && was.Valid() && now.Valid() && Emits(true, Ok(done), was, now)
    && Encode(fields, slots) == Join(Ok(done), EncodeFrom(fields, pos, slots))
  }

  lemma {:induction false} EncodedNone(fields: Descriptor, slots: seq<Slot>, o: Out)
    requires o.Valid()
    ensures EncodedUpTo(fields, 0, slots, [], o, o)
  {
    EmitsNothing(o);
    JoinNothing(EncodeFrom(fields, 0, slots));
    hide Emits, EncodeFrom;
  }

  lemma {:induction false} EncodedAll(fields: Descriptor, slots: seq<Slot>, done: seq<byte>, was: Out, now: Out)
    requires EncodedUpTo(fields, |fields|, slots, done, was, now)
    ensures was.Valid() && Emits(true, Encode(fields, slots), was, now)
  {
    JoinNothing(Ok(done));
    hide Emits;
  }

  lemma {:induction false} EncodedOneMore(fields: Descriptor, pos: nat, slots: seq<Slot>, done: seq<byte>, was: Out,
        mid: Out, ok: bool, now: Out)
    requires pos < |fields| && EncodedUpTo(fields, pos, slots, done, was, mid)
    requires Emits(ok, EncodeField(fields, pos, slots), mid, now)
    ensures var e := EncodeField(fields, pos, slots);
            if ok then e.Ok? && EncodedUpTo(fields, pos + 1, slots, done + e.bytes, was, now)
            else Emits(false, Encode(fields, slots), was, now)
  {
    var e, rest := EncodeField(fields, pos, slots), EncodeFrom(fields, pos + 1, slots);
    assert EncodeFrom(fields, pos, slots) == Join(e, rest);
    hide EncodeField, EncodeFrom, Encode;
    EmitsThen(done, was, mid, ok, e, now);
    EmitsValid(ok, e, mid, now);
    JoinAssociative(done, e, rest);
    if !ok { NoRoomForMore(was, now, Join(Ok(done), e), rest); }
  }

  lemma {:induction false} EmitsValid(ok: bool, e: Encoded, was: Out, now: Out)
    requires was.Valid() && Emits(ok, e, was, now)
    ensures ok ==> now.Valid() && e.Ok?
  {
  }

  lemma {:induction false} UpToValid(fields: Descriptor, pos: nat, slots: seq<Slot>, done: seq<byte>, was: Out,
        now: Out)
    requires EncodedUpTo(fields, pos, slots, done, was, now)
    ensures was.Valid() && now.Valid()
  {
  }

  /** One turn of the loop in pb_encode. */
  method EncodeStep(stream: OStream, iter: FieldIter, slots: seq<Slot>, ghost done: seq<byte>, ghost was: Out)
    returns (ok: bool, ghost done': seq<byte>)
    requires iter.Valid() && iter.start != []
    requires WellFormed(iter.start) && WellTyped(iter.start, slots)
    requires EncodedUpTo(iter.start, iter.pos, slots, done, was, stream.Abs())
    modifies stream, stream.buffer
    ensures ok ==> EncodedUpTo(iter.start, iter.pos + 1, slots, done', was, stream.Abs())
    ensures !ok ==> was.Valid() && Emits(false, Encode(iter.start, slots), was, stream.Abs())
    decreases iter.start[iter.pos], 8
  {
    hide WellFormed, WellTyped, EncodeField, Encode, Emits, EncodedUpTo;
    ghost var mid := stream.Abs();
    UpToValid(iter.start, iter.pos, slots, done, was, mid);
    ok := EncodeFieldAt(stream, iter, slots);
    EncodedOneMore(iter.start, iter.pos, slots, done, was, mid, ok, stream.Abs());
    done' := if ok then done + EncodeField(iter.start, iter.pos, slots).bytes else done;
  }

  /** The loop of pb_encode, from the first field. */
  method EncodeFields(stream: OStream, iter: FieldIter, slots: seq<Slot>, ghost was: Out) returns (ok: bool)
    requires iter.Valid() && iter.pos == 0 && iter.start != []
    requires WellFormed(iter.start) && WellTyped(iter.start, slots)
    requires EncodedUpTo(iter.start, 0, slots, [], was, stream.Abs())
    modifies stream, stream.buffer, iter
    ensures was.Valid() && Emits(ok, Encode(iter.start, slots), was, stream.Abs())
    decreases iter.start, 3
  {
    hide WellFormed, WellTyped, Encode, Emits, EncodedUpTo;
    ghost var done, pos := [], 0;
    var more := true;
    while more
      invariant iter.Valid() && pos <= |iter.start|
      invariant if more then iter.pos == pos < |iter.start| else pos == |iter.start|
      invariant EncodedUpTo(iter.start, pos, slots, done, was, stream.Abs())
      decreases |iter.start| - pos
    {
      ok, done := EncodeStep(stream, iter, slots, done, was);
      if !ok { return; }
      more := iter.Next();
      pos := pos + 1;
    }
    EncodedAll(iter.start, slots, done, was, stream.Abs());
    ok := true;
  }

  /** pb_encode */
  method EncodeMessage(stream: OStream, fields: Descriptor, slots: seq<Slot>) returns (ok: bool)
    requires stream.Abs().Valid() && WellFormed(fields) && WellTyped(fields, slots)
    modifies stream, stream.buffer
    ensures Emits(ok, Encode(fields, slots), old(stream.Abs()), stream.Abs())
    decreases fields, 4
  {
    EncodedNone(fields, slots, stream.Abs());
    hide WellFormed, WellTyped, Encode, Emits, EncodedUpTo;
    var iter := new FieldIter(fields, 0);
    var more := iter.Begin();
    if !more {
      EncodedAll(fields, slots, [], stream.Abs(), stream.Abs());
      return true;
    }
    ok := EncodeFields(stream, iter, slots, stream.Abs());
  }

  /** pb_get_encoded_size */
  method GetEncodedSize(fields: Descriptor, slots: seq<Slot>) returns (ok: bool, size: nat)
    requires WellFormed(fields) && WellTyped(fields, slots)
    ensures ok <==> Encode(fields, slots).Ok?
    ensures ok ==> size == |Encode(fields, slots).bytes|
  {
    hide WellFormed, WellTyped, Encode;
    size := 0;
    var stream := new OStream(null, 0, 0);
    ok := EncodeMessage(stream, fields, slots);
    if ok { size := stream.bytesWritten; }
  }

  /** pb_ostream_from_buffer followed by pb_encode: success exactly when the size that
      pb_get_encoded_size reports fits, and no byte beyond it is touched. */
  method EncodeToBuffer(buffer: array<byte>, fields: Descriptor, slots: seq<Slot>) returns (ok: bool, written: nat)
    requires WellFormed(fields) && WellTyped(fields, slots)
    modifies buffer
    ensures ok <==> Encode(fields, slots).Ok? && |Encode(fields, slots).bytes| <= buffer.Length
    ensures ok ==> written == |Encode(fields, slots).bytes| && buffer[..written] == Encode(fields, slots).bytes
    ensures written <= buffer.Length && buffer[written..] == old(buffer[written..])
  {
    hide WellFormed, WellTyped, Encode;
    ghost var was := buffer[..];
    var stream := new OStream(buffer, 0, buffer.Length);
    ok := EncodeMessage(stream, fields, slots);
    written := stream.bytesWritten;
    if ok {
      ghost var bytes := Encode(fields, slots).bytes;
      assert buffer[..] == was[..0] + bytes + was[|bytes|..];
      assert was[..0] + bytes == bytes;
    }
  }

  /** pb_encode_delimited */
  method EncodeDelimited(stream: OStream, fields: Descriptor, slots: seq<Slot>) returns (ok: bool)
    requires stream.Abs().Valid() && WellFormed(fields) && WellTyped(fields, slots)
    modifies stream, stream.buffer
    ensures Emits(ok, SubmessageBytes(Encode(fields, slots)), old(stream.Abs()), stream.Abs())
  {
    ok := EncodeSubmessage(stream, fields, slots);
  }

  /** pb_encode_nullterminated */
  method EncodeNullTerminated(stream: OStream, fields: Descriptor, slots: seq<Slot>) returns (ok: bool)
    requires stream.Abs().Valid() && WellFormed(fields) && WellTyped(fields, slots)
    modifies stream, stream.buffer
    ensures Emits(ok, Join(Encode(fields, slots), Ok([0])), old(stream.Abs()), stream.Abs())
  {
    ghost var was, e := stream.Abs(), Encode(fields, slots);
    hide WellFormed, WellTyped, Encode;
    ok := EncodeMessage(stream, fields, slots);
    if !ok {
      NoRoomForMore(was, stream.Abs(), e, Ok([0]));
      return;
    }
    ghost var mid := stream.Abs();
    ok := stream.Write([0], 1, [0]);
    EmitsThen(e.bytes, was, mid, ok, Ok([0]), stream.Abs());
  }
}
