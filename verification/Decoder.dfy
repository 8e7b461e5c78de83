/** pb_decode.c: the recursive decoder over streams, proved to compute DecodeSpec.

    The destination struct is threaded through as a value; the stream, the iterator and the
    fields_seen words are updated in place. */
module Decoder {
  import opened Basics
  import opened Pb
  import opened Wire
  import opened Numbers
  import Spec = DecodeSpec
  import opened IStreams
  import opened FieldIteration
  import opened RequiredBits

  // ----- Default values -----

  /** pb_field_set_to_default */
  method SetFieldToDefault(fields: Descriptor, pos: nat, dest: seq<Slot>) returns (dest': seq<Slot>)
    requires WellFormed(fields) && pos < |fields| && |dest| == |fields|
    ensures |dest'| == |fields|
    ensures !SharesStorage(fields, pos) ==> dest' == dest[pos := DefaultSlot(fields, pos)]
    ensures SharesStorage(fields, pos) ==> dest' == dest[Home(fields, pos) := Union(0, Undefined)]
    decreases fields[pos], 0
  {
    var f := fields[pos];
    assert WellFormedField(f);
    HomeKind(fields, pos);
    hide WellFormed, WellFormedField;
    var home := Home(fields, pos);
    if f.htype.Repeated? {
      dest' := dest[home := Arr(if f.sizeOffset == 0 then seq(f.arraySize, _ => Undefined) else [])];
    } else if f.htype.OneOf? {
      dest' := dest[home := Union(0, Undefined)];
    } else {
      var v;
      if f.ltype.Submessage? {
        var sub := SetToDefaults(f.ptr.fields);
        v := Struct(sub);
      } else if f.ptr.Initial? {
        v := f.ptr.value;
      } else {
        v := ZeroValue(f);
      }
      dest' := dest[home := if f.htype.Optional? && f.sizeOffset != 0 then Opt(false, v) else Single(v)];
    }
  }

  /** A later member of a union sets its home again, to the same default. */
  lemma {:induction false} SharedDefaults(d: Descriptor, i: nat)
    requires i < |d| && SharesStorage(d, i)
    ensures Home(d, i) < i && DefaultSlot(d, i) == Alias && DefaultSlot(d, Home(d, i)) == Union(0, Undefined)
  {
    HomeKind(d, i);
  }

  /** pb_message_set_to_defaults */
  method SetToDefaults(fields: Descriptor) returns (dest: seq<Slot>)
    requires WellFormed(fields)
    ensures dest == Defaults(fields)
    decreases fields, 1
  {
    hide DefaultSlot, WellFormedField;
    dest := seq(|fields|, _ => Alias);
    var iter := new FieldIter(fields, 0);
    var more := iter.Begin();
    if !more {
      return;
    }
    ghost var done := 0;
    while more
      invariant iter.Valid() && |dest| == |fields|
      invariant more ==> iter.pos == done < |fields|
      invariant !more ==> done == |fields|
      invariant done <= |fields|
      invariant forall j :: 0 <= j < done ==> dest[j] == DefaultSlot(fields, j)
      invariant forall j :: done <= j < |fields| ==> dest[j] == Alias
      decreases |fields| - done
    {
      if SharesStorage(fields, iter.pos) { SharedDefaults(fields, iter.pos); }
      dest := SetFieldToDefault(fields, iter.pos, dest);
      more := iter.Next();
      done := done + 1;
    }
  }

  // ----- Field decoders -----

  /** pb_dec_bool */
  method DecBool(stream: IStream) returns (ok: bool, v: Value)
    requires stream.Valid()
    modifies stream
    ensures stream.Valid() && stream.End() == old(stream.End())
    ensures var p := Spec.DecodeBool(old(stream.Left()));
            (ok <==> p.Done?) && (ok ==> v == p.value && stream.Left() == p.rest)
  {
    hide DecodeVarint32;
    var value, eof;
    ok, value, eof := stream.DecodeVarint32Eof();
    v := Num(if value != 0 then 1 else 0);
  }

  /** pb_dec_varint, pb_dec_uvarint and pb_dec_svarint, with their casts and overflow checks */
  method DecInteger(stream: IStream, f: Field) returns (ok: bool, v: Value)
    requires stream.Valid() && IntegerSize(f.dataSize)
    requires f.ltype.Varint? || f.ltype.UVarint? || f.ltype.SVarint?
    modifies stream
    ensures stream.Valid() && stream.End() == old(stream.End())
    ensures var p := Spec.DecodeInteger(f, old(stream.Left()));
            (ok <==> p.Done?) && (ok ==> v == p.value && stream.Left() == p.rest)
  {
    hide DecodeVarint;
    v := Undefined;
    var value: nat;
    var svalue: int;
    var clamped: int;
    if f.ltype.SVarint? {
      ok, svalue := stream.DecodeSVarint();
      if !ok { return; }
      clamped := Signed(svalue, f.dataSize);
    } else {
      ok, value := stream.DecodeVarint64();
      if !ok { return; }
      if f.ltype.UVarint? {
        svalue := value;
        clamped := value % Modulus(f.dataSize);
      } else {
        svalue := if f.dataSize == 8 then Signed(value, 8) else Signed(value, 4);
        clamped := Signed(svalue, f.dataSize);
      }
    }
    v := Num(clamped);
    ok := clamped == svalue;
  }

  /** pb_dec_fixed32 and pb_dec_fixed64 */
  method DecFixed(stream: IStream, size: nat) returns (ok: bool, v: Value)
    requires stream.Valid() && (size == 4 || size == 8)
    modifies stream
    ensures stream.Valid() && stream.End() == old(stream.End())
    ensures var p := Spec.DecodeFixed(old(stream.Left()), size);
            (ok <==> p.Done?) && (ok ==> v == p.value && stream.Left() == p.rest)
  {
    var word;
    ok, word := stream.DecodeFixedWord(size);
    v := Num(word);
  }

  /** Reading `size` bytes into the struct. */
  method ReadBlob(stream: IStream, size: nat) returns (ok: bool, v: Value)
    requires stream.Valid()
    modifies stream
    ensures stream.Valid() && stream.End() == old(stream.End())
    ensures var p := Spec.TakeBytes(old(stream.Left()), size);
            (ok <==> p.Done?) && (ok ==> v == Blob(p.value) && stream.Left() == p.rest)
  {
    var bytes := new byte[size];
    ok := stream.Read(bytes, size);
    v := Blob(bytes[..size]);
  }

  /** pb_dec_bytes */
  method DecBytes(stream: IStream, f: Field) returns (ok: bool, v: Value)
    requires stream.Valid()
    modifies stream
    ensures stream.Valid() && stream.End() == old(stream.End())
    ensures var p := Spec.DecodeBytes(old(stream.Left()), f.dataSize);
            (ok <==> p.Done?) && (ok ==> v == p.value && stream.Left() == p.rest)
  {
    hide DecodeVarint32, Spec.TakeBytes;
    v := Undefined;
    var size, eof;
    ok, size, eof := stream.DecodeVarint32Eof();
    if !ok { return; }
    if size > PB_SIZE_MAX {
      return false, v;
    }
    var allocSize := size + BYTES_HEADER;
    if allocSize > f.dataSize {
      return false, v;
    }
    ok, v := ReadBlob(stream, size);
  }

  /** pb_dec_string */
  method DecString(stream: IStream, f: Field) returns (ok: bool, v: Value)
    requires stream.Valid()
    modifies stream
    ensures stream.Valid() && stream.End() == old(stream.End())
    ensures var p := Spec.DecodeString(old(stream.Left()), f.dataSize);
            (ok <==> p.Done?) && (ok ==> v == p.value && stream.Left() == p.rest)
  {
    hide DecodeVarint32, Spec.TakeBytes;
    v := Undefined;
    var size, eof;
    ok, size, eof := stream.DecodeVarint32Eof();
    if !ok { return; }
    var allocSize := (size + 1) % U32;
    if allocSize < size {
      return false, v;
    }
    if allocSize > f.dataSize {
      return false, v;
    }
    ok, v := ReadBlob(stream, size);
  }

  /** pb_dec_fixed_length_bytes */
  method DecFixedLengthBytes(stream: IStream, f: Field) returns (ok: bool, v: Value)
    requires stream.Valid()
    modifies stream
    ensures stream.Valid() && stream.End() == old(stream.End())
    ensures var p := Spec.DecodeFixedLength(old(stream.Left()), f.dataSize);
            (ok <==> p.Done?) && (ok ==> v == p.value && stream.Left() == p.rest)
  {
    hide DecodeVarint32, Spec.TakeBytes;
    v := Undefined;
    var size, eof;
    ok, size, eof := stream.DecodeVarint32Eof();
    if !ok { return; }
    if size > PB_SIZE_MAX {
      return false, v;
    }
    if size == 0 {
      return true, Blob(Zeros(f.dataSize));
    }
    if size != f.dataSize {
      return false, v;
    }
    ok, v := ReadBlob(stream, f.dataSize);
  }

  /** PB_DECODERS, for every type that is not a submessage */
  method DecScalar(stream: IStream, f: Field) returns (ok: bool, v: Value)
    requires stream.Valid() && WellFormedField(f) && !f.ltype.Submessage?
    modifies stream
    ensures stream.Valid() && stream.End() == old(stream.End())
    ensures var p := Spec.DecodeScalar(f, old(stream.Left()));
            (ok <==> p.Done?) && (ok ==> v == p.value && stream.Left() == p.rest)
  {
    hide Spec.DecodeBool, Spec.DecodeInteger, Spec.DecodeFixed, Spec.DecodeBytes, Spec.DecodeString,
        Spec.DecodeFixedLength;
    match f.ltype {
      case Bool => ok, v := DecBool(stream);
      case Fixed32 => ok, v := DecFixed(stream, 4);
      case Fixed64 => ok, v := DecFixed(stream, 8);
      case Bytes => ok, v := DecBytes(stream, f);
      case String => ok, v := DecString(stream, f);
      case FixedLengthBytes => ok, v := DecFixedLengthBytes(stream, f);
      case Varint | UVarint | SVarint => ok, v := DecInteger(stream, f);
    }
  }

  // ----- Arrays -----

  /** One turn of the packed loop, in terms of its meaning. */
  lemma {:induction false} PackedTurn(f: Field, s: seq<byte>, items: seq<Value>, k: nat)
    ensures s == [] ==> Spec.DecodePacked(f, s, items, k) == Spec.Filled(items, k)
    ensures s != [] && k >= f.arraySize ==> Spec.DecodePacked(f, s, items, k).Overflow?
    ensures s != [] && k < f.arraySize ==>
              var p := Spec.DecodeScalar(f, s);
              Spec.DecodePacked(f, s, items, k)
              == if p.Done? then Spec.DecodePacked(f, p.rest, PutItem(items, k, p.value), k + 1) else Spec.Overflow
  {
    hide Spec.DecodeScalar, PutItem;
  }

  /** The packed loop of decode_static_field, on the substream of the record. */
  method DecodePackedItems(sub: IStream, f: Field, items: seq<Value>, size: nat)
    returns (status: bool, items': seq<Value>, size': nat)
    requires sub.Valid() && WellFormedField(f) && f.ltype.Packable() && f.htype.Repeated?
    modifies sub
    ensures sub.Valid() && sub.End() == old(sub.End())
    ensures var r := Spec.DecodePacked(f, old(sub.Left()), items, size);
      && (status && sub.bytesLeft == 0 <==> r.Filled?)
      && (r.Filled? ==> items' == r.items && size' == r.count)
  {
    hide Spec.DecodeScalar, Spec.DecodePacked, ItemIndex, ItemsInReach, InitWithin, PutItem, WellFormed;
    assert ItemsInReach(f);
    hide WellFormedField;
    items', size', status := items, size, true;
    while sub.bytesLeft > 0 && size' < f.arraySize
      invariant sub.Valid() && sub.End() == old(sub.End())
      invariant Spec.DecodePacked(f, old(sub.Left()), items, size) == Spec.DecodePacked(f, sub.Left(), items', size')
      decreases sub.bytesLeft
    {
      PackedTurn(f, sub.Left(), items', size');
      var item;
      status, item := DecScalar(sub, f);
      if !status {
        return;
      }
      ItemIndexIs(f, size');
      items' := PutItem(items', ItemIndex(f, size'), item);
      size' := size' + 1;
    }
    PackedTurn(f, sub.Left(), items', size');
  }

  // ----- Values, fields and messages -----

  /** What a submessage is decoded over: array entries are initialised first. */
  function SubmessageBase(f: Field, old_: Value): seq<Slot> {
    if f.htype.Repeated? then Defaults(f.Sub()) else Spec.SlotsOf(old_)
  }

  /** The message inside the substream of a submessage. */
  method DecodePayload(sub: IStream, f: Field, old_: Value) returns (status: bool, slots: seq<Slot>)
    requires sub.Valid() && WellFormedField(f) && f.ltype.Submessage?
    modifies sub
    ensures sub.Valid() && sub.End() <= old(sub.End())
    ensures var p := Spec.DecodeNoInit(f.Sub(), SubmessageBase(f, old_), old(sub.Left()));
            (status <==> p.Done?) && (status ==> slots == p.value && sub.At(old(sub.End()), p.rest))
    decreases sub.bytesLeft, 12
  {
    assert f.ptr.SubFields? && WellFormed(f.ptr.fields);
    hide WellFormed, WellFormedField, Spec.DecodeNoInit, Defaults;
    if f.htype.Repeated? {
      status, slots := DecodeMessage(sub, f.ptr.fields);
    } else {
      status, slots := DecodeMessageNoInit(sub, f.ptr.fields, Spec.SlotsOf(old_));
    }
  }

  /** pb_dec_submessage */
  method DecSubmessage(stream: IStream, f: Field, old_: Value) returns (ok: bool, v: Value)
    requires stream.Valid() && WellFormedField(f) && f.ltype.Submessage?
    modifies stream
    ensures stream.Valid() && stream.End() <= old(stream.End())
    ensures var p := Spec.DecodeValue(f, old_, old(stream.Left()));
            (ok <==> p.Done?) && (ok ==> v == p.value && stream.At(old(stream.End()), p.rest))
    decreases stream.bytesLeft, 3
  {
    SubmessageMeaning(f, old_, stream.Left());
    hide WellFormedField, Spec.DecodeValue, Spec.DecodeNoInit, Spec.Substream, SubmessageBase;
    v := Undefined;
    var sub;
    ok, sub := stream.MakeSubstream();
    if !ok { return; }
    var status, slots := DecodePayload(sub, f, old_);
    ghost var end, rest := sub.End(), stream.source[sub.End()..sub.End() + stream.bytesLeft];
    var closed := stream.CloseSubstream(sub);
    assert closed && stream.At(end + stream.bytesLeft, rest);
    return closed && status, Struct(slots);
  }

  lemma {:induction false} SubmessageMeaning(f: Field, old_: Value, s: seq<byte>)
    requires WellFormedField(f) && f.ltype.Submessage?
    ensures var p := Spec.Substream(s);
            Spec.DecodeValue(f, old_, s) ==
            if p.Fail? then Fail
            else
              var q := Spec.DecodeNoInit(f.Sub(), SubmessageBase(f, old_), p.value);
              if q.Fail? then Fail else Done(Struct(q.value), p.rest)
  {
    hide Spec.Substream, Spec.DecodeNoInit, Defaults;
  }

  /** One call through PB_DECODERS. */
  method DecValue(stream: IStream, f: Field, old_: Value) returns (ok: bool, v: Value)
    requires stream.Valid() && WellFormedField(f)
    modifies stream
    ensures stream.Valid() && stream.End() <= old(stream.End())
    ensures var p := Spec.DecodeValue(f, old_, old(stream.Left()));
            (ok <==> p.Done?) && (ok ==> v == p.value && stream.At(old(stream.End()), p.rest))
    decreases stream.bytesLeft, 4
  {
    hide Spec.DecodeScalar, Spec.DecodeNoInit, WellFormedField;
    if f.ltype.Submessage? {
      ok, v := DecSubmessage(stream, f, old_);
    } else {
      ok, v := DecScalar(stream, f);
    }
  }

  /** The repeated branch of decode_static_field. */
  method DecodeRepeatedField(stream: IStream, wireType: nat, f: Field, items: seq<Value>, size: nat)
    returns (ok: bool, items': seq<Value>, size': nat)
    requires stream.Valid() && WellFormedField(f) && f.htype.Repeated?
    modifies stream
    ensures stream.Valid() && stream.End() <= old(stream.End())
    ensures var p := Spec.DecodeRepeated(f, wireType, items, size, old(stream.Left()));
      && (ok <==> p.Done?)
      && (ok ==> items' == p.value.items && size' == p.value.count && stream.At(old(stream.End()), p.rest))
    decreases stream.bytesLeft, 5
  {
    hide Spec.DecodePacked, Spec.DecodeValue, Spec.Substream, ItemIndex, ItemsInReach, InitWithin, PutItem, WellFormed;
    assert ItemsInReach(f);
    hide WellFormedField;
    items', size' := items, size;
    if wireType == Spec.WT_STRING && f.ltype.Packable() {
      var sub, status;
      ok, sub := stream.MakeSubstream();
      if !ok { return; }
      status, items', size' := DecodePackedItems(sub, f, items, size);
      if sub.bytesLeft != 0 {
        return false, items', size';
      }
      ghost var end, rest := sub.End(), stream.source[sub.End()..sub.End() + stream.bytesLeft];
      var closed := stream.CloseSubstream(sub);
      assert closed && stream.At(end + stream.bytesLeft, rest);
      ok := closed && status;
    } else {
      size' := size + 1;
      if size >= f.arraySize {
        return false, items', size';
      }
      var item;
      ok, item := DecValue(stream, f, Undefined);
      ItemIndexIs(f, size);
      items' := PutItem(items, ItemIndex(f, size), item);
    }
  }

  /** iter->pSize == iter->pData */
  lemma {:induction false} NoSizeMember(iter: FieldIter)
    requires iter.Valid() && iter.start != [] && !iter.start[iter.pos].htype.OneOf?
    ensures iter.pSize == iter.pData <==> iter.start[iter.pos].sizeOffset == 0
  {
  }

  lemma {:induction false} FoundPosition(d: Descriptor, i: nat, j: nat)
    requires WellFormed(d) && i < |d| && j < |d| && Matches(d[j], d[i].tag)
    ensures i == j
  {
  }

  /** pb_release_union_field.  Static members own no memory, so only the old tag is looked
      up, and the iterator is brought back. */
  method ReleaseUnionField(iter: FieldIter, oldTag: nat) returns (ok: bool)
    requires iter.Valid() && WellFormed(iter.start) && iter.start != []
    modifies iter
    ensures iter.Valid()
    ensures ok <==> Spec.UnionReleasable(iter.start, oldTag, iter.start[old(iter.pos)].tag)
    ensures ok ==> iter.pos == old(iter.pos)
  {
    var newTag := iter.start[iter.pos].tag;
    ghost var at := iter.pos;
    assert WellFormedField(iter.start[at]);
    if oldTag == 0 {
      return true;
    }
    if oldTag == newTag {
      return true;
    }
    ok := iter.Find(oldTag);
    if !ok { return; }
    assert Matches(iter.start[at], newTag);
    var back := iter.Find(newTag);
    FoundPosition(iter.start, at, iter.pos);
    ok := back;
  }

  /** The oneof branch of decode_static_field. */
  method DecodeOneOfField(stream: IStream, iter: FieldIter, slot: Slot) returns (ok: bool, v: Value)
    requires stream.Valid() && iter.Valid() && WellFormed(iter.start) && iter.start != []
    modifies stream, iter
    ensures stream.Valid() && stream.End() <= old(stream.End()) && iter.Valid()
    ensures ok ==> iter.pos == old(iter.pos)
    ensures var f := iter.start[old(iter.pos)];
            var p := Spec.DecodeValue(f, Spec.UnionBase(f, slot), old(stream.Left()));
      && (ok <==> Spec.UnionReleasable(iter.start, slot.Which(), f.tag) && p.Done?)
      && (ok ==> v == p.value && stream.At(old(stream.End()), p.rest))
    decreases stream.bytesLeft, 5
  {
    v := Undefined;
    var f := iter.start[iter.pos];
    assert WellFormedField(f) && (f.ltype.Submessage? ==> f.ptr.SubFields? && WellFormed(f.ptr.fields));
    hide WellFormed, WellFormedField, Spec.DecodeValue, Spec.UnionReleasable;
    ok := ReleaseUnionField(iter, slot.Which());
    if !ok { return; }
    var base := slot.Val();
    if f.ltype.Submessage? && slot.Which() != f.tag {
      var fresh_ := SetToDefaults(f.ptr.fields);
      base := Struct(fresh_);
    }
    ok, v := DecValue(stream, f, base);
  }

  /** decode_static_field.  `size` is the counter of a fixed-count array, and `st` the state
      that the other local variables of pb_decode_noinit complete. */
  method DecodeStaticField(stream: IStream, wireType: nat, iter: FieldIter, dest: seq<Slot>, size: nat,
                           ghost st: Spec.State)
    returns (ok: bool, dest': seq<Slot>, size': nat)
    requires stream.Valid() && iter.Valid() && WellFormed(iter.start) && iter.start != []
    requires st.slots == dest && st.fixedSize == size
    modifies stream, iter
    ensures stream.Valid() && stream.End() <= old(stream.End()) && iter.Valid()
    ensures ok ==> iter.pos == old(iter.pos)
    ensures var p := Spec.DecodeStatic(iter.start, old(iter.pos), wireType, st, old(stream.Left()));
      && (ok <==> p.Done?)
      && (ok ==> p.value == st.(slots := dest', fixedSize := size') && stream.At(old(stream.End()), p.rest))
    decreases stream.bytesLeft, 6
  {
    var f, h := iter.start[iter.pos], Home(iter.start, iter.pos);
    assert WellFormedField(f);
    hide WellFormed, WellFormedField, Spec.DecodeValue, Spec.DecodeRepeated, Spec.UnionReleasable, Spec.UnionBase;
    var slot := SlotAt(dest, h);
    var v;
    size' := size;
    match f.htype {
      case Required =>
        ok, v := DecValue(stream, f, slot.Val());
        dest' := Put(dest, h, Single(v));
      case Optional =>
        NoSizeMember(iter);
        ok, v := DecValue(stream, f, slot.Val());
        dest' := Put(dest, h, if iter.pSize != iter.pData then Opt(true, v) else Single(v));
      case Repeated =>
        NoSizeMember(iter);
        var items;
        if iter.pSize == iter.pData {
          ok, items, size' := DecodeRepeatedField(stream, wireType, f, slot.Items(), size);
        } else {
          var count;
          ok, items, count := DecodeRepeatedField(stream, wireType, f, slot.Items(), |slot.Items()|);
        }
        dest' := Put(dest, h, Arr(items));
      case OneOf =>
        ok, v := DecodeOneOfField(stream, iter, slot);
        dest' := Put(dest, h, Union(f.tag, v));
    }
  }

  /** The fixed-count bookkeeping of pb_decode_noinit, before a field is decoded. */
  method EnterFixedCount(iter: FieldIter, fixedField: Option<nat>, fixedSize: nat, ghost st: Spec.State)
    returns (ok: bool, field: Option<nat>, size: nat)
    requires iter.Valid() && iter.start != [] && st.fixedField == fixedField && st.fixedSize == fixedSize
    requires fixedField.Some? ==> fixedField.value < |iter.start|
    ensures var e := Spec.EnterFixed(iter.start, iter.pos, st);
            (ok <==> e.Some?) && (ok ==> e.value == st.(fixedField := field, fixedSize := size))
    ensures ok && field.Some? ==> field.value < |iter.start|
  {
    ok, field, size := true, fixedField, fixedSize;
    if iter.start[iter.pos].htype.Repeated? {
      NoSizeMember(iter);
      if iter.pSize == iter.pData && fixedField != Some(iter.pos) {
        if fixedField.Some? && fixedSize != iter.start[fixedField.value].arraySize {
          return false, field, size;
        }
        field, size := Some(iter.pos), 0;
      }
    }
  }

  /** Marking a required field as seen. */
  method MarkRequired(iter: FieldIter, fieldsSeen: array<nat>, ghost st: Spec.State)
    requires iter.Valid() && iter.start != [] && fieldsSeen.Length == 2
    requires Represents(fieldsSeen[..], st.seen) && InRange(iter.start, st.seen)
    modifies fieldsSeen
    ensures var st' := Spec.MarkSeen(iter.start, iter.pos, st);
            Represents(fieldsSeen[..], st'.seen) && InRange(iter.start, st'.seen)
  {
    hide WordIs, BitOr, Pow2;
    if iter.start[iter.pos].htype.Required? && iter.requiredFieldIndex < PB_MAX_REQUIRED_FIELDS {
      var k := iter.requiredFieldIndex;
      MarkAdds(fieldsSeen[0], st.seen, 0, k);
      MarkAdds(fieldsSeen[1], st.seen, 1, k);
      RankBelow(iter.start, iter.pos, |iter.start|);
      fieldsSeen[k / 32] := BitOr(fieldsSeen[k / 32], Pow2(k % 32));
    }
  }

  /** The variables of pb_decode_noinit agree with the abstract state. */
  ghost predicate Tracks(iter: FieldIter, fieldsSeen: array<nat>, dest: seq<Slot>, fixedField: Option<nat>,
                         fixedSize: nat,
                         st: Spec.State)
    reads iter, fieldsSeen
  {
    && iter.Valid() && fieldsSeen.Length == 2
    && st == Spec.State(dest, st.seen, fixedField, fixedSize)
    && (fixedField.Some? ==> fixedField.value < |iter.start|)
    && (iter.start != [] ==> Represents(fieldsSeen[..], st.seen) && InRange(iter.start, st.seen))
  }

  /** A record of a field that the iterator has found. */
  method DecodeFoundField(stream: IStream, iter: FieldIter, fieldsSeen: array<nat>, wireType: nat, dest: seq<Slot>,
                          fixedField: Option<nat>, fixedSize: nat, ghost st: Spec.State)
    returns (ok: bool, dest': seq<Slot>, field: Option<nat>, size: nat, ghost st': Spec.State)
    requires stream.Valid() && WellFormed(iter.start) && iter.start != []
    requires Tracks(iter, fieldsSeen, dest, fixedField, fixedSize, st)
    modifies stream, iter, fieldsSeen
    ensures stream.Valid() && stream.End() <= old(stream.End())
    ensures ok ==> Tracks(iter, fieldsSeen, dest', field, size, st')
    ensures var e := Spec.EnterFixed(iter.start, old(iter.pos), st);
      && (ok ==> e.Some?)
      && (e.Some? ==>
            var p := Spec.DecodeStatic(iter.start, old(iter.pos), wireType,
                                       Spec.MarkSeen(iter.start, old(iter.pos), e.value), old(stream.Left()));
            (ok <==> p.Done?) && (ok ==> st' == p.value && stream.At(old(stream.End()), p.rest)))
    decreases stream.bytesLeft, 7
  {
    hide WellFormed, Spec.DecodeStatic, Represents, InRange;
    dest', st' := dest, st;
    ok, field, size := EnterFixedCount(iter, fixedField, fixedSize, st);
    if !ok { return; }
    ghost var st1 := st.(fixedField := field, fixedSize := size);
    ghost var st2 := Spec.MarkSeen(iter.start, iter.pos, st1);
    MarkRequired(iter, fieldsSeen, st1);
    ok, dest', size := DecodeStaticField(stream, wireType, iter, dest, size, st2);
    st' := st2.(slots := dest', fixedSize := size);
  }

  /** The body of the record loop, after the tag. */
  method DecodeField(stream: IStream, iter: FieldIter, fieldsSeen: array<nat>, tag: nat, wireType: nat, dest: seq<Slot>,
                     fixedField: Option<nat>, fixedSize: nat, ghost st: Spec.State)
    returns (ok: bool, dest': seq<Slot>, field: Option<nat>, size: nat, ghost st': Spec.State)
    requires stream.Valid() && WellFormed(iter.start)
    requires Tracks(iter, fieldsSeen, dest, fixedField, fixedSize, st)
    modifies stream, iter, fieldsSeen
    ensures stream.Valid() && stream.End() <= old(stream.End())
    ensures ok ==> Tracks(iter, fieldsSeen, dest', field, size, st')
    ensures var p := Spec.DecodeRecord(iter.start, tag, wireType, st, old(stream.Left()));
            (ok <==> p.Done?) && (ok ==> st' == p.value && stream.At(old(stream.End()), p.rest))
    decreases stream.bytesLeft, 8
  {
    hide WellFormed, Spec.DecodeStatic, Spec.EnterFixed, Spec.MarkSeen, Spec.Skip, Spec.DecodeBool, Represents, InRange;
    dest', field, size, st' := dest, fixedField, fixedSize, st;
    var found := iter.Find(tag);
    if !found {
      ok := stream.SkipField(wireType);
      return;
    }
    if iter.start == [] {
      // The terminator entry is a required bool at offset zero of a struct without members.
      fieldsSeen[0] := BitOr(fieldsSeen[0], 1);
      var unused;
      ok, unused := DecBool(stream);
      return;
    }
    FindIs(iter.start, tag, iter.pos);
    ok, dest', field, size, st' := DecodeFoundField(stream, iter, fieldsSeen, wireType, dest, fixedField,
        fixedSize, st);
  }

  lemma {:induction false} FindIs(d: Descriptor, tag: nat, i: nat)
    requires WellFormed(d) && i < |d| && Matches(d[i], tag)
    ensures FindTag(d, tag) == Some(i)
  {
    FindUnique(d, i);
  }

  /** The record loop of pb_decode_noinit: each turn consumes at least its tag. */
  method DecodeRecords(stream: IStream, iter: FieldIter, fieldsSeen: array<nat>, dest: seq<Slot>)
    returns (ok: bool, dest': seq<Slot>, field: Option<nat>, size: nat, ghost st: Spec.State)
    requires stream.Valid() && WellFormed(iter.start)
    requires Tracks(iter, fieldsSeen, dest, None, 0, Spec.Start(dest))
    modifies stream, iter, fieldsSeen
    ensures stream.Valid() && stream.End() <= old(stream.End())
    ensures ok ==> Tracks(iter, fieldsSeen, dest', field, size, st)
    ensures var r := Spec.DecodeLoop(iter.start, Spec.Start(dest), old(stream.Left()));
            (ok <==> r.Ran?) && (ok ==> st == r.st && stream.At(old(stream.End()), r.rest))
    decreases stream.bytesLeft, 9
  {
    hide WellFormed, Spec.DecodeRecord, Spec.DecodeTag, Tracks;
    dest', field, size, st := dest, None, 0, Spec.Start(dest);
    ok := true;
    while stream.bytesLeft > 0
      invariant stream.Valid() && stream.End() == old(stream.End()) && stream.bytesLeft <= old(stream.bytesLeft)
      invariant Tracks(iter, fieldsSeen, dest', field, size, st)
      invariant Spec.DecodeLoop(iter.start, Spec.Start(dest), old(stream.Left())) ==
                Spec.DecodeLoop(iter.start, st, stream.Left())
      invariant ok
      decreases stream.bytesLeft
    {
      var tag, wireType, eof;
      ok, tag, wireType, eof := stream.DecodeTagAndType();
      if !ok {
        ok := eof;
        break;
      }
      ok, dest', field, size, st := DecodeField(stream, iter, fieldsSeen, tag, wireType, dest', field, size, st);
      if !ok { return; }
    }
  }

  /** The checks of pb_decode_noinit after the loop. */
  method CheckComplete(iter: FieldIter, fieldsSeen: array<nat>, field: Option<nat>, size: nat, ghost st: Spec.State)
    returns (ok: bool)
    requires WellFormed(iter.start) && Tracks(iter, fieldsSeen, st.slots, field, size, st)
    modifies iter
    ensures ok <==> Spec.Accepts(iter.start, st)
  {
    TagsArePositive(iter.start);
    hide WellFormed, Represents, Spec.RequiredSeen, InRange;
    if field.Some? && size != iter.start[field.value].arraySize {
      return false;
    }
    ok := CheckRequired(iter, fieldsSeen, st.seen);
  }

  lemma {:induction false} StartTracks(iter: FieldIter, fieldsSeen: array<nat>, dest: seq<Slot>)
    requires iter.Valid() && fieldsSeen[..] == [0, 0]
    ensures Tracks(iter, fieldsSeen, dest, None, 0, Spec.Start(dest))
  {
    EmptyBitmap();
    hide WordIs;
  }

  /** pb_decode_noinit */
  method DecodeMessageNoInit(stream: IStream, fields: Descriptor, dest: seq<Slot>) returns (ok: bool, dest': seq<Slot>)
    requires stream.Valid() && WellFormed(fields)
    modifies stream
    ensures stream.Valid() && stream.End() <= old(stream.End())
    ensures var p := Spec.DecodeNoInit(fields, dest, old(stream.Left()));
            (ok <==> p.Done?) && (ok ==> dest' == p.value && stream.At(old(stream.End()), p.rest))
    decreases stream.bytesLeft, 10
  {
    hide WellFormed, Spec.DecodeLoop, Spec.Accepts, Tracks;
    var fieldsSeen := new nat[2] [0, 0];
    var iter := new FieldIter(fields, 0);
    StartTracks(iter, fieldsSeen, dest);
    var field, size;
    ghost var st;
    ok, dest', field, size, st := DecodeRecords(stream, iter, fieldsSeen, dest);
    if !ok { return; }
    assert st.slots == dest' by { TracksSlots(iter, fieldsSeen, dest', field, size, st); }
    ok := CheckComplete(iter, fieldsSeen, field, size, st);
  }

  lemma {:induction false} TracksSlots(iter: FieldIter, fieldsSeen: array<nat>, dest: seq<Slot>, field: Option<nat>,
        size: nat, st: Spec.State)
    requires Tracks(iter, fieldsSeen, dest, field, size, st)
    ensures st.slots == dest
  {
    hide Represents, InRange;
  }

  lemma {:induction false} TagsArePositive(d: Descriptor)
    requires WellFormed(d)
    ensures forall i :: 0 <= i < |d| ==> d[i].tag >= 1
  {
    forall i | 0 <= i < |d| ensures d[i].tag >= 1 { assert WellFormedField(d[i]); }
  }

  /** pb_decode */
  method DecodeMessage(stream: IStream, fields: Descriptor) returns (ok: bool, dest: seq<Slot>)
    requires stream.Valid() && WellFormed(fields)
    modifies stream
    ensures stream.Valid() && stream.End() <= old(stream.End())
    ensures var p := Spec.Decode(fields, old(stream.Left()));
            (ok <==> p.Done?) && (ok ==> dest == p.value && stream.At(old(stream.End()), p.rest))
    decreases stream.bytesLeft, 11
  {
    dest := SetToDefaults(fields);
    ok, dest := DecodeMessageNoInit(stream, fields, dest);
  }

  /** pb_decode_delimited */
  method DecodeDelimited(stream: IStream, fields: Descriptor) returns (ok: bool, dest: seq<Slot>)
    requires stream.Valid() && WellFormed(fields)
    modifies stream
    ensures stream.Valid()
    ensures var p := Spec.DecodeDelimited(fields, old(stream.Left()));
            (ok <==> p.Done?) && (ok ==> dest == p.value && stream.At(old(stream.End()), p.rest))
  {
    hide WellFormed, Spec.Substream, Spec.Decode;
    dest := [];
    var sub, status;
    ok, sub := stream.MakeSubstream();
    if !ok { return; }
    status, dest := DecodeMessage(sub, fields);
    ghost var end, rest := sub.End(), stream.source[sub.End()..sub.End() + stream.bytesLeft];
    var closed := stream.CloseSubstream(sub);
    assert closed && stream.At(end + stream.bytesLeft, rest);
    ok := closed && status;
  }
}
