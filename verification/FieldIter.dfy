/** pb_common.c: walking a descriptor, and the offsets that the walk computes. */
module FieldIteration {
  import opened Pb

  /** Offset of the has_, _count or which_ member of field i. */
  function SizeOffset(d: Descriptor, i: nat): int
    requires i < |d| || i == 0
  {
    if SharesStorage(d, i) then SizeOffset(d, i - 1)
    else DataOffset(d, i) + if i < |d| then d[i].sizeOffset else 0
  }

  /** pb_field_iter_t */
  class FieldIter {
    const start: Descriptor
    const dest: nat
    var pos: nat
    var pData: int
    var pSize: int
    var requiredFieldIndex: nat

    /** What a table lookup would give for the current position. */
    ghost predicate Valid()
      reads this
    {
      && (pos < |start| || (start == [] && pos == 0))
      && pData == dest + DataOffset(start, pos)
      && pSize == dest + SizeOffset(start, pos)
      && requiredFieldIndex == Rank(start, pos)
    }

    constructor (fields: Descriptor, dest: nat)
      ensures Valid() && pos == 0 && start == fields && this.dest == dest
    {
      start, this.dest := fields, dest;
      pos, requiredFieldIndex := 0, 0;
      pData := dest + EntryOffset(fields, 0);
      pSize := dest + EntryOffset(fields, 0) + if fields != [] then fields[0].sizeOffset else 0;
    }

    /** pb_field_iter_begin */
    method Begin() returns (more: bool)
      modifies this
      ensures Valid() && pos == 0
      ensures more <==> start != []
    {
      pos := 0;
      requiredFieldIndex := 0;
      pData := dest + EntryOffset(start, 0);
      pSize := pData + if start != [] then start[0].sizeOffset else 0;
      more := start != [];
    }

    /** pb_field_iter_next: one step, wrapping to the first field after the last. */
    method Next() returns (more: bool)
      requires Valid()
      modifies this
      ensures Valid()
      ensures more <==> old(pos) + 1 < |start|
      ensures pos == if more then old(pos) + 1 else 0
    {
      if start == [] {
        return false;
      }
      var prev := start[pos];
      pos := pos + 1;
      if pos == |start| {
        var _ := Begin();
        more := false;
      } else {
        var prevSize := prev.dataSize;
        if prev.htype.OneOf? && start[pos].htype.OneOf? && start[pos].dataOffset == PB_SIZE_MAX {
          return true;
        } else if prev.atype.Static? && prev.htype.Repeated? {
          prevSize := prevSize * prev.arraySize;
        } else if prev.atype.Pointer? {
          prevSize := SIZEOF_POINTER;
        }
        if prev.htype.Required? {
          requiredFieldIndex := requiredFieldIndex + 1;
        }
        pData := pData + prevSize + start[pos].dataOffset;
        pSize := pData + start[pos].sizeOffset;
        more := true;
      }
    }

    /** pb_field_iter_find: a circular search from wherever the iterator stands.  On an empty
        descriptor the position is the terminator, whose tag is zero. */
    method Find(tag: nat) returns (found: bool)
      requires Valid()
      modifies this
      ensures Valid()
      ensures start != [] ==> (found <==> exists j :: 0 <= j < |start| && Matches(start[j], tag))
      ensures start != [] && found ==> Matches(start[pos], tag)
      ensures start != [] && found ==> start[pos].tag == tag && !start[pos].ltype.Extension?
      ensures !found ==> forall j :: 0 <= j < |start| && start[j].tag == tag ==> start[j].ltype.Extension?
      ensures start == [] ==> (found <==> tag == 0)
      ensures !found ==> pos == old(pos)
    {
      var from := pos;
      if start == [] {
        found := tag == 0;
        if !found { var _ := Next(); }
        return;
      }
      if Matches(start[pos], tag) {
        return true;
      }
      var _ := Next();
      ghost var steps := 1;
      while pos != from
        invariant Valid() && 1 <= steps <= |start|
        invariant pos == if from + steps < |start| then from + steps else from + steps - |start|
        invariant forall j :: from <= j < from + steps && j < |start| ==> !Matches(start[j], tag)
        invariant forall j :: 0 <= j < from + steps - |start| ==> !Matches(start[j], tag)
        decreases |start| - steps
      {
        if Matches(start[pos], tag) {
          return true;
        }
        var _ := Next();
        steps := steps + 1;
      }
      found := false;
    }
  }
}
