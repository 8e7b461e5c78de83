/** Concatenation of messages that have fixed-count arrays: when it is a merge, and when the
    array that the first message ends with makes it fail. */
module FixedArrays {
  import opened Basics
  import opened Pb
  import opened Wire
  import opened DecodeSpec
  import opened Merge

  predicate IsFixed(d: Descriptor, tag: nat) {
    FindTag(d, tag).Some? && d[FindTag(d, tag).value].FixedCount()
  }

  /** The first fixed-count array that the loop enters. */
  ghost function FirstFixed(d: Descriptor, st: State, s: seq<byte>): Option<nat>
    decreases |s|
  {
    if s == [] then None
    else
      var t := DecodeTag(s);
      if !t.Tag? then None
      else if IsFixed(d, t.tag) then FindTag(d, t.tag)
      else
        var p := DecodeRecord(d, t.tag, t.wireType, st, t.rest);
        if p.Fail? then None else FirstFixed(d, p.value, p.rest)
  }

  /** The fixed-count array the loop is in. */
  predicate InArray(d: Descriptor, st: State) {
    st.fixedField.Some? ==> st.fixedField.value < |d| && d[st.fixedField.value].FixedCount()
  }

  function With(st: State, field: Option<nat>, size: nat): State {
    st.(fixedField := field, fixedSize := size)
  }

  function Held(d: Descriptor, st: State, i: nat): State
    requires i < |d|
  {
    With(st, Some(i), d[i].arraySize)
  }

  function Moved(p: Parse<State>, field: Option<nat>, size: nat): Parse<State> {
    if p.Fail? then Fail else Done(With(p.value, field, size), p.rest)
  }

  // ----- One record -----

  /** A record of any other field neither looks at the array in progress nor changes it. */
  lemma {:induction false} OtherRecord(d: Descriptor, tag: nat, wireType: nat, st: State, s: seq<byte>,
        field: Option<nat>, size: nat)
    requires !IsFixed(d, tag)
    ensures DecodeRecord(d, tag, wireType, With(st, field, size), s)
            == Moved(DecodeRecord(d, tag, wireType, st, s), field, size)
    ensures var p := DecodeRecord(d, tag, wireType, st, s);
            p.Done? ==> p.value.fixedField == st.fixedField && p.value.fixedSize == st.fixedSize
  {
    hide DecodeBool, Skip;
    if FindTag(d, tag).Some? {
      OtherStatic(d, FindTag(d, tag).value, wireType, MarkSeen(d, FindTag(d, tag).value, st), s, field, size);
      hide DecodeStatic;
    }
  }

  lemma {:induction false} OtherStatic(d: Descriptor, i: nat, wireType: nat, st: State, s: seq<byte>,
        field: Option<nat>, size: nat)
    requires i < |d| && !d[i].FixedCount()
    ensures DecodeStatic(d, i, wireType, With(st, field, size), s)
            == Moved(DecodeStatic(d, i, wireType, st, s), field, size)
    ensures var p := DecodeStatic(d, i, wireType, st, s);
            p.Done? ==> p.value.fixedField == st.fixedField && p.value.fixedSize == st.fixedSize
  {
    hide DecodeValue, DecodeRepeated, UnionReleasable, UnionBase, Put, SlotAt;
  }

  /** Entering another array than the complete one forgets which one that was. */
  lemma {:induction false} EntersSame(d: Descriptor, tag: nat, wireType: nat, st: State, s: seq<byte>, i: nat)
    requires i < |d| && IsFixed(d, tag) && FindTag(d, tag) != Some(i) && st.fixedField.None?
    ensures DecodeRecord(d, tag, wireType, Held(d, st, i), s) == DecodeRecord(d, tag, wireType, st, s)
  {
    hide DecodeStatic;
  }

  /** A full array takes another record only if that is packed and empty. */
  lemma {:induction false} FullArray(d: Descriptor, i: nat, wireType: nat, st: State, s: seq<byte>)
    requires i < |d| && d[i].FixedCount() && st.fixedField == Some(i)
    ensures var p, q := DecodeStatic(d, i, wireType, st, s), DecodeStatic(d, i, wireType, Held(d, st, i), s);
            q.Done? ==> p.Done? && p.rest == q.rest && q.value == Held(d, p.value, i)
                        && p.value.fixedSize == st.fixedSize && p.value.fixedField == st.fixedField
  {
    hide DecodeValue, Put, SlotAt;
    var f, items := d[i], SlotAt(st.slots, Home(d, i)).Items();
    if wireType == WT_STRING && f.ltype.Packable() {
      var sub := Substream(s);
      if sub.Done? {
        assert DecodePacked(f, sub.value, items, f.arraySize).Filled? ==> sub.value == [];
      }
      hide DecodePacked;
    }
  }

  lemma {:induction false} FullRecord(d: Descriptor, tag: nat, wireType: nat, st: State, s: seq<byte>, i: nat)
    requires i < |d| && d[i].FixedCount() && FindTag(d, tag) == Some(i)
    requires st.fixedField == Some(i) || (st.fixedField.None? && st.fixedSize == 0)
    ensures var p, q := DecodeRecord(d, tag, wireType, st, s), DecodeRecord(d, tag, wireType, Held(d, st, i), s);
            q.Done? ==> p.Done? && p.rest == q.rest && q.value == Held(d, p.value, i)
                        && p.value.fixedSize == st.fixedSize && p.value.fixedField == Some(i)
  {
    FullArray(d, i, wireType, MarkSeen(d, i, With(st, Some(i), st.fixedSize)), s);
    hide DecodeStatic;
    assert d != [];
  }

  // ----- The loop -----

  lemma {:induction false} StaysInArray(d: Descriptor, st: State, s: seq<byte>)
    requires InArray(d, st)
    ensures DecodeLoop(d, st, s).Ran? ==> InArray(d, DecodeLoop(d, st, s).st)
    decreases |s|
  {
    hide DecodeTag, DecodeRecord;
    if s != [] && DecodeTag(s).Tag? {
      var t := DecodeTag(s);
      RecordInArray(d, t.tag, t.wireType, st, t.rest);
      var p := DecodeRecord(d, t.tag, t.wireType, st, t.rest);
      if p.Done? { StaysInArray(d, p.value, p.rest); }
    }
  }

  lemma {:induction false} RecordInArray(d: Descriptor, tag: nat, wireType: nat, st: State, s: seq<byte>)
    requires InArray(d, st)
    ensures var p := DecodeRecord(d, tag, wireType, st, s); p.Done? ==> InArray(d, p.value)
  {
    hide DecodeBool, Skip, DecodeValue, DecodeRepeated, UnionReleasable, UnionBase, Put, SlotAt;
  }

  /** Two runs with the same outcome for the caller. */
  ghost predicate Same(d: Descriptor, r: Run, q: Run, i: nat)
    requires i < |d|
  {
    if r.Stuck? then q.Stuck?
    else q == r || (r.st.fixedField.None? && q == Ran(Held(d, r.st, i), r.rest, r.terminated))
  }

  /** As long as the first array entered is another one, a complete array makes no
      difference. */
  lemma {:induction false} OtherFirst(d: Descriptor, st: State, s: seq<byte>, i: nat)
    requires i < |d| && st.fixedField.None?
    ensures FirstFixed(d, st, s) != Some(i) ==>
              Same(d, DecodeLoop(d, st, s), DecodeLoop(d, Held(d, st, i), s), i)
    decreases |s|
  {
    hide DecodeTag, DecodeRecord, IsFixed;
    if s != [] && DecodeTag(s).Tag? && FirstFixed(d, st, s) != Some(i) {
      var t := DecodeTag(s);
      if IsFixed(d, t.tag) {
        EntersSame(d, t.tag, t.wireType, st, t.rest, i);
      } else {
        OtherRecord(d, t.tag, t.wireType, st, t.rest, Some(i), d[i].arraySize);
        var p := DecodeRecord(d, t.tag, t.wireType, st, t.rest);
        if p.Done? { OtherFirst(d, p.value, p.rest, i); }
      }
    }
  }

  /** The run has yet to fill array i, starting it or going on with it. */
  ghost predicate MustFill(d: Descriptor, st: State, s: seq<byte>, i: nat)
    requires i < |d|
  {
    && st.fixedSize < d[i].arraySize
    && (st.fixedField == Some(i)
        || (st.fixedField.None? && st.fixedSize == 0 && FirstFixed(d, st, s) == Some(i)))
  }

  lemma {:induction false} AbandonsArray(d: Descriptor, tag: nat, wireType: nat, st: State, s: seq<byte>, i: nat)
    requires i < |d| && st.fixedField == Some(i) && st.fixedSize < d[i].arraySize
    requires IsFixed(d, tag) && FindTag(d, tag) != Some(i)
    ensures DecodeRecord(d, tag, wireType, st, s).Fail?
  {
    hide DecodeStatic;
  }

  /** If it fills it, the same bytes overflow an array that is full already. */
  lemma {:induction false} FullOverflows(d: Descriptor, st: State, s: seq<byte>, i: nat)
    requires i < |d| && d[i].FixedCount() && MustFill(d, st, s, i)
    requires DecodeLoop(d, st, s).Ran? && FixedComplete(d, DecodeLoop(d, st, s).st)
    ensures DecodeLoop(d, Held(d, st, i), s).Stuck?
    decreases |s|
  {
    hide DecodeTag, DecodeRecord, IsFixed;
    if s != [] && DecodeTag(s).Tag? {
      var t := DecodeTag(s);
      var p := DecodeRecord(d, t.tag, t.wireType, st, t.rest);
      var q := DecodeRecord(d, t.tag, t.wireType, Held(d, st, i), t.rest);
      OneRecord(d, t.tag, t.wireType, st, t.rest, i, s);
      if q.Done? {
        FullOverflows(d, p.value, p.rest, i);
      }
    }
  }

  lemma {:induction false} OneRecord(d: Descriptor, tag: nat, wireType: nat, st: State, rest: seq<byte>, i: nat,
        s: seq<byte>)
    requires i < |d| && d[i].FixedCount() && MustFill(d, st, s, i)
    requires s != [] && DecodeTag(s) == Tag(tag, wireType, rest)
    ensures var p, q := DecodeRecord(d, tag, wireType, st, rest), DecodeRecord(d, tag, wireType, Held(d, st, i), rest);
            p.Done? && q.Done? ==> p.rest == q.rest && q.value == Held(d, p.value, i) && MustFill(d, p.value, p.rest, i)
  {
    if !IsFixed(d, tag) {
      OtherRecord(d, tag, wireType, st, rest, Some(i), d[i].arraySize);
    } else if FindTag(d, tag) == Some(i) {
      FullRecord(d, tag, wireType, st, rest, i);
    } else {
      AbandonsArray(d, tag, wireType, st, rest, i);
    }
    hide DecodeTag, DecodeRecord, IsFixed;
  }

  // ----- Whole messages -----

  /** b decodes over what a has left, and a was consumed to its end. */
  ghost predicate Continues(d: Descriptor, s0: seq<Slot>, a: seq<byte>, b: seq<byte>) {
    && DecodeNoInit(d, s0, a).Done? && !DecodeLoop(d, Start(s0), a).terminated
    && DecodeNoInit(d, DecodeNoInit(d, s0, a).value, b).Done?
  }

  /** b does not begin its fixed-count arrays with the one that a ended in. */
  ghost predicate StartsElsewhere(d: Descriptor, s0: seq<Slot>, a: seq<byte>, b: seq<byte>)
    requires Continues(d, s0, a, b)
  {
    var last := DecodeLoop(d, Start(s0), a).st.fixedField;
    last.None? || FirstFixed(d, Start(DecodeNoInit(d, s0, a).value), b) != last
  }

  /** The joined run is the run on b, from the state that a leaves. */
  lemma {:induction false} Joined(d: Descriptor, s0: seq<Slot>, a: seq<byte>, b: seq<byte>)
    requires Continues(d, s0, a, b)
    ensures var ra, st1 := DecodeLoop(d, Start(s0), a), Start(DecodeNoInit(d, s0, a).value);
            var joined := With(st1, ra.st.fixedField, ra.st.fixedSize);
            var r, q := DecodeLoop(d, joined, b), DecodeLoop(d, Start(s0), a + b);
            && (if r.Ran? then q == Ran(AlsoSeen(r.st, ra.st.seen), r.rest, r.terminated) else q.Stuck?)
            && InArray(d, ra.st) && (ra.st.fixedField.None? ==> joined == st1)
  {
    hide DecodeLoop, Accepts;
    var ra := DecodeLoop(d, Start(s0), a);
    var joined := With(Start(ra.st.slots), ra.st.fixedField, ra.st.fixedSize);
    LoopConcat(d, Start(s0), a, b);
    assert AlsoSeen(joined, ra.st.seen) == ra.st;
    SeenFrame(d, joined, b, ra.st.seen);
    StaysInArray(d, Start(s0), a);
    SizeUnused(d, Start(s0), a);
  }

  /** Concatenation is merge when the second message begins elsewhere. */
  lemma {:induction false} ConcatMerges(d: Descriptor, s0: seq<Slot>, a: seq<byte>, b: seq<byte>)
    requires Continues(d, s0, a, b) && StartsElsewhere(d, s0, a, b)
    ensures DecodeNoInit(d, s0, a + b) == DecodeNoInit(d, DecodeNoInit(d, s0, a).value, b)
  {
    hide DecodeLoop, RequiredSeen, FirstFixed;
    var ra := DecodeLoop(d, Start(s0), a);
    var st1 := Start(ra.st.slots);
    Joined(d, s0, a, b);
    MoreSeen(d, DecodeLoop(d, st1, b).st.seen, ra.st.seen);
    if ra.st.fixedField.Some? {
      assert With(st1, ra.st.fixedField, ra.st.fixedSize) == Held(d, st1, ra.st.fixedField.value);
      OtherFirst(d, st1, b, ra.st.fixedField.value);
    }
  }

  /** And only then: otherwise the array overflows. */
  lemma {:induction false} ConcatIsMergeIff(d: Descriptor, s0: seq<Slot>, a: seq<byte>, b: seq<byte>)
    requires forall i :: 0 <= i < |d| && d[i].FixedCount() ==> d[i].arraySize > 0
    requires Continues(d, s0, a, b)
    ensures DecodeNoInit(d, s0, a + b) == DecodeNoInit(d, DecodeNoInit(d, s0, a).value, b)
            <==> StartsElsewhere(d, s0, a, b)
  {
    if StartsElsewhere(d, s0, a, b) {
      ConcatMerges(d, s0, a, b);
    } else {
      hide DecodeLoop, RequiredSeen, FirstFixed;
      var ra := DecodeLoop(d, Start(s0), a);
      var st1, i := Start(ra.st.slots), ra.st.fixedField.value;
      Joined(d, s0, a, b);
      assert With(st1, ra.st.fixedField, ra.st.fixedSize) == Held(d, st1, i);
      FullOverflows(d, st1, b, i);
    }
  }

  lemma {:induction false} SizeUnused(d: Descriptor, st: State, s: seq<byte>)
    requires st.fixedField.None? ==> st.fixedSize == 0
    ensures var r := DecodeLoop(d, st, s); r.Ran? && r.st.fixedField.None? ==> r.st.fixedSize == 0
    decreases |s|
  {
    hide DecodeTag, DecodeRecord;
    if s != [] && DecodeTag(s).Tag? {
      var t := DecodeTag(s);
      var p := DecodeRecord(d, t.tag, t.wireType, st, t.rest);
      RecordSize(d, t.tag, t.wireType, st, t.rest);
      if p.Done? { SizeUnused(d, p.value, p.rest); }
    }
  }

  lemma {:induction false} RecordSize(d: Descriptor, tag: nat, wireType: nat, st: State, s: seq<byte>)
    requires st.fixedField.None? ==> st.fixedSize == 0
    ensures var p := DecodeRecord(d, tag, wireType, st, s);
            p.Done? && p.value.fixedField.None? ==> p.value.fixedSize == 0
  {
    if IsFixed(d, tag) {
      hide DecodeBool, Skip, DecodeValue, DecodeRepeated, UnionReleasable, UnionBase, Put, SlotAt;
    } else {
      OtherRecord(d, tag, wireType, st, s, st.fixedField, st.fixedSize);
      hide DecodeRecord;
    }
  }

  // ----- Two messages that do not merge -----

  /** repeated fixed32 x = 1, one entry, fixed count */
  function OneWord(): Descriptor { [Field(1, LType.Fixed32, Repeated, Static, 0, 0, 4, 1, Null)] }

  /** x = [0] */
  function ZeroWord(): seq<byte> { [13, 0, 0, 0, 0] }

  lemma {:induction false} ZeroWordRun(slots: seq<Slot>)
    requires |slots| == 1
    ensures DecodeLoop(OneWord(), Start(slots), ZeroWord()).Ran?
    ensures var r := DecodeLoop(OneWord(), Start(slots), ZeroWord());
            !r.terminated && |r.st.slots| == 1 && r.st.fixedField == Some(0) && r.st.fixedSize == 1
    ensures FirstFixed(OneWord(), Start(slots), ZeroWord()) == Some(0)
    ensures DecodeNoInit(OneWord(), slots, ZeroWord()).Done?
  {
    var d, st, s := OneWord(), Start(slots), ZeroWord();
    assert s[1..] == [0, 0, 0, 0];
    assert DecodeTag(s) == Tag(1, 5, s[1..]);
    assert FindTag(d, 1) == Some(0) && IsFixed(d, 1);
    WordRecord(st);
    hide DecodeTag, DecodeRecord;
    var st' := DecodeRecord(d, 1, 5, st, s[1..]).value;
    assert DecodeLoop(d, st', []) == Ran(st', [], false);
    assert RequiredSeen(d, st'.seen) && FixedComplete(d, st');
  }

  lemma {:induction false} WordRecord(st: State)
    requires |st.slots| == 1 && st.fixedField.None?
    ensures var p := DecodeRecord(OneWord(), 1, 5, st, [0, 0, 0, 0]);
            p.Done? && p.rest == [] && |p.value.slots| == 1
            && p.value.fixedField == Some(0) && p.value.fixedSize == 1
  {
    var d := OneWord();
    var st1 := With(st, Some(0), 0);
    assert EnterFixed(d, 0, st) == Some(st1) && MarkSeen(d, 0, st1) == st1 && Home(d, 0) == 0;
    var items := SlotAt(st1.slots, 0).Items();
    assert DecodeValue(d[0], Undefined, [0, 0, 0, 0]) == DecodeFixed([0, 0, 0, 0], 4);
    assert DecodeFixed([0, 0, 0, 0], 4).Done? && DecodeFixed([0, 0, 0, 0], 4).rest == [];
    hide DecodeValue, DecodeFixed;
    var r := DecodeRepeated(d[0], 5, items, 0, [0, 0, 0, 0]);
    assert r.Done? && r.rest == [] && r.value.count == 1;
  }

  /** Each of the two messages decodes, one over the other too, and end to end they do not. */
  lemma {:induction false} SecondWordOverflows()
    ensures var d, s0, a := OneWord(), Defaults(OneWord()), ZeroWord();
      && WellFormed(d) && Continues(d, s0, a, a) && !StartsElsewhere(d, s0, a, a)
      && DecodeNoInit(d, s0, a + a) != DecodeNoInit(d, DecodeNoInit(d, s0, a).value, a)
  {
    var d, s0, a := OneWord(), Defaults(OneWord()), ZeroWord();
    ZeroWordRun(s0);
    ZeroWordRun(DecodeLoop(d, Start(s0), a).st.slots);
    hide DecodeLoop, ZeroWord, FirstFixed;
    ConcatIsMergeIff(d, s0, a, a);
  }
}
