/** The fields_seen bitmap of pb_decode_noinit refines a set of required-field ranks. */
module RequiredBits {
  import opened Pb
  import opened Wire
  import opened DecodeSpec
  import opened FieldIteration

  const ALLBITS: nat := 0xFFFF_FFFF

  // ----- Bits of a word -----

  predicate Bit(w: nat, i: nat) { if i == 0 then w % 2 == 1 else Bit(w / 2, i - 1) }

  lemma {:induction false} ZeroBits(i: nat)
    ensures !Bit(0, i)
  {
    if i > 0 { ZeroBits(i - 1); }
  }

  lemma {:induction false} BitOfOr(a: nat, b: nat, i: nat)
    ensures Bit(BitOr(a, b), i) <==> Bit(a, i) || Bit(b, i)
  {
    ZeroBits(i);
    if a != 0 && b != 0 {
      var low := if a % 2 == 1 || b % 2 == 1 then 1 else 0;
      assert BitOr(a, b) == 2 * BitOr(a / 2, b / 2) + low;
      if i > 0 { BitOfOr(a / 2, b / 2, i - 1); }
    }
  }

  lemma {:induction false} BitOfPow2(k: nat, i: nat)
    ensures Bit(Pow2(k), i) <==> i == k
  {
    if k == 0 {
      if i > 0 { ZeroBits(i - 1); }
    } else {
      assert Pow2(k) / 2 == Pow2(k - 1);
      if i > 0 { BitOfPow2(k - 1, i - 1); }
    }
  }

  /** Exactly the lowest n bits are set. */
  ghost predicate LowOnes(w: nat, n: nat) {
    forall i: nat :: Bit(w, i) <==> i < n
  }

  lemma {:induction false} HalfLowOnes(w: nat, n: nat)
    requires n > 0
    ensures LowOnes(w, n) <==> w % 2 == 1 && LowOnes(w / 2, n - 1)
  {
    if LowOnes(w, n) {
      assert Bit(w, 0);
      forall i: nat ensures Bit(w / 2, i) <==> i < n - 1 { assert Bit(w, i + 1) <==> Bit(w / 2, i); }
    }
    if w % 2 == 1 && LowOnes(w / 2, n - 1) {
      forall i: nat ensures Bit(w, i) <==> i < n {
        if i > 0 { assert Bit(w / 2, i - 1) <==> i - 1 < n - 1; }
      }
    }
  }

  /** The word with exactly the lowest n bits set. */
  lemma {:induction false} OnesIff(w: nat, n: nat)
    ensures w == Pow2(n) - 1 <==> LowOnes(w, n)
  {
    if n == 0 {
      forall i: nat ensures !Bit(0, i) { ZeroBits(i); }
      if w != 0 { var i := SomeBit(w); }
    } else {
      HalfLowOnes(w, n);
      OnesIff(w / 2, n - 1);
    }
  }

  lemma {:induction false} SomeBit(w: nat) returns (i: nat)
    requires w > 0
    ensures Bit(w, i)
  {
    if w % 2 == 1 { i := 0; } else { var j := SomeBit(w / 2); i := j + 1; }
  }

  lemma {:induction false} ShiftedOnes(n: nat)
    requires 0 < n <= 32
    ensures ALLBITS / Pow2(32 - n) == Pow2(n) - 1
  {
    Pow2Add(n, 32 - n);
    Pow2Values();
    hide Pow2;
    Quotient(Pow2(n), Pow2(32 - n));
  }

  lemma {:induction false} Quotient(p: nat, q: nat)
    requires q > 0 && p * q == ALLBITS + 1
    ensures ALLBITS / q == p - 1
  {
    assert q * (p - 1) == p * q - q;
    DivUnique(ALLBITS, q, p - 1, q - 1);
  }

  // ----- Required ranks -----

  /** The ranks of the required fields are 0, 1, ..., Rank(d, |d|) - 1. */
  lemma {:induction false} RankBelow(d: Descriptor, i: nat, n: nat)
    requires i < n <= |d| && d[i].htype.Required?
    ensures Rank(d, i) < Rank(d, n)
    decreases n
  {
    if i < n - 1 { RankBelow(d, i, n - 1); }
  }

  lemma {:induction false} RankReached(d: Descriptor, k: nat, n: nat) returns (i: nat)
    requires n <= |d| && k < Rank(d, n)
    ensures i < n && d[i].htype.Required? && Rank(d, i) == k
    decreases n
  {
    if k < Rank(d, n - 1) { i := RankReached(d, k, n - 1); } else { i := n - 1; }
  }

  function Tracked(d: Descriptor): nat {
    if Rank(d, |d|) > PB_MAX_REQUIRED_FIELDS then PB_MAX_REQUIRED_FIELDS else Rank(d, |d|)
  }

  /** RequiredSeen in terms of the ranks alone. */
  lemma {:induction false} SeenAllRanks(d: Descriptor, seen: set<nat>)
    ensures RequiredSeen(d, seen) <==> forall k :: 0 <= k < Tracked(d) ==> k in seen
  {
    if RequiredSeen(d, seen) {
      forall k | 0 <= k < Tracked(d) ensures k in seen {
        var i := RankReached(d, k, |d|);
      }
    }
    if forall k :: 0 <= k < Tracked(d) ==> k in seen {
      forall i | 0 <= i < |d| && d[i].htype.Required? && Rank(d, i) < PB_MAX_REQUIRED_FIELDS
        ensures Rank(d, i) in seen
      {
        RankBelow(d, i, |d|);
      }
    }
  }

  // ----- The bitmap -----

  /** Word j of the bitmap holds the ranks 32 j .. 32 j + 31 that have been seen. */
  ghost predicate WordIs(w: nat, seen: set<nat>, j: nat) {
    forall i: nat :: Bit(w, i) <==> i < 32 && 32 * j + i in seen
  }

  ghost predicate Represents(fieldsSeen: seq<nat>, seen: set<nat>) {
    |fieldsSeen| == 2 && WordIs(fieldsSeen[0], seen, 0) && WordIs(fieldsSeen[1], seen, 1)
  }

  lemma {:induction false} EmptyBitmap()
    ensures Represents([0, 0], {})
  {
    forall i: nat ensures !Bit(0, i) { ZeroBits(i); }
  }

  /** fields_seen[k >> 5] |= 1 << (k & 31) adds k to the set. */
  lemma {:induction false} MarkAdds(w: nat, seen: set<nat>, j: nat, k: nat)
    requires WordIs(w, seen, j)
    ensures WordIs(if k / 32 == j then BitOr(w, Pow2(k % 32)) else w, seen + {k}, j)
  {
    hide BitOr, Bit, Pow2;
    var w' := if k / 32 == j then BitOr(w, Pow2(k % 32)) else w;
    forall i: nat ensures Bit(w', i) <==> i < 32 && 32 * j + i in seen + {k} {
      BitOfOr(w, Pow2(k % 32), i);
      BitOfPow2(k % 32, i);
    }
  }

  /** The test of one word, full or partial. */
  lemma {:induction false} WordTest(w: nat, seen: set<nat>, j: nat, n: nat)
    requires WordIs(w, seen, j) && 0 < n <= 32
    requires forall k :: k in seen && 32 * j <= k < 32 * j + 32 ==> k < 32 * j + n
    ensures w == ALLBITS / Pow2(32 - n) <==> forall k :: 32 * j <= k < 32 * j + n ==> k in seen
  {
    hide Bit, Pow2;
    ShiftedOnes(n);
    OnesIff(w, n);
    if forall k :: 32 * j <= k < 32 * j + n ==> k in seen {
      forall i: nat ensures Bit(w, i) <==> i < n {
        if Bit(w, i) { assert 32 * j + i in seen; }
        if i < n { assert 32 * j + i in seen; }
      }
    }
    if LowOnes(w, n) {
      forall k | 32 * j <= k < 32 * j + n ensures k in seen { assert Bit(w, k - 32 * j); }
    }
  }

  /** Both words together: the whole-word and remaining-bits tests pass exactly when every
      rank below n has been seen. */
  lemma {:induction false} BitmapTest(fieldsSeen: seq<nat>, seen: set<nat>, n: nat)
    requires Represents(fieldsSeen, seen) && n <= PB_MAX_REQUIRED_FIELDS
    requires forall k :: k in seen ==> k < n
    ensures (forall k :: 0 <= k < n ==> k in seen) <==>
            && (forall i :: 0 <= i < n / 32 ==> fieldsSeen[i] == ALLBITS)
            && (n % 32 != 0 ==> fieldsSeen[n / 32] == ALLBITS / Pow2(32 - n % 32))
  {
    assert Pow2(0) == 1;
    hide WordIs, Pow2;
    if n >= 32 { WordTest(fieldsSeen[0], seen, 0, 32); }
    if n == 64 { WordTest(fieldsSeen[1], seen, 1, 32); }
    if n % 32 != 0 { WordTest(fieldsSeen[n / 32], seen, n / 32, n % 32); }
  }

  /** Ranks that the decoder marks stay below the number of required fields. */
  predicate InRange(d: Descriptor, seen: set<nat>) {
    forall k :: k in seen ==> k < Tracked(d)
  }

  /** The checks at the end of pb_decode_noinit: the number of required fields is found by
      walking the iterator to the end from wherever it was left. */
  method CheckRequired(iter: FieldIter, fieldsSeen: array<nat>, ghost seen: set<nat>) returns (ok: bool)
    requires iter.Valid() && (forall i :: 0 <= i < |iter.start| ==> iter.start[i].tag >= 1)
    requires fieldsSeen.Length == 2
    requires iter.start != [] ==> Represents(fieldsSeen[..], seen) && InRange(iter.start, seen)
    modifies iter
    ensures ok <==> RequiredSeen(iter.start, seen)
  {
    var reqFieldCount := iter.requiredFieldIndex;
    var lastRequired := iter.start == [] || iter.start[iter.pos].htype.Required?;
    ghost var at := iter.pos;
    var more := iter.Next();
    while more
      invariant iter.Valid() && (more ==> iter.pos < |iter.start| && at + 1 == iter.pos)
      invariant !more ==> iter.pos == 0 && at + 1 >= |iter.start|
      invariant iter.start != [] ==> at < |iter.start| && reqFieldCount == Rank(iter.start, at)
                                     && lastRequired == iter.start[at].htype.Required?
      invariant iter.start == [] ==> reqFieldCount == 0 && !more
      decreases |iter.start| - at
    {
      reqFieldCount := iter.requiredFieldIndex;
      lastRequired := iter.start[iter.pos].htype.Required?;
      at := iter.pos;
      more := iter.Next();
    }
    if lastRequired && iter.start != [] {
      reqFieldCount := reqFieldCount + 1;
    }
    if reqFieldCount > PB_MAX_REQUIRED_FIELDS {
      reqFieldCount := PB_MAX_REQUIRED_FIELDS;
    }
    assert reqFieldCount == Tracked(iter.start);
    SeenAllRanks(iter.start, seen);
    if reqFieldCount > 0 {
      hide WordIs, Pow2, RequiredSeen, Rank;
      BitmapTest(fieldsSeen[..], seen, reqFieldCount);
      var i := 0;
      while i < reqFieldCount / 32
        invariant 0 <= i <= reqFieldCount / 32
        invariant forall j :: 0 <= j < i ==> fieldsSeen[j] == ALLBITS
      {
        if fieldsSeen[i] != ALLBITS {
          return false;
        }
        i := i + 1;
      }
      if reqFieldCount % 32 != 0 {
        if fieldsSeen[reqFieldCount / 32] != ALLBITS / Pow2(32 - reqFieldCount % 32) {
          return false;
        }
      }
    }
    ok := true;
  }
}
