/** Byte-level wire format: base-128 varints, zig-zag, little-endian words.

    C bit operations are written over the naturals: x << k is x * Pow2(k) reduced to the
    width of the result, and |= is BitOr, which equals addition exactly when the operands
    have no bit in common (OrDisjoint). */
module Wire {
  import opened Basics
  import opened Pb

  /** The outcome of parsing a value off the front of a byte sequence. */
  datatype Parse<+T> = Fail | Done(value: T, rest: seq<byte>)

  /** What every parser of this project promises: it never leaves more than it was given. */
  predicate Leaves<T>(p: Parse<T>, s: seq<byte>) {
    p.Done? ==> |p.rest| <= |s|
  }

  // ----- Powers of two and bitwise or -----

  function Pow2(k: nat): (p: nat)
    ensures p >= 1
  {
    if k == 0 then 1 else 2 * Pow2(k - 1)
  }

  function BitOr(a: nat, b: nat): nat {
    if a == 0 then b
    else if b == 0 then a
    else 2 * BitOr(a / 2, b / 2) + (if a % 2 == 1 || b % 2 == 1 then 1 else 0)
  }

  lemma {:induction false} OrDisjoint(a: nat, x: nat, k: nat)
    requires a < Pow2(k)
    ensures BitOr(a, x * Pow2(k)) == a + x * Pow2(k)
  {
    if k > 0 && a > 0 && x > 0 {
      var y := x * Pow2(k - 1);
      assert x * Pow2(k) == 2 * y;
      OrDisjoint(a / 2, x, k - 1);
    }
  }

  lemma {:induction false} Pow2Values()
    ensures Pow2(7) == 128 && Pow2(8) == 256 && Pow2(28) == 0x1000_0000
    ensures Pow2(32) == U32 && Pow2(63) == 0x8000_0000_0000_0000 && Pow2(64) == U64
  {
    Pow2Add(7, 7); Pow2Add(14, 14); Pow2Add(28, 4);
    assert Pow2(4) == 16;
    Pow2Add(32, 28); Pow2Add(60, 3); Pow2Add(63, 1);
  }

  lemma {:induction false} Pow2Add(a: nat, b: nat)
    ensures Pow2(a + b) == Pow2(a) * Pow2(b)
  {
    if b > 0 {
      Pow2Add(a, b - 1);
      TwiceFactor(Pow2(a), Pow2(b - 1));
      assert Pow2(b) == 2 * Pow2(b - 1) && Pow2(a + b) == 2 * Pow2(a + (b - 1));
      hide Pow2;
    }
  }

  lemma {:induction false} TwiceFactor(a: nat, b: nat)
    ensures a * (2 * b) == 2 * (a * b)
  {
  }

  // ----- Base 128 varints -----

  function EncodeVarint(n: nat): (bs: seq<byte>)
    ensures |bs| >= 1
  {
    if n < 128 then [n] else [n % 128 + 128] + EncodeVarint(n / 128)
  }

  /** The number that a sequence of 7-bit groups stands for, least significant first. */
  function VarintValue(bs: seq<byte>): nat {
    if bs == [] then 0 else bs[0] % 128 + 128 * VarintValue(bs[1..])
  }

  /** The index of the byte that ends the first varint. */
  function Terminator(s: seq<byte>): (r: Option<nat>)
    ensures r.Some? ==> r.value < |s| && s[r.value] < 128
    ensures r.Some? ==> forall j :: 0 <= j < r.value ==> s[j] >= 128
    ensures r.None? ==> forall j :: 0 <= j < |s| ==> s[j] >= 128
  {
    if s == [] then None
    else if s[0] < 128 then Some(0)
    else
      var r := Terminator(s[1..]);
      if r.None? then None else Some(r.value + 1)
  }

  /** pb_decode_varint: at most ten bytes, reduced to 64 bits. */
  function DecodeVarint(s: seq<byte>): (p: Parse<nat>)
    ensures Leaves(p, s) && (p.Done? ==> |p.rest| < |s| && p.value < U64)
  {
    var t := Terminator(s);
    if t.None? || t.value > 9 then Fail
    else Done(VarintValue(s[..t.value + 1]) % U64, s[t.value + 1..])
  }

  lemma {:induction false} ValueStep(bs: seq<byte>, t: seq<byte>)
    requires bs != []
    ensures VarintValue(bs + t) == bs[0] % 128 + 128 * VarintValue(bs[1..] + t)
  {
    assert (bs + t)[1..] == bs[1..] + t;
    hide VarintValue;
    ValueCons(bs + t);
  }

  lemma {:induction false} ValueCons(bs: seq<byte>)
    requires bs != []
    ensures VarintValue(bs) == bs[0] % 128 + 128 * VarintValue(bs[1..])
  {
  }

  lemma {:induction false} Shifted(x: nat, a: nat, p: nat, v: nat)
    ensures x + 128 * (a + p * v) == (x + 128 * a) + (128 * p) * v
  {
  }

  lemma {:induction false} ValueSnoc(bs: seq<byte>, b: byte)
    ensures VarintValue(bs + [b]) == VarintValue(bs) + (b % 128) * Pow2(7 * |bs|)
  {
    ValueAppend(bs, [b]);
    SingleByteValue([b]);
    hide VarintValue, Pow2;
  }

  lemma {:induction false} SingleByteValue(e: seq<byte>)
    requires |e| == 1
    ensures VarintValue(e) == e[0] % 128
  {
    assert VarintValue(e[1..]) == 0;
  }

  lemma {:induction false} ValueAppend(a: seq<byte>, b: seq<byte>)
    ensures VarintValue(a + b) == VarintValue(a) + Pow2(7 * |a|) * VarintValue(b)
  {
    if a == [] {
      assert a + b == b;
    } else {
      ValueAppend(a[1..], b);
      Pow2Add(7, 7 * (|a| - 1));
      Pow2Values();
      hide VarintValue, Pow2;
      ValueStep(a, b);
      ValueCons(a);
      Shifted(a[0] % 128, VarintValue(a[1..]), Pow2(7 * (|a| - 1)), VarintValue(b));
    }
  }

  lemma {:induction false} ValueBound(bs: seq<byte>)
    ensures VarintValue(bs) < Pow2(7 * |bs|)
  {
    if bs != [] {
      ValueBound(bs[1..]);
      Pow2Add(7, 7 * (|bs| - 1));
      Pow2Values();
    }
  }

  lemma {:induction false} EncodedShape(n: nat)
    ensures Terminator(EncodeVarint(n)) == Some(|EncodeVarint(n)| - 1)
  {
    hide EncodeVarint;
    VarintUnfold(n);
    if n >= 128 {
      EncodedShape(n / 128);
      TerminatorCons(n % 128 + 128, EncodeVarint(n / 128));
    }
  }

  lemma {:induction false} VarintUnfold(n: nat)
    ensures EncodeVarint(n) == if n < 128 then [n] else [n % 128 + 128] + EncodeVarint(n / 128)
  {
  }

  lemma {:induction false} TerminatorCons(b: byte, s: seq<byte>)
    requires b >= 128 && Terminator(s).Some?
    ensures Terminator([b] + s) == Some(Terminator(s).value + 1)
  {
    hide Terminator;
    var t := [b] + s;
    assert t[1..] == s && t[0] == b;
    TerminatorUnfold(t);
  }

  lemma {:induction false} TerminatorUnfold(s: seq<byte>)
    requires s != []
    ensures Terminator(s) == if s[0] < 128 then Some(0)
                             else if Terminator(s[1..]).None? then None
                             else Some(Terminator(s[1..]).value + 1)
  {
  }

  lemma {:induction false} EncodedValue(n: nat)
    ensures VarintValue(EncodeVarint(n)) == n
  {
    if n < 128 {
      assert VarintValue([n]) == n + 128 * VarintValue([]);
    } else {
      EncodedValue(n / 128);
      assert EncodeVarint(n)[1..] == EncodeVarint(n / 128);
      assert EncodeVarint(n)[0] % 128 == n % 128;
    }
  }

  lemma {:induction false} EncodedLength(n: nat, k: nat)
    requires 1 <= k && n < Pow2(7 * k)
    ensures |EncodeVarint(n)| <= k
  {
    Pow2Values();
    if n >= 128 {
      Pow2Add(7, 7 * (k - 1));
      EncodedLength(n / 128, k - 1);
    }
  }

  lemma {:induction false} TerminatorPrefix(s: seq<byte>, t: seq<byte>)
    requires Terminator(s).Some?
    ensures Terminator(s + t) == Terminator(s)
  {
    if s[0] >= 128 {
      assert (s + t)[1..] == s[1..] + t;
      TerminatorPrefix(s[1..], t);
    }
  }

  lemma {:induction false} LengthLimits(n: nat)
    ensures n < U64 ==> |EncodeVarint(n)| <= 10
    ensures n < U32 ==> |EncodeVarint(n)| <= 5
  {
    Pow2Values();
    Pow2Add(64, 6);
    Pow2Add(32, 3);
    if n < U64 { EncodedLength(n, 10); }
    if n < U32 { EncodedLength(n, 5); }
  }

  /** Varint round trip: any trailing bytes are left untouched. */
  lemma {:induction false} VarintRoundTrip(n: nat, t: seq<byte>)
    requires n < U64
    ensures DecodeVarint(EncodeVarint(n) + t) == Done(n, t)
    ensures 1 <= |EncodeVarint(n)| <= 10
  {
    hide *;
    EncodedShape(n);
    LengthLimits(n);
    VarintOf(EncodeVarint(n), t);
    Encoded64(n);
  }

  lemma {:induction false} Encoded64(n: nat)
    requires n < U64
    ensures VarintValue(EncodeVarint(n)) % U64 == n
  {
    EncodedValue(n);
  }

  /** Decoding the bytes e of one varint, whether minimal or not. */
  lemma {:induction false} VarintOf(e: seq<byte>, t: seq<byte>)
    requires |e| <= 10 && Terminator(e) == Some(|e| - 1)
    ensures DecodeVarint(e + t) == Done(VarintValue(e) % U64, t)
  {
    TerminatorPrefix(e, t);
    assert (e + t)[..|e|] == e;
    assert (e + t)[|e|..] == t;
  }

  // ----- The 32-bit decoder -----

  /** One byte of the loop in pb_decode_varint32_eof: the new result, or None on
      "varint overflow". */
  function AddGroup32(b: byte, bitpos: nat, result: nat): Option<nat> {
    if bitpos >= 32 then
      var signExtension := if bitpos < 63 then 0xFF else 0x01;
      if b % 128 != 0 && (result < 0x8000_0000 || b != signExtension) then None else Some(result)
    else Some(BitOr(result, ((b % 128) * Pow2(bitpos)) % U32))
  }

  /** The loop itself; bitpos is an 8-bit counter. */
  function Varint32Loop(s: seq<byte>, bitpos: nat, result: nat): (p: Parse<nat>)
    ensures Leaves(p, s) && (p.Done? ==> |p.rest| < |s|)
  {
    if s == [] then Fail
    else
      var acc := AddGroup32(s[0], bitpos, result);
      var next := (bitpos + 7) % 256;
      if acc.None? then Fail
      else if s[0] >= 128 then Varint32Loop(s[1..], next, acc.value)
      else if next == 35 && (s[0] / 16) % 8 != 0 then Fail
      else Done(acc.value, s[1..])
  }

  /** pb_decode_varint32 */
  function DecodeVarint32(s: seq<byte>): (p: Parse<nat>)
    ensures Leaves(p, s) && (p.Done? ==> |p.rest| < |s|)
  {
    if s == [] then Fail
    else if s[0] < 128 then Done(s[0], s[1..])
    else Varint32Loop(s[1..], 7, s[0] % 128)
  }

  lemma {:induction false} DivModUnique(a: int, m: int, k: int, r: int)
    requires 0 <= r < m && a == k * m + r
    ensures a % m == r
  {
    var q := a / m;
    assert (q - k) * m == r - a % m;
    assert q - k >= 1 ==> (q - k) * m >= m;
    assert q - k <= -1 ==> (q - k) * m <= -m;
  }

  /** Shifting left by a bits in a word of a + b bits keeps the low b bits. */
  lemma {:induction false} ShiftMod(x: nat, p: nat, q: nat)
    requires p > 0 && q > 0
    ensures p * q > 0 && (x * p) % (p * q) == (x % q) * p <= (q - 1) * p
  {
    var k, r := x / q, x % q;
    assert x == k * q + r;
    assert x * p == k * (p * q) + r * p;
    assert r * p <= (q - 1) * p;
    assert (q - 1) * p == p * q - p;
    DivModUnique(x * p, p * q, k, r * p);
  }

  lemma {:induction false} SumMod(v: nat, x: nat, p: nat, q: nat)
    requires v < p && q > 0
    ensures p * q > 0 && (v + x * p) % (p * q) == v + (x % q) * p
  {
    ShiftMod(x, p, q);
    var k, r := x / q, (x % q) * p;
    assert x == k * q + x % q;
    assert x * p == k * (p * q) + r;
    assert (q - 1) * p == p * q - p;
    assert v + x * p == k * (p * q) + (v + r);
    DivModUnique(v + x * p, p * q, k, v + r);
  }

  /** A 7-bit group whose position is inside a word of p * q values. */
  lemma {:induction false} AccumulateInside(v: nat, x: nat, j: nat, q: nat)
    requires v < Pow2(j) && q > 0
    ensures Pow2(j) * q > 0
    ensures BitOr(v, (x * Pow2(j)) % (Pow2(j) * q)) == (v + x * Pow2(j)) % (Pow2(j) * q)
  {
    SumMod(v, x, Pow2(j), q);
    ShiftMod(x, Pow2(j), q);
    OrDisjoint(v, x % q, j);
  }

  /** A 7-bit group whose position is outside a word of m values. */
  lemma {:induction false} AccumulateOutside(v: nat, x: nat, m: nat, y: nat)
    requires m > 0
    ensures (v + x * (m * y)) % m == v % m
  {
    assert x * (m * y) == (x * y) * m;
    DivModUnique(v + x * (m * y), m, x * y + v / m, v % m);
  }

  lemma {:induction false} Accumulate32(v: nat, b: byte, j: nat)
    requires v < Pow2(j)
    ensures var acc := AddGroup32(b, j, v % U32);
            acc.Some? ==> acc.value == (v + (b % 128) * Pow2(j)) % U32
  {
    hide BitOr, Pow2;
    if j >= 32 { GroupAbove32(v, b % 128, j); } else { GroupBelow32(v, b % 128, j); }
  }

  lemma {:induction false} GroupAbove32(v: nat, x: nat, j: nat)
    requires j >= 32
    ensures (v + x * Pow2(j)) % U32 == v % U32
  {
    Pow2Add(32, j - 32);
    Pow2Values();
    hide Pow2;
    AccumulateOutside(v, x, U32, Pow2(j - 32));
  }

  lemma {:induction false} GroupBelow32(v: nat, x: nat, j: nat)
    requires j < 32 && v < Pow2(j)
    ensures BitOr(v % U32, (x * Pow2(j)) % U32) == (v + x * Pow2(j)) % U32
  {
    Pow2Add(j, 32 - j);
    SmallPow(j, 32);
    Pow2Values();
    hide Pow2, BitOr;
    ModSmall(v);
    AccumulateInside(v, x, j, Pow2(32 - j));
  }

  lemma {:induction false} ModSmall(v: nat)
    ensures v < U32 ==> v % U32 == v
  {
  }

  /** The state of the loop after some bytes holds the low 32 bits of their value. */
  lemma {:induction false} Accumulate32Low(bs: seq<byte>, b: byte)
    requires 1 <= |bs|
    ensures var acc := AddGroup32(b, 7 * |bs|, VarintValue(bs) % U32);
            acc.Some? ==> acc.value == VarintValue(bs + [b]) % U32
  {
    ValueSnoc(bs, b);
    ValueBound(bs);
    Accumulate32(VarintValue(bs), b, 7 * |bs|);
  }

  lemma {:induction false} SmallPow(a: nat, b: nat)
    requires a <= b
    ensures Pow2(a) <= Pow2(b)
  {
    if a < b { SmallPow(a, b - 1); }
  }

  /** One turn of the loop, in terms of the value read so far. */
  lemma {:induction false} LoopTurn(s: seq<byte>, j: nat)
    requires 1 <= j < |s| && j <= 9
    ensures s[j..][0] == s[j] && s[j..][1..] == s[j + 1..] && s[..j + 1] == s[..j] + [s[j]]
    ensures var acc := AddGroup32(s[j], 7 * j, VarintValue(s[..j]) % U32);
            acc.Some? ==> acc.value == VarintValue(s[..j + 1]) % U32
  {
    assert s[..j + 1] == s[..j] + [s[j]];
    Accumulate32Low(s[..j], s[j]);
  }

  ghost function LoopAt(s: seq<byte>, j: nat): Parse<nat>
    requires j <= |s|
  {
    Varint32Loop(s[j..], 7 * j, VarintValue(s[..j]) % U32)
  }

  /** The same turn, in terms of the outcome of the whole loop. */
  lemma {:induction false} LoopStep(s: seq<byte>, j: nat)
    requires 1 <= j < |s| && j <= 9
    ensures j <= 4 ==> AddGroup32(s[j], 7 * j, VarintValue(s[..j]) % U32).Some?
    ensures AddGroup32(s[j], 7 * j, VarintValue(s[..j]) % U32).Some? ==>
              LoopAt(s, j) == if s[j] >= 128 then LoopAt(s, j + 1)
                              else if j == 4 && s[j] >= 16 then Fail
                              else Done(VarintValue(s[..j + 1]) % U32, s[j + 1..])
    ensures AddGroup32(s[j], 7 * j, VarintValue(s[..j]) % U32).None? ==> LoopAt(s, j).Fail?
  {
    hide BitOr, Pow2, VarintValue, Varint32Loop, AddGroup32;
    LoopTurn(s, j);
    LoopUnfold(s[j..], 7 * j, VarintValue(s[..j]) % U32);
    assert (7 * j + 7) % 256 == 7 * (j + 1);
    assert 7 * (j + 1) == 35 <==> j == 4;
  }

  lemma {:induction false} LoopUnfold(s: seq<byte>, bitpos: nat, result: nat)
    requires s != []
    ensures bitpos < 32 ==> AddGroup32(s[0], bitpos, result).Some?
    ensures var acc, next := AddGroup32(s[0], bitpos, result), (bitpos + 7) % 256;
            Varint32Loop(s, bitpos, result) ==
            if acc.None? then Fail
            else if s[0] >= 128 then Varint32Loop(s[1..], next, acc.value)
            else if next == 35 && s[0] >= 16 then Fail
            else Done(acc.value, s[1..])
  {
    hide BitOr, Pow2;
  }

  lemma {:induction false} LoopStart(s: seq<byte>)
    requires s != [] && s[0] >= 128
    ensures DecodeVarint32(s) == LoopAt(s, 1)
  {
    hide Varint32Loop, BitOr, Pow2;
    assert s[..1] == [s[0]];
    assert VarintValue([s[0]]) == s[0] % 128 + 128 * VarintValue([]);
  }

  lemma {:induction false} LoopSound(s: seq<byte>, j: nat, k: nat)
    requires Terminator(s) == Some(k) && 1 <= j <= k <= 9
    ensures var p := LoopAt(s, j);
            p.Done? ==> p.value == VarintValue(s[..k + 1]) % U32 && p.rest == s[k + 1..]
    decreases k - j
  {
    LoopStep(s, j);
    hide BitOr, Pow2, VarintValue, Varint32Loop, AddGroup32;
    if j < k { LoopSound(s, j + 1, k); }
  }

  lemma {:induction false} ModMod(v: nat)
    ensures v % U64 % U32 == v % U32
  {
  }

  lemma {:induction false} Varint32Low(s: seq<byte>)
    requires DecodeVarint(s).Done? && DecodeVarint32(s).Done?
    ensures DecodeVarint32(s).value == VarintValue(s[..Terminator(s).value + 1]) % U32
    ensures DecodeVarint32(s).rest == DecodeVarint(s).rest
  {
    var k := Terminator(s).value;
    if k == 0 {
      assert s[..1] == [s[0]];
      assert VarintValue([s[0]]) == s[0] % 128 + 128 * VarintValue([]);
    } else {
      LoopStart(s);
      LoopSound(s, 1, k);
    }
  }

  /** Whatever pb_decode_varint32 accepts within ten bytes agrees with pb_decode_varint on
      the low 32 bits and on the bytes consumed. */
  lemma {:induction false} Varint32Sound(s: seq<byte>)
    requires DecodeVarint(s).Done? && DecodeVarint32(s).Done?
    ensures DecodeVarint32(s).value == DecodeVarint(s).value % U32
    ensures DecodeVarint32(s).rest == DecodeVarint(s).rest
  {
    Varint32Low(s);
    ModMod(VarintValue(s[..Terminator(s).value + 1]));
  }

  lemma {:induction false} PrefixValue(s: seq<byte>, j: nat, n: nat)
    requires j < n <= |s|
    ensures (s[j] % 128) * Pow2(7 * j) <= VarintValue(s[..n])
    decreases n
  {
    assert s[..n] == s[..n - 1] + [s[n - 1]];
    ValueSnoc(s[..n - 1], s[n - 1]);
    if j < n - 1 { PrefixValue(s, j, n - 1); }
  }

  lemma {:induction false} HighGroup(j: nat, x: nat, v: nat)
    requires 4 <= j && x * Pow2(7 * j) <= v < U32
    ensures if j == 4 then x < 16 else x == 0
  {
    Pow2Values();
    Pow2Add(32, 3);
    if j >= 5 { SmallPow(35, 7 * j); }
    assert x >= 1 ==> x * Pow2(7 * j) >= Pow2(7 * j);
  }

  lemma {:induction false} LoopComplete(s: seq<byte>, j: nat, k: nat, v: nat)
    requires Terminator(s) == Some(k) && 1 <= j <= k <= 9
    requires VarintValue(s[..k + 1]) == v < U32
    ensures LoopAt(s, j).Done?
    decreases k - j
  {
    hide BitOr, Pow2, VarintValue, Varint32Loop, Terminator;
    GroupAccepted(s, j, k, v);
    LoopStep(s, j);
    if j < k { LoopComplete(s, j + 1, k, v); }
  }

  /** No group of a value below 2^32 is refused. */
  lemma {:induction false} GroupAccepted(s: seq<byte>, j: nat, k: nat, v: nat)
    requires 1 <= j <= k <= 9 && k < |s| && VarintValue(s[..k + 1]) == v < U32
    ensures AddGroup32(s[j], 7 * j, VarintValue(s[..j]) % U32).Some?
    ensures j == 4 ==> s[j] % 128 < 16
  {
    hide BitOr, Pow2, VarintValue;
    PrefixValue(s, j, k + 1);
    if j >= 4 { HighGroup(j, s[j] % 128, v); }
  }

  lemma {:induction false} LongComplete(s: seq<byte>, k: nat, v: nat)
    requires Terminator(s) == Some(k) && 1 <= k <= 9 && VarintValue(s[..k + 1]) == v < U32
    ensures DecodeVarint32(s) == Done(v, s[k + 1..])
  {
    hide VarintValue, Varint32Loop, BitOr, Pow2;
    LoopStart(s);
    LoopSound(s, 1, k);
    LoopComplete(s, 1, k, v);
    hide DecodeVarint32;
  }

  lemma {:induction false} ShortComplete(b: byte, t: seq<byte>)
    requires b < 128
    ensures DecodeVarint32([b] + t) == Done(b, t)
  {
    hide Varint32Loop, BitOr, Pow2;
    assert ([b] + t)[1..] == t;
  }

  /** A varint of at most ten bytes, minimal or padded with zero groups, whose value fits
      32 bits is decoded exactly. */
  lemma {:induction false} Varint32Complete(e: seq<byte>, v: nat, t: seq<byte>)
    requires |e| <= 10 && Terminator(e) == Some(|e| - 1) && VarintValue(e) == v < U32
    ensures DecodeVarint32(e + t) == Done(v, t)
  {
    TerminatorPrefix(e, t);
    assert (e + t)[..|e|] == e && (e + t)[|e|..] == t;
    if |e| == 1 {
      SingleByteValue(e);
      ShortComplete(e[0], t);
      hide *;
      assert e == [e[0]];
    } else {
      hide *;
      LongComplete(e + t, |e| - 1, v);
    }
  }

  /** What the loop asks of byte j, from position 35 on: no bits, or, if bit 31 is set, the
      byte that sign extension puts there. */
  predicate UpperGroup(s: seq<byte>, j: nat)
    requires 5 <= j < |s|
  {
    s[j] % 128 == 0
    || (VarintValue(s[..j]) % U32 >= 0x8000_0000 && s[j] == if j < 9 then 0xFF else 0x01)
  }

  predicate Accepted32(s: seq<byte>, j: nat, k: nat)
    requires k < |s|
  {
    && (k == 4 ==> s[4] < 16)
    && forall i :: 5 <= i && j <= i <= k ==> UpperGroup(s, i)
  }

  /** One turn takes or refuses byte j. */
  lemma {:induction false} TurnAcceptsIff(s: seq<byte>, j: nat, k: nat)
    requires Terminator(s) == Some(k) && 1 <= j <= k <= 9
    ensures LoopAt(s, j).Done? <==>
            && (j == k == 4 ==> s[4] < 16)
            && (j >= 5 ==> UpperGroup(s, j))
            && (j < k ==> LoopAt(s, j + 1).Done?)
  {
    LoopStep(s, j);
    hide BitOr, Pow2, VarintValue, Varint32Loop;
    assert 7 * j >= 32 <==> j >= 5;
  }

  lemma {:induction false} AcceptedCons(s: seq<byte>, j: nat, k: nat)
    requires k < |s| && 1 <= j <= k
    ensures Accepted32(s, j, k) <==>
            && (j == k == 4 ==> s[4] < 16)
            && (j >= 5 ==> UpperGroup(s, j))
            && (j < k ==> Accepted32(s, j + 1, k))
            && (k == 4 ==> s[4] < 16)
  {
    hide UpperGroup;
  }

  lemma {:induction false} LoopAcceptsIff(s: seq<byte>, j: nat, k: nat)
    requires Terminator(s) == Some(k) && 1 <= j <= k <= 9
    ensures LoopAt(s, j).Done? <==> Accepted32(s, j, k)
    decreases k - j
  {
    TurnAcceptsIff(s, j, k);
    AcceptedCons(s, j, k);
    hide LoopAt, UpperGroup, VarintValue;
    if j < k {
      LoopAcceptsIff(s, j + 1, k);
      assert k == 4 && Accepted32(s, j + 1, k) ==> s[4] < 16;
    }
  }

  /** Exactly which varints of at most ten bytes pb_decode_varint32 accepts.  Bits 32 to 34
      are looked at only when the varint ends with the fifth byte. */
  lemma {:induction false} Varint32AcceptsIff(s: seq<byte>)
    requires DecodeVarint(s).Done?
    ensures DecodeVarint32(s).Done? <==> Accepted32(s, 1, Terminator(s).value)
  {
    hide Varint32Loop, BitOr, Pow2, VarintValue;
    var k := Terminator(s).value;
    if k > 0 {
      LoopStart(s);
      LoopAcceptsIff(s, 1, k);
    } else {
      assert s[0] < 128 && DecodeVarint32(s).Done?;
      assert Accepted32(s, 1, 0);
    }
  }

  /** So 0x7_0000_0000 in six bytes is taken for zero ... */
  lemma {:induction false} Varint32Truncates()
    ensures DecodeVarint([128, 128, 128, 128, 240, 0]) == Done(0x7_0000_0000, [])
    ensures DecodeVarint32([128, 128, 128, 128, 240, 0]) == Done(0, [])
  {
    var s: seq<byte> := [128, 128, 128, 128, 240, 0];
    FiveGroups(s);
    assert Accepted32(s, 1, 5);
    hide *;
    WholeVarint(s);
    Varint32AcceptsIff(s);
    Varint32Sound(s);
  }

  /** ... and in five bytes refused. */
  lemma {:induction false} Varint32Refuses()
    ensures DecodeVarint([128, 128, 128, 128, 112]) == Done(0x7_0000_0000, [])
    ensures DecodeVarint32([128, 128, 128, 128, 112]).Fail?
  {
    var s: seq<byte> := [128, 128, 128, 128, 112];
    FiveGroups(s);
    assert !Accepted32(s, 1, 4);
    hide *;
    WholeVarint(s);
    Varint32AcceptsIff(s);
  }

  /** A sequence that is one varint. */
  lemma {:induction false} WholeVarint(s: seq<byte>)
    requires 1 <= |s| <= 10 && s[|s| - 1] < 128 && forall j :: 0 <= j < |s| - 1 ==> s[j] >= 128
    requires VarintValue(s) < U64
    ensures Terminator(s) == Some(|s| - 1) && DecodeVarint(s) == Done(VarintValue(s), [])
  {
    hide VarintValue, Terminator;
    TerminatorOf(s, |s| - 1);
    assert s[..|s|] == s;
  }

  lemma {:induction false} TerminatorOf(s: seq<byte>, k: nat)
    requires k < |s| && s[k] < 128 && forall j :: 0 <= j < k ==> s[j] >= 128
    ensures Terminator(s) == Some(k)
  {
    if k > 0 { TerminatorOf(s[1..], k - 1); }
  }

  lemma {:induction false} FiveGroups(s: seq<byte>)
    requires 5 <= |s| <= 6 && (forall j :: 0 <= j < 4 ==> s[j] == 128)
    requires s[4] % 128 == 112 && (|s| == 6 ==> s[5] == 0)
    ensures VarintValue(s) == 0x7_0000_0000
  {
    assert s[1..][1..] == s[2..] && s[2..][1..] == s[3..] && s[3..][1..] == s[4..] && s[4..][1..] == s[5..];
    NoBits(s[5..]);
    hide VarintValue;
    ValueCons(s); ValueCons(s[1..]); ValueCons(s[2..]); ValueCons(s[3..]); ValueCons(s[4..]);
  }

  lemma {:induction false} NoBits(s: seq<byte>)
    requires s == [] || s == [0]
    ensures VarintValue(s) == 0
  {
  }

  lemma {:induction false} Varint32RoundTrip(n: nat, t: seq<byte>)
    requires n < U32
    ensures DecodeVarint32(EncodeVarint(n) + t) == Done(n, t)
  {
    EncodedShape(n);
    EncodedValue(n);
    LengthLimits(n);
    Varint32Complete(EncodeVarint(n), n, t);
  }

  /** The first groups of a long varint, and what follows them. */
  lemma {:induction false} SplitEncoding(n: nat, k: nat)
    requires n >= Pow2(7 * k)
    ensures |EncodeVarint(n)| > k
    ensures EncodeVarint(n)[k..] == EncodeVarint(n / Pow2(7 * k))
  {
    if k > 0 {
      var p := Pow2(7 * (k - 1));
      Pow2Values();
      Pow2Add(7, 7 * (k - 1));
      assert n >= 128 by { assert p * 128 >= 128; }
      assert n / 128 >= p by { DivAtLeast(n, 128, p); }
      assert n / 128 / p == n / (128 * p) by { DivDiv(n, 128, p); }
      SplitEncoding(n / 128, k - 1);
      assert EncodeVarint(n)[1..] == EncodeVarint(n / 128);
      assert EncodeVarint(n)[k..] == EncodeVarint(n)[1..][k - 1..];
    }
  }

  lemma {:induction false} DivAtLeast(n: nat, a: nat, p: nat)
    requires a > 0 && n >= a * p
    ensures n / a >= p
  {
    assert n == a * (n / a) + n % a;
    MulMonotone(a, n / a, p - 1);
    assert a * (p - 1) == a * p - a;
  }

  lemma {:induction false} MulMonotone(a: nat, x: int, y: int)
    ensures x <= y ==> a * x <= a * y
  {
  }

  lemma {:induction false} DivDiv(n: nat, a: nat, p: nat)
    requires a > 0 && p > 0
    ensures a * p > 0 && n / a / p == n / (a * p)
  {
    var q, r := n / a, n % a;
    var k, u := q / p, q % p;
    assert a * u <= a * (p - 1);
    assert a * (p - 1) == a * p - a;
    calc {
      n;
      a * q + r;
      a * (k * p + u) + r;
      a * (k * p) + a * u + r;
      (a * p) * k + (a * u + r);
    }
    DivUnique(n, a * p, k, a * u + r);
  }

  lemma {:induction false} DivUnique(n: int, m: int, k: int, r: int)
    requires 0 <= r < m && n == m * k + r
    ensures n / m == k
  {
    var q := n / m;
    assert (q - k) * m == r - n % m;
    assert q - k >= 1 ==> (q - k) * m >= m;
    assert q - k <= -1 ==> (q - k) * m <= -m;
  }

  /** The upper groups of a sign-extended negative int32. */
  lemma {:induction false} SignExtendedTail(n: nat)
    requires U64 - 0x8000_0000 <= n < U64
    ensures |EncodeVarint(n)| > 5
    ensures EncodeVarint(n)[5..] == [0xFF, 0xFF, 0xFF, 0xFF, 0x01]
  {
    hide EncodeVarint, Pow2;
    Pow2Add(32, 3);
    Pow2Values();
    assert Pow2(3) == 8 by { SmallestPowers(); }
    SplitEncoding(n, 5);
    assert n / 0x8_0000_0000 == 0x1FFF_FFFF;
    OnesEncoding();
  }

  lemma {:induction false} SmallestPowers()
    ensures Pow2(3) == 8
  {
  }

  lemma {:induction false} OnesEncoding()
    ensures EncodeVarint(0x1FFF_FFFF) == [0xFF, 0xFF, 0xFF, 0xFF, 0x01]
  {
    assert EncodeVarint(1) == [1];
    assert EncodeVarint(0xFF) == [0xFF, 0x01];
    assert EncodeVarint(0x7FFF) == [0xFF, 0xFF, 0x01];
    assert EncodeVarint(0x3F_FFFF) == [0xFF, 0xFF, 0xFF, 0x01];
  }

  lemma {:induction false} OnesTail(r: nat, t: seq<byte>)
    requires 0x8000_0000 <= r < U32
    ensures Varint32Loop([0xFF, 0xFF, 0xFF, 0xFF, 0x01] + t, 35, r) == Done(r, t)
  {
    hide Varint32Loop;
    OnesLast(t, r);
    var s1 := [0x01] + t;
    var s2 := [0xFF] + s1;
    var s3 := [0xFF] + s2;
    var s4 := [0xFF] + s3;
    OnesStep(s1, 56, r);
    OnesStep(s2, 49, r);
    OnesStep(s3, 42, r);
    OnesStep(s4, 35, r);
    assert [0xFF, 0xFF, 0xFF, 0xFF, 0x01] + t == [0xFF] + s4;
  }

  lemma {:induction false} OnesLast(t: seq<byte>, r: nat)
    requires 0x8000_0000 <= r < U32
    ensures Varint32Loop([0x01] + t, 63, r) == Done(r, t)
  {
    hide BitOr, Pow2;
    assert ([0x01] + t)[1..] == t;
  }

  lemma {:induction false} OnesStep(s: seq<byte>, bitpos: nat, r: nat)
    requires 32 <= bitpos < 63 && 0x8000_0000 <= r < U32
    ensures Varint32Loop([0xFF] + s, bitpos, r) == Varint32Loop(s, bitpos + 7, r)
  {
    hide BitOr, Pow2;
    assert ([0xFF] + s)[1..] == s;
  }

  lemma {:induction false} SignExtendedLow(n: nat, v: nat)
    requires n == v + 0x8_0000_0000 * 0x1FFF_FFFF
    ensures v % U32 == n % U32
  {
  }

  lemma {:induction false} SignExtendedRange(n: nat)
    requires U64 - 0x8000_0000 <= n < U64
    ensures 0x8000_0000 <= n % U32 < U32
  {
  }

  lemma {:induction false} LoopToFive(s: seq<byte>)
    requires |s| > 5 && forall j :: 0 <= j < 5 ==> s[j] >= 128
    ensures DecodeVarint32(s) == LoopAt(s, 5)
  {
    LoopStart(s);
    LoopStep(s, 1); LoopStep(s, 2); LoopStep(s, 3); LoopStep(s, 4);
    hide BitOr, Pow2, VarintValue, Varint32Loop, AddGroup32;
  }

  lemma {:induction false} SignExtendedLoop(n: nat, t: seq<byte>)
    requires U64 - 0x8000_0000 <= n < U64
    ensures DecodeVarint32(EncodeVarint(n) + t)
         == Varint32Loop([0xFF, 0xFF, 0xFF, 0xFF, 0x01] + t, 35, n % U32)
  {
    hide BitOr, Varint32Loop, DecodeVarint32;
    var e := EncodeVarint(n);
    var s := e + t;
    SignExtendedTail(n);
    EncodedShape(n);
    LoopToFive(s);
    assert s[..5] == e[..5] && s[5..] == [0xFF, 0xFF, 0xFF, 0xFF, 0x01] + t;
    EncodedValue(n);
    EncodedValue(0x1FFF_FFFF);
    OnesEncoding();
    ValueAppend(e[..5], e[5..]);
    assert e[..5] + e[5..] == e;
    Pow2Add(32, 3);
    Pow2Values();
    SignExtendedLow(n, VarintValue(e[..5]));
  }

  /** The ten-byte varint of a negative int32 sign-extended to 64 bits also decodes, to the
      low 32 bits. */
  lemma {:induction false} Varint32SignExtended(n: nat, t: seq<byte>)
    requires U64 - 0x8000_0000 <= n < U64
    ensures DecodeVarint32(EncodeVarint(n) + t) == Done(n % U32, t)
    ensures |EncodeVarint(n)| == 10
  {
    SignExtendedLoop(n, t);
    SignExtendedRange(n);
    OnesTail(n % U32, t);
    SignExtendedTail(n);
  }
}
