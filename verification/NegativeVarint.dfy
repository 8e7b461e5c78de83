/** pb_encode_negative_varint: the encoder of builds without 64-bit integers, which writes
    the ten bytes of a sign-extended value while holding only its low 32 bits. */
module NegativeVarint {
  import opened Basics
  import opened Pb
  import opened Wire
  import opened OStreams

  function BitXor(a: nat, b: nat): nat {
    if a == 0 then b
    else if b == 0 then a
    else 2 * BitXor(a / 2, b / 2) + (if a % 2 != b % 2 then 1 else 0)
  }

  lemma {:induction false} XorDisjoint(a: nat, x: nat, k: nat)
    requires a < Pow2(k)
    ensures BitXor(a, x * Pow2(k)) == a + x * Pow2(k)
  {
    if k > 0 && a > 0 && x > 0 {
      var y := x * Pow2(k - 1);
      assert x * Pow2(k) == 2 * y && y > 0;
      assert a / 2 < Pow2(k - 1);
      XorEven(a, y);
      hide BitXor, Pow2;
      XorDisjoint(a / 2, x, k - 1);
    }
  }

  lemma {:induction false} XorEven(a: nat, y: nat)
    requires a > 0 && y > 0
    ensures BitXor(a, 2 * y) == 2 * BitXor(a / 2, y) + a % 2
  {
    assert 2 * y / 2 == y;
  }

  /** A word whose c missing upper bits are all ones. */
  function Extended(value: nat, c: nat): nat { value + (Pow2(c) - 1) * U32 }

  /** (0xFF >> (8 - bits)) << 25 in unsigned 32-bit arithmetic */
  function Mask(bits: nat): nat
    requires bits <= 8
  {
    255 / Pow2(8 - bits) * Pow2(25) % U32
  }

  lemma {:induction false} MaskIsOnes(bits: nat)
    requires 1 <= bits <= 7
    ensures Mask(bits) == (Pow2(bits) - 1) * Pow2(25)
  {
    hide Pow2;
    SmallPowers();
    Pow2Values();
    Pow2Add(25, 3);
    assert Pow2(25) == 0x200_0000;
  }

  lemma {:induction false} SmallPowers()
    ensures Pow2(1) == 2 && Pow2(2) == 4 && Pow2(3) == 8 && Pow2(4) == 16
    ensures Pow2(5) == 32 && Pow2(6) == 64 && Pow2(7) == 128
  {
  }

  /** How many of the missing ones one turn puts back. */
  function Step(c: nat): (bits: nat)
    ensures bits <= 7 && bits <= c
  {
    if c > 7 then 7 else c
  }

  /** One turn of the loop: shift right by seven and set the vacated bits. */
  function Shift(value: nat, c: nat): nat {
    if c > 0 then BitXor(value / 128, Mask(Step(c))) else value / 128
  }

  lemma {:induction false} ShiftSets(value: nat, c: nat)
    requires value < U32
    ensures Shift(value, c) == value / 128 + (Pow2(Step(c)) - 1) * 0x200_0000
  {
    hide Pow2, BitXor, Mask;
    assert Pow2(25) == 0x200_0000 by { Pow2Values(); Pow2Add(25, 3); SmallPowers(); }
    Pow2Zero();
    if c > 0 {
      ghost var ones := Pow2(Step(c)) - 1;
      MaskIsOnes(Step(c));
      XorDisjoint(value / 128, ones, 25);
      assert ones * Pow2(25) == ones * 0x200_0000;
    }
  }

  /** A turn divides the whole value by 128. */
  lemma {:induction false} ShiftExtended(value: nat, c: nat)
    requires value < U32
    ensures Shift(value, c) < U32 && (c > 0 ==> Shift(value, c) > 0)
    ensures Extended(value, c) % 128 == value % 128
    ensures Extended(value, c) / 128 == Extended(Shift(value, c), c - Step(c))
  {
    ShiftSets(value, c);
    Pow2Add(c - Step(c), Step(c));
    PowAtMost(Step(c));
    Pow2Zero();
    hide Pow2, Shift;
    SplitOnes(value, Pow2(c - Step(c)), Pow2(Step(c)));
  }

  lemma {:induction false} Pow2Zero()
    ensures Pow2(0) == 1
  {
  }

  lemma {:induction false} PowAtMost(bits: nat)
    requires bits <= 7
    ensures Pow2(bits) <= 128 && (bits == 7 ==> Pow2(bits) == 128) && (bits > 0 ==> Pow2(bits) >= 2)
  {
    Pow2Add(bits, 7 - bits);
    Pow2Values();
  }

  lemma {:induction false} SplitOnes(value: nat, high: nat, low: nat)
    requires value < U32 && high >= 1 && 1 <= low <= 128 && (low == 128 || high == 1)
    ensures var whole := value + (high * low - 1) * U32;
            && whole % 128 == value % 128
            && whole / 128 == value / 128 + (low - 1) * 0x200_0000 + (high - 1) * U32
  {
    var a := high * low - 1;
    assert a * 0x200_0000 == (low - 1) * 0x200_0000 + (high - 1) * U32;
    assert (value + a * 0x200_0000 * 128) / 128 == value / 128 + a * 0x200_0000;
  }

  /** The loop of pb_encode_negative_varint. */
  method Groups(word: nat) returns (groups: array<byte>, i: nat)
    requires 0 < word < U32
    ensures fresh(groups) && i <= groups.Length
    ensures groups[..i] == EncodeVarint(U64 - U32 + word)
  {
    hide EncodeVarint, BitXor, Mask, Extended;
    groups := new byte[10];
    var value: nat, compensation: nat := word, 32;
    i := 0;
    ghost var all := Extended(word, 32);
    WholeWord(word);
    while value != 0
      invariant value < U32 && 0 <= i <= 10 && compensation <= 32
      invariant compensation > 0 ==> value > 0
      invariant value != 0 ==> groups[..i] + EncodeVarint(Extended(value, compensation)) == EncodeVarint(all)
      invariant value == 0 ==> i > 0 && groups[..i - 1] + [groups[i - 1] % 128] == EncodeVarint(all)
      decreases compensation, value
    {
      ghost var rest, was := Extended(value, compensation), groups[..i];
      assert i + |EncodeVarint(rest)| == |EncodeVarint(all)|;
      ShiftExtended(value, compensation);
      groups[i] := value % 128 + 128;
      assert groups[..i] == was && groups[..i + 1] == was + [groups[i]];
      GroupStep(was, rest);
      ghost var turned := Shift(value, compensation);
      value := value / 128;
      if compensation > 0 {
        var bits := if compensation > 7 then 7 else compensation;
        value := BitXor(value, Mask(bits));
        compensation := compensation - bits;
      }
      i := i + 1;
      assert value == turned;
      NothingLeft(rest, value, compensation);
    }
    ghost var head := groups[..i - 1];
    groups[i - 1] := groups[i - 1] % 128;
    assert groups[..i] == head + [groups[i - 1]];
  }

  lemma {:induction false} WholeWord(word: nat)
    requires 0 < word < U32
    ensures Extended(word, 32) == U64 - U32 + word
    ensures |EncodeVarint(U64 - U32 + word)| <= 10
  {
    Pow2Values();
    LengthLimits(U64 - U32 + word);
  }

  /** The loop stops exactly when no group of the whole value is left. */
  lemma {:induction false} NothingLeft(rest: nat, value: nat, compensation: nat)
    requires rest / 128 == Extended(value, compensation)
    requires compensation > 0 ==> value > 0
    ensures value == 0 <==> rest < 128
  {
    if compensation == 0 { Pow2Zero(); }
    hide Pow2;
  }

  /** The same ten bytes as the 64-bit encoder writes for the sign-extended value. */
  lemma {:induction false} TenBytes(value: int)
    requires -0x8000_0000 <= value < 0
    ensures U64 - U32 + value % U32 == value % U64
    ensures |EncodeVarint(value % U64)| == 10
  {
    assert value % U64 == U64 + value;
    assert value % U32 == U32 + value;
    LengthLimits(value % U64);
    Pow2Values();
    LongEnough(value % U64, 9);
  }

  lemma {:induction false} LongEnough(n: nat, k: nat)
    requires n >= Pow2(7 * k)
    ensures |EncodeVarint(n)| > k
  {
    if k > 0 {
      Pow2Add(7, 7 * (k - 1));
      assert Pow2(7) == 128 by { Pow2Values(); }
      LongEnough(n / 128, k - 1);
    }
  }

  /** pb_encode_negative_varint for a negative int32_t: a build without 64-bit integers
      puts the same bytes on the stream as WriteVarint does for the sign-extended value. */
  method WriteNegativeVarint(stream: OStream, value: int) returns (ok: bool)
    requires stream.Abs().Valid() && -0x8000_0000 <= value < 0
    modifies stream, stream.buffer
    ensures ok <==> old(stream.Abs()).Room(EncodeVarint(value % U64))
    ensures ok ==> stream.Abs() == old(stream.Abs()).Put(EncodeVarint(value % U64))
    ensures old(stream.Abs()).SameOutside(stream.Abs())
  {
    hide EncodeVarint;
    TenBytes(value);
    var groups, i := Groups(value % U32);
    ok := stream.Write(groups[..i], i, groups[..i]);
  }
}
