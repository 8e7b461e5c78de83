/** Integer casts, zig-zag coding and little-endian words. */
module Numbers {
  import opened Basics
  import opened Pb

  /** The number of values of an integer of the given size in bytes. */
  function Modulus(size: nat): (m: nat)
    ensures m > 0 && m % 2 == 0
  {
    if size == 1 then 0x100
    else if size == 2 then 0x1_0000
    else if size == 4 then U32
    else U64
  }

  /** The cast to a signed integer of the given size. */
  function Signed(n: int, size: nat): (r: int)
    ensures -(Modulus(size) / 2) <= r < Modulus(size) / 2
  {
    var m := n % Modulus(size);
    if m < Modulus(size) / 2 then m else m - Modulus(size)
  }

  predicate InSigned(n: int, size: nat) { -(Modulus(size) / 2) <= n < Modulus(size) / 2 }
  predicate InUnsigned(n: int, size: nat) { 0 <= n < Modulus(size) }

  // ----- What the integer field decoders make of a 64-bit varint -----

  /** pb_dec_varint: fields of at most 32 bits are first cast to int32_t. */
  function FromVarint(u: nat, size: nat): Option<int> {
    var svalue := if size == 8 then Signed(u, 8) else Signed(u, 4);
    var clamped := Signed(svalue, size);
    if clamped == svalue then Some(clamped) else None
  }

  /** pb_dec_uvarint */
  function FromUVarint(u: nat, size: nat): Option<int> {
    var clamped := u % Modulus(size);
    if clamped == u then Some(clamped) else None
  }

  /** pb_encode_svarint */
  function ZigZag(n: int): nat { if n < 0 then -2 * n - 1 else 2 * n }

  /** pb_decode_svarint */
  function UnZigZag(u: nat): int { if u % 2 == 1 then -(u / 2) - 1 else u / 2 }

  /** pb_dec_svarint */
  function FromSVarint(u: nat, size: nat): Option<int> {
    var value := UnZigZag(u);
    var clamped := Signed(value, size);
    if clamped == value then Some(clamped) else None
  }

  lemma {:induction false} ZigZagInverse(n: int, u: nat)
    ensures UnZigZag(ZigZag(n)) == n
    ensures ZigZag(UnZigZag(u)) == u
    ensures InSigned(n, 8) <==> ZigZag(n) < U64
  {
  }

  lemma {:induction false} SignedOfRange(n: int, size: nat)
    requires InSigned(n, size)
    ensures Signed(n, size) == n
  {
    var m := Modulus(size);
    if n < 0 { Congruent(n, m); }
  }

  lemma {:induction false} Congruent(n: int, m: int)
    requires -m <= n < 0 && m > 0
    ensures n % m == n + m
  {
  }

  lemma {:induction false} SignedOfWord(n: int, size: nat)
    requires InSigned(n, size) && IntegerSize(size)
    ensures Signed(n % U64, size) == n
  {
    if size == 1 { WordOf1(n); }
    else if size == 2 { WordOf2(n); }
    else if size == 4 { WordOf4(n); }
    else { WordOf8(n); }
  }

  lemma {:induction false} WordOf1(n: int)
    requires -0x80 <= n < 0x80
    ensures n % U64 % 0x100 == n % 0x100 == if n < 0 then n + 0x100 else n
  {
    assert n % U64 == if n < 0 then n + U64 else n;
  }

  lemma {:induction false} WordOf2(n: int)
    requires -0x8000 <= n < 0x8000
    ensures n % U64 % 0x1_0000 == n % 0x1_0000 == if n < 0 then n + 0x1_0000 else n
  {
    assert n % U64 == if n < 0 then n + U64 else n;
  }

  lemma {:induction false} WordOf4(n: int)
    requires -0x8000_0000 <= n < 0x8000_0000
    ensures n % U64 % U32 == n % U32 == if n < 0 then n + U32 else n
  {
    assert n % U64 == if n < 0 then n + U64 else n;
  }

  lemma {:induction false} WordOf8(n: int)
    requires -0x8000_0000_0000_0000 <= n < 0x8000_0000_0000_0000
    ensures n % U64 % U64 == n % U64 == if n < 0 then n + U64 else n
  {
  }

  /** Every value a signed, unsigned or zig-zag field can hold survives its field encoder
      and decoder. */
  lemma {:induction false} SignedRoundTrip(n: int, size: nat)
    requires IntegerSize(size) && InSigned(n, size)
    ensures FromVarint(n % U64, size) == Some(n)
    ensures FromSVarint(ZigZag(n), size) == Some(n)
  {
    ZigZagInverse(n, 0);
    SignedOfRange(n, size);
    var wide := if size == 8 then 8 else 4;
    assert InSigned(n, wide);
    SignedOfWord(n, wide);
  }

  lemma {:induction false} UnsignedRoundTrip(n: int, size: nat)
    requires IntegerSize(size) && InUnsigned(n, size)
    ensures n < U64 && FromUVarint(n, size) == Some(n)
  {
  }

  // ----- Fixed-width words -----

  function ToLE(v: nat, k: nat): (bs: seq<byte>)
    ensures |bs| == k
  {
    if k == 0 then [] else [v % 256] + ToLE(v / 256, k - 1)
  }

  function FromLE(bs: seq<byte>): nat {
    if bs == [] then 0 else bs[0] + 256 * FromLE(bs[1..])
  }

  function Bytes256(k: nat): (m: nat)
    ensures m > 0
  {
    if k == 0 then 1 else 256 * Bytes256(k - 1)
  }

  lemma {:induction false} LittleEndianRoundTrip(v: nat, k: nat)
    requires v < Bytes256(k)
    ensures FromLE(ToLE(v, k)) == v
  {
    if k > 0 {
      LittleEndianRoundTrip(v / 256, k - 1);
      assert ToLE(v, k)[1..] == ToLE(v / 256, k - 1);
    }
  }

  lemma {:induction false} WordSizes()
    ensures Bytes256(4) == U32 && Bytes256(8) == U64
  {
    assert Bytes256(2) == 0x1_0000;
    assert Bytes256(6) == 0x1_0000_0000_0000;
  }
}
