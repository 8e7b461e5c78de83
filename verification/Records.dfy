/** How one encoded record is read back: tags, length prefixes, scalar values. */
module Records {
  import opened Basics
  import opened Pb
  import opened Wire
  import opened Numbers
  import opened DecodeSpec
  import opened EncodeSpec

  // ----- Numbers of the wire format -----

  /** The tag of a field is the varint of its number and of the wire type of its type. */
  lemma {:induction false} TagNumbers(f: Field)
    requires f.tag < 0x2000_0000
    ensures FieldTag(f) == EncodeVarint(f.tag * 8 +
              match f.ltype
              case Bool | Varint | UVarint | SVarint => 0
              case Fixed64 => 1
              case Fixed32 => 5
              case _ => 2)
    ensures TagBytes(f.tag, WT_STRING) == EncodeVarint(f.tag * 8 + 2)
  {
    hide EncodeVarint;
  }

  /** A length is the varint of the number of bytes. */
  lemma {:induction false} LengthNumber(bs: seq<byte>)
    requires |bs| < U64
    ensures Prefixed(bs) == EncodeVarint(|bs|) + bs
  {
    hide EncodeVarint;
  }

  /** A varint holds the number in groups of seven bits, the lowest first, and every byte but
      the last has its top bit set. */
  lemma {:induction false} VarintGroup(n: nat, i: nat)
    requires i < |EncodeVarint(n)|
    ensures EncodeVarint(n)[i] ==
            n / Pow2(7 * i) % 128 + if i < |EncodeVarint(n)| - 1 then 128 else 0
    decreases i
  {
    if i > 0 {
      VarintUnfold(n);
      VarintGroup(n / 128, i - 1);
      Pow2Add(7, 7 * (i - 1));
      Pow2Values();
      DivDiv(n, 128, Pow2(7 * (i - 1)));
      hide EncodeVarint, Pow2;
    }
  }

  /** A fixed word holds the number in bytes, the lowest first. */
  lemma {:induction false} WordByte(v: nat, k: nat, i: nat)
    requires i < k
    ensures ToLE(v, k)[i] == v / Bytes256(i) % 256
    decreases i
  {
    if i > 0 {
      WordByte(v / 256, k - 1, i - 1);
      DivDiv(v, 256, Bytes256(i - 1));
      assert ToLE(v, k)[i] == ToLE(v / 256, k - 1)[i - 1];
    }
  }

  // ----- Which values are accepted -----

  /** A varint is accepted by an unsigned field exactly when its number fits. */
  lemma {:induction false} UnsignedAcceptedIff(f: Field, s: seq<byte>)
    requires IntegerSize(f.dataSize) && f.ltype.UVarint? && DecodeVarint(s).Done?
    ensures var u := DecodeVarint(s).value;
            DecodeInteger(f, s) ==
            if u < Bytes256(f.dataSize) then Done(Num(u), DecodeVarint(s).rest) else Fail
  {
    hide DecodeVarint, Modulus, Bytes256;
    SizeModulus(f.dataSize);
    RemainderIs(DecodeVarint(s).value, Modulus(f.dataSize));
  }

  /** By a zig-zag field, when the number that it stands for fits. */
  lemma {:induction false} ZigZagAcceptedIff(f: Field, s: seq<byte>)
    requires IntegerSize(f.dataSize) && f.ltype.SVarint? && DecodeVarint(s).Done?
    ensures var n, limit := UnZigZag(DecodeVarint(s).value), Bytes256(f.dataSize);
            DecodeInteger(f, s) ==
            if -(limit / 2) <= n < limit / 2 then Done(Num(n), DecodeVarint(s).rest) else Fail
  {
    hide DecodeVarint, UnZigZag, Modulus, Bytes256, Signed;
    SizeModulus(f.dataSize);
    var n := UnZigZag(DecodeVarint(s).value);
    if InSigned(n, f.dataSize) { SignedOfRange(n, f.dataSize); }
  }

  /** By a signed field, when the number fits; of fewer than 64 bits only the low 32 bits of
      the varint count. */
  lemma {:induction false} SignedAcceptedIff(f: Field, s: seq<byte>, n: int)
    requires IntegerSize(f.dataSize) && f.ltype.Varint? && DecodeVarint(s).Done?
    ensures var u, limit := DecodeVarint(s).value, Bytes256(f.dataSize);
            DecodeInteger(f, s) == Done(Num(n), DecodeVarint(s).rest) <==>
              && -(limit / 2) <= n < limit / 2
              && (n - u) % Bytes256(if f.dataSize == 8 then 8 else 4) == 0
  {
    var u, low := DecodeVarint(s).value, if f.dataSize == 8 then 8 else 4;
    SizeModulus(f.dataSize);
    SizeModulus(low);
    assert Modulus(f.dataSize) <= Modulus(low);
    hide DecodeVarint, Bytes256, Modulus, Signed;
    if InSigned(Signed(u, low), f.dataSize) { SignedOfRange(Signed(u, low), f.dataSize); }
    SignedCongruent(u, n, low);
  }

  /** An integer field of any other size accepts nothing. */
  lemma {:induction false} InvalidSizeRefused(f: Field, s: seq<byte>)
    requires f.dataSize != 1 && f.dataSize != 2 && f.dataSize != 4 && f.dataSize != 8
    ensures DecodeInteger(f, s).Fail?
  {
    hide DecodeVarint;
  }

  /** A bool is any 32-bit number, and true when that is not zero. */
  lemma {:induction false} BoolAccepted(u: nat, t: seq<byte>)
    requires u < U32
    ensures DecodeBool(EncodeVarint(u) + t) == Done(Num(if u == 0 then 0 else 1), t)
  {
    hide EncodeVarint, DecodeVarint32;
    Varint32RoundTrip(u, t);
  }

  lemma {:induction false} RemainderIs(u: nat, m: nat)
    requires m > 0
    ensures u % m == u <==> u < m
  {
  }

  lemma {:induction false} SizeModulus(size: nat)
    requires IntegerSize(size)
    ensures Modulus(size) == Bytes256(size)
  {
    WordSizes();
    assert Bytes256(1) == 0x100 && Bytes256(2) == 0x1_0000;
  }

  /** The cast is the number of the range that differs by a multiple of the modulus. */
  lemma {:induction false} SignedCongruent(u: int, n: int, size: nat)
    ensures (Signed(u, size) - u) % Modulus(size) == 0
    ensures InSigned(n, size) && (n - u) % Modulus(size) == 0 ==> n == Signed(u, size)
  {
    var m, q := Modulus(size), u / Modulus(size);
    hide Modulus;
    assert u == m * q + u % m;
    var k := if u % m < m / 2 then q else q + 1;
    assert Signed(u, size) - u == m * -k;
    MultipleOf(m, -k);
    if InSigned(n, size) && (n - u) % m == 0 {
      var j := (n - u) / m;
      assert n - u == m * j;
      assert n - Signed(u, size) == m * (j + k);
      SmallMultiple(m, j + k);
    }
  }

  lemma {:induction false} MultipleOf(m: int, k: int)
    requires m > 0
    ensures m * k % m == 0
  {
    DivModUnique(m * k, m, k, 0);
  }

  lemma {:induction false} SmallMultiple(m: int, k: int)
    requires m > 0 && -m < m * k < m
    ensures k == 0
  {
    assert k >= 1 ==> m * k >= m;
    assert k <= -1 ==> m * k <= -m;
  }

  /** A length-delimited value is accepted exactly when it fits: bytes behind their size
      member, characters in front of a NUL, inline bytes all of them or none. */
  lemma {:induction false} BlobAcceptedIff(f: Field, b: seq<byte>, t: seq<byte>)
    requires |b| < U32 && f.dataSize < 0x1_0000_0000
    ensures var p := DecodeScalar(f, Prefixed(b) + t);
      && (f.ltype.Bytes? ==> p == if |b| + 4 <= f.dataSize then Done(Blob(b), t) else Fail)
      && (f.ltype.String? ==> p == if |b| + 1 <= f.dataSize then Done(Blob(b), t) else Fail)
      && (f.ltype.FixedLengthBytes? && b != [] ==> p == if |b| == f.dataSize then Done(Blob(b), t) else Fail)
      && (f.ltype.FixedLengthBytes? && b == [] ==>
            && p.Done? && p.rest == t && p.value.Blob? && |p.value.bytes| == f.dataSize
            && forall k :: 0 <= k < f.dataSize ==> p.value.bytes[k] == 0)
  {
    hide EncodeVarint, DecodeVarint32, DecodeBool, DecodeInteger, DecodeFixed, TakeBytes;
    Varint32RoundTrip(|b|, b + t);
    assert Prefixed(b) + t == EncodeVarint(|b|) + (b + t);
    TakePrefix(b, t);
    if b == [] { assert b + t == t; }
    hide Prefixed;
  }

  // ----- Records -----

  lemma {:induction false} TagRoundTrip(tag: nat, wireType: nat, t: seq<byte>)
    requires 1 <= tag < 0x2000_0000 && wireType < 8
    ensures DecodeTag(TagBytes(tag, wireType) + t) == Tag(tag, wireType, t)
  {
    hide EncodeVarint, DecodeVarint32;
    Varint32RoundTrip(tag * 8 + wireType, t);
  }

  lemma {:induction false} SubstreamRoundTrip(p: seq<byte>, t: seq<byte>)
    requires |p| < U32
    ensures Substream(Prefixed(p) + t) == Done(p, t)
  {
    hide EncodeVarint, DecodeVarint32;
    Varint32RoundTrip(|p|, p + t);
    assert Prefixed(p) + t == EncodeVarint(|p|) + (p + t);
    TakePrefix(p, t);
  }

  lemma {:induction false} TakePrefix(p: seq<byte>, t: seq<byte>)
    ensures TakeBytes(p + t, |p|) == Done(p, t)
  {
    assert (p + t)[..|p|] == p && (p + t)[|p|..] == t;
  }

  // ----- What survives a round trip -----

  /** The content of a scalar as it comes back: bools become 0 or 1, and a string loses
      what follows its terminator. */
  function NormScalar(f: Field, v: Value): Value {
    match v
    case Num(n) => if f.ltype.Bool? then Num(if n != 0 then 1 else 0) else v
    case Blob(b) => if f.ltype.String? then Blob(CString(b, f.dataSize)) else v
    case _ => v
  }

  /** A content that a scalar field of the struct can have.  The characters of a string
      must leave room for the terminator. */
  predicate ValidScalar(f: Field, v: Value) {
    match f.ltype
    case Bool => v.Num?
    case Varint | SVarint => v.Num? && InSigned(v.n, f.dataSize)
    case UVarint => v.Num? && InUnsigned(v.n, f.dataSize)
    case Fixed32 => v.Num? && InUnsigned(v.n, 4)
    case Fixed64 => v.Num? && InUnsigned(v.n, 8)
    case Bytes => v.Blob? && |v.bytes| + BYTES_HEADER <= f.dataSize
    case String => v.Blob? && |CString(v.bytes, f.dataSize)| < f.dataSize
    case FixedLengthBytes => v.Blob? && |v.bytes| == f.dataSize
    case Submessage | Extension => false
  }

  // ----- Scalars survive -----

  lemma {:induction false} BoolRoundTrip(n: int, t: seq<byte>)
    ensures DecodeBool(EncodeVarint(if n != 0 then 1 else 0) + t) == Done(Num(if n != 0 then 1 else 0), t)
  {
    hide EncodeVarint, DecodeVarint32;
    Varint32RoundTrip(if n != 0 then 1 else 0, t);
  }

  lemma {:induction false} IntegerRoundTrip(f: Field, n: int, t: seq<byte>)
    requires f.ltype.Varint? || f.ltype.UVarint? || f.ltype.SVarint?
    requires VarintOfField(f, n).Some?
    ensures DecodeInteger(f, EncodeVarint(VarintOfField(f, n).value) + t) == Done(Num(n), t)
  {
    IntegerConverts(f, n);
    hide EncodeVarint, DecodeVarint, Convert, VarintOfField;
    VarintRoundTrip(VarintOfField(f, n).value, t);
  }

  lemma {:induction false} IntegerConverts(f: Field, n: int)
    requires f.ltype.Varint? || f.ltype.UVarint? || f.ltype.SVarint?
    requires VarintOfField(f, n).Some?
    ensures VarintOfField(f, n).value < U64
    ensures Convert(f, VarintOfField(f, n).value) == Some(n)
  {
    if f.ltype.UVarint? {
      UnsignedRoundTrip(n, f.dataSize);
    } else {
      SignedRoundTrip(n, f.dataSize);
      ZigZagInverse(n, 0);
    }
  }

  lemma {:induction false} FixedRoundTrip(n: nat, size: nat, t: seq<byte>)
    requires (size == 4 || size == 8) && InUnsigned(n, size)
    ensures DecodeFixed(ToLE(n, size) + t, size) == Done(Num(n), t)
  {
    WordSizes();
    LittleEndianRoundTrip(n, size);
    TakePrefix(ToLE(n, size), t);
    hide ToLE, FromLE;
  }

  lemma {:induction false} CStringPrefix(b: seq<byte>, max: nat)
    requires |b| < max && 0 !in b
    ensures CString(b, max) == b
  {
    if b != [] { CStringPrefix(b[1..], max - 1); }
  }

  lemma {:induction false} BlobRoundTrip(f: Field, b: seq<byte>, t: seq<byte>)
    requires f.dataSize <= PB_SIZE_MAX && ValidScalar(f, Blob(b))
    ensures EncodeBlob(f, b).Ok?
    ensures DecodeScalar(f, EncodeBlob(f, b).bytes + t) == Done(NormScalar(f, Blob(b)), t)
  {
    var c := if f.ltype.String? then CString(b, f.dataSize) else b;
    hide EncodeVarint, DecodeVarint32, CString;
    Varint32RoundTrip(|c|, c + t);
    assert Prefixed(c) + t == EncodeVarint(|c|) + (c + t);
    TakePrefix(c, t);
    if f.ltype.FixedLengthBytes? && f.dataSize == 0 { assert c + t == t && Zeros(0) == c; }
  }

  /** Every scalar content survives its field encoder and decoder, whatever follows it. */
  lemma {:induction false} ScalarRoundTrip(f: Field, v: Value, t: seq<byte>)
    requires f.dataSize <= PB_SIZE_MAX && ValidScalar(f, v)
    requires f.ltype.Varint? || f.ltype.UVarint? || f.ltype.SVarint? ==> IntegerSize(f.dataSize)
    ensures EncodeValue(f, v).Ok?
    ensures DecodeScalar(f, EncodeValue(f, v).bytes + t) == Done(NormScalar(f, v), t)
  {
    hide DecodeBool, DecodeInteger, DecodeFixed, EncodeVarint, ToLE;
    match v
    case Blob(b) => BlobRoundTrip(f, b, t);
    case Num(n) =>
      match f.ltype {
        case Bool => BoolRoundTrip(n, t);
        case Fixed32 => FixedRoundTrip(n, 4, t);
        case Fixed64 => FixedRoundTrip(n, 8, t);
        case _ => IntegerRoundTrip(f, n, t);
      }
  }

  // ----- Strings: the exact condition -----

  lemma {:induction false} FullStringRejected(c: seq<byte>, t: seq<byte>)
    requires |c| <= PB_SIZE_MAX
    ensures DecodeString(Prefixed(c) + t, |c|).Fail?
  {
    hide EncodeVarint, DecodeVarint32;
    Varint32RoundTrip(|c|, c + t);
    assert Prefixed(c) + t == EncodeVarint(|c|) + (c + t);
  }

  /** A string survives exactly when its characters leave room for the terminator.  A buffer
      filled to the last byte is encoded but not decoded. */
  lemma {:induction false} StringSurvives(f: Field, b: seq<byte>, t: seq<byte>)
    requires f.ltype.String? && f.dataSize <= PB_SIZE_MAX
    ensures EncodeValue(f, Blob(b)).Ok?
    ensures DecodeScalar(f, EncodeValue(f, Blob(b)).bytes + t).Done? <==> |CString(b, f.dataSize)| < f.dataSize
  {
    if |CString(b, f.dataSize)| < f.dataSize {
      BlobRoundTrip(f, b, t);
    } else {
      FullStringRejected(CString(b, f.dataSize), t);
      hide CString, DecodeString, Prefixed;
    }
  }
}
