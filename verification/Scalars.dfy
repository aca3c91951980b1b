// The five packable scalar kinds: what pb_enc_varint ... pb_enc_fixed64 emit and the matching pb_dec_* read.
module Scalars {
  import opened Bits
  import opened Varints
  import opened Fields

  /** The k low bytes of n, least significant first. */
  function LittleEndian(n: nat, k: nat): (bs: seq<byte>)
    ensures |bs| == k
  {
    if k == 0 then [] else [n % 256] + LittleEndian(n / 256, k - 1)
  }

  function FromLittleEndian(bs: seq<byte>): nat
  {
    if bs == [] then 0 else bs[0] + 256 * FromLittleEndian(bs[1..])
  }

  lemma {:induction false} LittleEndianInverse(n: nat, k: nat)
    requires n < Pow2(8 * k)
    ensures FromLittleEndian(LittleEndian(n, k)) == n
  {
    if k > 0 {
      Pow2Sum(8, 8 * (k - 1));
      assert Pow2(8) == 256;
      LittleEndianInverse(n / 256, k - 1);
    }
  }

  lemma {:induction false} LittleEndianBound(bs: seq<byte>)
    ensures FromLittleEndian(bs) < Pow2(8 * |bs|)
  {
    if bs != [] {
      LittleEndianBound(bs[1..]);
      Pow2Sum(8, 8 * (|bs| - 1));
      assert Pow2(8) == 256;
    }
  }

  function ReadBytes(bs: seq<byte>, n: nat): (p: Parse<seq<byte>>)
    ensures p.Done? ==> |p.value| == n && bs == p.value + p.rest
  {
    if |bs| < n then Fail else Done(bs[..n], bs[n..])
  }

  /** Value bytes of a scalar; None is "invalid data_size". */
  function EncodeScalar(f: Field, n: int): (r: Option<seq<byte>>)
    requires f.ltype.Packable() && ValueFits(f, Num(n))
    ensures r.Some? ==> |r.value| >= 1
  {
    match f.ltype
    case Varint => if IntSize(f.dataSize) then Some(Varints.Varint(Unsigned64(n))) else None
    case Uvarint => if IntSize(f.dataSize) then Some(Varints.Varint(Unsigned64(n))) else None
    case Svarint => if IntSize(f.dataSize) then Some(Varints.Varint(ZigZag(n))) else None
    case Fixed32 => Some(LittleEndian(n, 4))
    case Fixed64 => Some(LittleEndian(n, 8))
  }

  /** Storing v in a signed integer of the given size. */
  function ClampSigned(size: nat, v: int): (r: int)
    requires IntSize(size)
    ensures FitsSigned(size, r)
    ensures r == v <==> FitsSigned(size, v)
  {
    var low := v % Range(size);
    if 2 * low < Range(size) then low else low - Range(size)
  }

  /** Storing v in an unsigned integer of the given size. */
  function ClampUnsigned(size: nat, v: nat): (r: nat)
    requires IntSize(size)
    ensures FitsUnsigned(size, r)
    ensures r == v <==> FitsUnsigned(size, v)
  {
    v % Range(size)
  }

  function DecodeScalar(f: Field, bs: seq<byte>): (p: Parse<int>)
    requires f.ltype.Packable()
    ensures p.Done? ==> |p.rest| < |bs| && ValueFits(f, Num(p.value))
  {
    match f.ltype
    case Varint =>
      (match ReadVarint(bs)
       case Done(u, rest) =>
         if !IntSize(f.dataSize) then Fail
         else
           var wide := if f.dataSize == 8 then Signed64(u) else Signed32(u);
           var clamped := ClampSigned(f.dataSize, wide);
           if clamped == wide then Done(clamped, rest) else Fail
       case Fail => Fail)
    case Uvarint =>
      (match ReadVarint(bs)
       case Done(u, rest) =>
         if !IntSize(f.dataSize) then Fail
         else
           var clamped := ClampUnsigned(f.dataSize, u);
           if clamped == u then Done(clamped, rest) else Fail
       case Fail => Fail)
    case Svarint =>
      (match ReadVarint(bs)
       case Done(u, rest) =>
         if !IntSize(f.dataSize) then Fail
         else
           var clamped := ClampSigned(f.dataSize, UnZigZag(u));
           if clamped == UnZigZag(u) then Done(clamped, rest) else Fail
       case Fail => Fail)
    case Fixed32 => ReadFixed(bs, 4)
    case Fixed64 => ReadFixed(bs, 8)
  }

  function ReadFixed(bs: seq<byte>, k: nat): (p: Parse<int>)
    requires k == 4 || k == 8
    ensures p.Done? ==> |p.rest| < |bs| && FitsUnsigned(k, p.value)
  {
    match ReadBytes(bs, k)
    case Done(data, rest) =>
      LittleEndianBound(data);
      Pow2Values();
      Done(FromLittleEndian(data), rest)
    case Fail => Fail
  }

  /** Decoding undoes encoding, whatever follows, for every kind, size and value. */
  lemma ScalarRoundTrip(f: Field, n: int, tail: seq<byte>)
    requires f.ltype.Packable() && ValueFits(f, Num(n)) && EncodeScalar(f, n).Some?
    ensures DecodeScalar(f, EncodeScalar(f, n).value + tail) == Done(n, tail)
  {
    match f.ltype
    case Varint =>
      ReadVarintOfVarint(Unsigned64(n), tail);
      SignedRoundTrip(f.dataSize, n);
    case Uvarint =>
      assert Unsigned64(n) == n;
      ReadVarintOfVarint(n, tail);
    case Svarint =>
      ReadVarintOfVarint(ZigZag(n), tail);
      ZigZagInverse(n, 0);
    case Fixed32 =>
      FixedRoundTrip(n, 4, tail);
    case Fixed64 =>
      FixedRoundTrip(n, 8, tail);
  }

  lemma SignedRoundTrip(size: nat, n: int)
    requires IntSize(size) && FitsSigned(size, n)
    ensures (if size == 8 then Signed64(Unsigned64(n)) else Signed32(Unsigned64(n))) == n
  {
    if n < 0 {
      assert Unsigned64(n) == n + TWO_64;
      if size != 8 {
        ModDrop(n + TWO_32, TWO_32 - 1);
        assert n + TWO_64 == n + TWO_32 + (TWO_32 - 1) * TWO_32;
      }
    } else {
      assert Unsigned64(n) == n;
    }
  }

  lemma FixedRoundTrip(n: nat, k: nat, tail: seq<byte>)
    requires (k == 4 && n < TWO_32) || (k == 8 && n < TWO_64)
    ensures ReadFixed(LittleEndian(n, k) + tail, k) == Done(n, tail)
  {
    Pow2Values();
    LittleEndianInverse(n, k);
    var bs := LittleEndian(n, k) + tail;
    assert bs[..k] == LittleEndian(n, k) && bs[k..] == tail;
  }

  /** Which wire values each integer decoder refuses: exactly those its destination cannot hold. */
  lemma DecodersRefuseExactlyMisfits(f: Field, bs: seq<byte>)
    requires f.ltype.Varint? || f.ltype.Uvarint? || f.ltype.Svarint?
    requires IntSize(f.dataSize) && ReadVarint(bs).Done?
    ensures f.ltype.Uvarint? ==> (DecodeScalar(f, bs).Done? <==> ReadVarint(bs).value < Range(f.dataSize))
    ensures f.ltype.Svarint? ==>
      (DecodeScalar(f, bs).Done? <==> FitsSigned(f.dataSize, UnZigZag(ReadVarint(bs).value)))
    ensures f.ltype.Varint? && f.dataSize >= 4 ==> DecodeScalar(f, bs).Done?
    ensures f.ltype.Varint? && f.dataSize < 4 ==>
      (DecodeScalar(f, bs).Done? <==> FitsSigned(f.dataSize, Signed32(ReadVarint(bs).value)))
  {
  }

  lemma ReadBytesExtend(bs: seq<byte>, n: nat, tail: seq<byte>)
    requires ReadBytes(bs, n).Done?
    ensures ReadBytes(bs + tail, n) == Done(ReadBytes(bs, n).value, ReadBytes(bs, n).rest + tail)
  {
    assert (bs + tail)[..n] == bs[..n];
    assert (bs + tail)[n..] == bs[n..] + tail;
  }

  lemma DecodeScalarExtend(f: Field, bs: seq<byte>, tail: seq<byte>)
    requires f.ltype.Packable() && DecodeScalar(f, bs).Done?
    ensures DecodeScalar(f, bs + tail) == Done(DecodeScalar(f, bs).value, DecodeScalar(f, bs).rest + tail)
  {
    match f.ltype
    case Varint | Uvarint | Svarint =>
      ReadVarintExtend(bs, tail);
    case Fixed32 =>
      ReadBytesExtend(bs, 4, tail);
    case Fixed64 =>
      ReadBytesExtend(bs, 8, tail);
  }
}
