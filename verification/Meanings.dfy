// What the decoder makes of payloads in any bytes, told from the wire format.
module Meanings {
  import opened Bits
  import opened Varints
  import opened Fields
  import opened Scalars
  import opened Encoding
  import opened Decoding
  import opened MergeProof
  import opened Views
  import opened WireFormat

  // ---- varints and payloads that are skipped ----

  /** The 64-bit decoder takes exactly the varints of at most ten bytes, modulo 2^64. */
  lemma ReadVarintExactly(bs: seq<byte>)
    ensures ReadVarint(bs).Done? <==> ReadBase128(bs).Done? && |bs| - |ReadBase128(bs).rest| <= 10
    ensures ReadVarint(bs).Done? ==>
      ReadVarint(bs) == Done(ReadBase128(bs).value % 0x1_0000_0000_0000_0000, ReadBase128(bs).rest)
  {
    ReadGroupsExactly(bs, 0);
  }

  lemma {:induction false} ReadGroupsExactly(bs: seq<byte>, k: nat)
    requires k <= 10
    ensures ReadGroups(bs, k).Done? <==> ReadBase128(bs).Done? && |bs| - |ReadBase128(bs).rest| <= 10 - k
    ensures ReadGroups(bs, k).Done? ==> ReadGroups(bs, k) == ReadBase128(bs)
  {
    if bs != [] && bs[0] >= 128 && k < 10 {
      ReadGroupsExactly(bs[1..], k + 1);
    }
  }

  /** What the 32-bit decoder asks of the varint's bytes from the k-th on: a fifth and last byte below 16, and behind it
      only empty groups or, if bit 31 is set, those of a sign extension. */
  predicate Narrow(bs: seq<byte>, k: nat, negative: bool)
  {
    && bs != []
    && (k == 4 && bs[0] < 128 ==> bs[0] < 16)
    && (k >= 5 ==> bs[0] % 128 == 0 || (negative && bs[0] == if k < 9 then 255 else 1))
    && (bs[0] >= 128 ==> Narrow(bs[1..], k + 1, if k == 4 then bs[0] % 16 >= 8 else negative))
  }

  /** Of varints of at most ten bytes the 32-bit decoder takes exactly the narrow ones; together with DecodersAgree,
      which gives the value. */
  lemma ReadVarint32Exactly(bs: seq<byte>)
    requires TerminatedWithin(bs, 10)
    ensures ReadVarint32(bs).Done? <==> Narrow(bs, 0, false)
  {
    if bs[0] >= 128 {
      assert Weight(1) == 128;
      LowGroupsNarrow(bs[1..], bs[0] - 128, 1);
    }
  }

  lemma {:induction false} LowGroupsNarrow(bs: seq<byte>, result: nat, k: nat)
    requires 1 <= k <= 4 && TerminatedWithin(bs, 10 - k) && result < Weight(k) && result < TWO_32
    ensures ReadGroups32(bs, result, 7 * k).Done? <==> Narrow(bs, k, false)
    decreases 4 - k
  {
    hide ReadGroups32, OrShifted, Weight;
    GroupStep32(bs, result, k);
    if bs[0] >= 128 {
      if k < 4 {
        OrShiftedAdds(result, bs[0] % 128, k);
        FitsBelow(result, bs[0] % 128, k);
        LowGroupsNarrow(bs[1..], OrShifted(result, bs[0] % 128, 7 * k), k + 1);
      } else {
        FifthGroup(result, bs[0]);
        HighGroupsNarrow(bs[1..], OrShifted(result, bs[0] % 128, 28), 5);
      }
    }
  }

  /** Bit 31 comes from the fifth group. */
  lemma FifthGroup(result: nat, b: byte)
    requires result < Weight(4) && result < TWO_32
    ensures OrShifted(result, b % 128, 28) >= TWO_31 <==> b % 16 >= 8
  {
    var w := Weight(4);
    assert w == 0x1000_0000 by { Weights(); }
    OrShiftedAdds(result, b % 128, 4);
    LowNibble(b);
    hide OrShifted, Weight;
    HighestBit(result, b % 16);
  }

  lemma LowNibble(b: byte)
    ensures b % 128 % 16 == b % 16
  {
  }

  lemma HighestBit(result: nat, g: nat)
    requires result < 0x1000_0000 && g < 16
    ensures result + g * 0x1000_0000 >= TWO_31 <==> g >= 8
  {
  }

  lemma {:induction false} HighGroupsNarrow(bs: seq<byte>, result: nat, k: nat)
    requires 5 <= k <= 9 && TerminatedWithin(bs, 10 - k) && result < TWO_32
    ensures ReadGroups32(bs, result, 7 * k).Done? <==> Narrow(bs, k, result >= TWO_31)
    decreases 10 - k
  {
    hide ReadGroups32;
    HighGroupStep(bs, result, k);
    if bs[0] >= 128 {
      HighGroupsNarrow(bs[1..], result, k + 1);
    }
  }

  /** A varint that never ends is refused. */
  lemma UnendedRefused(bs: seq<byte>)
    requires forall k | 0 <= k < |bs| :: bs[k] >= 128
    ensures ReadVarint32(bs).Fail? && ReadVarint(bs).Fail?
  {
    if bs != [] {
      UnendedGroups(bs[1..], bs[0] - 128, 7);
    }
    UnendedBase128(bs);
    ReadVarintExactly(bs);
  }

  lemma {:induction false} UnendedGroups(bs: seq<byte>, result: nat, bitpos: nat)
    requires result < TWO_32 && forall k | 0 <= k < |bs| :: bs[k] >= 128
    ensures ReadGroups32(bs, result, bitpos).Fail?
  {
    hide OrShifted;
    if bs != [] {
      var next := if bitpos >= 32 then result else OrShifted(result, bs[0] % 128, bitpos);
      UnendedGroups(bs[1..], next, (bitpos + 7) % 256);
    }
  }

  lemma {:induction false} UnendedBase128(bs: seq<byte>)
    requires forall k | 0 <= k < |bs| :: bs[k] >= 128
    ensures ReadBase128(bs).Fail?
  {
    if bs != [] {
      UnendedBase128(bs[1..]);
    }
  }

  /** Wire types 0, 1 and 5 are skipped exactly as far as the payload goes; 3, 4, 6 and 7 are refused. */
  lemma SkipsThePayload(bs: seq<byte>, wireType: nat)
    requires wireType != 2
    ensures Skip(bs, wireType)
         == match ReadPayload(wireType, bs) case Done(_, rest) => Done((), rest) case Fail => Fail
  {
    if wireType == 0 {
      SkipsTheVarint(bs);
    }
  }

  lemma {:induction false} SkipsTheVarint(bs: seq<byte>)
    ensures SkipVarint(bs) == match ReadBase128(bs) case Done(_, rest) => Done((), rest) case Fail => Fail
  {
    if bs != [] && bs[0] >= 128 {
      SkipsTheVarint(bs[1..]);
    }
  }

  // ---- scalars ----

  /** The numbers an integer of so many bytes holds. */
  predicate HeldSigned(size: nat, n: int)
  {
    match size
    case 1 => -0x80 <= n < 0x80
    case 2 => -0x8000 <= n < 0x8000
    case 4 => -0x8000_0000 <= n < 0x8000_0000
    case 8 => -0x8000_0000_0000_0000 <= n < 0x8000_0000_0000_0000
    case _ => false
  }

  predicate HeldUnsigned(size: nat, n: int)
  {
    match size
    case 1 => 0 <= n < 0x100
    case 2 => 0 <= n < 0x1_0000
    case 4 => 0 <= n < 0x1_0000_0000
    case 8 => 0 <= n < 0x1_0000_0000_0000_0000
    case _ => false
  }

  /** The number that a payload means to a scalar field; None is one that does not fit its destination. */
  function Meant(f: Field, p: Payload): Option<int>
    requires f.ltype.Packable()
  {
    match p
    case VarintPayload(n) =>
      var u := n % 0x1_0000_0000_0000_0000;
      var low := n % 0x1_0000_0000;
      var m := match f.ltype
        case Varint =>
          if f.dataSize == 8 then (if u < 0x8000_0000_0000_0000 then u else u - 0x1_0000_0000_0000_0000)
          else (if low < 0x8000_0000 then low else low - 0x1_0000_0000)
        case Svarint => if u % 2 == 0 then u / 2 else -(u / 2) - 1
        case _ => u;
      if (if f.ltype.Uvarint? then HeldUnsigned(f.dataSize, m) else HeldSigned(f.dataSize, m)) then Some(m) else None
    case Fixed32Payload(n) => Some(n)
    case Fixed64Payload(n) => Some(n)
    case BlockPayload(_) => None
  }

  /** On any bytes a scalar decoder reads the payload of its kind, of at most ten bytes, and stores what it means. */
  lemma ScalarMeant(f: Field, bs: seq<byte>)
    requires FieldOk(f) && f.ltype.Packable()
    ensures var p := ReadPayload(KindOf(f), bs);
      DecodeScalar(f, bs)
      == if p.Fail? || |bs| - |p.rest| > 10 || Meant(f, p.value).None? then Fail
         else Done(Meant(f, p.value).value, p.rest)
  {
    hide ReadVarint, ReadBase128, Unsigned;
    match f.ltype
    case Varint => VarintMeant(f, bs);
    case Uvarint => ReadVarintExactly(bs);
    case Svarint => ReadVarintExactly(bs);
    case Fixed32 => if |bs| >= 4 { UnsignedOfBytes(bs[..4]); }
    case Fixed64 => if |bs| >= 8 { UnsignedOfBytes(bs[..8]); }
  }

  lemma VarintMeant(f: Field, bs: seq<byte>)
    requires FieldOk(f) && f.ltype.Varint?
    ensures var p := ReadPayload(0, bs);
      DecodeScalar(f, bs)
      == if p.Fail? || |bs| - |p.rest| > 10 || Meant(f, p.value).None? then Fail
         else Done(Meant(f, p.value).value, p.rest)
  {
    hide ReadVarint, ReadBase128;
    ReadVarintExactly(bs);
    if ReadBase128(bs).Done? {
      LowOfLow(ReadBase128(bs).value);
    }
  }

  lemma LowOfLow(n: nat)
    ensures n % 0x1_0000_0000_0000_0000 % 0x1_0000_0000 == n % 0x1_0000_0000
  {
  }

  // ---- packed blocks ----

  /** The numbers in a packed block; None when some payload is cut short, too long, or does not fit. */
  function BlockMeant(f: Field, data: seq<byte>): Option<seq<int>>
    requires f.ltype.Packable()
    decreases |data|
  {
    if data == [] then Some([])
    else
      var p := ReadPayload(KindOf(f), data);
      if p.Fail? || |data| - |p.rest| > 10 || Meant(f, p.value).None? then None
      else
        match BlockMeant(f, p.rest)
        case Some(others) => Some([Meant(f, p.value).value] + others)
        case None => None
  }

  function Nums(ns: seq<int>): (r: seq<Value>)
    ensures |r| == |ns| && forall k | 0 <= k < |ns| :: r[k] == Num(ns[k])
  {
    seq(|ns|, k requires 0 <= k < |ns| => Num(ns[k]))
  }

  /** On any bytes a packed block puts its numbers behind the elements counted; it is refused when some payload is
      malformed or the array has no room. */
  lemma {:induction false} PackedMeant(f: Field, data: seq<byte>, e: Elements)
    requires FieldOk(f) && f.ltype.Packable() && ElementsFit(f, e) && e.count <= f.arraySize
    ensures ReadPacked(f, data, e)
         == match BlockMeant(f, data)
            case None => None
            case Some(ns) =>
              if e.count + |ns| > f.arraySize then None
              else Some(Elements(e.items[..e.count] + Nums(ns) + e.items[e.count + |ns|..], e.count + |ns|))
    decreases |data|
  {
    hide DecodeScalar, ReadPayload, Meant, FieldOk, ValueFits;
    if data == [] {
      assert e.items[..e.count] + Nums([]) + e.items[e.count..] == e.items;
    } else {
      ScalarMeant(f, data);
      var p := DecodeScalar(f, data);
      if p.Done? && e.count < f.arraySize {
        assert ValueFits(f, Num(p.value));
        var next := Elements(e.items[e.count := Num(p.value)], e.count + 1);
        PackedMeant(f, p.rest, next);
        if BlockMeant(f, p.rest).Some? {
          var others := BlockMeant(f, p.rest).value;
          assert Nums([p.value] + others) == [Num(p.value)] + Nums(others);
          if next.count + |others| <= f.arraySize {
            assert next.items[..next.count] == e.items[..e.count] + [Num(p.value)];
            assert next.items[next.count + |others|..] == e.items[next.count + |others|..];
            assert e.items[..e.count] + [Num(p.value)] + Nums(others)
                == e.items[..e.count] + ([Num(p.value)] + Nums(others));
          }
        }
      }
    }
  }

  // ---- bytes and strings ----

  /**
    * Any block that arrives for a field of bytes: a byte array takes what its buffer holds, a string needs a byte
    * more, and a fixed-length field takes its length, or nothing at all for zeros. What it then shows is the data,
    * up to a string's first NUL.
    */
  lemma BytesMeant(f: Field, data: seq<byte>, tail: seq<byte>, was: Value)
    requires FieldOk(f) && ValueFits(f, was) && |data| < TWO_32
    requires f.ltype.Bytes? || f.ltype.String? || f.ltype.FixedLengthBytes?
    ensures var p := DecodeValue(f, Block(data) + tail, was);
      var room := |was.data|;
      && (p.Done? <==>
            if f.ltype.Bytes? then |data| <= room
            else if f.ltype.String? then |data| < room
            else |data| == room || data == [])
      && (p.Done? ==>
            && p.rest == tail && p.value.Buf? && |p.value.data| == room
            && (f.ltype.FixedLengthBytes? ==>
                  p.value.data == if data == [] then seq(room, _ => 0) else data)
            && (f.ltype.Bytes? ==> ViewValue(f, p.value) == OBytes(data))
            && (f.ltype.String? ==>
                  exists n | 0 <= n <= |data| ::
                    ViewValue(f, p.value) == OBytes(data[..n]) && 0 !in data[..n] && (n < |data| ==> data[n] == 0)))
  {
    hide ReadVarint32;
    BlockParts(data, tail);
    match f.ltype
    case Bytes =>
      if |data| <= |was.data| {
        assert (data + was.data[|data|..])[..|data|] == data;
      }
    case String =>
      if |data| < |was.data| {
        var stored := data + [0] + was.data[|data| + 1..];
        var n := StringLength(stored);
        assert stored[|data|] == 0;
        assert n <= |data| && stored[..n] == data[..n];
        forall k | 0 <= k < n ensures data[..n][k] != 0 {
          assert stored[k] == data[k];
        }
      }
    case FixedLengthBytes =>
  }

  // ---- submessages ----

  /** A submessage is its block decoded as a message of its own: an array element on its defaults, any other onto what
      was there. Nothing of the block is read behind a zero tag, and the message goes on behind the block. */
  lemma SubmessageMeant(f: Field, data: seq<byte>, tail: seq<byte>, was: Value)
    requires FieldOk(f) && f.ltype.Submessage? && ValueFits(f, was) && |data| < TWO_32
    ensures var fields := f.ltype.fields;
      var p := if f.htype.Repeated? then Decode(fields, data, was.slots) else DecodeNoinit(fields, data, was.slots);
      && (DecodeValue(f, Block(data) + tail, was).Done? <==> p.Done?)
      && (p.Done? ==> DecodeValue(f, Block(data) + tail, was) == Done(Msg(p.value), tail))
  {
    hide ReadBlock, DecodeNoinit, SetDefaults;
    BlockRead(data, tail);
  }

  // ---- wire types of known fields ----

  /** The wire type of a known field is not looked at, but for a scalar array, where type 2 is a packed block. */
  lemma WireTypeIgnored(fields: seq<Field>, i: nat, a: nat, b: nat, bs: seq<byte>, st: State)
    requires TableOk(fields) && i < |fields| && StateFits(fields, st)
    requires fields[i].htype.Repeated? && fields[i].ltype.Packable() ==> (a == 2 <==> b == 2)
    ensures DecodeField(fields, i, a, bs, st) == DecodeField(fields, i, b, bs, st)
  {
    hide DecodeValue, ReadBlock, ReadPacked, WithArray, Enter, ArrayAt, TableOk;
    TableRow(fields, i);
  }
}
