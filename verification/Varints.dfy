// Base-128 varints: the encoder's byte sequence, the two decoders, and zig-zag mapping
// (pb_encode_varint, pb_decode_varint, pb_decode_varint32_eof, pb_encode_svarint, pb_decode_svarint).
module Varints {
  import opened Bits

  /** Outcome of reading a prefix of a byte sequence: the value and the unread bytes. */
  datatype Parse<+T> = Done(value: T, rest: seq<byte>) | Fail

  datatype Option<+T> = Some(value: T) | None

  const TWO_31 := 0x8000_0000
  const TWO_32 := 0x1_0000_0000
  const TWO_63 := 0x8000_0000_0000_0000
  const TWO_64 := 0x1_0000_0000_0000_0000

  /** The weight of the k-th group of seven bits. */
  function Weight(k: nat): (w: nat)
    ensures w > 0
  {
    if k == 0 then 1 else 128 * Weight(k - 1)
  }

  lemma {:induction false} WeightIsPow2(k: nat)
    ensures Weight(k) == Pow2(7 * k)
  {
    if k > 0 {
      WeightIsPow2(k - 1);
      var j := 7 * (k - 1);
      assert Pow2(j + 2) == 4 * Pow2(j);
      assert Pow2(j + 4) == 16 * Pow2(j);
      assert Pow2(j + 6) == 64 * Pow2(j);
      assert Pow2(j + 7) == 128 * Pow2(j);
    }
  }

  lemma Weights()
    ensures Weight(1) == 128 && Weight(2) == 0x4000 && Weight(3) == 0x20_0000 && Weight(4) == 0x1000_0000
    ensures Weight(5) == 8 * TWO_32 && 2 * Weight(9) == TWO_64
  {
  }

  lemma Pow2Values()
    ensures Pow2(32) == TWO_32 && Pow2(64) == TWO_64
  {
    assert Pow2(8) == 0x100;
    Pow2Sum(8, 8);
    Pow2Sum(16, 16);
    Pow2Sum(32, 32);
  }

  /** The byte sequence of an unsigned value, least significant group first. */
  function Varint(v: nat): (bs: seq<byte>)
    ensures |bs| >= 1
    ensures v > 0 ==> bs[0] != 0
  {
    if v < 128 then [v] else [v % 128 + 128] + Varint(v / 128)
  }

  /** The 64-bit decoder from its k-th byte on: at most ten bytes are accepted. */
  function ReadGroups(bs: seq<byte>, k: nat): (p: Parse<nat>)
    ensures p.Done? ==> |p.rest| < |bs|
  {
    if k >= 10 || bs == [] then Fail
    else if bs[0] < 128 then Done(bs[0], bs[1..])
    else match ReadGroups(bs[1..], k + 1)
      case Done(v, rest) => Done(bs[0] - 128 + 128 * v, rest)
      case Fail => Fail
  }

  function ReadVarint(bs: seq<byte>): (p: Parse<nat>)
    ensures p.Done? ==> |p.rest| < |bs| && p.value < TWO_64
  {
    match ReadGroups(bs, 0)
    case Done(v, rest) => Done(v % TWO_64, rest)
    case Fail => Fail
  }

  /** The 32-bit decoder's loop; bitpos is an 8-bit counter and wraps. */
  function ReadGroups32(bs: seq<byte>, result: nat, bitpos: nat): (p: Parse<nat>)
    requires result < TWO_32
    ensures p.Done? ==> |p.rest| < |bs| && p.value < TWO_32
  {
    if bs == [] then Fail
    else
      var b := bs[0];
      var signExtension := if bitpos < 63 then 0xFF else 0x01;
      if bitpos >= 32 && b % 128 != 0 && (result < TWO_31 || b != signExtension) then Fail
      else
        var result' := if bitpos >= 32 then result else OrShifted(result, b % 128, bitpos);
        var bitpos' := (bitpos + 7) % 256;
        if b >= 128 then ReadGroups32(bs[1..], result', bitpos')
        else if bitpos' == 35 && b >= 16 then Fail
        else Done(result', bs[1..])
  }

  /** result |= (uint32_t)group << bitpos */
  function OrShifted(result: nat, group: nat, bitpos: nat): (r: nat)
    requires result < TWO_32
    ensures r < TWO_32
  {
    Pow2Values();
    BitOrWidth(result, (group * Pow2(bitpos)) % TWO_32, 32);
    BitOr(result, (group * Pow2(bitpos)) % TWO_32)
  }

  function ReadVarint32(bs: seq<byte>): (p: Parse<nat>)
    ensures p.Done? ==> |p.rest| < |bs| && p.value < TWO_32
  {
    if bs == [] then Fail
    else if bs[0] < 128 then Done(bs[0], bs[1..])
    else ReadGroups32(bs[1..], bs[0] - 128, 7)
  }

  /** Reading never looks past what it consumes. */
  lemma {:induction false} ReadGroupsExtend(bs: seq<byte>, k: nat, tail: seq<byte>)
    requires ReadGroups(bs, k).Done?
    ensures ReadGroups(bs + tail, k) == Done(ReadGroups(bs, k).value, ReadGroups(bs, k).rest + tail)
  {
    assert (bs + tail)[1..] == bs[1..] + tail;
    if bs[0] >= 128 {
      ReadGroupsExtend(bs[1..], k + 1, tail);
    }
  }

  lemma {:induction false} ReadGroups32Extend(bs: seq<byte>, result: nat, bitpos: nat, tail: seq<byte>)
    requires result < TWO_32
    requires ReadGroups32(bs, result, bitpos).Done?
    ensures ReadGroups32(bs + tail, result, bitpos)
         == Done(ReadGroups32(bs, result, bitpos).value, ReadGroups32(bs, result, bitpos).rest + tail)
  {
    assert (bs + tail)[1..] == bs[1..] + tail;
    var b := bs[0];
    if b >= 128 {
      var result' := if bitpos >= 32 then result else OrShifted(result, b % 128, bitpos);
      ReadGroups32Extend(bs[1..], result', (bitpos + 7) % 256, tail);
    }
  }

  lemma ReadVarintExtend(bs: seq<byte>, tail: seq<byte>)
    requires ReadVarint(bs).Done?
    ensures ReadVarint(bs + tail) == Done(ReadVarint(bs).value, ReadVarint(bs).rest + tail)
  {
    ReadGroupsExtend(bs, 0, tail);
  }

  lemma ReadVarint32Extend(bs: seq<byte>, tail: seq<byte>)
    requires ReadVarint32(bs).Done?
    ensures ReadVarint32(bs + tail) == Done(ReadVarint32(bs).value, ReadVarint32(bs).rest + tail)
  {
    assert (bs + tail)[1..] == bs[1..] + tail;
    if bs[0] >= 128 {
      ReadGroups32Extend(bs[1..], bs[0] - 128, 7, tail);
    }
  }

  // ---- length of a varint ----

  /** A varint has n bytes exactly when its value needs n groups of seven bits and not n-1. */
  lemma {:induction false} VarintLength(v: nat, n: nat)
    requires n >= 1
    ensures |Varint(v)| == n <==> v < Pow2(7 * n) && (n > 1 ==> Pow2(7 * (n - 1)) <= v)
  {
    WeightIsPow2(n);
    WeightIsPow2(n - 1);
    VarintGroups(v, n);
  }

  lemma {:induction false} VarintGroups(v: nat, n: nat)
    requires n >= 1
    ensures |Varint(v)| == n <==> v < Weight(n) && (n > 1 ==> Weight(n - 1) <= v)
  {
    if n > 1 {
      if v < 128 {
        assert Weight(n - 1) >= 128;
      } else {
        VarintGroups(v / 128, n - 1);
      }
    }
  }

  lemma VarintAtMostTen(v: nat)
    requires v < TWO_64
    ensures 1 <= |Varint(v)| <= 10
  {
    var n := |Varint(v)|;
    VarintGroups(v, n);
    Weights();
    if n > 10 {
      WeightMonotone(10, n - 1);
    }
  }

  lemma {:induction false} WeightMonotone(a: nat, b: nat)
    requires a <= b
    ensures Weight(a) <= Weight(b)
  {
    if a < b {
      WeightMonotone(a, b - 1);
    }
  }

  // ---- the decoders invert the encoder ----

  lemma {:induction false} ReadGroupsOfVarint(v: nat, k: nat, tail: seq<byte>)
    requires k < 10 && v * Weight(k) < TWO_64
    ensures ReadGroups(Varint(v) + tail, k) == Done(v, tail)
  {
    var bs := Varint(v) + tail;
    if v < 128 {
      assert bs[1..] == tail;
    } else {
      assert bs[1..] == Varint(v / 128) + tail;
      ShiftOneGroup(v, k);
      hide Weight;
      if k == 9 {
        LastGroupSmall(v);
        assert false;
      }
      ReadGroupsOfVarint(v / 128, k + 1, tail);
    }
  }

  lemma LastGroupSmall(v: nat)
    requires v * Weight(9) < TWO_64
    ensures v < 2
  {
    Weights();
    hide Weight;
    if v >= 2 {
      TimesMonotone(2, v, Weight(9));
    }
  }

  lemma ShiftOneGroup(v: nat, k: nat)
    ensures v * Weight(k) == (v % 128) * Weight(k) + (v / 128) * Weight(k + 1)
    ensures (v / 128) * Weight(k + 1) <= v * Weight(k)
  {
    var w := Weight(k);
    assert v * w == (v % 128 + 128 * (v / 128)) * w;
    assert (v % 128) * w >= 0;
  }

  lemma {:induction false} ReadVarintOfVarint(v: nat, tail: seq<byte>)
    requires v < TWO_64
    ensures ReadVarint(Varint(v) + tail) == Done(v, tail)
  {
    var bs := Varint(v) + tail;
    assert Weight(0) == 1;
    ReadGroupsOfVarint(v, 0, tail);
    assert ReadGroups(bs, 0) == Done(v, tail);
    assert v % TWO_64 == v;
  }

  /** Within the first 32 bits the "or" in the 32-bit decoder is an addition modulo 2^32. */
  lemma OrShiftedAdds(result: nat, group: nat, k: nat)
    requires 1 <= k <= 4 && result < Weight(k) && group < 128
    ensures Weight(k) < TWO_32
    ensures OrShifted(result, group, 7 * k) == result + (if k < 4 then group else group % 16) * Weight(k)
  {
    Weights();
    WeightIsPow2(k);
    var kept := if k < 4 then group else group % 16;
    assert (group * Weight(k)) % TWO_32 == kept * Weight(k) by {
      if k == 4 {
        assert group * 0x1000_0000 == kept * 0x1000_0000 + (group / 16) * TWO_32;
      }
    }
    BitOrDisjoint(result, kept, 7 * k);
  }

  /** One turn of the 32-bit loop while the group still fits, and once it lies above bit 32. */
  lemma GroupStep32(bs: seq<byte>, result: nat, k: nat)
    requires bs != [] && 1 <= k <= 9 && result < TWO_32
    ensures k <= 4 && bs[0] >= 128 ==>
      ReadGroups32(bs, result, 7 * k) == ReadGroups32(bs[1..], OrShifted(result, bs[0] % 128, 7 * k), 7 * (k + 1))
    ensures k <= 4 && bs[0] < 128 ==>
      ReadGroups32(bs, result, 7 * k)
      == (if k == 4 && bs[0] >= 16 then Fail else Done(OrShifted(result, bs[0] % 128, 7 * k), bs[1..]))
    ensures k >= 5 && bs[0] >= 128 && ReadGroups32(bs, result, 7 * k).Done? ==>
      ReadGroups32(bs, result, 7 * k) == ReadGroups32(bs[1..], result, 7 * (k + 1))
    ensures k >= 5 && bs[0] < 128 && ReadGroups32(bs, result, 7 * k).Done? ==>
      ReadGroups32(bs, result, 7 * k) == Done(result, bs[1..])
    ensures 5 <= k <= 8 && 0 < bs[0] < 128 ==> ReadGroups32(bs, result, 7 * k).Fail?
  {
    assert 7 * k + 7 == 7 * (k + 1) && (7 * k + 7) % 256 == 7 * k + 7;
  }

  lemma {:induction false} ReadGroups32OfVarint(w: nat, result: nat, k: nat, tail: seq<byte>)
    requires 1 <= k <= 4 && w >= 1 && result < Weight(k)
    requires result < TWO_32 && result + w * Weight(k) < TWO_32
    ensures ReadGroups32(Varint(w) + tail, result, 7 * k) == Done(result + w * Weight(k), tail)
    decreases 4 - k
  {
    hide OrShifted, ReadGroups32;
    Weights();
    var bs := Varint(w) + tail;
    GroupStep32(bs, result, k);
    OrShiftedAdds(result, w % 128, k);
    if w < 128 {
      assert bs[1..] == tail;
    } else {
      assert bs[1..] == Varint(w / 128) + tail;
      ShiftOneGroup(w, k);
      ReadGroups32OfVarint(w / 128, OrShifted(result, w % 128, 7 * k), k + 1, tail);
    }
  }

  lemma ReadVarint32OfVarint(v: nat, tail: seq<byte>)
    requires v < TWO_32
    ensures ReadVarint32(Varint(v) + tail) == Done(v, tail)
  {
    var bs := Varint(v) + tail;
    if v < 128 {
      assert bs[1..] == tail;
    } else {
      assert bs[1..] == Varint(v / 128) + tail;
      assert Weight(1) == 128;
      ReadGroups32OfVarint(v / 128, v % 128, 1, tail);
    }
  }

  // ---- the two decoders agree ----

  /** Some byte among the first n has its continuation bit clear. */
  predicate TerminatedWithin(bs: seq<byte>, n: nat)
  {
    n > 0 && bs != [] && (bs[0] < 128 || TerminatedWithin(bs[1..], n - 1))
  }

  lemma {:induction false} TerminatedIsRead(bs: seq<byte>, k: nat)
    requires k <= 10 && TerminatedWithin(bs, 10 - k)
    ensures ReadGroups(bs, k).Done?
    decreases 10 - k
  {
    if bs[0] >= 128 {
      TerminatedIsRead(bs[1..], k + 1);
    }
  }

  lemma {:induction false} HighWeight(k: nat)
    requires k >= 5
    ensures exists m: nat :: Weight(k) == m * TWO_32
  {
    Weights();
    if k == 5 {
      assert Weight(k) == 8 * TWO_32;
    } else {
      HighWeight(k - 1);
      var m: nat :| Weight(k - 1) == m * TWO_32;
      assert Weight(k) == (128 * m) * TWO_32;
    }
  }

  /** Groups above bit 32 do not show in the low 32 bits. */
  lemma HighGroupsVanish(low: nat, k: nat, v: nat)
    requires k >= 5
    ensures (low + v * Weight(k)) % TWO_32 == low % TWO_32
  {
    HighWeight(k);
    var m: nat :| Weight(k) == m * TWO_32;
    assert v * Weight(k) == (v * m) * TWO_32;
    ModDrop(low, v * m);
  }

  lemma ModDrop(a: nat, m: nat)
    ensures (a + m * TWO_32) % TWO_32 == a % TWO_32
  {
  }

  /** Above bit 32 the loop only checks: the result stays. */
  lemma {:induction false} HighLoopsAgree(bs: seq<byte>, result: nat, k: nat)
    requires 5 <= k <= 9 && TerminatedWithin(bs, 10 - k) && result < TWO_32
    requires ReadGroups32(bs, result, 7 * k).Done?
    ensures ReadGroups(bs, k).Done? && ReadGroups(bs, k).rest == ReadGroups32(bs, result, 7 * k).rest
    ensures ReadGroups32(bs, result, 7 * k).value == result
    decreases 10 - k
  {
    hide OrShifted, ReadGroups32;
    GroupStep32(bs, result, k);
    if bs[0] >= 128 {
      HighLoopsAgree(bs[1..], result, k + 1);
    }
  }

  /** The low 32 bits of a value with the given groups above the k-th. */
  function Low(result: nat, groups: nat, k: nat): nat
  {
    (result + groups * Weight(k)) % TWO_32
  }

  lemma {:induction false} LoopsAgree(bs: seq<byte>, result: nat, k: nat)
    requires 1 <= k <= 5 && TerminatedWithin(bs, 10 - k)
    requires result < TWO_32 && (k <= 4 ==> result < Weight(k))
    requires ReadGroups32(bs, result, 7 * k).Done?
    ensures ReadGroups(bs, k).Done? && ReadGroups(bs, k).rest == ReadGroups32(bs, result, 7 * k).rest
    ensures ReadGroups32(bs, result, 7 * k).value == Low(result, ReadGroups(bs, k).value, k)
    decreases 10 - k
  {
    hide OrShifted, ReadGroups32, Weight, Low;
    if k == 5 {
      HighLoopsAgree(bs, result, k);
      LowHigh(result, ReadGroups(bs, k).value, k);
    } else {
      GroupStep32(bs, result, k);
      var group := bs[0] % 128;
      TerminatedIsRead(bs, k);
      if bs[0] >= 128 {
        LowStep(result, group, ReadGroups(bs[1..], k + 1).value, k);
        LoopsAgree(bs[1..], OrShifted(result, group, 7 * k), k + 1);
      } else {
        LowStep(result, group, 0, k);
      }
    }
  }

  lemma LowHigh(result: nat, groups: nat, k: nat)
    requires k >= 5 && result < TWO_32
    ensures Low(result, groups, k) == result
  {
    HighGroupsVanish(result, k, groups);
  }

  /** One group taken into the result. */
  lemma LowStep(result: nat, group: nat, more: nat, k: nat)
    requires 1 <= k <= 4 && result < Weight(k) && result < TWO_32 && group < 128
    ensures Low(result, group + 128 * more, k) == Low(OrShifted(result, group, 7 * k), more, k + 1)
    ensures more == 0 ==> Low(result, group + 128 * more, k) == OrShifted(result, group, 7 * k)
    ensures k < 4 ==> OrShifted(result, group, 7 * k) < Weight(k + 1)
  {
    hide OrShifted, Weight;
    OrShiftedAdds(result, group, k);
    LowGroup(result, group, more, k);
    if k < 4 {
      FitsBelow(result, group, k);
    }
  }

  lemma FitsBelow(result: nat, group: nat, k: nat)
    requires 1 <= k <= 3 && result < Weight(k) && group < 128
    ensures result + group * Weight(k) < Weight(k + 1)
  {
    FitsBelowAny(result, group, k);
  }

  /** What a group that starts below bit 32 adds to the value modulo 2^32. */
  lemma LowGroup(result: nat, group: nat, more: nat, k: nat)
    requires 1 <= k <= 4 && group < 128
    ensures (result + (group + 128 * more) * Weight(k)) % TWO_32
         == (result + (if k < 4 then group else group % 16) * Weight(k) + more * Weight(k + 1)) % TWO_32
  {
    var w := Weight(k);
    assert (group + 128 * more) * w == group * w + more * (128 * w);
    if k == 4 {
      Weights();
      assert group * w == (group % 16) * w + (group / 16) * TWO_32;
      ModDrop(result + (group % 16) * w + more * (128 * w), group / 16);
    }
  }

  lemma ModTwice(v: nat)
    ensures (v % TWO_64) % TWO_32 == v % TWO_32
  {
    var q := v / TWO_64;
    assert v == v % TWO_64 + (q * TWO_32) * TWO_32;
    ModDrop(v % TWO_64, q * TWO_32);
  }

  /** Whatever the 32-bit decoder accepts, the 64-bit one accepts too, from the same bytes, modulo 2^32. */
  lemma DecodersAgree(bs: seq<byte>)
    requires TerminatedWithin(bs, 10) && ReadVarint32(bs).Done?
    ensures ReadVarint(bs).Done? && ReadVarint(bs).rest == ReadVarint32(bs).rest
    ensures ReadVarint32(bs).value == ReadVarint(bs).value % TWO_32
  {
    if bs[0] >= 128 {
      assert Weight(1) == 128;
      LoopsAgree(bs[1..], bs[0] - 128, 1);
      var v := ReadGroups(bs[1..], 1).value;
      assert ReadGroups(bs, 0).value == bs[0] - 128 + 128 * v;
      assert Low(bs[0] - 128, v, 1) == (bs[0] - 128 + v * 128) % TWO_32;
      ModTwice(bs[0] - 128 + v * 128);
    }
  }

  /** The groups of w from the j-th to the (n-1)-th are all zeros or all ones. */
  predicate PlainGroups(w: nat, n: nat)
  {
    forall j: nat | j < n :: Group(w, j) == 0 || Group(w, j) == 127
  }

  /** The j-th group of seven bits. */
  function Group(w: nat, j: nat): nat
  {
    if j == 0 then w % 128 else Group(w / 128, j - 1)
  }

  lemma PlainGroupsStep(w: nat, n: nat)
    ensures PlainGroups(w, n + 1) <==> (w % 128 == 0 || w % 128 == 127) && PlainGroups(w / 128, n)
  {
    assert Group(w, 0) == w % 128;
    if PlainGroups(w, n + 1) {
      forall j: nat | j < n ensures Group(w / 128, j) == 0 || Group(w / 128, j) == 127 {
        assert Group(w, j + 1) == Group(w / 128, j);
      }
    } else if (w % 128 == 0 || w % 128 == 127) && PlainGroups(w / 128, n) {
      forall j: nat | j < n + 1 ensures Group(w, j) == 0 || Group(w, j) == 127 {
        assert j > 0 ==> Group(w, j) == Group(w / 128, j - 1);
      }
    }
  }

  /** Above bit 32, the remaining value w is accepted exactly when it looks like a sign. */
  predicate LooksLikeSign(w: nat, result: nat, k: nat)
    requires k <= 9
  {
    result >= TWO_31 && w >= Weight(9 - k) && PlainGroups(w, 9 - k)
  }

  lemma {:induction false} HighGroupsRead(w: nat, result: nat, k: nat, tail: seq<byte>)
    requires 5 <= k <= 9 && w >= 1 && w * Weight(k) < TWO_64 && result < TWO_32
    ensures ReadGroups32(Varint(w) + tail, result, 7 * k)
         == if LooksLikeSign(w, result, k) then Done(result, tail) else Fail
    decreases 9 - k
  {
    Weights();
    var bs := Varint(w) + tail;
    ShiftOneGroup(w, k);
    HighGroupStep(bs, result, k);
    hide ReadGroups32, PlainGroups;
    if w < 128 {
      assert bs[0] == w && bs[1..] == tail;
      if k == 9 {
        NoGroups(w);
      } else {
        WeightMonotone(1, 9 - k);
      }
    } else {
      assert bs[0] == w % 128 + 128 && bs[1..] == Varint(w / 128) + tail;
      if k == 9 {
        assert false;
      }
      PlainGroupsStep(w, 8 - k);
      HighGroupsRead(w / 128, result, k + 1, tail);
    }
  }

  lemma NoGroups(w: nat)
    ensures PlainGroups(w, 0)
  {
  }

  /** One turn of the 32-bit loop above bit 32. */
  lemma HighGroupStep(bs: seq<byte>, result: nat, k: nat)
    requires bs != [] && 5 <= k <= 9 && result < TWO_32
    ensures var sign := if k < 9 then 0xFF else 0x01;
      ReadGroups32(bs, result, 7 * k)
      == if bs[0] % 128 != 0 && (result < TWO_31 || bs[0] != sign) then Fail
         else if bs[0] >= 128 then ReadGroups32(bs[1..], result, 7 * (k + 1))
         else Done(result, bs[1..])
  {
    assert 7 * k + 7 == 7 * (k + 1) && (7 * k + 7) % 256 == 7 * k + 7;
  }

  /** Below bit 32 the loop collects the low bits, and leaves the groups from bit 35 on. */
  lemma {:induction false} LowGroupsRead(w: nat, result: nat, k: nat, tail: seq<byte>)
    requires 1 <= k <= 4 && w >= 1 && result < Weight(k)
    requires result < TWO_32 && result + w * Weight(k) >= Weight(5)
    ensures (result + w * Weight(k)) / Weight(5) >= 1
    ensures ReadGroups32(Varint(w) + tail, result, 7 * k)
         == ReadGroups32(Varint((result + w * Weight(k)) / Weight(5)) + tail, (result + w * Weight(k)) % TWO_32, 35)
    decreases 4 - k
  {
    hide OrShifted, ReadGroups32;
    var bs := Varint(w) + tail;
    ShiftOneGroup(w, k);
    GroupStep32(bs, result, k);
    OrShiftedAdds(result, w % 128, k);
    hide Weight;
    if w < 128 {
      WeightMonotone(k + 1, 5);
      FitsBelowAny(result, w, k);
      assert false;
    } else {
      assert bs[1..] == Varint(w / 128) + tail;
      if k < 4 {
        FitsBelow(result, w % 128, k);
        LowGroupsRead(w / 128, OrShifted(result, w % 128, 7 * k), k + 1, tail);
      } else {
        SplitAt35(result, w);
      }
    }
  }

  lemma FitsBelowAny(result: nat, group: nat, k: nat)
    requires result < Weight(k) && group < 128
    ensures result + group * Weight(k) < Weight(k + 1)
  {
    assert Weight(k + 1) == 128 * Weight(k);
    hide Weight;
    TimesMonotone(group, 127, Weight(k));
  }

  lemma SplitAt35(result: nat, w: nat)
    requires result < Weight(4)
    ensures (result + w * Weight(4)) / Weight(5) == w / 128
    ensures (result + w * Weight(4)) % TWO_32 == result + ((w % 128) % 16) * Weight(4)
  {
    Weights();
    var low := result + (w % 128) * Weight(4);
    LowGroup(result, w % 128, w / 128, 4);
    ModDrop(result + ((w % 128) % 16) * Weight(4), 8 * (w / 128));
    FitsBelowAny(result, w % 128, 4);
    ShiftOneGroup(w, 4);
    hide Weight;
    Quotient(low, w / 128, Weight(5));
    SmallMod32(result, (w % 128) % 16);
  }

  lemma SmallMod32(result: nat, group: nat)
    requires result < 0x1000_0000 && group < 16
    ensures (result + group * 0x1000_0000) % TWO_32 == result + group * 0x1000_0000
  {
  }

  lemma Quotient(low: nat, q: nat, d: nat)
    requires low < d
    ensures (low + q * d) / d == q
  {
    var n := low + q * d;
    var r := n / d;
    DivisionBounds(n, d);
    if r < q {
      TimesMonotone(r + 1, q, d);
    } else if r > q {
      TimesMonotone(q + 1, r, d);
    }
  }

  lemma DivisionBounds(n: nat, d: nat)
    requires d > 0
    ensures (n / d) * d <= n < (n / d + 1) * d
  {
  }

  lemma TimesMonotone(a: nat, b: nat, d: nat)
    requires a <= b
    ensures a * d <= b * d
  {
    assert b * d == a * d + (b - a) * d;
  }

  /**
    * On the encoder's own output the 32-bit decoder accepts exactly the 32-bit values and those that look like the
    * sign extension of one: bits 31 and 63 set, and each group from bit 35 to bit 62 all zeros or all ones.
    */
  lemma {:induction false} Decoder32Accepts(v: nat, tail: seq<byte>)
    requires v < TWO_64
    ensures ReadVarint32(Varint(v) + tail)
         == if v < TWO_32 || LooksLikeSign(v / Weight(5), v % TWO_32, 5) then Done(v % TWO_32, tail) else Fail
    ensures v < TWO_63 ==> (ReadVarint32(Varint(v) + tail).Done? <==> v < TWO_32)
  {
    hide ReadVarint32, PlainGroups, Varint;
    HighPart(v);
    if v < TWO_32 {
      ReadVarint32OfVarint(v, tail);
    } else {
      FirstByteRead(v, tail);
      WideRead(v, tail);
    }
  }

  lemma FirstByteRead(v: nat, tail: seq<byte>)
    requires v >= 128
    ensures ReadVarint32(Varint(v) + tail) == ReadGroups32(Varint(v / 128) + tail, v % 128, 7)
  {
    hide ReadGroups32;
    assert (Varint(v) + tail)[1..] == Varint(v / 128) + tail;
  }

  lemma WideRead(v: nat, tail: seq<byte>)
    requires TWO_32 <= v < TWO_64
    ensures ReadGroups32(Varint(v / 128) + tail, v % 128, 7)
         == if LooksLikeSign(v / Weight(5), v % TWO_32, 5) then Done(v % TWO_32, tail) else Fail
  {
    HighPart(v);
    assert Weight(1) == 128;
    assert v % 128 + (v / 128) * Weight(1) == v;
    hide ReadGroups32, PlainGroups, Varint, Weight;
    if v < Weight(5) {
      JustAbove32(v / 128, v % 128, 1, tail);
    } else {
      LowGroupsRead(v / 128, v % 128, 1, tail);
      HighGroupsRead(v / Weight(5), v % TWO_32, 5, tail);
    }
  }

  /** The 32-bit decoder takes 2^63 + 2^31, which is no sign extension of a 32-bit value, for 2^31. */
  lemma OddValueAccepted(tail: seq<byte>)
    ensures var v := TWO_63 + TWO_31;
      ReadVarint32(Varint(v) + tail) == Done(TWO_31, tail) && !(-TWO_31 <= Signed64(v) < TWO_32)
  {
    var v := TWO_63 + TWO_31;
    Weights();
    hide ReadVarint32, Varint, Weight;
    Decoder32Accepts(v, tail);
    assert v / Weight(5) == 0x1000_0000 && v % TWO_32 == TWO_31;
    ZeroGroups();
  }

  lemma ZeroGroups()
    ensures PlainGroups(0x1000_0000, 4)
  {
    PlainGroupsStep(0x1000_0000, 3);
    PlainGroupsStep(0x20_0000, 2);
    PlainGroupsStep(0x4000, 1);
    PlainGroupsStep(128, 0);
    NoGroups(1);
  }

  /** What is left of a 64-bit value from bit 35 on. */
  lemma HighPart(v: nat)
    requires v < TWO_64
    ensures (v / Weight(5)) * Weight(5) < TWO_64
    ensures v < TWO_63 ==> v / Weight(5) < Weight(4)
    ensures v < Weight(5) ==> v / Weight(5) < Weight(4)
  {
    Weights();
    hide Weight;
  }

  /** Values of 33 to 35 bits end in a byte that is too large. */
  lemma {:induction false} JustAbove32(w: nat, result: nat, k: nat, tail: seq<byte>)
    requires 1 <= k <= 4 && w >= 1 && result < Weight(k)
    requires result < TWO_32 && TWO_32 <= result + w * Weight(k) < Weight(5)
    ensures ReadGroups32(Varint(w) + tail, result, 7 * k).Fail?
    decreases 4 - k
  {
    hide OrShifted, ReadGroups32;
    Weights();
    var bs := Varint(w) + tail;
    ShiftOneGroup(w, k);
    GroupStep32(bs, result, k);
    OrShiftedAdds(result, w % 128, k);
    if w < 128 {
      if k < 4 {
        FitsBelowAny(result, w, k);
        WeightMonotone(k + 1, 4);
        assert false;
      }
    } else {
      assert bs[1..] == Varint(w / 128) + tail;
      if k == 4 {
        assert false;
      }
      FitsBelow(result, w % 128, k);
      JustAbove32(w / 128, OrShifted(result, w % 128, 7 * k), k + 1, tail);
    }
  }

  // ---- two's complement and zig-zag ----

  /** (uint64_t)n */
  function Unsigned64(n: int): (u: nat)
    ensures u < TWO_64
  {
    n % TWO_64
  }

  /** (int64_t)u */
  function Signed64(u: nat): int
    requires u < TWO_64
  {
    if u < TWO_63 then u else u - TWO_64
  }

  /** (int32_t)u */
  function Signed32(u: nat): (n: int)
    ensures -TWO_31 <= n < TWO_31
  {
    var low := u % TWO_32;
    if low < TWO_31 then low else low - TWO_32
  }

  function Not64(u: nat): (r: nat)
    requires u < TWO_64
    ensures r < TWO_64
  {
    TWO_64 - 1 - u
  }

  function ZigZag(n: int): (u: nat)
    ensures u < TWO_64
  {
    if n < 0 then Not64((Unsigned64(n) * 2) % TWO_64) else (Unsigned64(n) * 2) % TWO_64
  }

  function UnZigZag(u: nat): (n: int)
    requires u < TWO_64
  {
    if u % 2 == 1 then Signed64(Not64(u / 2)) else Signed64(u / 2)
  }

  /** Zig-zag interleaves the signed values, and decoding undoes it in both directions. */
  lemma ZigZagInverse(n: int, u: nat)
    requires -TWO_63 <= n < TWO_63 && u < TWO_64
    ensures ZigZag(n) == if n < 0 then -2 * n - 1 else 2 * n
    ensures UnZigZag(ZigZag(n)) == n
    ensures -TWO_63 <= UnZigZag(u) < TWO_63 && ZigZag(UnZigZag(u)) == u
  {
    ZigZagValue(n);
    if u % 2 == 1 {
      ZigZagValue(-(u / 2) - 1);
    } else {
      ZigZagValue(u / 2);
    }
  }

  lemma ZigZagValue(n: int)
    requires -TWO_63 <= n < TWO_63
    ensures ZigZag(n) == if n < 0 then -2 * n - 1 else 2 * n
  {
    if n < 0 {
      assert Unsigned64(n) == n + TWO_64;
      assert ((n + TWO_64) * 2) % TWO_64 == 2 * n + TWO_64;
    } else {
      assert Unsigned64(n) == n;
    }
  }
}
