// The input stream and the scalar readers of pb_decode.c, over a real buffer.
module InputStreams {
  import opened Bits
  import opened Varints
  import opened Fields
  import opened Scalars
  import opened Decoding

  class IStream {
    const buf: array<byte>
    var state: nat
    var bytesLeft: nat

    ghost predicate Valid()
      reads this
    {
      state + bytesLeft <= buf.Length
    }

    /** The unread bytes. */
    ghost function Rest(): (r: seq<byte>)
      requires Valid()
      reads this, buf
      ensures |r| == bytesLeft
    {
      buf[state..state + bytesLeft]
    }

    /** Where the stream ends in the buffer. */
    ghost function End(): nat
      reads this
    {
      state + bytesLeft
    }

    /** pb_istream_from_buffer, for a part of the buffer. */
    constructor FromBuffer(buffer: array<byte>, cursor: nat, bufsize: nat)
      requires cursor + bufsize <= buffer.Length
      ensures Valid() && buf == buffer && state == cursor && bytesLeft == bufsize
    {
      buf, state, bytesLeft := buffer, cursor, bufsize;
    }

    /** pb_read into a buffer of the caller. */
    method Read(count: nat) returns (ok: bool, data: seq<byte>)
      requires Valid()
      modifies this
      ensures Valid() && End() == old(End())
      ensures ok <==> ReadBytes(old(Rest()), count).Done?
      ensures ok ==> data == ReadBytes(old(Rest()), count).value && Rest() == ReadBytes(old(Rest()), count).rest
      ensures !ok ==> state == old(state)
    {
      data := [];
      if bytesLeft < count {
        return false, data;
      }
      var source := state;
      state := state + count;
      for i := 0 to count
        invariant data == buf[source..source + i]
      {
        data := data + [buf[source + i]];
      }
      bytesLeft := bytesLeft - count;
      ok := true;
    }

    /** pb_read with a NULL buffer. */
    method SkipInput(count: nat) returns (ok: bool)
      requires Valid()
      modifies this
      ensures Valid() && End() == old(End())
      ensures ok <==> SkipBytes(old(Rest()), count).Done?
      ensures ok ==> Rest() == SkipBytes(old(Rest()), count).rest
      ensures ok ==> state == old(state) + count
    {
      if bytesLeft < count {
        return false;
      }
      state := state + count;
      bytesLeft := bytesLeft - count;
      ok := true;
    }

    /** pb_readbyte */
    method ReadByte() returns (ok: bool, b: byte)
      requires Valid()
      modifies this
      ensures Valid() && End() == old(End())
      ensures ok <==> old(bytesLeft) > 0
      ensures ok ==> b == old(Rest())[0] && Rest() == old(Rest())[1..] && bytesLeft == old(bytesLeft) - 1
      ensures !ok ==> state == old(state)
    {
      if bytesLeft == 0 {
        return false, 0;
      }
      b := buf[state];
      state := state + 1;
      bytesLeft := bytesLeft - 1;
      ok := true;
    }

    /** pb_decode_varint */
    method DecodeVarint() returns (ok: bool, dest: nat)
      requires Valid()
      modifies this
      ensures Valid() && End() == old(End())
      ensures ok <==> ReadVarint(old(Rest())).Done?
      ensures ok ==> dest == ReadVarint(old(Rest())).value && Rest() == ReadVarint(old(Rest())).rest
    {
      hide OrShifted64, Weight;
      ghost var bs := Rest();
      var bitpos: nat := 0;
      var result: nat := 0;
      var more := true;
      ghost var k: nat := 0;
      ghost var sum: nat := 0;
      assert Weight(0) == 1 by { FirstWeight(); }
      while more
        invariant Valid() && End() == old(End())
        invariant k <= 10 && bitpos == 7 * k
        invariant result == sum % TWO_64 && sum < Weight(k)
        invariant more ==> ReadGroups(bs, 0) == AddGroups(sum, k, ReadGroups(Rest(), k))
        invariant !more ==> ReadGroups(bs, 0) == Done(sum, Rest())
        decreases bytesLeft, more
      {
        if bitpos >= 64 {
          return false, 0;
        }
        ghost var before := Rest();
        var got, b := ReadByte();
        if !got {
          return false, 0;
        }
        NextGroup(sum, k, before, result);
        result := OrShifted64(result, b % 128, bitpos);
        sum := sum + (b % 128) * Weight(k);
        k := k + 1;
        bitpos := bitpos + 7;
        more := b >= 128;
      }
      return true, result;
    }

    /** pb_decode_varint32_eof; eof says that nothing was left. */
    method DecodeVarint32Eof() returns (ok: bool, dest: nat, eof: bool)
      requires Valid()
      modifies this
      ensures Valid() && End() == old(End())
      ensures ok <==> ReadVarint32(old(Rest())).Done?
      ensures ok ==> dest == ReadVarint32(old(Rest())).value && Rest() == ReadVarint32(old(Rest())).rest
      ensures eof <==> old(bytesLeft) == 0
      ensures dest < TWO_32
    {
      hide OrShifted;
      eof := false;
      var got, b := ReadByte();
      if !got {
        if bytesLeft == 0 {
          eof := true;
        }
        return false, 0, eof;
      }
      var result: nat := b % 128;
      if b >= 128 {
        var bitpos: nat := 7;
        var more := true;
        ghost var bs := Rest();
        while more
          invariant Valid() && End() == old(End()) && result < TWO_32
          invariant more ==> ReadGroups32(bs, FirstGroup(old(Rest())), 7) == ReadGroups32(Rest(), result, bitpos)
          invariant !more ==> b < 128
          invariant !more ==>
            ReadGroups32(bs, FirstGroup(old(Rest())), 7)
            == if bitpos == 35 && b >= 16 then Fail else Done(result, Rest())
          decreases bytesLeft, more
        {
          got, b := ReadByte();
          if !got {
            return false, 0, eof;
          }
          if bitpos >= 32 {
            var signExtension := if bitpos < 63 then 0xFF else 0x01;
            if b % 128 != 0 && (result < TWO_31 || b != signExtension) {
              return false, 0, eof;
            }
          } else {
            result := OrShifted(result, b % 128, bitpos);
          }
          bitpos := (bitpos + 7) % 256;
          more := b >= 128;
        }
        if bitpos == 35 && (b / 16) % 8 != 0 {
          return false, 0, eof;
        }
      }
      return true, result, eof;
    }

    /** pb_decode_varint32 */
    method DecodeVarint32() returns (ok: bool, dest: nat)
      requires Valid()
      modifies this
      ensures Valid() && End() == old(End())
      ensures ok <==> ReadVarint32(old(Rest())).Done?
      ensures ok ==> dest == ReadVarint32(old(Rest())).value && Rest() == ReadVarint32(old(Rest())).rest
      ensures dest < TWO_32
    {
      var eof;
      ok, dest, eof := DecodeVarint32Eof();
    }

    /** pb_decode_svarint */
    method DecodeSvarint() returns (ok: bool, dest: int)
      requires Valid()
      modifies this
      ensures Valid() && End() == old(End())
      ensures ok <==> ReadVarint(old(Rest())).Done?
      ensures ok ==> dest == UnZigZag(ReadVarint(old(Rest())).value) && Rest() == ReadVarint(old(Rest())).rest
    {
      dest := 0;
      var value;
      ok, value := DecodeVarint();
      if !ok {
        return;
      }
      dest := if value % 2 == 1 then Signed64(Not64(value / 2)) else Signed64(value / 2);
    }

    /** pb_decode_fixed32 */
    method DecodeFixed32() returns (ok: bool, dest: nat)
      requires Valid()
      modifies this
      ensures Valid() && End() == old(End())
      ensures ok <==> ReadFixed(old(Rest()), 4).Done?
      ensures ok ==> dest == ReadFixed(old(Rest()), 4).value && Rest() == ReadFixed(old(Rest()), 4).rest
    {
      dest := 0;
      var bytes;
      ok, bytes := Read(4);
      if !ok {
        return;
      }
      FourOr(bytes);
      dest := OrFour(bytes);
    }

    /** pb_decode_fixed64 */
    method DecodeFixed64() returns (ok: bool, dest: nat)
      requires Valid()
      modifies this
      ensures Valid() && End() == old(End())
      ensures ok <==> ReadFixed(old(Rest()), 8).Done?
      ensures ok ==> dest == ReadFixed(old(Rest()), 8).value && Rest() == ReadFixed(old(Rest()), 8).rest
    {
      dest := 0;
      var bytes;
      ok, bytes := Read(8);
      if !ok {
        return;
      }
      EightOr(bytes);
      dest := BitOr(OrFour(bytes[..4]), OrFour(bytes[4..]) * TWO_32);
    }

    /** pb_skip_varint */
    method SkipVarintInput() returns (ok: bool)
      requires Valid()
      modifies this
      ensures Valid() && End() == old(End())
      ensures ok <==> SkipVarint(old(Rest())).Done?
      ensures ok ==> Rest() == SkipVarint(old(Rest())).rest
    {
      var more := true;
      while more
        invariant Valid() && End() == old(End())
        invariant more ==> SkipVarint(old(Rest())) == SkipVarint(Rest())
        invariant !more ==> SkipVarint(old(Rest())) == Done((), Rest())
        decreases bytesLeft, more
      {
        var got, bytes := Read(1);
        if !got {
          return false;
        }
        more := bytes[0] >= 128;
      }
      return true;
    }

    /** pb_skip_string */
    method SkipString() returns (ok: bool)
      requires Valid()
      modifies this
      ensures Valid() && End() == old(End())
      ensures ok <==> Skip(old(Rest()), WT_STRING).Done?
      ensures ok ==> Rest() == Skip(old(Rest()), WT_STRING).rest
    {
      hide ReadVarint32;
      var length;
      ok, length := DecodeVarint32();
      if !ok {
        return;
      }
      ok := SkipInput(length);
    }

    /** pb_skip_field */
    method SkipField(wireType: nat) returns (ok: bool)
      requires Valid()
      modifies this
      ensures Valid() && End() == old(End())
      ensures ok <==> Skip(old(Rest()), wireType).Done?
      ensures ok ==> Rest() == Skip(old(Rest()), wireType).rest
    {
      hide SkipVarint, ReadVarint32;
      if wireType == WT_VARINT {
        ok := SkipVarintInput();
      } else if wireType == WT_64BIT {
        ok := SkipInput(8);
      } else if wireType == WT_STRING {
        ok := SkipString();
      } else if wireType == WT_32BIT {
        ok := SkipInput(4);
      } else {
        ok := false;
      }
    }

    /** pb_decode_tag */
    method DecodeTag() returns (ok: bool, wireType: nat, tag: nat, eof: bool)
      requires Valid()
      modifies this
      ensures Valid() && End() == old(End())
      ensures ok <==> ReadTag(old(Rest())).Tag?
      ensures ok ==> ReadTag(old(Rest())) == Tag(tag, wireType, Rest())
      ensures !ok ==> (eof <==> old(bytesLeft) == 0 || ReadTag(old(Rest())).EndOfMessage?)
      ensures ReadTag(old(Rest())).EndOfMessage? ==> Rest() == ReadTag(old(Rest())).rest
    {
      hide ReadVarint32;
      wireType, tag := 0, 0;
      var temp;
      ok, temp, eof := DecodeVarint32Eof();
      if !ok {
        return;
      }
      if temp == 0 {
        eof := true;
        ok := false;
        return;
      }
      tag := temp / 8;
      wireType := temp % 8;
    }

    /**
      * pb_make_string_substream: the substream is exactly the length-prefixed block. The stream itself
      * keeps its cursor, and the bytes behind the block are what it has left.
      */
    method MakeStringSubstream() returns (ok: bool, substream: IStream?)
      requires Valid()
      modifies this
      ensures Valid()
      ensures ok <==> ReadBlock(old(Rest())).Done?
      ensures ok ==> substream != null && fresh(substream) && substream.Valid() && substream.buf == buf
      ensures ok ==> substream.Rest() == ReadBlock(old(Rest())).value
      ensures ok ==> substream.state == state && substream.End() + bytesLeft == old(End())
      ensures ok ==> buf[substream.End()..old(End())] == ReadBlock(old(Rest())).rest
      ensures !ok ==> End() == old(End())
    {
      hide ReadVarint32;
      substream := null;
      var size;
      ok, size := DecodeVarint32();
      if !ok {
        return;
      }
      if bytesLeft < size {
        ok := false;
        return;
      }
      ghost var inside := Rest();
      substream := new IStream.FromBuffer(buf, state, size);
      bytesLeft := bytesLeft - size;
      assert inside[..size] == substream.Rest();
      assert inside[size..] == buf[substream.End()..old(End())];
    }

    /** pb_close_string_substream: however much was read inside, the stream goes on behind the block. */
    method CloseStringSubstream(substream: IStream) returns (ok: bool)
      requires substream != this && substream.Valid() && substream.buf == buf
      requires substream.End() + bytesLeft <= buf.Length
      modifies this, substream
      ensures ok && Valid() && state == old(substream.End()) && bytesLeft == old(bytesLeft)
      ensures Rest() == buf[old(substream.End())..old(substream.End()) + bytesLeft]
    {
      ok := true;
      if substream.bytesLeft != 0 {
        ok := substream.SkipInput(substream.bytesLeft);
      }
      state := substream.state;
    }
  }

  /** The result of the remaining groups, added to the sum of the first k. */
  function AddGroups(sum: nat, k: nat, p: Parse<nat>): (r: Parse<nat>)
  {
    match p
    case Done(v, rest) => Done(sum + v * Weight(k), rest)
    case Fail => Fail
  }

  /** result |= (uint64_t)group << bitpos */
  function OrShifted64(result: nat, group: nat, bitpos: nat): (r: nat)
  {
    BitOr(result, (group * Pow2(bitpos)) % TWO_64)
  }

  function FirstGroup(bs: seq<byte>): (r: nat)
    requires bs != [] && bs[0] >= 128
    ensures r < 128
  {
    bs[0] - 128
  }

  lemma FirstWeight()
    ensures Weight(0) == 1
  {
  }

  /** One more group of seven bits: the "or" is an addition modulo 2^64. */
  lemma NextGroup(sum: nat, k: nat, bs: seq<byte>, result: nat)
    requires bs != [] && k < 10 && sum < Weight(k) && result == sum % TWO_64
    ensures sum + (bs[0] % 128) * Weight(k) < Weight(k + 1)
    ensures OrShifted64(result, bs[0] % 128, 7 * k) == (sum + (bs[0] % 128) * Weight(k)) % TWO_64
    ensures bs[0] >= 128 ==>
      AddGroups(sum, k, ReadGroups(bs, k))
      == AddGroups(sum + (bs[0] % 128) * Weight(k), k + 1, ReadGroups(bs[1..], k + 1))
    ensures bs[0] < 128 ==>
      AddGroups(sum, k, ReadGroups(bs, k)) == Done(sum + (bs[0] % 128) * Weight(k), bs[1..])
  {
    hide OrShifted64;
    var g := bs[0] % 128;
    var w := Weight(k);
    assert Weight(k + 1) == 128 * w;
    GroupBelow(g, w);
    OrIsSum(sum, k, g, result);
    if bs[0] >= 128 && ReadGroups(bs[1..], k + 1).Done? {
      GroupsAdd(g, ReadGroups(bs[1..], k + 1).value, w);
    }
  }

  lemma GroupBelow(g: nat, w: nat)
    requires g < 128
    ensures g * w + w <= 128 * w
  {
  }

  lemma GroupsAdd(g: nat, v: nat, w: nat)
    ensures (g + 128 * v) * w == g * w + v * (128 * w)
  {
  }

  lemma OrIsSum(sum: nat, k: nat, g: nat, result: nat)
    requires k < 10 && g < 128 && sum < Weight(k) && result == sum % TWO_64
    ensures OrShifted64(result, g, 7 * k) == (sum + g * Weight(k)) % TWO_64
  {
    hide *;
    WeightIsPow2(k);
    Weights();
    WeightMonotone(k, 9);
    SmallMod(sum);
    if k == 9 {
      LastGroup(sum, g);
    } else {
      WeightMonotone(k, 8);
      LowGroup(sum, k, g);
    }
  }

  lemma LowGroup(sum: nat, k: nat, g: nat)
    requires k < 9 && g < 128 && sum < Weight(k) <= Weight(8) && Weight(k) == Pow2(7 * k)
    ensures OrShifted64(sum, g, 7 * k) == (sum + g * Weight(k)) % TWO_64
  {
    var w := Weight(k);
    Weights();
    GroupBelow(g, w);
    assert 128 * Weight(8) == Weight(9);
    hide Weight, Pow2;
    BitOrDisjoint(sum, g, 7 * k);
    assert sum + g * w < TWO_64;
    SmallMod(g * w);
    SmallMod(sum + g * w);
  }

  lemma SmallMod(n: nat)
    requires n < TWO_64
    ensures n % TWO_64 == n
  {
  }

  /** Of the tenth group one bit is left. */
  lemma LastGroup(sum: nat, g: nat)
    requires g < 128 && sum < Weight(9)
    ensures OrShifted64(sum, g, 63) == (sum + g * Weight(9)) % TWO_64
  {
    WeightIsPow2(9);
    Weights();
    hide Weight, Pow2, BitOr;
    OneBitLeft(0, g);
    OneBitLeft(sum, g);
    BitOrDisjoint(sum, g % 2, 63);
  }

  lemma OneBitLeft(sum: nat, g: nat)
    requires sum < TWO_63
    ensures (sum + g * TWO_63) % TWO_64 == sum + (g % 2) * TWO_63
  {
    var h, bit := g / 2, g % 2;
    assert g * TWO_63 == h * TWO_64 + bit * TWO_63;
  }

  /** The four bytes of a little-endian word, put together. */
  function OrFour(bytes: seq<byte>): nat
    requires |bytes| == 4
  {
    var a: nat, b: nat, c: nat, d: nat := bytes[0], bytes[1], bytes[2], bytes[3];
    BitOr(BitOr(BitOr(a, b * 0x100), c * 0x1_0000), d * 0x100_0000)
  }

  lemma FourOr(bytes: seq<byte>)
    requires |bytes| == 4
    ensures OrFour(bytes) == FromLittleEndian(bytes) < TWO_32
  {
    assert Pow2(8) == 0x100;
    Pow2Sum(8, 8);
    Pow2Sum(16, 8);
    var a: nat, b: nat, c: nat, d: nat := bytes[0], bytes[1], bytes[2], bytes[3];
    BitOrDisjoint(a, b, 8);
    BitOrDisjoint(a + b * 0x100, c, 16);
    BitOrDisjoint(a + b * 0x100 + c * 0x1_0000, d, 24);
    FourSum(bytes, []);
    assert bytes + [] == bytes;
  }

  function FourBytesSum(a: nat, b: nat, c: nat, d: nat): nat
  {
    a + b * 0x100 + c * 0x1_0000 + d * 0x100_0000
  }

  lemma FourSum(bytes: seq<byte>, more: seq<byte>)
    requires |bytes| == 4
    ensures FromLittleEndian(bytes + more)
         == FourBytesSum(bytes[0], bytes[1], bytes[2], bytes[3]) + FromLittleEndian(more) * TWO_32
  {
    var all := bytes + more;
    assert all[1..][1..] == all[2..] && all[2..][1..] == all[3..] && all[3..][1..] == more;
    assert FromLittleEndian(all[3..]) == bytes[3] + 256 * FromLittleEndian(more);
    assert FromLittleEndian(all[2..]) == bytes[2] + 256 * FromLittleEndian(all[3..]);
    assert FromLittleEndian(all[1..]) == bytes[1] + 256 * FromLittleEndian(all[2..]);
  }

  lemma EightOr(bytes: seq<byte>)
    requires |bytes| == 8
    ensures BitOr(OrFour(bytes[..4]), OrFour(bytes[4..]) * TWO_32) == FromLittleEndian(bytes)
  {
    hide OrFour;
    Pow2Values();
    FourOr(bytes[..4]);
    FourOr(bytes[4..]);
    FourSum(bytes[..4], bytes[4..]);
    FourSum(bytes[..4], []);
    assert bytes[..4] + [] == bytes[..4];
    assert bytes[..4] + bytes[4..] == bytes;
    BitOrDisjoint(OrFour(bytes[..4]), OrFour(bytes[4..]), 32);
  }
}
