// The bounded output stream and the scalar writers of pb_encode.c, over a real buffer.
module OutputStreams {
  import opened Bits
  import opened Varints
  import opened Fields
  import opened Scalars
  import opened Encoding

  /** A stream and the memory it writes to, at one moment. A sizing stream has no memory. */
  datatype Snapshot = Snapshot(sizing: bool, memory: seq<byte>, state: nat, maxSize: nat, bytesWritten: nat)
  {
    predicate Sane()
    {
      !sizing ==> bytesWritten <= maxSize && state + (maxSize - bytesWritten) <= |memory|
    }

    /** First byte of memory the stream must never touch. */
    function End(): nat
      requires Sane() && !sizing
    {
      state + (maxSize - bytesWritten)
    }

    predicate HasRoom(n: nat)
    {
      sizing || bytesWritten + n <= maxSize
    }
  }

  /**
    * From a to b the stream was asked to write data. It succeeds exactly when there are data and they
    * fit; then precisely those bytes were appended. Whatever happens, nothing before the old cursor
    * and nothing from the stream's end on has changed.
    */
  predicate Emitted(a: Snapshot, b: Snapshot, ok: bool, data: Option<seq<byte>>)
  {
    && a.Sane() && b.Sane() && b.sizing == a.sizing && b.maxSize == a.maxSize && |b.memory| == |a.memory|
    && (ok <==> data.Some? && a.HasRoom(|data.value|))
    && (ok ==> b.bytesWritten == a.bytesWritten + |data.value|)
    && (!a.sizing ==>
      && a.state <= b.state && b.End() == a.End()
      && b.memory[..a.state] == a.memory[..a.state]
      && b.memory[a.End()..] == a.memory[a.End()..]
      && (ok ==> b.state == a.state + |data.value| && b.memory[a.state..b.state] == data.value))
  }

  /** One write after another. */
  lemma Then(a: Snapshot, b: Snapshot, c: Snapshot, first: seq<byte>, ok: bool, second: Option<seq<byte>>)
    requires Emitted(a, b, true, Some(first)) && Emitted(b, c, ok, second)
    ensures Emitted(a, c, ok, Join(Some(first), second))
  {
    if !a.sizing {
      assert c.memory[..a.state] == c.memory[..b.state][..a.state];
      assert b.memory[..a.state] == b.memory[..b.state][..a.state];
      if ok {
        assert c.memory[a.state..c.state] == c.memory[..b.state][a.state..] + c.memory[b.state..c.state];
        assert b.memory[a.state..b.state] == b.memory[..b.state][a.state..];
      }
    }
  }

  /** A failed write fails whatever would have come after it. */
  lemma Stopped(a: Snapshot, b: Snapshot, first: Option<seq<byte>>, second: Option<seq<byte>>)
    requires Emitted(a, b, false, first)
    ensures Emitted(a, b, false, Join(first, second))
  {
  }

  lemma Nothing(a: Snapshot)
    requires a.Sane()
    ensures Emitted(a, a, true, Some([]))
  {
  }

  /**
    * A sizing pass and a pass into a buffer that is large enough agree on success and on the number
    * of bytes, so a block measured first never changes its size when it is written.
    */
  lemma SizingAgrees(a: Snapshot, b: Snapshot, c: Snapshot, d: Snapshot,
                     sized: bool, written: bool, data: Option<seq<byte>>)
    requires Emitted(a, b, sized, data) && Emitted(c, d, written, data)
    requires a.sizing && !c.sizing
    ensures written ==> sized
    ensures sized ==> (written <==> b.bytesWritten - a.bytesWritten <= c.maxSize - c.bytesWritten)
    ensures written ==> d.bytesWritten - c.bytesWritten == b.bytesWritten - a.bytesWritten
  {
  }

  class OStream {
    const buf: array?<byte>
    var state: nat
    const maxSize: nat
    var bytesWritten: nat

    ghost function Footprint(): set<object>
    {
      if buf == null then {} else {buf}
    }

    ghost function Snap(): (s: Snapshot)
      reads this, Footprint()
    {
      Snapshot(buf == null, if buf == null then [] else buf[..], state, maxSize, bytesWritten)
    }

    ghost predicate Valid()
      reads this, Footprint()
    {
      Snap().Sane()
    }

    /** pb_ostream_from_buffer, for the part of the buffer that starts at the given cursor. */
    constructor FromBuffer(buffer: array<byte>, cursor: nat, bufsize: nat)
      requires cursor + bufsize <= buffer.Length
      ensures Valid() && buf == buffer && state == cursor && maxSize == bufsize && bytesWritten == 0
    {
      buf, state, maxSize, bytesWritten := buffer, cursor, bufsize, 0;
    }

    /** PB_OSTREAM_SIZING */
    constructor Sizing()
      ensures Valid() && buf == null && bytesWritten == 0
    {
      buf, state, maxSize, bytesWritten := null, 0, 0, 0;
    }

    method BufWrite(data: seq<byte>)
      requires Valid() && buf != null && bytesWritten + |data| <= maxSize
      modifies this, Footprint()
      ensures state == old(state) + |data| && bytesWritten == old(bytesWritten)
      ensures forall k | 0 <= k < buf.Length ::
        buf[k] == if old(state) <= k < state then data[k - old(state)] else old(buf[k])
    {
      var dest := state;
      state := dest + |data|;
      for i := 0 to |data|
        modifies buf
        invariant forall k | 0 <= k < buf.Length ::
          buf[k] == if dest <= k < dest + i then data[k - dest] else old(buf[k])
      {
        buf[dest + i] := data[i];
      }
    }

    /** pb_write */
    method Write(data: seq<byte>) returns (ok: bool)
      requires Valid()
      modifies this, Footprint()
      ensures Emitted(old(Snap()), Snap(), ok, Some(data))
    {
      if buf != null {
        if bytesWritten + |data| > maxSize {
          return false;
        }
        BufWrite(data);
      }
      bytesWritten := bytesWritten + |data|;
      ok := true;
    }

    /** pb_write of count bytes without a source, on a sizing stream. */
    method WriteSize(count: nat, ghost data: seq<byte>) returns (ok: bool)
      requires Valid() && buf == null && count == |data|
      modifies this
      ensures Emitted(old(Snap()), Snap(), ok, Some(data))
    {
      bytesWritten := bytesWritten + count;
      ok := true;
    }

    /** pb_encode_varint: groups of seven bits are collected in a ten-byte buffer first. */
    method EncodeVarint(value: nat) returns (ok: bool)
      requires Valid() && value < TWO_64
      modifies this, Footprint()
      ensures Emitted(old(Snap()), Snap(), ok, Some(Varints.Varint(value)))
    {
      if value <= 0x7F {
        ok := Write([value]);
        return;
      }
      var buffer := new byte[10];
      var i := CollectGroups(value, buffer);
      ok := Write(buffer[..i]);
    }

    /** pb_encode_svarint */
    method EncodeSvarint(value: int) returns (ok: bool)
      requires Valid() && -TWO_63 <= value < TWO_63
      modifies this, Footprint()
      ensures Emitted(old(Snap()), Snap(), ok, Some(Varints.Varint(ZigZag(value))))
    {
      var shifted := (Unsigned64(value) * 2) % TWO_64;
      var zigzagged := if value < 0 then Not64(shifted) else shifted;
      ok := EncodeVarint(zigzagged);
    }

    /** pb_encode_fixed32 */
    method EncodeFixed32(val: nat) returns (ok: bool)
      requires Valid() && val < TWO_32
      modifies this, Footprint()
      ensures Emitted(old(Snap()), Snap(), ok, Some(LittleEndian(val, 4)))
    {
      var bytes: seq<byte> := [val % 256, (val / 0x100) % 256, (val / 0x1_0000) % 256, (val / 0x100_0000) % 256];
      FourBytes(val);
      ok := Write(bytes);
    }

    /** pb_encode_fixed64 */
    method EncodeFixed64(val: nat) returns (ok: bool)
      requires Valid() && val < TWO_64
      modifies this, Footprint()
      ensures Emitted(old(Snap()), Snap(), ok, Some(LittleEndian(val, 8)))
    {
      var high := val / TWO_32;
      var bytes: seq<byte> :=
        [val % 256, (val / 0x100) % 256, (val / 0x1_0000) % 256, (val / 0x100_0000) % 256]
        + [high % 256, (high / 0x100) % 256, (high / 0x1_0000) % 256, (high / 0x100_0000) % 256];
      FourBytes(val);
      FourBytes(high);
      EightBytes(val);
      ok := Write(bytes);
    }

    /** pb_encode_tag */
    method EncodeTag(wireType: nat, fieldNumber: nat) returns (ok: bool)
      requires Valid() && wireType < 8 && fieldNumber < 0x2000_0000
      modifies this, Footprint()
      ensures Emitted(old(Snap()), Snap(), ok, Some(TagBytes(fieldNumber, wireType)))
    {
      BitOrDisjoint(wireType, fieldNumber, 3);
      ok := EncodeVarint(BitOr(wireType, fieldNumber * 8));
    }

    /** pb_encode_string */
    method EncodeString(data: seq<byte>) returns (ok: bool)
      requires Valid() && |data| < TWO_64
      modifies this, Footprint()
      ensures Emitted(old(Snap()), Snap(), ok, Some(Block(data)))
    {
      hide Emitted;
      ghost var a := Snap();
      ok := EncodeVarint(|data|);
      if !ok {
        Stopped(a, Snap(), Some(Varints.Varint(|data|)), Some(data));
        return;
      }
      ghost var b := Snap();
      assert Valid() by { SaneAfter(a, b, true, Some(Varints.Varint(|data|))); }
      ok := Write(data);
      Then(a, b, Snap(), Varints.Varint(|data|), ok, Some(data));
    }
  }

  /** The loop of pb_encode_varint; the last group's continuation bit is cleared behind it. */
  method CollectGroups(value: nat, buffer: array<byte>) returns (i: nat)
    requires 0 < value < TWO_64 && buffer.Length == 10
    modifies buffer
    ensures i <= 10 && buffer[..i] == Varints.Varint(value)
  {
    hide Varints.Varint;
    VarintAtMostTen(value);
    i := 0;
    var v := value;
    while v != 0
      invariant 0 <= i <= 10
      invariant v != 0 ==> Varints.Varint(value) == buffer[..i] + Varints.Varint(v)
      invariant v == 0 ==> i > 0 && Varints.Varint(value) == WithoutTopBit(buffer[..i])
      decreases v
    {
      GroupAppended(buffer[..i], v);
      assert i < 10;
      ghost var was := buffer[..i];
      buffer[i] := v % 128 + 128;
      assert buffer[..i + 1] == was + [v % 128 + 128];
      v := v / 128;
      i := i + 1;
    }
    ghost var was := buffer[..i];
    buffer[i - 1] := buffer[i - 1] % 128;
    assert buffer[..i] == WithoutTopBit(was);
  }

  lemma SaneAfter(a: Snapshot, b: Snapshot, ok: bool, data: Option<seq<byte>>)
    requires Emitted(a, b, ok, data)
    ensures a.Sane() && b.Sane()
  {
  }

  /** buffer[i-1] &= 0x7F */
  function WithoutTopBit(groups: seq<byte>): seq<byte>
    requires groups != []
  {
    groups[..|groups| - 1] + [groups[|groups| - 1] % 128]
  }

  /** One more group with its continuation bit set, and what is then left of the value. */
  lemma GroupAppended(groups: seq<byte>, v: nat)
    requires v != 0
    ensures |Varints.Varint(v)| >= 1
    ensures v >= 128 ==>
      groups + Varints.Varint(v) == groups + [v % 128 + 128] + Varints.Varint(v / 128)
    ensures v < 128 ==> groups + Varints.Varint(v) == WithoutTopBit(groups + [v % 128 + 128])
  {
  }

  /** The four low bytes, taken out one by one, and the rest. */
  lemma FourBytes(val: nat)
    ensures LittleEndian(val, 4)
         == [val % 256, (val / 0x100) % 256, (val / 0x1_0000) % 256, (val / 0x100_0000) % 256]
  {
    FourBytesThen(val, 0);
  }

  lemma FourBytesThen(val: nat, n: nat)
    ensures LittleEndian(val, 4 + n)
         == [val % 256, (val / 0x100) % 256, (val / 0x1_0000) % 256, (val / 0x100_0000) % 256]
            + LittleEndian(val / TWO_32, n)
  {
    var a, b, c := val / 0x100, val / 0x1_0000, val / 0x100_0000;
    assert a / 256 == b && b / 256 == c && c / 256 == val / TWO_32;
    assert LittleEndian(c, 1 + n) == [c % 256] + LittleEndian(val / TWO_32, n);
    assert LittleEndian(b, 2 + n) == [b % 256] + LittleEndian(c, 1 + n);
    assert LittleEndian(a, 3 + n) == [a % 256] + LittleEndian(b, 2 + n);
    assert LittleEndian(val, 4 + n) == [val % 256] + LittleEndian(a, 3 + n);
  }

  lemma EightBytes(val: nat)
    ensures LittleEndian(val, 8) == LittleEndian(val, 4) + LittleEndian(val / TWO_32, 4)
  {
    FourBytesThen(val, 4);
    FourBytes(val);
  }
}
