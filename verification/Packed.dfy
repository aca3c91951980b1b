// Packed blocks and single elements of a repeated scalar, in any mix.
module Packed {
  import opened Bits
  import opened Varints
  import opened Fields
  import opened Scalars
  import opened Encoding
  import opened Decoding
  import opened Merging
  import opened MergeProof

  /** One record of a repeated scalar: a packed block of any number of elements, or one element. */
  datatype Chunk = Block(items: seq<Value>) | Single(item: Value)
  {
    function Items(): seq<Value>
    {
      match this
      case Block(items) => items
      case Single(item) => [item]
    }
  }

  function Contents(chunks: seq<Chunk>): seq<Value>
  {
    if chunks == [] then [] else chunks[0].Items() + Contents(chunks[1..])
  }

  predicate Sendable(f: Field, items: seq<Value>)
  {
    forall k | 0 <= k < |items| :: ValueFits(f, items[k]) && EncodeValue(f, items[k]).Some?
  }

  predicate ChunkOk(f: Field, c: Chunk)
  {
    && Sendable(f, c.Items())
    && (c.Block? ==> PackedData(f, c.items).Some? && |PackedData(f, c.items).value| < TWO_32)
  }

  predicate ChunksOk(f: Field, chunks: seq<Chunk>)
  {
    forall k | 0 <= k < |chunks| :: ChunkOk(f, chunks[k])
  }

  function ChunkBytes(f: Field, c: Chunk): seq<byte>
    requires ChunkOk(f, c)
  {
    match c
    case Block(items) => TagBytes(f.tag, WT_STRING) + Encoding.Block(PackedData(f, items).value)
    case Single(item) =>
      assert item == c.Items()[0];
      FieldTag(f) + EncodeValue(f, item).value
  }

  function ChunksBytes(f: Field, chunks: seq<Chunk>): seq<byte>
    requires ChunksOk(f, chunks)
  {
    if chunks == [] then [] else ChunkBytes(f, chunks[0]) + ChunksBytes(f, chunks[1..])
  }

  lemma {:induction false} ContentsSendable(f: Field, chunks: seq<Chunk>)
    requires ChunksOk(f, chunks)
    ensures Sendable(f, Contents(chunks))
  {
    hide EncodeValue, ValueFits, PackedData;
    if chunks != [] {
      ContentsSendable(f, chunks[1..]);
      assert ChunkOk(f, chunks[0]);
    }
  }

  /** Scalars are stored in consecutive elements from the count on, and nothing else is written. */
  lemma {:induction false} ScalarsStored(f: Field, e: Elements, items: seq<Value>)
    requires FieldOk(f) && f.ltype.Packable() && ElementsFit(f, e) && Sendable(f, items)
    ensures MergeItems(f, e, items)
         == if items == [] then Some(e)
            else if e.count + |items| > f.arraySize then None
            else Some(Elements(e.items[..e.count] + items + e.items[e.count + |items|..], e.count + |items|))
    decreases |items|
  {
    hide EncodeValue, ValueFits;
    if items != [] && e.count < f.arraySize {
      assert MergeValue(f, e.items[e.count], items[0]) == Some(items[0]);
      var e1 := Elements(e.items[e.count := items[0]], e.count + 1);
      ScalarsStored(f, e1, items[1..]);
      if e.count + |items| <= f.arraySize {
        assert e1.items[..e1.count] == e.items[..e.count] + [items[0]];
        if items[1..] == [] {
          assert e.items[e.count := items[0]] == e.items[..e.count] + items + e.items[e.count + 1..];
        } else {
          assert e.items[..e.count] + [items[0]] + items[1..] == e.items[..e.count] + items;
          assert e1.items[e1.count + |items[1..]|..] == e.items[e.count + |items|..];
        }
      }
    }
  }

  /** Two runs of elements, one after the other, are one run. */
  lemma {:induction false} MergeItemsAppend(f: Field, e: Elements, xs: seq<Value>, ys: seq<Value>)
    requires FieldOk(f) && ElementsFit(f, e) && Sendable(f, xs) && Sendable(f, ys)
    ensures Sendable(f, xs + ys)
    ensures MergeItems(f, e, xs + ys)
         == match MergeItems(f, e, xs)
            case Some(e') => MergeItems(f, e', ys)
            case None => None
    decreases |xs|
  {
    hide EncodeValue, ValueFits, MergeValue;
    if xs == [] {
      assert xs + ys == ys;
    } else {
      assert (xs + ys)[1..] == xs[1..] + ys;
      if e.count < f.arraySize {
        var v := MergeValue(f, e.items[e.count], xs[0]);
        if v.Some? {
          MergeItemsAppend(f, Elements(e.items[e.count := v.value], e.count + 1), xs[1..], ys);
        }
      }
    }
  }

  lemma ChunkStep(fields: seq<Field>, i: nat, c: Chunk, tail: seq<byte>, st: State)
    requires TableOk(fields) && StateFits(fields, st) && i < |fields| && FieldOk(fields[i])
    requires fields[i].htype.Repeated? && fields[i].ltype.Packable() && ChunkOk(fields[i], c)
    requires Enter(fields, st, i) == Some(st)
    ensures DecodeLoop(fields, ChunkBytes(fields[i], c) + tail, st)
         == match StepItems(fields, i, c.Items(), st)
            case None => Fail
            case Some(st') => DecodeLoop(fields, tail, st')
  {
    hide DecodeLoop, Enter, WithArray, ArrayAt, PackedData, TableOk, FieldOk;
    var f := fields[i];
    match c
    case Block(items) =>
      PackedRecord(fields, i, items, tail, st);
    case Single(item) =>
      assert item == c.Items()[0];
      var e := ArrayAt(fields, st, i);
      var value := EncodeValue(f, item).value;
      assert FieldTag(f) + value + tail == FieldTag(f) + (value + tail);
      ElementRecord(fields, i, f.ltype.WireType(), value + tail, st);
      ScalarRoundTrip(f, item.n, tail);
      if e.count < f.arraySize {
        OneItem(f, e, item);
      }
  }

  lemma OneItem(f: Field, e: Elements, item: Value)
    requires FieldOk(f) && f.ltype.Packable() && ElementsFit(f, e) && Sendable(f, [item]) && e.count < f.arraySize
    requires ValueFits(f, item) && EncodeValue(f, item).Some?
    ensures MergeItems(f, e, [item]) == Some(Elements(e.items[e.count := item], e.count + 1))
  {
    hide EncodeValue, ValueFits;
    ScalarsStored(f, e, [item]);
    assert e.items[e.count := item] == e.items[..e.count] + [item] + e.items[e.count + 1..];
  }

  lemma {:induction false} ChunksStep(fields: seq<Field>, i: nat, chunks: seq<Chunk>, tail: seq<byte>, st: State)
    requires TableOk(fields) && StateFits(fields, st) && i < |fields| && FieldOk(fields[i])
    requires fields[i].htype.Repeated? && fields[i].ltype.Packable() && ChunksOk(fields[i], chunks)
    requires Enter(fields, st, i) == Some(st)
    ensures Sendable(fields[i], Contents(chunks))
    ensures DecodeLoop(fields, ChunksBytes(fields[i], chunks) + tail, st)
         == match StepItems(fields, i, Contents(chunks), st)
            case None => Fail
            case Some(st') => DecodeLoop(fields, tail, st')
    decreases |chunks|
  {
    hide DecodeLoop, Enter, WithArray, ArrayAt, ChunkBytes, MergeItems, TableOk, FieldOk;
    var f := fields[i];
    ContentsSendable(f, chunks);
    var e := ArrayAt(fields, st, i);
    if chunks == [] {
      assert [] + tail == tail;
      NothingMerged(f, e);
      WithArraySame(fields, i, st);
    } else {
      var rest := ChunksBytes(f, chunks[1..]) + tail;
      assert ChunksBytes(f, chunks) + tail == ChunkBytes(f, chunks[0]) + rest;
      assert ChunkOk(f, chunks[0]);
      var xs := chunks[0].Items();
      var ys := Contents(chunks[1..]);
      ContentsSendable(f, chunks[1..]);
      ChunkStep(fields, i, chunks[0], rest, st);
      MergeItemsAppend(f, e, xs, ys);
      var first := MergeItems(f, e, xs);
      CountBound(f);
      if first.Some? {
        WithArrayTwice(fields, i, st, first.value, first.value);
        ChunksStep(fields, i, chunks[1..], tail, WithArray(fields, st, i, first.value));
        var second := MergeItems(f, first.value, ys);
        if second.Some? {
          WithArrayTwice(fields, i, st, first.value, second.value);
        }
      }
    }
  }

  /** The first record enters the array before anything is decoded. */
  lemma FirstRecordEnters(fields: seq<Field>, i: nat, chunks: seq<Chunk>, tail: seq<byte>, st: State)
    requires TableOk(fields) && StateFits(fields, st) && i < |fields| && FieldOk(fields[i])
    requires fields[i].htype.Repeated? && fields[i].ltype.Packable() && ChunksOk(fields[i], chunks) && chunks != []
    ensures Enter(fields, st, i).None? ==> DecodeLoop(fields, ChunksBytes(fields[i], chunks) + tail, st).Fail?
    ensures Enter(fields, st, i).Some? ==>
      && Enter(fields, Enter(fields, st, i).value, i) == Enter(fields, st, i)
      && DecodeLoop(fields, ChunksBytes(fields[i], chunks) + tail, st)
         == DecodeLoop(fields, ChunksBytes(fields[i], chunks) + tail, Enter(fields, st, i).value)
  {
    hide DecodeLoop, DecodeElements, WithArray, ArrayAt, ChunksBytes, TableOk, FieldOk;
    var wireType, rest := FirstRecord(fields[i], chunks, tail);
    if Enter(fields, st, i).None? {
      hide Enter;
      RecordRefused(fields, i, wireType, rest, st);
    } else {
      ElementRecord(fields, i, wireType, rest, st);
      ElementRecord(fields, i, wireType, rest, Enter(fields, st, i).value);
    }
  }

  lemma FirstRecord(f: Field, chunks: seq<Chunk>, tail: seq<byte>) returns (wireType: nat, rest: seq<byte>)
    requires ChunksOk(f, chunks) && chunks != []
    ensures wireType < 8 && ChunksBytes(f, chunks) + tail == TagBytes(f.tag, wireType) + rest
  {
    hide PackedData, EncodeValue, ValueFits;
    var c := chunks[0];
    assert ChunkOk(f, c);
    var payload;
    match c {
      case Block(items) =>
        payload, wireType := Encoding.Block(PackedData(f, items).value), WT_STRING;
      case Single(item) =>
        assert item == c.Items()[0];
        payload, wireType := EncodeValue(f, item).value, f.ltype.WireType();
    }
    rest := payload + (ChunksBytes(f, chunks[1..]) + tail);
  }

  lemma RecordRefused(fields: seq<Field>, i: nat, wireType: nat, rest: seq<byte>, st: State)
    requires TableOk(fields) && StateFits(fields, st) && i < |fields| && wireType < 8
    requires fields[i].htype.Repeated? && Enter(fields, st, i).None?
    ensures DecodeLoop(fields, TagBytes(fields[i].tag, wireType) + rest, st).Fail?
  {
    hide DecodeLoop, DecodeElements, Enter, TableOk;
    RecordStep(fields, i, wireType, rest, st);
  }

  /** The records once the array has been entered. */
  lemma EnteredChunks(fields: seq<Field>, i: nat, chunks: seq<Chunk>, tail: seq<byte>, st: State)
    requires TableOk(fields) && StateFits(fields, st) && i < |fields| && FieldOk(fields[i])
    requires fields[i].htype.Repeated? && fields[i].ltype.Packable() && ChunksOk(fields[i], chunks)
    requires Enter(fields, st, i) == Some(st)
    ensures
      var f := fields[i];
      var xs := Contents(chunks);
      var e := ArrayAt(fields, st, i);
      var p := DecodeLoop(fields, ChunksBytes(f, chunks) + tail, st);
      && (xs != [] && e.count + |xs| > f.arraySize ==> p.Fail?)
      && (xs != [] && e.count + |xs| <= f.arraySize ==>
            var stored := Elements(e.items[..e.count] + xs + e.items[e.count + |xs|..], e.count + |xs|);
            ElementsFit(f, stored) && p == DecodeLoop(fields, tail, WithArray(fields, st, i, stored)))
      && (xs == [] ==> p == DecodeLoop(fields, tail, st))
  {
    hide DecodeLoop, Enter, WithArray, ArrayAt, ChunkBytes, MergeItems, TableOk, FieldOk;
    ChunksStep(fields, i, chunks, tail, st);
    var xs := Contents(chunks);
    ScalarsStored(fields[i], ArrayAt(fields, st, i), xs);
    CountBound(fields[i]);
    if xs == [] {
      WithArraySame(fields, i, st);
    }
  }

  /**
    * Any mix of packed blocks and single elements whose contents are xs stores xs behind the elements
    * already counted, in order, touching no other element, if there is room and the array may be
    * entered; otherwise decoding fails.
    */
  lemma PackedAndUnpackedAgree(fields: seq<Field>, i: nat, chunks: seq<Chunk>, tail: seq<byte>, st: State)
    requires TableOk(fields) && StateFits(fields, st) && i < |fields| && chunks != []
    requires fields[i].htype.Repeated? && fields[i].ltype.Packable() && ChunksOk(fields[i], chunks)
    ensures FieldOk(fields[i])
    ensures
      var f := fields[i];
      var xs := Contents(chunks);
      var entered := Enter(fields, st, i);
      var p := DecodeLoop(fields, ChunksBytes(f, chunks) + tail, st);
      && (entered.None? ==> p.Fail?)
      && (entered.Some? ==>
            var e := ArrayAt(fields, entered.value, i);
            && (xs != [] && e.count + |xs| > f.arraySize ==> p.Fail?)
            && (xs != [] && e.count + |xs| <= f.arraySize ==>
                  var stored := Elements(e.items[..e.count] + xs + e.items[e.count + |xs|..], e.count + |xs|);
                  ElementsFit(f, stored) && p == DecodeLoop(fields, tail, WithArray(fields, entered.value, i, stored)))
            && (xs == [] ==> p == DecodeLoop(fields, tail, entered.value)))
  {
    hide DecodeLoop, Enter, WithArray, ArrayAt, ChunksBytes, Contents, TableOk, FieldOk;
    TableRow(fields, i);
    FirstRecordEnters(fields, i, chunks, tail, st);
    if Enter(fields, st, i).Some? {
      EnteredChunks(fields, i, chunks, tail, Enter(fields, st, i).value);
    }
  }

  lemma CountBound(f: Field)
    requires FieldOk(f) && f.htype.Repeated?
    ensures f.arraySize <= PB_SIZE_MAX
  {
  }
}
