// Encoding a struct and decoding the bytes shows the same struct again.
module RoundTrip {
  import opened Bits
  import opened Varints
  import opened Fields
  import opened Encoding
  import opened Decoding
  import opened Merging
  import opened MergeProof
  import opened Views

  // ---- values that are not sent because they are zero ----

  lemma ZeroString(n: nat)
    ensures StringLength(Zeros(n)) == 0
  {
  }

  /** A proto3 value that is not sent shows like the default the decoder puts there. */
  lemma {:induction false} ZeroView(f: Field, x: Value, v: Value)
    requires FieldOk(f) && f.Singular() && ValueFits(f, x) && ValueFits(f, v) && IsZero(f, v)
    ensures ViewValue(f, DefaultValue(f, x)) == ViewValue(f, v)
    decreases f, 0
  {
    match f.ltype
    case Bytes =>
    case String => ZeroString(f.dataSize);
    case FixedLengthBytes =>
    case Submessage(fields) =>
      forall i | 0 <= i < |fields|
        ensures ViewRow(fields[i], SlotAt(fields, SetDefaults(fields, x.slots, 0), i))
             == ViewRow(fields[i], SlotAt(fields, v.slots, i))
      {
        DefaultRow(fields, x.slots, 0, i);
        ZeroRow(fields[i], SlotAt(fields, x.slots, i), SlotAt(fields, v.slots, i));
      }
    case _ =>
  }

  lemma {:induction false} ZeroRow(f: Field, s: Slot, t: Slot)
    requires FieldOk(f) && !f.FixedCount() && SlotFits(f, s) && SlotFits(f, t) && IsDefault(f, t)
    ensures ViewRow(f, DefaultSlot(f, s)) == ViewRow(f, t)
    decreases f, 1
  {
    if f.Singular() {
      ZeroView(f, s.items[0], t.items[0]);
      assert ViewItems(f, t.items) == [ViewValue(f, t.items[0])];
    }
  }

  // ---- values that are sent ----

  lemma {:induction false} StringLengthOf(text: seq<byte>, behind: seq<byte>)
    requires forall k | 0 <= k < |text| :: text[k] != 0
    ensures StringLength(text + [0] + behind) == |text|
  {
    if text != [] {
      assert (text + [0] + behind)[1..] == text[1..] + [0] + behind;
      StringLengthOf(text[1..], behind);
    }
  }

  /** A sent value arrives unless a string in it has no NUL; x is whatever the storage held. */
  lemma {:induction false} RoundValue(f: Field, x: Value, v: Value)
    requires FieldOk(f) && ValueFits(f, x) && ValueFits(f, v) && EncodeValue(f, v).Some?
    ensures var was := if f.ltype.Submessage? && !f.htype.Repeated? then DefaultValue(f, x) else x;
      && (MergeValue(f, was, v).Some? <==> ValueTerminated(f, v))
      && (MergeValue(f, was, v).Some? ==> ViewValue(f, MergeValue(f, was, v).value) == ViewValue(f, v))
    decreases f, 0
  {
    match f.ltype
    case Bytes => RoundBytes(f, x, v);
    case String => RoundString(f, x, v);
    case Submessage(fields) =>
      hide View, Terminated, MergeFrom, SetDefaults, EncodeFrom;
      RoundMessage(fields, x.slots, v.slots);
    case _ =>
  }

  lemma RoundBytes(f: Field, x: Value, v: Value)
    requires FieldOk(f) && f.ltype.Bytes? && ValueFits(f, x) && ValueFits(f, v) && EncodeValue(f, v).Some?
    ensures MergeValue(f, x, v).Some? && ViewValue(f, MergeValue(f, x, v).value) == ViewValue(f, v)
  {
    var data := v.data[..v.size] + x.data[v.size..];
    assert data[..v.size] == v.data[..v.size];
  }

  lemma RoundString(f: Field, x: Value, v: Value)
    requires FieldOk(f) && f.ltype.String? && ValueFits(f, x) && ValueFits(f, v) && EncodeValue(f, v).Some?
    ensures MergeValue(f, x, v).Some? <==> ValueTerminated(f, v)
    ensures MergeValue(f, x, v).Some? ==> ViewValue(f, MergeValue(f, x, v).value) == ViewValue(f, v)
  {
    var n := StringLength(v.data);
    if n < |v.data| {
      StringLengthOf(v.data[..n], x.data[n + 1..]);
      assert (v.data[..n] + [0] + x.data[n + 1..])[..n] == v.data[..n];
    }
  }

  /** The items are at the end of the elements counted, and all other storage is as it was. */
  predicate Landed(f: Field, e: Elements, items: seq<Value>, r: Elements)
    requires ElementsFit(f, e) && ElementsFit(f, r) && e.count + |items| <= |r.items|
    requires forall k | 0 <= k < |items| :: ValueFits(f, items[k])
  {
    && (forall k | e.count <= k < e.count + |items| :: ViewValue(f, r.items[k]) == ViewValue(f, items[k - e.count]))
    && (forall k | 0 <= k < |r.items| && !(e.count <= k < e.count + |items|) :: r.items[k] == e.items[k])
  }

  /** Elements land in order behind those already there, if they fit; all other storage stays. */
  lemma {:induction false} RoundItems(f: Field, e: Elements, items: seq<Value>)
    requires FieldOk(f) && f.htype.Repeated? && ElementsFit(f, e)
    requires forall k | 0 <= k < |items| :: ValueFits(f, items[k]) && EncodeValue(f, items[k]).Some?
    ensures MergeItems(f, e, items).Some? <==>
      items == [] || (e.count + |items| <= f.arraySize && forall k | 0 <= k < |items| :: ValueTerminated(f, items[k]))
    ensures items != [] && MergeItems(f, e, items).Some? ==> Landed(f, e, items, MergeItems(f, e, items).value)
    decreases f, 1, |items|
  {
    hide EncodeValue, DecodeValue, MergeValue, ViewValue, ValueTerminated, FieldOk, ValueFits;
    if items != [] && e.count < f.arraySize {
      RoundValue(f, e.items[e.count], items[0]);
      var merged := MergeValue(f, e.items[e.count], items[0]);
      if merged.Some? {
        var e1 := Elements(e.items[e.count := merged.value], e.count + 1);
        RoundItems(f, e1, items[1..]);
      }
    }
  }

  lemma ArrayRound(f: Field, s: Slot, t: Slot)
    requires FieldOk(f) && f.htype.Repeated? && SlotFits(f, s) && SlotFits(f, t) && EncodeField(f, t).Some?
    requires !f.FixedCount() ==> s.size == 0
    ensures MergeSlot(f, s, t).Some? <==> RowTerminated(f, t)
    ensures MergeSlot(f, s, t).Some? ==> ViewRow(f, MergeSlot(f, s, t).value) == ViewRow(f, t)
    decreases f, 2
  {
    hide EncodeField, EncodeValue, FieldOk, ViewValue, ValueTerminated, ValueFits, MergeItems, ViewItems, Landed;
    ArrayEncodable(f, t);
    var n := Count(f, t);
    var items := t.items[..n];
    var e := Elements(s.items, 0);
    RoundItems(f, e, items);
    AllTerminated(f, t, n);
    if MergeItems(f, e, items).Some? {
      var r := MergeItems(f, e, items).value;
      LandedView(f, e, items, r);
    }
  }

  lemma AllTerminated(f: Field, t: Slot, n: nat)
    requires f.htype.Repeated? && SlotFits(f, t) && n == Count(f, t) <= |t.items|
    ensures RowTerminated(f, t) <==> forall k | 0 <= k < n :: ValueTerminated(f, t.items[..n][k])
    decreases f, 1
  {
    hide ValueTerminated, ValueFits;
    if forall k | 0 <= k < n :: ValueTerminated(f, t.items[..n][k]) {
      forall k | 0 <= k < n ensures ValueTerminated(f, t.items[k]) {
        assert t.items[..n][k] == t.items[k];
      }
    }
  }

  /** Elements that landed at the start of an array show there. */
  lemma LandedView(f: Field, e: Elements, items: seq<Value>, r: Elements)
    requires ElementsFit(f, e) && ElementsFit(f, r) && e.count == 0 && |items| <= |r.items|
    requires forall k | 0 <= k < |items| :: ValueFits(f, items[k])
    requires items != [] ==> Landed(f, e, items, r)
    ensures ViewItems(f, r.items[..|items|]) == ViewItems(f, items)
  {
    hide ViewValue, ValueFits;
    if items == [] {
      assert r.items[..0] == items;
    }
  }

  lemma SingleRound(f: Field, s: Slot, t: Slot)
    requires FieldOk(f) && !f.htype.Repeated? && SlotFits(f, s) && SlotFits(f, t) && EncodeField(f, t).Some?
    requires IsPresent(f, t)
    ensures MergeSlot(f, DefaultSlot(f, s), t).Some? <==> RowTerminated(f, t)
    ensures MergeSlot(f, DefaultSlot(f, s), t).Some? ==>
      ViewRow(f, MergeSlot(f, DefaultSlot(f, s), t).value) == ViewRow(f, t)
    decreases f, 2
  {
    hide EncodeValue, FieldOk;
    var d := DefaultSlot(f, s);
    var v := t.items[0];
    assert ViewItems(f, t.items) == [ViewValue(f, v)];
    if f.htype.Oneof? {
      RoundValue(f, if f.ltype.Submessage? then ZeroValue(f) else UnionBefore(f, d), v);
    } else if f.ltype.Submessage? {
      RoundValue(f, s.items[0], v);
    } else {
      RoundValue(f, d.items[0], v);
    }
  }

  /** Sent rows arrive, and rows that are not sent show their default. */
  lemma {:induction false} RoundMessage(fields: seq<Field>, x: seq<Slot>, b: seq<Slot>)
    requires TableOk(fields) && Fits(fields, x) && Fits(fields, b) && EncodeFrom(fields, b, 0).Some?
    ensures var r := MergeFrom(fields, SetDefaults(fields, x, 0), b, 0);
      && (r.Some? <==> Terminated(fields, b))
      && (r.Some? ==> View(fields, r.value) == View(fields, b))
    decreases fields
  {
    hide EncodeField, MergeSlot, DefaultSlot, FieldOk, SlotFits, ViewRow, RowTerminated, MergeFrom;
    var d := SetDefaults(fields, x, 0);
    var r := MergeFrom(fields, d, b, 0);
    forall j | 0 <= j < |fields|
      ensures RowSent(fields, b, j) ==>
        (RowMergeable(fields, d, b, j) <==> RowTerminated(fields[j], SlotAt(fields, b, j)))
      ensures !RowSent(fields, b, j) ==> RowTerminated(fields[j], SlotAt(fields, b, j))
      ensures r.Some? ==>
        ViewRow(fields[j], SlotAt(fields, r.value, j)) == ViewRow(fields[j], SlotAt(fields, b, j))
    {
      RoundRow(fields, x, b, j);
    }
    MergeFailsByRow(fields, d, b, 0);
    TerminatedRows(fields, d, b);
    if r.Some? {
      assert View(fields, r.value) == View(fields, b);
    }
  }

  lemma TerminatedRows(fields: seq<Field>, d: seq<Slot>, b: seq<Slot>)
    requires TableOk(fields) && Fits(fields, d) && Fits(fields, b)
    requires forall j | 0 <= j < |fields| :: RowSent(fields, b, j) ==>
      (RowMergeable(fields, d, b, j) <==> RowTerminated(fields[j], SlotAt(fields, b, j)))
    requires forall j | 0 <= j < |fields| :: !RowSent(fields, b, j) ==> RowTerminated(fields[j], SlotAt(fields, b, j))
    ensures RowsMergeable(fields, d, b, 0) <==> Terminated(fields, b)
  {
    hide RowMergeable, RowTerminated, RowSent, SlotFits;
    if RowsMergeable(fields, d, b, 0) {
      forall j | 0 <= j < |fields| ensures RowTerminated(fields[j], SlotAt(fields, b, j)) {
      }
    }
  }

  lemma RoundRow(fields: seq<Field>, x: seq<Slot>, b: seq<Slot>, j: nat)
    requires TableOk(fields) && Fits(fields, x) && Fits(fields, b) && EncodeFrom(fields, b, 0).Some?
    requires j < |fields|
    ensures var d := SetDefaults(fields, x, 0);
      var r := MergeFrom(fields, d, b, 0);
      && (RowSent(fields, b, j) ==>
            (RowMergeable(fields, d, b, j) <==> RowTerminated(fields[j], SlotAt(fields, b, j))))
      && (!RowSent(fields, b, j) ==> RowTerminated(fields[j], SlotAt(fields, b, j)))
      && (r.Some? ==> ViewRow(fields[j], SlotAt(fields, r.value, j)) == ViewRow(fields[j], SlotAt(fields, b, j)))
    decreases fields, 0
  {
    var f := fields[j];
    var d := SetDefaults(fields, x, 0);
    var t := SlotAt(fields, b, j);
    var s := SlotAt(fields, x, j);
    DefaultRow(fields, x, 0, j);
    RowEncodable(fields, b, 0, j);
    if RowSent(fields, b, j) {
      hide MergeFrom, MergeSlot, DefaultSlot, FieldOk, SlotFits, RowTerminated, ViewRow;
      SentRowRound(f, s, t);
      if MergeFrom(fields, d, b, 0).Some? {
        RowResult(fields, d, b, 0, j);
      }
    } else {
      if MergeFrom(fields, d, b, 0).Some? {
        UnsentRow(fields, x, b, j);
      }
    }
  }

  lemma SentRowRound(f: Field, s: Slot, t: Slot)
    requires FieldOk(f) && SlotFits(f, s) && SlotFits(f, t) && EncodeField(f, t).Some? && !Absent(f, t)
    ensures MergeSlot(f, DefaultSlot(f, s), t).Some? <==> RowTerminated(f, t)
    ensures MergeSlot(f, DefaultSlot(f, s), t).Some? ==>
      ViewRow(f, MergeSlot(f, DefaultSlot(f, s), t).value) == ViewRow(f, t)
    decreases f, 3
  {
    if f.htype.Repeated? {
      ArrayRound(f, DefaultSlot(f, s), t);
    } else {
      SingleRound(f, s, t);
    }
  }

  lemma UnsentRow(fields: seq<Field>, x: seq<Slot>, b: seq<Slot>, j: nat)
    requires TableOk(fields) && Fits(fields, x) && Fits(fields, b) && EncodeFrom(fields, b, 0).Some?
    requires j < |fields| && !RowSent(fields, b, j)
    requires MergeFrom(fields, SetDefaults(fields, x, 0), b, 0).Some?
    ensures ViewRow(fields[j], SlotAt(fields, MergeFrom(fields, SetDefaults(fields, x, 0), b, 0).value, j))
         == ViewRow(fields[j], SlotAt(fields, b, j))
    decreases fields, 0
  {
    hide EncodeField, MergeSlot, MergeFrom, EncodeFrom, SetDefaults, ViewItems;
    var f := fields[j];
    var d := SetDefaults(fields, x, 0);
    var t := SlotAt(fields, b, j);
    var r := MergeFrom(fields, d, b, 0).value;
    DefaultRow(fields, x, 0, j);
    RowResult(fields, d, b, 0, j);
    if f.htype.Oneof? {
      if k: nat :| k < |fields| && SlotOf(fields, k) == SlotOf(fields, j) && RowSent(fields, b, k) {
        assert k != j;
        OneMemberSent(fields, b, k, j);
        RowResult(fields, d, b, 0, k);
        assert fields[k].tag != fields[j].tag;
      }
    } else {
      forall k | 0 <= k < |fields| && SlotOf(fields, k) == SlotOf(fields, j) ensures !RowSent(fields, b, k) {
        if k != j { OneMemberSent(fields, b, k, j); }
      }
      if f.Singular() {
        ZeroRow(f, SlotAt(fields, x, j), t);
      }
    }
  }

  // ---- main results ----

  /**
    * pb_decode of exactly what pb_encode wrote, into any memory, shows the same struct and reads
    * every byte; it fails exactly when a string that was sent fills its whole buffer.
    */
  lemma {:induction false} EncodeDecode(fields: seq<Field>, b: seq<Slot>, memory: seq<Slot>)
    requires TableOk(fields) && Fits(fields, b) && Fits(fields, memory)
    requires Encode(fields, b).Some? && |Encode(fields, b).value| < TWO_32
    ensures Decode(fields, Encode(fields, b).value, memory).Done? <==> Terminated(fields, b)
    ensures Terminated(fields, b) ==>
      var p := Decode(fields, Encode(fields, b).value, memory);
      p.rest == [] && View(fields, p.value) == View(fields, b)
  {
    MessageStep(fields, SetDefaults(fields, memory, 0), b);
    RoundMessage(fields, memory, b);
  }

  /** A string that fills its buffer is encoded, and the decoder then refuses the bytes. */
  lemma FullStringIsRefused()
    ensures exists fields, b, memory ::
      && TableOk(fields) && Fits(fields, b) && Fits(fields, memory)
      && Encode(fields, b).Some? && |Encode(fields, b).value| < TWO_32
      && Decode(fields, Encode(fields, b).value, memory).Fail?
  {
    var f := Field(1, String, Required, 0, 0, 1, 0, None);
    var fields := [f];
    var b := [Slot(0, [Buf(0, [65])])];
    assert SlotOf(fields, 0) == 0;
    assert FieldOk(f) && TableOk(fields);
    assert ValueFits(f, b[0].items[0]) && SlotFits(f, b[0]) && RowFits(fields, b, 0) && Fits(fields, b);
    assert EncodeFrom(fields, b, 1) == Some([]);
    assert StringLength([65]) == 1;
    var data := b[0].items[0].data;
    assert EncodeValue(f, b[0].items[0]) == Some(Block(data[..StringLength(data)]));
    assert Varints.Varint(10) == [10] && Varints.Varint(1) == [1];
    assert SlotAt(fields, b, 0) == b[0] && IsPresent(f, b[0]);
    assert data[..StringLength(data)] == [65] && Block([65]) == [1] + [65] && FieldTag(f) == [10];
    assert EncodeField(f, b[0]) == Join(Some(FieldTag(f)), EncodeValue(f, b[0].items[0]));
    assert EncodeField(f, b[0]) == Some([10] + ([1] + [65]));
    assert EncodeFrom(fields, b, 0) == Join(EncodeField(fields[0], SlotAt(fields, b, 0)), EncodeFrom(fields, b, 1));
    assert !RowTerminated(f, SlotAt(fields, b, 0));
    EncodeDecode(fields, b, b);
  }

  /** pb_decode_delimited reads back one pb_encode_delimited block and stops right behind it. */
  lemma {:induction false} DelimitedRoundTrip(fields: seq<Field>, b: seq<Slot>, memory: seq<Slot>, tail: seq<byte>)
    requires TableOk(fields) && Fits(fields, b) && Fits(fields, memory)
    requires Encode(fields, b).Some? && |Encode(fields, b).value| < TWO_32
    ensures DecodeDelimited(fields, Block(Encode(fields, b).value) + tail, memory).Done? <==> Terminated(fields, b)
    ensures Terminated(fields, b) ==>
      var p := DecodeDelimited(fields, Block(Encode(fields, b).value) + tail, memory);
      p.rest == tail && View(fields, p.value) == View(fields, b)
  {
    hide Encode, Decode, Terminated, View;
    BlockRead(Encode(fields, b).value, tail);
    EncodeDecode(fields, b, memory);
  }

  // ---- streams of messages ----

  /** Every message can be written, and its strings fit. */
  ghost predicate Deliverable(fields: seq<Field>, messages: seq<seq<Slot>>)
  {
    forall k | 0 <= k < |messages| ::
      && Fits(fields, messages[k]) && Encode(fields, messages[k]).Some?
      && |Encode(fields, messages[k]).value| < TWO_32 && Terminated(fields, messages[k])
  }

  ghost predicate AllFit(fields: seq<Field>, messages: seq<seq<Slot>>)
  {
    forall k | 0 <= k < |messages| :: Fits(fields, messages[k])
  }

  /** The messages written with pb_encode_delimited, one behind the other. */
  ghost function EncodeStream(fields: seq<Field>, messages: seq<seq<Slot>>): seq<byte>
    requires Deliverable(fields, messages)
  {
    if messages == [] then [] else Block(Encode(fields, messages[0]).value) + EncodeStream(fields, messages[1..])
  }

  /** Repeated pb_decode_delimited, each time into fresh memory. */
  function DecodeStream(fields: seq<Field>, bs: seq<byte>, memory: seq<seq<Slot>>): (p: Parse<seq<seq<Slot>>>)
    requires TableOk(fields) && forall k | 0 <= k < |memory| :: Fits(fields, memory[k])
    decreases |memory|
  {
    if memory == [] then Done([], bs)
    else
      match DecodeDelimited(fields, bs, memory[0])
      case Fail => Fail
      case Done(first, rest) =>
        match DecodeStream(fields, rest, memory[1..])
        case Fail => Fail
        case Done(others, rest') => Done([first] + others, rest')
  }

  /** A stream of messages comes back as the same list, and the cursor ends where the stream does. */
  lemma {:induction false} StreamRoundTrip(
    fields: seq<Field>, messages: seq<seq<Slot>>, memory: seq<seq<Slot>>, tail: seq<byte>)
    requires TableOk(fields) && Deliverable(fields, messages) && AllFit(fields, memory) && |memory| == |messages|
    ensures var p := DecodeStream(fields, EncodeStream(fields, messages) + tail, memory);
      && p.Done? && p.rest == tail && |p.value| == |messages|
      && AllFit(fields, p.value)
      && forall k | 0 <= k < |messages| :: View(fields, p.value[k]) == View(fields, messages[k])
    decreases |messages|
  {
    hide Encode, Decode, DecodeDelimited, Terminated, View, Fits, TableOk, Block;
    if messages == [] {
      assert [] + tail == tail;
    } else {
      var rest := EncodeStream(fields, messages[1..]) + tail;
      DelimitedRoundTrip(fields, messages[0], memory[0], rest);
      assert EncodeStream(fields, messages) + tail == Block(Encode(fields, messages[0]).value) + rest;
      StreamRoundTrip(fields, messages[1..], memory[1..], tail);
    }
  }
}
