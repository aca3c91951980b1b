// Alamofire's URL-encoded form serializer, and a reader that undoes it
// (application/x-www-form-urlencoded: pieces between "&", split at "=", percent escapes and "+").
module FormSerialization {
  import opened Bits
  import opened Varints
  import opened FormTrees

  const SPACE: byte := 32
  const PERCENT: byte := 37
  const AMPERSAND: byte := 38
  const PLUS: byte := 43
  const EQUALS: byte := 61

  datatype ArrayEncoding = Brackets | NoBrackets
  datatype SpaceEncoding = PercentEscaped | PlusReplaced

  /** The serializer's settings; keyEncoding is any function, which covers the custom closure. */
  datatype Settings = Settings(
    alphabetize: bool,
    arrayEncoding: ArrayEncoding,
    keyEncoding: Text -> Text,
    spaceEncoding: SpaceEncoding)

  // ---- escaping ----

  /** afURLQueryAllowed: letters, digits and - . / ? _ ~ */
  predicate Allowed(b: byte)
  {
    || 'a' as int <= b <= 'z' as int || 'A' as int <= b <= 'Z' as int || '0' as int <= b <= '9' as int
    || b == '-' as int || b == '.' as int || b == '/' as int || b == '?' as int || b == '_' as int || b == '~' as int
  }

  function HexDigit(n: nat): byte
    requires n < 16
  {
    if n < 10 then 48 + n else 55 + n
  }

  /** addingPercentEncoding(withAllowedCharacters:) with the space allowed. */
  function PercentEncoded(text: Text): Text
  {
    if text == [] then []
    else
      var b := text[0];
      (if Allowed(b) || b == SPACE then [b] else [PERCENT, HexDigit(b / 16), HexDigit(b % 16)])
      + PercentEncoded(text[1..])
  }

  /** SpaceEncoding.encode: replacingOccurrences(of: " ", with: ...) */
  function SpacesReplaced(e: SpaceEncoding, text: Text): Text
  {
    if text == [] then []
    else
      (if text[0] != SPACE then [text[0]] else if e.PercentEscaped? then [PERCENT, 50, 48] else [PLUS])
      + SpacesReplaced(e, text[1..])
  }

  function Escape(s: Settings, text: Text): Text
  {
    SpacesReplaced(s.spaceEncoding, PercentEncoded(text))
  }

  // ---- serializing ----

  function Joined(segments: seq<Text>): Text
  {
    if segments == [] then []
    else if |segments| == 1 then segments[0]
    else segments[0] + [AMPERSAND] + Joined(segments[1..])
  }

  function ArrayKey(s: Settings, key: Text): Text
  {
    if s.arrayEncoding.Brackets? then key + [91, 93] else key
  }

  function MemberKey(key: Text, subKey: Text): Text
  {
    key + [91] + subKey + [93]
  }

  /** serialize(_:forKey:) */
  function Serialized(s: Settings, c: Component, key: Text): Text
    decreases c, 0
  {
    match c
    case Str(text) => Escape(s, s.keyEncoding(key)) + [EQUALS] + Escape(s, text)
    case Arr(items) => Joined(Ordered(s, ItemSegments(s, items, ArrayKey(s, key))))
    case Obj(members) => Joined(Ordered(s, SubSegments(s, members, key)))
  }

  function ItemSegments(s: Settings, items: seq<Component>, key: Text): (r: seq<Text>)
    ensures |r| == |items|
    decreases items
  {
    if items == [] then [] else [Serialized(s, items[0], key)] + ItemSegments(s, items[1..], key)
  }

  function SubSegments(s: Settings, members: seq<Member>, key: Text): (r: seq<Text>)
    ensures |r| == |members|
    decreases members
  {
    if members == [] then []
    else [Serialized(s, members[0].value, MemberKey(key, members[0].key))] + SubSegments(s, members[1..], key)
  }

  function RootSegments(s: Settings, members: seq<Member>): (r: seq<Text>)
    ensures |r| == |members|
  {
    if members == [] then []
    else [Serialized(s, members[0].value, members[0].key)] + RootSegments(s, members[1..])
  }

  function SerializedRoot(s: Settings, members: seq<Member>): Text
  {
    Joined(Ordered(s, RootSegments(s, members)))
  }

  function Ordered(s: Settings, segments: seq<Text>): seq<Text>
  {
    if s.alphabetize then Sorted(segments) else segments
  }

  /** sorted(): the increasing arrangement. Segments are ASCII, where string order is byte order. */
  function Sorted(segments: seq<Text>): seq<Text>
  {
    if segments == [] then [] else Inserted(segments[0], Sorted(segments[1..]))
  }

  function Inserted(t: Text, segments: seq<Text>): seq<Text>
  {
    if segments == [] || TextLeq(t, segments[0]) then [t] + segments
    else [segments[0]] + Inserted(t, segments[1..])
  }

  predicate TextLeq(a: Text, b: Text)
  {
    a == [] || (b != [] && (a[0] < b[0] || (a[0] == b[0] && TextLeq(a[1..], b[1..]))))
  }

  /** The root serialize(_:), with its appending loop. */
  method SerializeRoot(s: Settings, members: seq<Member>) returns (query: Text)
    ensures query == SerializedRoot(s, members)
  {
    var output: seq<Text> := [];
    for i := 0 to |members|
      invariant output == RootSegments(s, members[..i])
    {
      var value := Serialized(s, members[i].value, members[i].key);
      output := output + [value];
      assert members[..i + 1] == members[..i] + [members[i]];
      RootSegmentsAppend(s, members[..i], members[i]);
    }
    assert members[..|members|] == members;
    output := if s.alphabetize then Sorted(output) else output;
    query := Joined(output);
  }

  lemma {:induction false} RootSegmentsAppend(s: Settings, members: seq<Member>, m: Member)
    ensures RootSegments(s, members + [m]) == RootSegments(s, members) + [Serialized(s, m.value, m.key)]
  {
    if members == [] {
      assert [] + [m] == [m];
    } else {
      assert (members + [m])[1..] == members[1..] + [m];
      RootSegmentsAppend(s, members[1..], m);
    }
  }

  // ---- what is meant: the key/value pairs of a tree ----

  datatype Pair = Pair(key: Text, value: Text)

  function Pairs(s: Settings, c: Component, key: Text): seq<Pair>
    decreases c, 0
  {
    match c
    case Str(text) => [Pair(s.keyEncoding(key), text)]
    case Arr(items) => ItemPairs(s, items, ArrayKey(s, key))
    case Obj(members) => SubPairs(s, members, key)
  }

  function ItemPairs(s: Settings, items: seq<Component>, key: Text): seq<Pair>
    decreases items
  {
    if items == [] then [] else Pairs(s, items[0], key) + ItemPairs(s, items[1..], key)
  }

  function SubPairs(s: Settings, members: seq<Member>, key: Text): seq<Pair>
    decreases members
  {
    if members == [] then []
    else Pairs(s, members[0].value, MemberKey(key, members[0].key)) + SubPairs(s, members[1..], key)
  }

  function RootPairs(s: Settings, members: seq<Member>): seq<Pair>
  {
    if members == [] then [] else Pairs(s, members[0].value, members[0].key) + RootPairs(s, members[1..])
  }

  // ---- the reader ----

  /** Index of the first such byte, or the length. */
  function Find(text: Text, b: byte): (i: nat)
    ensures i <= |text|
    ensures i < |text| ==> text[i] == b
    ensures b !in text[..i]
  {
    if text == [] || text[0] == b then 0 else
      var i := 1 + Find(text[1..], b);
      assert text[..i] == [text[0]] + text[1..][..i - 1];
      i
  }

  function HexValue(b: byte): Option<nat>
  {
    if 48 <= b <= 57 then Some(b - 48)
    else if 65 <= b <= 70 then Some(b - 55)
    else if 97 <= b <= 102 then Some(b - 87)
    else None
  }

  /** Undoes "+" and percent escapes; a malformed escape stays as it is. */
  function Unescaped(text: Text): Text
  {
    if text == [] then []
    else if text[0] == PLUS then [SPACE] + Unescaped(text[1..])
    else if text[0] == PERCENT && |text| >= 3 && HexValue(text[1]).Some? && HexValue(text[2]).Some? then
      [(16 * HexValue(text[1]).value + HexValue(text[2]).value) % 256] + Unescaped(text[3..])
    else [text[0]] + Unescaped(text[1..])
  }

  function ReadPair(piece: Text): Pair
  {
    var i := Find(piece, EQUALS);
    Pair(Unescaped(piece[..i]), if i < |piece| then Unescaped(piece[i + 1..]) else [])
  }

  /** Splits at "&", drops empty pieces and reads a pair from each other one. */
  function Read(text: Text): seq<Pair>
    decreases |text|
  {
    var i := Find(text, AMPERSAND);
    (if i == 0 then [] else [ReadPair(text[..i])]) + (if i < |text| then Read(text[i + 1..]) else [])
  }

  // ---- escapes are undone ----

  lemma {:induction false} UnescapeEscape(s: Settings, text: Text)
    ensures Unescaped(Escape(s, text)) == text
  {
    if text != [] {
      var b := text[0];
      var code := if Allowed(b) || b == SPACE then [b] else [PERCENT, HexDigit(b / 16), HexDigit(b % 16)];
      SpacesReplacedAppend(s.spaceEncoding, code, PercentEncoded(text[1..]));
      var more := Escape(s, text[1..]);
      CodeIs(s.spaceEncoding, b);
      CodeUndone(s.spaceEncoding, b, more);
      UnescapeEscape(s, text[1..]);
    }
  }

  lemma {:induction false} SpacesReplacedAppend(e: SpaceEncoding, a: Text, b: Text)
    ensures SpacesReplaced(e, a + b) == SpacesReplaced(e, a) + SpacesReplaced(e, b)
  {
    if a == [] {
      assert a + b == b;
    } else {
      assert (a + b)[1..] == a[1..] + b;
      SpacesReplacedAppend(e, a[1..], b);
    }
  }

  /** The escaped form of one byte. */
  function Code(e: SpaceEncoding, b: byte): Text
  {
    if Allowed(b) then [b]
    else if b == SPACE then (if e.PercentEscaped? then [PERCENT, 50, 48] else [PLUS])
    else [PERCENT, HexDigit(b / 16), HexDigit(b % 16)]
  }

  lemma CodeIs(e: SpaceEncoding, b: byte)
    ensures Code(e, b)
         == SpacesReplaced(e, if Allowed(b) || b == SPACE then [b] else [PERCENT, HexDigit(b / 16), HexDigit(b % 16)])
  {
    if !Allowed(b) && b != SPACE {
      var h, l := HexDigit(b / 16), HexDigit(b % 16);
      assert [PERCENT, h, l][1..] == [h, l] && [h, l][1..] == [l] && [l][1..] == [];
      assert SpacesReplaced(e, [l]) == [l];
      assert SpacesReplaced(e, [h, l]) == [h] + SpacesReplaced(e, [l]);
    } else {
      assert [b][1..] == [];
    }
  }

  lemma CodeUndone(e: SpaceEncoding, b: byte, more: Text)
    ensures Unescaped(Code(e, b) + more) == [b] + Unescaped(more)
  {
    if Allowed(b) {
      assert ([b] + more)[1..] == more;
    } else if b == SPACE && e.PlusReplaced? {
      assert ([PLUS] + more)[1..] == more;
    } else {
      HexUndone(b / 16);
      HexUndone(b % 16);
      var high, low := HexDigit(b / 16), HexDigit(b % 16);
      assert Code(e, b) == [PERCENT, high, low];
      hide HexDigit, HexValue, Allowed, Code;
      EscapeUndone(b, high, low, more);
    }
  }

  lemma HexUndone(n: nat)
    requires n < 16
    ensures HexValue(HexDigit(n)) == Some(n)
  {
  }

  lemma EscapeUndone(b: byte, high: byte, low: byte, more: Text)
    requires HexValue(high) == Some(b / 16) && HexValue(low) == Some(b % 16)
    ensures Unescaped([PERCENT, high, low] + more) == [b] + Unescaped(more)
  {
    hide HexValue;
    var text := [PERCENT, high, low] + more;
    assert text[0] == PERCENT && text[1] == high && text[2] == low && text[3..] == more;
    assert 16 * (b / 16) + b % 16 == b;
  }

  /** No separator survives escaping. */
  lemma {:induction false} EscapedIsClean(s: Settings, text: Text)
    ensures AMPERSAND !in Escape(s, text) && EQUALS !in Escape(s, text)
  {
    if text != [] {
      var b := text[0];
      var code := if Allowed(b) || b == SPACE then [b] else [PERCENT, HexDigit(b / 16), HexDigit(b % 16)];
      SpacesReplacedAppend(s.spaceEncoding, code, PercentEncoded(text[1..]));
      CodeIs(s.spaceEncoding, b);
      EscapedIsClean(s, text[1..]);
    }
  }

  /** How one byte is written: letters, digits and - . / ? _ ~ as they are, a space as "%20" or "+", and any other byte
      as "%" and two upper-case hexadecimal digits. */
  function Written(e: SpaceEncoding, b: byte): Text
  {
    if 97 <= b <= 122 || 65 <= b <= 90 || 48 <= b <= 57 || b in {45, 46, 47, 63, 95, 126} then [b]
    else if b == 32 then (if e == PlusReplaced then [43] else [37, 50, 48])
    else
      var high, low := b / 16, b % 16;
      [37, if high < 10 then 48 + high else 65 + (high - 10), if low < 10 then 48 + low else 65 + (low - 10)]
  }

  function WrittenAll(e: SpaceEncoding, text: Text): Text
  {
    if text == [] then [] else Written(e, text[0]) + WrittenAll(e, text[1..])
  }

  /** Text is escaped byte by byte. */
  lemma {:induction false} EscapeWrites(s: Settings, text: Text)
    ensures Escape(s, text) == WrittenAll(s.spaceEncoding, text)
  {
    if text != [] {
      var b := text[0];
      var code := if Allowed(b) || b == SPACE then [b] else [PERCENT, HexDigit(b / 16), HexDigit(b % 16)];
      SpacesReplacedAppend(s.spaceEncoding, code, PercentEncoded(text[1..]));
      CodeIs(s.spaceEncoding, b);
      CodeIsWritten(s.spaceEncoding, b);
      EscapeWrites(s, text[1..]);
    }
  }

  lemma CodeIsWritten(e: SpaceEncoding, b: byte)
    ensures Code(e, b) == Written(e, b)
  {
  }

  // ---- pieces ----

  lemma FindIn(a: Text, b: byte, tail: Text)
    requires b !in a
    ensures Find(a + [b] + tail, b) == |a| && Find(a, b) == |a|
  {
    var i := Find(a + [b] + tail, b);
    assert (a + [b] + tail)[|a|] == b;
  }

  lemma ReadLeaf(s: Settings, key: Text, text: Text)
    ensures Read(Escape(s, key) + [EQUALS] + Escape(s, text)) == [Pair(key, text)]
  {
    var k, v := Escape(s, key), Escape(s, text);
    var piece := k + [EQUALS] + v;
    EscapedIsClean(s, key);
    EscapedIsClean(s, text);
    FindIn(piece, AMPERSAND, []);
    FindIn(k, EQUALS, v);
    assert piece[..|piece|] == piece && piece[..|k|] == k && piece[|k| + 1..] == v;
    UnescapeEscape(s, key);
    UnescapeEscape(s, text);
  }

  /** The first piece, and what is read behind it. */
  lemma ReadFirst(a: Text, tail: Text)
    requires AMPERSAND !in a
    ensures Read(a) == if a == [] then [] else [ReadPair(a)]
    ensures Read(a + [AMPERSAND] + tail) == Read(a) + Read(tail)
  {
    hide ReadPair, Find;
    var all := a + [AMPERSAND] + tail;
    FindIn(a, AMPERSAND, tail);
    assert a[..|a|] == a && all[..|a|] == a && all[|a| + 1..] == tail;
  }

  lemma {:induction false} ReadAround(a: Text, b: Text)
    ensures Read(a + [AMPERSAND] + b) == Read(a) + Read(b)
    decreases |a|
  {
    var i := Find(a, AMPERSAND);
    hide Read, Find;
    if i == |a| {
      assert a[..i] == a;
      ReadFirst(a, b);
    } else {
      var first, rest := a[..i], a[i + 1..];
      assert a == first + [AMPERSAND] + rest;
      assert a + [AMPERSAND] + b == first + [AMPERSAND] + (rest + [AMPERSAND] + b);
      ReadFirst(first, rest);
      ReadFirst(first, rest + [AMPERSAND] + b);
      ReadAround(rest, b);
    }
  }

  function ReadAll(segments: seq<Text>): seq<Pair>
  {
    if segments == [] then [] else Read(segments[0]) + ReadAll(segments[1..])
  }

  lemma {:induction false} ReadJoined(segments: seq<Text>)
    ensures Read(Joined(segments)) == ReadAll(segments)
  {
    if |segments| > 1 {
      ReadAround(segments[0], Joined(segments[1..]));
      ReadJoined(segments[1..]);
    } else if |segments| == 1 {
      assert segments[1..] == [];
    }
  }

  lemma {:induction false} InsertedReads(t: Text, segments: seq<Text>)
    ensures multiset(ReadAll(Inserted(t, segments))) == multiset(Read(t)) + multiset(ReadAll(segments))
  {
    if segments == [] || TextLeq(t, segments[0]) {
      assert ([t] + segments)[1..] == segments;
    } else {
      InsertedReads(t, segments[1..]);
      assert ([segments[0]] + Inserted(t, segments[1..]))[1..] == Inserted(t, segments[1..]);
    }
  }

  lemma {:induction false} SortedReads(segments: seq<Text>)
    ensures multiset(ReadAll(Sorted(segments))) == multiset(ReadAll(segments))
  {
    if segments != [] {
      InsertedReads(segments[0], Sorted(segments[1..]));
      SortedReads(segments[1..]);
    }
  }

  /** The same pairs; in the same order when nothing is sorted. */
  ghost predicate Agree(s: Settings, a: seq<Pair>, b: seq<Pair>)
  {
    multiset(a) == multiset(b) && (!s.alphabetize ==> a == b)
  }

  lemma JoinedAgrees(s: Settings, segments: seq<Text>, pairs: seq<Pair>)
    requires Agree(s, ReadAll(segments), pairs)
    ensures Agree(s, Read(Joined(Ordered(s, segments))), pairs)
  {
    ReadJoined(Ordered(s, segments));
    SortedReads(segments);
  }

  lemma {:induction false} ReadSerialized(s: Settings, c: Component, key: Text)
    ensures Agree(s, Read(Serialized(s, c, key)), Pairs(s, c, key))
    decreases c, 0
  {
    match c
    case Str(text) => ReadLeaf(s, s.keyEncoding(key), text);
    case Arr(items) =>
      ReadItems(s, items, ArrayKey(s, key));
      JoinedAgrees(s, ItemSegments(s, items, ArrayKey(s, key)), ItemPairs(s, items, ArrayKey(s, key)));
    case Obj(members) =>
      ReadSubs(s, members, key);
      JoinedAgrees(s, SubSegments(s, members, key), SubPairs(s, members, key));
  }

  lemma {:induction false} ReadItems(s: Settings, items: seq<Component>, key: Text)
    ensures Agree(s, ReadAll(ItemSegments(s, items, key)), ItemPairs(s, items, key))
    decreases items
  {
    if items != [] {
      ReadSerialized(s, items[0], key);
      ReadItems(s, items[1..], key);
    }
  }

  lemma {:induction false} ReadSubs(s: Settings, members: seq<Member>, key: Text)
    ensures Agree(s, ReadAll(SubSegments(s, members, key)), SubPairs(s, members, key))
    decreases members
  {
    if members != [] {
      ReadSerialized(s, members[0].value, MemberKey(key, members[0].key));
      ReadSubs(s, members[1..], key);
    }
  }

  lemma {:induction false} ReadRoots(s: Settings, members: seq<Member>)
    ensures Agree(s, ReadAll(RootSegments(s, members)), RootPairs(s, members))
  {
    if members != [] {
      ReadSerialized(s, members[0].value, members[0].key);
      ReadRoots(s, members[1..]);
    }
  }

  /** Serialization is invertible: the reader gets back every key/value pair of the tree, as often as it occurs,
      and in the tree's order when nothing is sorted. */
  lemma {:induction false} SerializationIsInvertible(s: Settings, members: seq<Member>)
    ensures multiset(Read(SerializedRoot(s, members))) == multiset(RootPairs(s, members))
    ensures !s.alphabetize ==> Read(SerializedRoot(s, members)) == RootPairs(s, members)
  {
    ReadRoots(s, members);
    JoinedAgrees(s, RootSegments(s, members), RootPairs(s, members));
  }

  // ---- sorting makes the output independent of member order ----

  lemma {:induction false} LeqTotal(a: Text, b: Text)
    ensures TextLeq(a, b) || TextLeq(b, a)
  {
    if a != [] && b != [] {
      LeqTotal(a[1..], b[1..]);
    }
  }

  lemma {:induction false} LeqAntisymmetric(a: Text, b: Text)
    requires TextLeq(a, b) && TextLeq(b, a)
    ensures a == b
  {
    if a != [] {
      LeqAntisymmetric(a[1..], b[1..]);
      assert a == [a[0]] + a[1..] && b == [b[0]] + b[1..];
    }
  }

  lemma {:induction false} LeqTransitive(a: Text, b: Text, c: Text)
    requires TextLeq(a, b) && TextLeq(b, c)
    ensures TextLeq(a, c)
  {
    if a != [] && a[0] == b[0] == c[0] {
      LeqTransitive(a[1..], b[1..], c[1..]);
    }
  }

  /** The order of dictionaries: a prefix comes first, otherwise the first differing byte decides. */
  lemma {:induction false} LeqIsLexicographic(a: Text, b: Text)
    ensures TextLeq(a, b) <==>
      exists n | 0 <= n <= |a| && n <= |b| :: a[..n] == b[..n] && (n == |a| || (n < |b| && a[n] < b[n]))
  {
    if a != [] && b != [] {
      LeqIsLexicographic(a[1..], b[1..]);
      if TextLeq(a, b) {
        if a[0] == b[0] {
          var n :| 0 <= n <= |a[1..]| && n <= |b[1..]| && a[1..][..n] == b[1..][..n]
                   && (n == |a[1..]| || (n < |b[1..]| && a[1..][n] < b[1..][n]));
          assert a[..n + 1] == [a[0]] + a[1..][..n] && b[..n + 1] == [b[0]] + b[1..][..n];
        } else {
          assert a[..0] == b[..0];
        }
      }
      if n :| 0 <= n <= |a| && n <= |b| && a[..n] == b[..n] && (n == |a| || (n < |b| && a[n] < b[n])) {
        if n > 0 {
          assert a[0] == a[..n][0] == b[..n][0] == b[0];
          assert a[1..][..n - 1] == a[..n][1..] && b[1..][..n - 1] == b[..n][1..];
        }
      }
    } else {
      assert a[..0] == b[..0];
    }
  }

  predicate Increasing(segments: seq<Text>)
  {
    segments == [] || ((forall t | t in segments[1..] :: TextLeq(segments[0], t)) && Increasing(segments[1..]))
  }

  lemma {:induction false} InsertedIncreasing(t: Text, segments: seq<Text>)
    requires Increasing(segments)
    ensures Increasing(Inserted(t, segments)) && multiset(Inserted(t, segments)) == multiset{t} + multiset(segments)
  {
    if segments == [] {
    } else if TextLeq(t, segments[0]) {
      InsertedFirst(t, segments);
    } else {
      var first, rest := segments[0], segments[1..];
      LeqTotal(t, first);
      InsertedIncreasing(t, rest);
      assert segments == [first] + rest;
      InsertedLater(t, first, rest, Inserted(t, rest));
    }
  }

  lemma InsertedFirst(t: Text, segments: seq<Text>)
    requires segments != [] && Increasing(segments) && TextLeq(t, segments[0])
    ensures Increasing([t] + segments)
  {
    assert ([t] + segments)[1..] == segments;
    forall u | u in segments ensures TextLeq(t, u) {
      FirstIsLeast(segments, u);
      LeqTransitive(t, segments[0], u);
    }
  }

  lemma InsertedLater(t: Text, first: Text, rest: seq<Text>, r: seq<Text>)
    requires Increasing(r) && multiset(r) == multiset{t} + multiset(rest)
    requires TextLeq(first, t) && forall u | u in rest :: TextLeq(first, u)
    ensures Increasing([first] + r) && multiset([first] + r) == multiset{t} + multiset([first] + rest)
  {
    hide TextLeq;
    assert ([first] + r)[1..] == r;
    forall u | u in r ensures TextLeq(first, u) {
      assert u in multiset(r);
    }
  }

  /** sorted() is an increasing arrangement of its input. */
  lemma {:induction false} SortedSorts(segments: seq<Text>)
    ensures Increasing(Sorted(segments)) && multiset(Sorted(segments)) == multiset(segments)
  {
    if segments != [] {
      SortedSorts(segments[1..]);
      InsertedIncreasing(segments[0], Sorted(segments[1..]));
      assert segments == [segments[0]] + segments[1..];
    }
  }

  /** There is only one increasing arrangement. */
  lemma {:induction false} IncreasingIsUnique(a: seq<Text>, b: seq<Text>)
    requires Increasing(a) && Increasing(b) && multiset(a) == multiset(b)
    ensures a == b
  {
    assert |multiset(a)| == |multiset(b)|;
    if a != [] {
      SameFirst(a, b);
      TailMultiset(a);
      TailMultiset(b);
      hide TextLeq;
      IncreasingIsUnique(a[1..], b[1..]);
      assert a == [a[0]] + a[1..] && b == [b[0]] + b[1..];
    }
  }

  lemma TailMultiset(a: seq<Text>)
    requires a != []
    ensures multiset(a[1..]) == multiset(a) - multiset{a[0]}
  {
    assert a == [a[0]] + a[1..];
  }

  lemma SameFirst(a: seq<Text>, b: seq<Text>)
    requires Increasing(a) && Increasing(b) && multiset(a) == multiset(b) && a != [] && b != []
    ensures a[0] == b[0]
  {
    assert a[0] in multiset(b) && b[0] in multiset(a);
    FirstIsLeast(a, b[0]);
    FirstIsLeast(b, a[0]);
    LeqAntisymmetric(a[0], b[0]);
  }

  lemma FirstIsLeast(a: seq<Text>, t: Text)
    requires Increasing(a) && t in a
    ensures TextLeq(a[0], t)
  {
    LeqTotal(t, t);
    assert a == [a[0]] + a[1..];
  }

  lemma SortedForgetsOrder(a: seq<Text>, b: seq<Text>)
    requires multiset(a) == multiset(b)
    ensures Sorted(a) == Sorted(b)
  {
    SortedSorts(a);
    SortedSorts(b);
    IncreasingIsUnique(Sorted(a), Sorted(b));
  }

  function Without(members: seq<Member>, j: nat): seq<Member>
    requires j < |members|
  {
    members[..j] + members[j + 1..]
  }

  /** The same tree up to the order of members in every object. */
  ghost predicate SameUpToOrder(a: Component, b: Component)
    decreases a
  {
    match a
    case Str(_) => a == b
    case Arr(items) => b.Arr? && SameItems(items, b.items)
    case Obj(members) => b.Obj? && SameMembers(members, b.members)
  }

  ghost predicate SameItems(a: seq<Component>, b: seq<Component>)
    decreases a
  {
    if a == [] then b == [] else b != [] && SameUpToOrder(a[0], b[0]) && SameItems(a[1..], b[1..])
  }

  ghost predicate SameMembers(a: seq<Member>, b: seq<Member>)
    decreases a
  {
    if a == [] then b == []
    else exists j :: 0 <= j < |b| && a[0].key == b[j].key && SameUpToOrder(a[0].value, b[j].value)
                     && SameMembers(a[1..], Without(b, j))
  }

  lemma {:induction false} SerializedForgetsOrder(s: Settings, a: Component, b: Component, key: Text)
    requires s.alphabetize && SameUpToOrder(a, b)
    ensures Serialized(s, a, key) == Serialized(s, b, key)
    decreases a
  {
    match a
    case Str(_) =>
    case Arr(items) => ItemsForgetOrder(s, items, b.items, ArrayKey(s, key));
    case Obj(members) =>
      SubsForgetOrder(s, members, b.members, key);
      SortedForgetsOrder(SubSegments(s, members, key), SubSegments(s, b.members, key));
  }

  lemma {:induction false} ItemsForgetOrder(s: Settings, a: seq<Component>, b: seq<Component>, key: Text)
    requires s.alphabetize && SameItems(a, b)
    ensures ItemSegments(s, a, key) == ItemSegments(s, b, key)
    decreases a
  {
    if a != [] {
      SerializedForgetsOrder(s, a[0], b[0], key);
      ItemsForgetOrder(s, a[1..], b[1..], key);
    }
  }

  lemma {:induction false} SubsForgetOrder(s: Settings, a: seq<Member>, b: seq<Member>, key: Text)
    requires s.alphabetize && SameMembers(a, b)
    ensures multiset(SubSegments(s, a, key)) == multiset(SubSegments(s, b, key))
    decreases a
  {
    if a != [] {
      var j :| 0 <= j < |b| && a[0].key == b[j].key && SameUpToOrder(a[0].value, b[j].value)
               && SameMembers(a[1..], Without(b, j));
      SerializedForgetsOrder(s, a[0].value, b[j].value, MemberKey(key, a[0].key));
      SubsForgetOrder(s, a[1..], Without(b, j), key);
      SubsWithout(s, b, j, key);
    }
  }

  lemma {:induction false} SubsWithout(s: Settings, b: seq<Member>, j: nat, key: Text)
    requires j < |b|
    ensures multiset(SubSegments(s, b, key))
         == multiset{Serialized(s, b[j].value, MemberKey(key, b[j].key))} + multiset(SubSegments(s, Without(b, j), key))
  {
    if j == 0 {
      assert Without(b, 0) == b[1..];
    } else {
      assert Without(b, j) == [b[0]] + Without(b[1..], j - 1);
      SubsWithout(s, b[1..], j - 1, key);
    }
  }

  lemma {:induction false} RootsForgetOrder(s: Settings, a: seq<Member>, b: seq<Member>)
    requires s.alphabetize && SameMembers(a, b)
    ensures multiset(RootSegments(s, a)) == multiset(RootSegments(s, b))
    decreases a
  {
    if a != [] {
      var j :| 0 <= j < |b| && a[0].key == b[j].key && SameUpToOrder(a[0].value, b[j].value)
               && SameMembers(a[1..], Without(b, j));
      SerializedForgetsOrder(s, a[0].value, b[j].value, a[0].key);
      RootsForgetOrder(s, a[1..], Without(b, j));
      RootsWithout(s, b, j);
    }
  }

  lemma {:induction false} RootsWithout(s: Settings, b: seq<Member>, j: nat)
    requires j < |b|
    ensures multiset(RootSegments(s, b))
         == multiset{Serialized(s, b[j].value, b[j].key)} + multiset(RootSegments(s, Without(b, j)))
  {
    if j == 0 {
      assert Without(b, 0) == b[1..];
    } else {
      assert Without(b, j) == [b[0]] + Without(b[1..], j - 1);
      RootsWithout(s, b[1..], j - 1);
    }
  }

  /** With sorting on, encodings of the same parameters do not depend on the order of dictionary entries,
      at any depth. */
  lemma SerializationForgetsOrder(s: Settings, a: seq<Member>, b: seq<Member>)
    requires s.alphabetize && SameMembers(a, b)
    ensures SerializedRoot(s, a) == SerializedRoot(s, b)
  {
    RootsForgetOrder(s, a, b);
    SortedForgetsOrder(RootSegments(s, a), RootSegments(s, b));
  }
}
