// Keys of nested values, and a value's query: one pair for each leaf, under a key that spells the leaf's path.
module FormQueries {
  import opened Bits
  import opened Varints
  import opened FormTrees
  import opened FormSerialization

  const OPEN: byte := '[' as int
  const CLOSE: byte := ']' as int

  // ---- how a path is spelled ----

  /** One component behind the first: "[name]", and "[]" for an element if arrays have brackets. */
  function Part(a: ArrayEncoding, k: Key): Text
  {
    match k
    case Name(s) => [OPEN] + s + [CLOSE]
    case Index(_) => if a == Brackets then [OPEN, CLOSE] else []
  }

  function Parts(a: ArrayEncoding, path: seq<Key>): Text
  {
    if path == [] then [] else Part(a, path[0]) + Parts(a, path[1..])
  }

  /** The first name stands as it is. */
  function Spelled(a: ArrayEncoding, path: seq<Key>): Text
  {
    if path == [] then []
    else (if path[0].Name? then path[0].s else Part(a, path[0])) + Parts(a, path[1..])
  }

  /** One pair for each leaf: its path, spelled and then encoded, and its text. */
  function LeafPairs(s: Settings, leaves: seq<Leaf>): (r: seq<Pair>)
    ensures |r| == |leaves|
    ensures forall k | 0 <= k < |leaves| ::
      r[k] == Pair(s.keyEncoding(Spelled(s.arrayEncoding, leaves[k].path)), leaves[k].text)
  {
    seq(|leaves|, k requires 0 <= k < |leaves| =>
      Pair(s.keyEncoding(Spelled(s.arrayEncoding, leaves[k].path)), leaves[k].text))
  }

  lemma LeafPairsAppend(s: Settings, a: seq<Leaf>, b: seq<Leaf>)
    ensures LeafPairs(s, a + b) == LeafPairs(s, a) + LeafPairs(s, b)
  {
  }

  lemma {:induction false} PartsAppend(a: ArrayEncoding, path: seq<Key>, k: Key)
    ensures Parts(a, path + [k]) == Parts(a, path) + Part(a, k)
  {
    if path == [] {
      assert [] + [k] == [k] && [k][1..] == [];
    } else {
      assert (path + [k])[1..] == path[1..] + [k];
      PartsAppend(a, path[1..], k);
    }
  }

  lemma SpelledAppend(a: ArrayEncoding, path: seq<Key>, k: Key)
    requires path != []
    ensures Spelled(a, path + [k]) == Spelled(a, path) + Part(a, k)
  {
    assert (path + [k])[1..] == path[1..] + [k];
    PartsAppend(a, path[1..], k);
  }

  // ---- the serializer's keys spell the paths ----

  lemma {:induction false} ItemPairsAppend(s: Settings, items: seq<Component>, item: Component, key: Text)
    ensures ItemPairs(s, items + [item], key) == ItemPairs(s, items, key) + Pairs(s, item, key)
  {
    hide Pairs;
    if items == [] {
      assert [] + [item] == [item];
    } else {
      assert (items + [item])[1..] == items[1..] + [item];
      ItemPairsAppend(s, items[1..], item, key);
    }
  }

  lemma {:induction false} SubPairsAppend(s: Settings, members: seq<Member>, m: Member, key: Text)
    ensures SubPairs(s, members + [m], key) == SubPairs(s, members, key) + Pairs(s, m.value, MemberKey(key, m.key))
  {
    hide Pairs;
    if members == [] {
      assert [] + [m] == [m];
    } else {
      assert (members + [m])[1..] == members[1..] + [m];
      SubPairsAppend(s, members[1..], m, key);
    }
  }

  lemma {:induction false} RootPairsAppend(s: Settings, members: seq<Member>, m: Member)
    ensures RootPairs(s, members + [m]) == RootPairs(s, members) + Pairs(s, m.value, m.key)
  {
    hide Pairs;
    if members == [] {
      assert [] + [m] == [m];
    } else {
      assert (members + [m])[1..] == members[1..] + [m];
      RootPairsAppend(s, members[1..], m);
    }
  }

  lemma {:induction false} PairsOfLeaves(s: Settings, c: Component, path: seq<Key>)
    requires path != []
    ensures Pairs(s, c, Spelled(s.arrayEncoding, path)) == LeafPairs(s, Leaves(c, path))
    decreases c, 0
  {
    match c
    case Str(_) =>
    case Arr(items) =>
      ItemPairsOfLeaves(s, items, path, |items|);
      assert items[..|items|] == items;
    case Obj(members) =>
      SubPairsOfLeaves(s, members, path, |members|);
      assert members[..|members|] == members;
  }

  lemma {:induction false} ItemPairsOfLeaves(s: Settings, items: seq<Component>, path: seq<Key>, n: nat)
    requires path != [] && n <= |items|
    ensures ItemPairs(s, items[..n], ArrayKey(s, Spelled(s.arrayEncoding, path)))
         == LeafPairs(s, ItemLeaves(items, path, n))
    decreases items, n
  {
    hide Pairs, Spelled;
    if n > 0 {
      var key := ArrayKey(s, Spelled(s.arrayEncoding, path));
      var here := path + [Index(n - 1)];
      SpelledAppend(s.arrayEncoding, path, Index(n - 1));
      assert Spelled(s.arrayEncoding, here) == key;
      ItemPairsOfLeaves(s, items, path, n - 1);
      PairsOfLeaves(s, items[n - 1], here);
      assert items[..n] == items[..n - 1] + [items[n - 1]];
      ItemPairsAppend(s, items[..n - 1], items[n - 1], key);
      LeafPairsAppend(s, ItemLeaves(items, path, n - 1), Leaves(items[n - 1], here));
    }
  }

  lemma {:induction false} SubPairsOfLeaves(s: Settings, members: seq<Member>, path: seq<Key>, n: nat)
    requires path != [] && n <= |members|
    ensures SubPairs(s, members[..n], Spelled(s.arrayEncoding, path)) == LeafPairs(s, MemberLeaves(members, path, n))
    decreases members, n
  {
    hide Pairs, Spelled;
    if n > 0 {
      var m := members[n - 1];
      var here := path + [Name(m.key)];
      SpelledAppend(s.arrayEncoding, path, Name(m.key));
      assert Spelled(s.arrayEncoding, here) == MemberKey(Spelled(s.arrayEncoding, path), m.key);
      SubPairsOfLeaves(s, members, path, n - 1);
      PairsOfLeaves(s, m.value, here);
      assert members[..n] == members[..n - 1] + [m];
      SubPairsAppend(s, members[..n - 1], m, Spelled(s.arrayEncoding, path));
      LeafPairsAppend(s, MemberLeaves(members, path, n - 1), Leaves(m.value, here));
    }
  }

  lemma {:induction false} RootPairsOfLeaves(s: Settings, members: seq<Member>, n: nat)
    requires n <= |members|
    ensures RootPairs(s, members[..n]) == LeafPairs(s, MemberLeaves(members, [], n))
    decreases n
  {
    hide Pairs;
    if n > 0 {
      var m := members[n - 1];
      var here := [] + [Name(m.key)];
      assert here == [Name(m.key)] && here[1..] == [];
      assert Spelled(s.arrayEncoding, here) == m.key + [] == m.key;
      RootPairsOfLeaves(s, members, n - 1);
      PairsOfLeaves(s, m.value, here);
      assert members[..n] == members[..n - 1] + [m];
      RootPairsAppend(s, members[..n - 1], m);
      LeafPairsAppend(s, MemberLeaves(members, [], n - 1), Leaves(m.value, here));
      assert MemberLeaves(members, [], n) == MemberLeaves(members, [], n - 1) + Leaves(m.value, here);
    }
  }

  /** The pairs of a tree are one for each of its leaves, in traversal order, under the key that spells its path. */
  lemma KeysSpellPaths(s: Settings, members: seq<Member>)
    ensures RootPairs(s, members) == LeafPairs(s, Leaves(Obj(members), []))
  {
    RootPairsOfLeaves(s, members, |members|);
    assert members[..|members|] == members;
  }

  // ---- a reader of keys ----

  /** What a key tells of a path: its names, and where there are elements. */
  datatype Trace = Named(s: Text) | Element

  function Shape(path: seq<Key>): seq<Trace>
  {
    if path == [] then []
    else [match path[0] case Name(s) => Named(s) case Index(_) => Element] + Shape(path[1..])
  }

  function ReadParts(key: Text): seq<Trace>
    decreases |key|
  {
    if key == [] then []
    else
      var i := Find(key, CLOSE);
      (if i <= 1 then [Element] else [Named(key[1..i])])
      + if i < |key| then ReadParts(key[i + 1..]) else []
  }

  function ReadKey(key: Text): seq<Trace>
  {
    var i := Find(key, OPEN);
    [Named(key[..i])] + ReadParts(key[i..])
  }

  /** No bracket in any name, and no empty name inside another value. */
  predicate Plain(path: seq<Key>)
  {
    && path != [] && path[0].Name?
    && (forall k | 0 <= k < |path| && path[k].Name? :: OPEN !in path[k].s && CLOSE !in path[k].s)
    && forall k | 0 < k < |path| && path[k].Name? :: path[k].s != []
  }

  lemma {:induction false} PartsRead(path: seq<Key>)
    requires forall k | 0 <= k < |path| && path[k].Name? :: CLOSE !in path[k].s && path[k].s != []
    ensures ReadParts(Parts(Brackets, path)) == Shape(path)
  {
    if path != [] {
      var rest := Parts(Brackets, path[1..]);
      PartsRead(path[1..]);
      var content := if path[0].Name? then path[0].s else [];
      var before := [OPEN] + content;
      var key := Parts(Brackets, path);
      assert key == before + [CLOSE] + rest;
      assert CLOSE !in before;
      FindIn(before, CLOSE, rest);
      assert key[1..|before|] == content && key[|before| + 1..] == rest;
    }
  }

  lemma PartsOpen(path: seq<Key>)
    ensures Parts(Brackets, path) == [] || Parts(Brackets, path)[0] == OPEN
  {
    if path != [] {
      assert Part(Brackets, path[0])[0] == OPEN;
    }
  }

  /** With brackets, a key spells just one path, up to the numbers of elements. */
  lemma KeyReadsBack(path: seq<Key>)
    requires Plain(path)
    ensures ReadKey(Spelled(Brackets, path)) == Shape(path)
  {
    var rest := Parts(Brackets, path[1..]);
    PartsRead(path[1..]);
    PartsOpen(path[1..]);
    FirstRead(path[0].s, rest);
  }

  lemma FirstRead(first: Text, rest: Text)
    requires OPEN !in first && (rest == [] || rest[0] == OPEN)
    ensures ReadKey(first + rest) == [Named(first)] + ReadParts(rest)
  {
    var key := first + rest;
    if rest == [] {
      assert key == first;
      FindIn(first, OPEN, []);
    } else {
      assert key == first + [OPEN] + rest[1..];
      FindIn(first, OPEN, rest[1..]);
    }
    assert key[..|first|] == first && key[|first|..] == rest;
  }

  // ---- from a value to its query ----

  predicate AllUnderNames(leaves: seq<Leaf>)
  {
    forall j | 0 <= j < |leaves| :: leaves[j].path != [] && leaves[j].path[0].Name?
  }

  predicate AllUnderIndices(leaves: seq<Leaf>)
  {
    forall j | 0 <= j < |leaves| :: leaves[j].path != [] && leaves[j].path[0].Index?
  }

  lemma {:induction false} ItemLeavesAreUnderIndices(items: seq<Component>, n: nat)
    requires n <= |items|
    ensures AllUnderIndices(ItemLeaves(items, [], n))
  {
    if n > 0 {
      ItemLeavesAreUnderIndices(items, n - 1);
      assert [] + [Index(n - 1)] == [Index(n - 1)] + [];
      LeavesUnder(items[n - 1], Index(n - 1), []);
    }
  }

  lemma {:induction false} MemberLeavesAreUnderNames(members: seq<Member>, n: nat)
    requires n <= |members|
    ensures AllUnderNames(MemberLeaves(members, [], n))
  {
    if n > 0 {
      MemberLeavesAreUnderNames(members, n - 1);
      var k := Name(members[n - 1].key);
      assert [] + [k] == [k] + [];
      LeavesUnder(members[n - 1].value, k, []);
    }
  }

  /** The root of the built tree is an object exactly for objects and for values without any leaf. */
  lemma RootIsObject(t: Component)
    ensures Replay(Obj([]), Leaves(t, [])).Obj? <==> t.Obj? || Leaves(t, []) == []
  {
    match t
    case Str(_) =>
    case Arr(items) => ItemLeavesAreUnderIndices(items, |items|);
    case Obj(members) => MemberLeavesAreUnderNames(members, |members|);
  }

  /** URLEncodedFormEncoder.encode(_:) -> String; None is the invalidRootObject error. */
  method EncodeQuery(s: Settings, t: Component) returns (query: Option<Text>)
    ensures query.None? <==> !t.Obj? && Leaves(t, []) != []
    ensures query.Some? ==>
      var pairs := LeafPairs(s, Leaves(Replay(Obj([]), Leaves(t, [])), []));
      multiset(Read(query.value)) == multiset(pairs) && (!s.alphabetize ==> Read(query.value) == pairs)
    ensures t.Obj? && Buildable(t) ==>
      var pairs := LeafPairs(s, Leaves(t, []));
      multiset(Read(query.value)) == multiset(pairs) && (!s.alphabetize ==> Read(query.value) == pairs)
  {
    var component := EncodeTree(t);
    RootIsObject(t);
    if !component.Obj? {
      return None;
    }
    var text := SerializeRoot(s, component.members);
    SerializationIsInvertible(s, component.members);
    KeysSpellPaths(s, component.members);
    query := Some(text);
  }
}
