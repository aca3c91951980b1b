// The tree that Alamofire's URL-encoded form encoder builds by path-addressed writes.
module FormTrees {
  import opened Bits
  import opened Varints

  /** Text as its UTF-8 bytes. */
  type Text = seq<byte>

  type TextFunction = f: Text -> Text | true witness (t: Text) => t

  /** The canonical normal form, whose details do not matter here. */
  const NORMAL_FORM: TextFunction

  /** String equality is canonical equivalence, not equality of bytes. */
  predicate SameText(a: Text, b: Text)
  {
    NORMAL_FORM(a) == NORMAL_FORM(b)
  }

  /** A coding key: an array index or a name. */
  datatype Key = Index(i: nat) | Name(s: Text)

  /** Keys that address the same child. */
  predicate SameKey(a: Key, b: Key)
  {
    match a
    case Index(_) => a == b
    case Name(s) => b.Name? && SameText(s, b.s)
  }

  datatype Component = Str(text: Text) | Arr(items: seq<Component>) | Obj(members: seq<Member>)

  datatype Member = Member(key: Text, value: Component)

  // ---- set(to:at:) as a function ----

  /** Index of the first member with the key, or their number. */
  function FirstIndex(members: seq<Member>, key: Text): (i: nat)
    ensures i <= |members|
    ensures i < |members| ==> SameText(members[i].key, key)
    ensures forall k | 0 <= k < i :: !SameText(members[k].key, key)
  {
    if members == [] || SameText(members[0].key, key) then 0 else 1 + FirstIndex(members[1..], key)
  }

  /** The child under a key, or the empty container that stands for it. */
  function ChildOr(c: Component, k: Key): Component
  {
    match k
    case Index(i) => if c.Arr? && i < |c.items| then c.items[i] else Arr([])
    case Name(s) =>
      if c.Obj? && FirstIndex(c.members, s) < |c.members| then c.members[FirstIndex(c.members, s)].value else Obj([])
  }

  /** The component with the child put under a key: replaced, appended, or in a new container. */
  function PutChild(c: Component, k: Key, child: Component): Component
  {
    match k
    case Index(i) =>
      if c.Arr? then Arr(if i < |c.items| then c.items[i := child] else c.items + [child]) else Arr([child])
    case Name(s) =>
      if c.Obj? then
        var i := FirstIndex(c.members, s);
        Obj(if i < |c.members| then c.members[i := Member(s, child)] else c.members + [Member(s, child)])
      else Obj([Member(s, child)])
  }

  function SetAt(c: Component, value: Component, path: seq<Key>): Component
    decreases |path|
  {
    if path == [] then value else PutChild(c, path[0], SetAt(ChildOr(c, path[0]), value, path[1..]))
  }

  // ---- the encoder's own code ----

  /** firstIndex(where:) */
  method FindMember(members: seq<Member>, key: Text) returns (index: nat)
    ensures index == FirstIndex(members, key)
  {
    index := 0;
    while index < |members| && !SameText(members[index].key, key)
      invariant 0 <= index <= |members|
      invariant forall k | 0 <= k < index :: !SameText(members[k].key, key)
    {
      index := index + 1;
    }
    var first := FirstIndex(members, key);
  }

  /** The recursive set(_:to:at:); the inout context is an argument and a result. */
  method SetContext(context: Component, value: Component, path: seq<Key>) returns (r: Component)
    ensures r == SetAt(context, value, path)
    decreases |path|
  {
    if |path| < 1 {
      return value;
    }
    var end := path[0];
    var child: Component;
    if |path| == 1 {
      child := value;
    } else {
      match end {
        case Index(index) =>
          var items := if context.Arr? then context.items else [];
          if |items| > index {
            child := items[index];
          } else {
            child := Arr([]);
          }
        case Name(s) =>
          var members := if context.Obj? then context.members else [];
          var found := FindMember(members, s);
          child := if found < |members| then members[found].value else Obj([]);
      }
      child := SetContext(child, value, path[1..]);
    }
    match end {
      case Index(index) =>
        if context.Arr? {
          var items := context.items;
          if |items| > index {
            items := items[index := child];
          } else {
            items := items + [child];
          }
          r := Arr(items);
        } else {
          r := Arr([child]);
        }
      case Name(s) =>
        if context.Obj? {
          var members := context.members;
          var index := FindMember(members, s);
          if index < |members| {
            members := members[index := Member(s, child)];
          } else {
            members := members + [Member(s, child)];
          }
          r := Obj(members);
        } else {
          r := Obj([Member(s, child)]);
        }
    }
  }

  /** URLEncodedFormContext, shared by all containers of one encoding. */
  class FormContext {
    var component: Component

    constructor (initial: Component)
      ensures component == initial
    {
      component := initial;
    }

    method Set(value: Component, path: seq<Key>)
      modifies this
      ensures component == SetAt(old(component), value, path)
    {
      component := SetContext(component, value, path);
    }
  }

  /** An unkeyed container: each nested path ends in the number of elements so far. */
  class UnkeyedContainer {
    const codingPath: seq<Key>
    var count: nat

    constructor (path: seq<Key>)
      ensures codingPath == path && count == 0
    {
      codingPath, count := path, 0;
    }

    /** nestedCodingPath, and then count += 1. */
    method NestedContainerPath() returns (path: seq<Key>)
      modifies this
      ensures path == codingPath + [Index(old(count))] && count == old(count) + 1
    {
      path := codingPath + [Index(count)];
      count := count + 1;
    }
  }

  /** A text leaf and its path. */
  datatype Leaf = Leaf(path: seq<Key>, text: Text)

  /** The leaves of a tree below the given path, in traversal order. */
  function Leaves(t: Component, path: seq<Key>): seq<Leaf>
    decreases t, 0
  {
    match t
    case Str(text) => [Leaf(path, text)]
    case Arr(items) => ItemLeaves(items, path, |items|)
    case Obj(members) => MemberLeaves(members, path, |members|)
  }

  function ItemLeaves(items: seq<Component>, path: seq<Key>, n: nat): seq<Leaf>
    requires n <= |items|
    decreases items, n
  {
    if n == 0 then [] else ItemLeaves(items, path, n - 1) + Leaves(items[n - 1], path + [Index(n - 1)])
  }

  function MemberLeaves(members: seq<Member>, path: seq<Key>, n: nat): seq<Leaf>
    requires n <= |members|
    decreases members, n
  {
    if n == 0 then []
    else MemberLeaves(members, path, n - 1) + Leaves(members[n - 1].value, path + [Name(members[n - 1].key)])
  }

  /** The writes for some leaves, one after the other. */
  function Replay(c: Component, leaves: seq<Leaf>): Component
    decreases |leaves|
  {
    if leaves == [] then c
    else
      var last := leaves[|leaves| - 1];
      SetAt(Replay(c, leaves[..|leaves| - 1]), Str(last.text), last.path)
  }

  lemma {:induction false} ReplayAppend(c: Component, a: seq<Leaf>, b: seq<Leaf>)
    ensures Replay(c, a + b) == Replay(Replay(c, a), b)
    decreases |b|
  {
    if b == [] {
      assert a + b == a;
    } else {
      ReplayAppend(c, a, b[..|b| - 1]);
      assert (a + b)[..|a + b| - 1] == a + b[..|b| - 1];
    }
  }

  /** How a tree-shaped value drives the containers: keyed for objects, unkeyed for arrays. */
  method EncodeInto(context: FormContext, t: Component, codingPath: seq<Key>)
    modifies context
    ensures context.component == Replay(old(context.component), Leaves(t, codingPath))
    decreases t
  {
    ghost var before := context.component;
    match t {
      case Str(text) =>
        context.Set(Str(text), codingPath);
        assert [Leaf(codingPath, text)][..0] == [];
      case Arr(items) =>
        var container := new UnkeyedContainer(codingPath);
        for i := 0 to |items|
          invariant container.count == i
          invariant context.component == Replay(before, ItemLeaves(items, codingPath, i))
        {
          var path := container.NestedContainerPath();
          ReplayAppend(before, ItemLeaves(items, codingPath, i), Leaves(items[i], path));
          EncodeInto(context, items[i], path);
        }
      case Obj(members) =>
        for i := 0 to |members|
          invariant context.component == Replay(before, MemberLeaves(members, codingPath, i))
        {
          var path := codingPath + [Name(members[i].key)];
          ReplayAppend(before, MemberLeaves(members, codingPath, i), Leaves(members[i].value, path));
          EncodeInto(context, members[i].value, path);
        }
    }
  }

  /** URLEncodedFormEncoder.encode(_:) -> URLEncodedFormComponent. */
  method EncodeTree(t: Component) returns (r: Component)
    ensures r == Replay(Obj([]), Leaves(t, []))
    ensures r == t <==> Buildable(t) && t != Arr([])
  {
    var context := new FormContext(Obj([]));
    EncodeInto(context, t, []);
    r := context.component;
    RebuildsExactly(t);
  }

  // ---- rebuilding a tree ----

  predicate UniqueKeys(members: seq<Member>)
  {
    forall i, j | 0 <= i < j < |members| :: !SameText(members[i].key, members[j].key)
  }

  predicate IsEmpty(c: Component)
  {
    c == Arr([]) || c == Obj([])
  }

  /** Keys are unique in every object, and no container inside another one is empty. */
  predicate Buildable(t: Component)
  {
    match t
    case Str(_) => true
    case Arr(items) => forall i | 0 <= i < |items| :: Buildable(items[i]) && !IsEmpty(items[i])
    case Obj(members) =>
      && UniqueKeys(members)
      && forall i | 0 <= i < |members| :: Buildable(members[i].value) && !IsEmpty(members[i].value)
  }

  /** The key is there, or a write to it puts the new child exactly there. */
  predicate InReach(c: Component, k: Key)
  {
    match k
    case Index(i) => if c.Arr? then i <= |c.items| else i == 0
    case Name(_) => true
  }

  lemma PutGet(c: Component, k: Key, x: Component, y: Component)
    requires InReach(c, k)
    ensures ChildOr(PutChild(c, k, x), k) == x
    ensures PutChild(PutChild(c, k, x), k, y) == PutChild(c, k, y)
    ensures InReach(PutChild(c, k, x), k)
  {
    if k.Name? && c.Obj? {
      var i := FirstIndex(c.members, k.s);
      var members := PutChild(c, k, x).members;
      FirstIndexIs(members, k.s, i);
      if i == |c.members| {
        assert members[i := Member(k.s, y)] == c.members + [Member(k.s, y)];
      } else {
        assert members[i := Member(k.s, y)] == c.members[i := Member(k.s, y)];
      }
    } else if k.Name? {
      FirstIndexIs([Member(k.s, x)], k.s, 0);
      assert [Member(k.s, x)][0 := Member(k.s, y)] == [Member(k.s, y)];
    } else if c.Arr? {
      var items := PutChild(c, k, x).items;
      if k.i == |c.items| {
        assert items[k.i := y] == c.items + [y];
      } else {
        assert items[k.i := y] == c.items[k.i := y];
      }
    } else {
      assert [x][0 := y] == [y];
    }
  }

  lemma FirstIndexIs(members: seq<Member>, key: Text, i: nat)
    requires i < |members| && SameText(members[i].key, key) && forall k | 0 <= k < i :: !SameText(members[k].key, key)
    ensures FirstIndex(members, key) == i
  {
    var j := FirstIndex(members, key);
    if i < j {
      assert false;
    }
  }

  function Under(k: Key, leaves: seq<Leaf>): (r: seq<Leaf>)
    ensures |r| == |leaves|
    ensures forall j | 0 <= j < |leaves| :: r[j] == Leaf([k] + leaves[j].path, leaves[j].text)
  {
    if leaves == [] then [] else [Leaf([k] + leaves[0].path, leaves[0].text)] + Under(k, leaves[1..])
  }

  lemma {:induction false} LeavesUnder(t: Component, k: Key, path: seq<Key>)
    ensures Leaves(t, [k] + path) == Under(k, Leaves(t, path))
    decreases t, 0
  {
    match t
    case Str(_) =>
    case Arr(items) => ItemLeavesUnder(items, k, path, |items|);
    case Obj(members) => MemberLeavesUnder(members, k, path, |members|);
  }

  lemma {:induction false} ItemLeavesUnder(items: seq<Component>, k: Key, path: seq<Key>, n: nat)
    requires n <= |items|
    ensures ItemLeaves(items, [k] + path, n) == Under(k, ItemLeaves(items, path, n))
    decreases items, n
  {
    if n > 0 {
      ItemLeavesUnder(items, k, path, n - 1);
      assert [k] + path + [Index(n - 1)] == [k] + (path + [Index(n - 1)]);
      LeavesUnder(items[n - 1], k, path + [Index(n - 1)]);
    }
  }

  lemma {:induction false} MemberLeavesUnder(members: seq<Member>, k: Key, path: seq<Key>, n: nat)
    requires n <= |members|
    ensures MemberLeaves(members, [k] + path, n) == Under(k, MemberLeaves(members, path, n))
    decreases members, n
  {
    if n > 0 {
      MemberLeavesUnder(members, k, path, n - 1);
      var name := Name(members[n - 1].key);
      assert [k] + path + [name] == [k] + (path + [name]);
      LeavesUnder(members[n - 1].value, k, path + [name]);
    }
  }

  /** Writes below one key only concern the child under that key. */
  lemma {:induction false} ReplayUnder(c: Component, k: Key, leaves: seq<Leaf>)
    requires InReach(c, k) && leaves != []
    ensures Replay(c, Under(k, leaves)) == PutChild(c, k, Replay(ChildOr(c, k), leaves))
    decreases |leaves|
  {
    var n := |leaves| - 1;
    var last := leaves[n];
    UnderLast(k, leaves);
    hide Under, PutChild, ChildOr;
    if n > 0 {
      var child := Replay(ChildOr(c, k), leaves[..n]);
      ReplayUnder(c, k, leaves[..n]);
      PutGet(c, k, child, SetAt(child, Str(last.text), last.path));
    } else {
      assert leaves[..n] == [] && Under(k, leaves)[..n] == [];
    }
  }

  lemma UnderLast(k: Key, leaves: seq<Leaf>)
    requires leaves != []
    ensures Under(k, leaves) != []
    ensures Under(k, leaves)[..|leaves| - 1] == Under(k, leaves[..|leaves| - 1])
    ensures Under(k, leaves)[|leaves| - 1].path != []
    ensures Under(k, leaves)[|leaves| - 1].path[0] == k
    ensures Under(k, leaves)[|leaves| - 1].path[1..] == leaves[|leaves| - 1].path
    ensures Under(k, leaves)[|leaves| - 1].text == leaves[|leaves| - 1].text
  {
    var last := leaves[|leaves| - 1];
    assert ([k] + last.path)[1..] == last.path;
  }

  lemma {:induction false} LeavesExist(t: Component, path: seq<Key>)
    requires Buildable(t) && !IsEmpty(t)
    ensures Leaves(t, path) != []
  {
    match t
    case Str(_) =>
    case Arr(items) => LeavesExist(items[|items| - 1], path + [Index(|items| - 1)]);
    case Obj(members) =>
      LeavesExist(members[|members| - 1].value, path + [Name(members[|members| - 1].key)]);
  }

  /** From an empty container, the leaves of a buildable tree rebuild it. */
  lemma {:induction false} LeavesRebuild(c: Component, t: Component)
    requires Buildable(t) && !IsEmpty(t) && IsEmpty(c)
    ensures Replay(c, Leaves(t, [])) == t
    decreases t, 0
  {
    match t
    case Str(text) => assert [Leaf([], text)][..0] == [];
    case Arr(items) =>
      ItemsRebuild(c, items, |items|);
      assert items[..|items|] == items;
    case Obj(members) =>
      MembersRebuild(c, members, |members|);
      assert members[..|members|] == members;
  }

  lemma {:induction false} ItemsRebuild(c: Component, items: seq<Component>, n: nat)
    requires Buildable(Arr(items)) && n <= |items| && IsEmpty(c)
    ensures Replay(c, ItemLeaves(items, [], n)) == if n == 0 then c else Arr(items[..n])
    decreases items, n
  {
    assert Replay(c, []) == c;
    assert n > 0 ==> Buildable(items[n - 1]) && !IsEmpty(items[n - 1]);
    hide Replay, Leaves, Buildable;
    if n > 0 {
      var k := Index(n - 1);
      var item := items[n - 1];
      var before := Replay(c, ItemLeaves(items, [], n - 1));
      ItemsRebuild(c, items, n - 1);
      assert before == if n == 1 then c else Arr(items[..n - 1]);
      NewItem(before, items, n);
      ReplayAppend(c, ItemLeaves(items, [], n - 1), Leaves(item, [] + [k]));
      hide PutChild, ChildOr;
      ChildRebuilds(before, k, item);
    }
  }

  lemma {:induction false} MembersRebuild(c: Component, members: seq<Member>, n: nat)
    requires Buildable(Obj(members)) && n <= |members| && IsEmpty(c)
    ensures Replay(c, MemberLeaves(members, [], n)) == if n == 0 then c else Obj(members[..n])
    decreases members, n
  {
    assert Replay(c, []) == c;
    assert UniqueKeys(members);
    assert n > 0 ==> Buildable(members[n - 1].value) && !IsEmpty(members[n - 1].value);
    hide Replay, Leaves, Buildable;
    if n > 0 {
      var k := Name(members[n - 1].key);
      var before := Replay(c, MemberLeaves(members, [], n - 1));
      var value := members[n - 1].value;
      MembersRebuild(c, members, n - 1);
      assert before == if n == 1 then c else Obj(members[..n - 1]);
      NewMember(before, members, n);
      ReplayAppend(c, MemberLeaves(members, [], n - 1), Leaves(value, [] + [k]));
      hide UniqueKeys, FirstIndex, PutChild, ChildOr;
      ChildRebuilds(before, k, value);
    }
  }

  lemma NewItem(before: Component, items: seq<Component>, n: nat)
    requires 0 < n <= |items|
    requires if n == 1 then IsEmpty(before) else before == Arr(items[..n - 1])
    ensures InReach(before, Index(n - 1)) && IsEmpty(ChildOr(before, Index(n - 1)))
    ensures PutChild(before, Index(n - 1), items[n - 1]) == Arr(items[..n])
  {
    assert items[..n - 1] + [items[n - 1]] == items[..n];
  }

  lemma NewMember(before: Component, members: seq<Member>, n: nat)
    requires 0 < n <= |members| && UniqueKeys(members)
    requires if n == 1 then IsEmpty(before) else before == Obj(members[..n - 1])
    ensures var k := Name(members[n - 1].key);
      && IsEmpty(ChildOr(before, k))
      && PutChild(before, k, members[n - 1].value) == Obj(members[..n])
  {
    assert members[..n - 1] + [members[n - 1]] == members[..n];
  }

  /** A subtree is rebuilt under a key that is still free. */
  lemma ChildRebuilds(c: Component, k: Key, t: Component)
    requires Buildable(t) && !IsEmpty(t) && InReach(c, k) && IsEmpty(ChildOr(c, k))
    ensures Replay(c, Leaves(t, [] + [k])) == PutChild(c, k, t)
    decreases t, 1
  {
    assert [] + [k] == [k] + [];
    LeavesUnder(t, k, []);
    LeavesExist(t, []);
    ReplayUnder(c, k, Leaves(t, []));
    LeavesRebuild(ChildOr(c, k), t);
  }

  // ---- when the tree comes back ----

  /** A write keeps the keys unique and leaves no inner container empty, whatever its path. */
  lemma {:induction false} SetKeepsBuildable(c: Component, text: Text, path: seq<Key>)
    requires Buildable(c)
    ensures Buildable(SetAt(c, Str(text), path)) && !IsEmpty(SetAt(c, Str(text), path))
    decreases |path|
  {
    if path != [] {
      SetKeepsBuildable(ChildOr(c, path[0]), text, path[1..]);
      PutKeepsBuildable(c, path[0], SetAt(ChildOr(c, path[0]), Str(text), path[1..]));
    }
  }

  lemma PutKeepsBuildable(c: Component, k: Key, child: Component)
    requires Buildable(c) && Buildable(child) && !IsEmpty(child)
    ensures Buildable(PutChild(c, k, child)) && !IsEmpty(PutChild(c, k, child))
  {
  }

  lemma {:induction false} ReplayKeepsBuildable(c: Component, leaves: seq<Leaf>)
    requires Buildable(c)
    ensures Buildable(Replay(c, leaves))
    decreases |leaves|
  {
    if leaves != [] {
      var last := leaves[|leaves| - 1];
      ReplayKeepsBuildable(c, leaves[..|leaves| - 1]);
      SetKeepsBuildable(Replay(c, leaves[..|leaves| - 1]), last.text, last.path);
    }
  }

  /** The encoded tree is the value's own tree exactly for the buildable ones other than an empty root array. */
  lemma RebuildsExactly(t: Component)
    ensures Replay(Obj([]), Leaves(t, [])) == t <==> Buildable(t) && t != Arr([])
  {
    ReplayKeepsBuildable(Obj([]), Leaves(t, []));
    if Buildable(t) && !IsEmpty(t) {
      LeavesRebuild(Obj([]), t);
    }
  }

  // ---- what a write changes ----

  /** The component at a path, if there is one. */
  function GetAt(c: Component, path: seq<Key>): Option<Component>
    decreases |path|
  {
    if path == [] then Some(c)
    else
      match path[0]
      case Index(i) => if c.Arr? && i < |c.items| then GetAt(c.items[i], path[1..]) else None
      case Name(s) =>
        if c.Obj? && FirstIndex(c.members, s) < |c.members|
        then GetAt(c.members[FirstIndex(c.members, s)].value, path[1..]) else None
  }

  /** Every index on the path is an element's, or the next one. */
  predicate PathInReach(c: Component, path: seq<Key>)
    decreases |path|
  {
    path == [] || (InReach(c, path[0]) && PathInReach(ChildOr(c, path[0]), path[1..]))
  }

  /** A write can be read back at its path exactly when the path is in reach. */
  lemma {:induction false} SetThenGet(c: Component, value: Component, path: seq<Key>)
    ensures GetAt(SetAt(c, value, path), path) == Some(value) <==> PathInReach(c, path)
    decreases |path|
  {
    if path != [] {
      var child := SetAt(ChildOr(c, path[0]), value, path[1..]);
      SetThenGet(ChildOr(c, path[0]), value, path[1..]);
      if InReach(c, path[0]) {
        PutGet(c, path[0], child, child);
        GetStep(PutChild(c, path[0], child), path);
      }
    }
  }

  lemma GetStep(c: Component, path: seq<Key>)
    requires path != []
    ensures GetAt(c, path) == if Has(c, path[0]) then GetAt(ChildOr(c, path[0]), path[1..]) else None
  {
  }

  /** The path a write takes: an index beyond the elements becomes the next one. */
  function Clipped(c: Component, path: seq<Key>): seq<Key>
    decreases |path|
  {
    if path == [] then []
    else
      var count := if c.Arr? then |c.items| else 0;
      var k := if path[0].Index? && path[0].i > count then Index(count) else path[0];
      [k] + Clipped(ChildOr(c, path[0]), path[1..])
  }

  /** Every write, however far its indices reach, is the write at its clipped path, and is read back there. */
  lemma {:induction false} WritesAreClipped(c: Component, value: Component, path: seq<Key>)
    ensures SetAt(c, value, path) == SetAt(c, value, Clipped(c, path))
    ensures GetAt(SetAt(c, value, path), Clipped(c, path)) == Some(value)
    decreases |path|
  {
    ClippedInReach(c, path);
    SetThenGet(c, value, Clipped(c, path));
    if path != [] {
      var clipped := Clipped(c, path);
      assert clipped[1..] == Clipped(ChildOr(c, path[0]), path[1..]);
      assert ChildOr(c, clipped[0]) == ChildOr(c, path[0]);
      WritesAreClipped(ChildOr(c, path[0]), value, path[1..]);
    }
  }

  /** A member that is written keeps its place among the members, under the name it was written with. */
  lemma MemberWritten(members: seq<Member>, value: Component, name: Text, path: seq<Key>)
    ensures var written := SetAt(Obj(members), value, [Name(name)] + path);
      var i := FirstIndex(members, name);
      && written.Obj? && |written.members| == (if i < |members| then |members| else |members| + 1)
      && written.members[i].key == name
      && forall k | 0 <= k < |members| && k != i :: written.members[k] == members[k]
  {
  }

  lemma {:induction false} ClippedInReach(c: Component, path: seq<Key>)
    ensures PathInReach(c, Clipped(c, path))
    decreases |path|
  {
    if path != [] {
      var clipped := Clipped(c, path);
      assert clipped[1..] == Clipped(ChildOr(c, path[0]), path[1..]);
      assert ChildOr(c, clipped[0]) == ChildOr(c, path[0]);
      ClippedInReach(ChildOr(c, path[0]), path[1..]);
    }
  }

  predicate Has(c: Component, k: Key)
  {
    match k
    case Index(i) => c.Arr? && i < |c.items|
    case Name(s) => c.Obj? && FirstIndex(c.members, s) < |c.members|
  }

  /** The two paths part at different keys. */
  predicate Diverge(p: seq<Key>, q: seq<Key>)
  {
    p != [] && q != [] && (!SameKey(p[0], q[0]) || Diverge(p[1..], q[1..]))
  }

  /** Where they part, both keys are indices or both are names. */
  predicate SameKindAtFork(p: seq<Key>, q: seq<Key>)
    requires Diverge(p, q)
  {
    if !SameKey(p[0], q[0]) then p[0].Index? <==> q[0].Index? else SameKindAtFork(p[1..], q[1..])
  }

  /** A write changes nothing at a diverging path, unless it turns the container at the fork into the other kind:
      then what lay there is gone. */
  lemma {:induction false} SetKeepsDiverging(c: Component, value: Component, p: seq<Key>, q: seq<Key>)
    requires Diverge(p, q) && PathInReach(c, p)
    ensures GetAt(SetAt(c, value, p), q) == if SameKindAtFork(p, q) then GetAt(c, q) else None
    decreases |p|
  {
    var child := SetAt(ChildOr(c, p[0]), value, p[1..]);
    GetStep(c, q);
    GetStep(SetAt(c, value, p), q);
    if SameKey(p[0], q[0]) {
      SameChild(c, p[0], q[0]);
      SameChild(SetAt(c, value, p), p[0], q[0]);
      PutGet(c, p[0], child, child);
      SetKeepsDiverging(ChildOr(c, p[0]), value, p[1..], q[1..]);
      if !Has(c, p[0]) {
        EmptyHasNothing(ChildOr(c, p[0]), q[1..]);
      }
    } else {
      PutElsewhere(c, p[0], child, q[0]);
    }
  }

  /** Keys that are the same find the same child. */
  lemma SameChild(c: Component, k: Key, other: Key)
    requires SameKey(k, other)
    ensures Has(c, k) == Has(c, other) && ChildOr(c, k) == ChildOr(c, other)
  {
    if k.Name? && c.Obj? {
      SameIndex(c.members, k.s, other.s);
    }
  }

  lemma {:induction false} SameIndex(members: seq<Member>, a: Text, b: Text)
    requires SameText(a, b)
    ensures FirstIndex(members, a) == FirstIndex(members, b)
  {
    if members != [] {
      SameIndex(members[1..], a, b);
    }
  }

  lemma EmptyHasNothing(c: Component, path: seq<Key>)
    requires IsEmpty(c) && path != []
    ensures GetAt(c, path) == None
  {
  }

  lemma PutElsewhere(c: Component, k: Key, child: Component, other: Key)
    requires !SameKey(k, other) && InReach(c, k)
    ensures Has(PutChild(c, k, child), other) == (k.Index? == other.Index? && Has(c, other))
    ensures Has(PutChild(c, k, child), other) ==> ChildOr(PutChild(c, k, child), other) == ChildOr(c, other)
  {
    if k.Name? && other.Name? && c.Obj? {
      var put := PutChild(c, k, child).members;
      var j := FirstIndex(c.members, other.s);
      if j < |c.members| {
        FirstIndexIs(put, other.s, j);
      }
    }
  }
}
