/**
 * The key enumerator: `getKey` and `getKeys` flatten a catalog object into the
 * dotted keys of its string leaves, depth first, eliding an accumulated prefix
 * that is empty or exactly "default".
 */
module Keys {
  import opened Wrappers
  import opened Catalog

  /** `getKey`: qualify `key` by `prefix`, unless the prefix is empty or "default". */
  function GetKey(key: string, prefix: string): (r: string)
    ensures r == key <==> prefix == "" || prefix == "default"
    ensures r != key ==> r == prefix + "." + key
  {
    if prefix == "" || prefix == "default" then key else prefix + "." + key
  }

  /** The key `getKeys` emits for the leaf at `path` below an object reached with `prefix`. */
  function FlatKey(prefix: string, path: seq<string>): string
    decreases path
  {
    if path == [] then prefix else FlatKey(GetKey(path[0], prefix), path[1..])
  }

  /** The keys emitted by the `forEach` of `getKeys(o, prefix)` for the children from index `i` on: one per string leaf. */
  function KeysFrom(o: Obj, i: nat, prefix: string): (r: seq<string>)
    ensures |r| == |Leaves(o, i)|
    decreases o, |o.entries| - i, 1
  {
    if i >= |o.entries| then [] else ChildKeys(o, i, prefix) + KeysFrom(o, i + 1, prefix)
  }

  /** The keys emitted for child `i` alone: its own key if it is a string, else the keys below it. */
  function ChildKeys(o: Obj, i: nat, prefix: string): (r: seq<string>)
    requires i < |o.entries|
    ensures |r| == |ChildLeaves(o, i)|
    decreases o, |o.entries| - i, 0
  {
    var (k, t) := o.entries[i];
    match t
    case Leaf(_) => [GetKey(k, prefix)]
    case Node(c) => KeysFrom(c, 0, GetKey(k, prefix))
  }

  /** `getKeys(obj, prefix)`: a loop over the children that pushes a key per leaf and recurses into objects. */
  method GetKeys(o: Obj, prefix: string) returns (keys: seq<string>)
    ensures keys == KeysFrom(o, 0, prefix)
    decreases o
  {
    keys := [];
    var i := 0;
    while i < |o.entries|
      invariant 0 <= i <= |o.entries|
      invariant keys + KeysFrom(o, i, prefix) == KeysFrom(o, 0, prefix)
    {
      var (k, t) := o.entries[i];
      var emitted: seq<string>;
      if t.Leaf? {
        emitted := [GetKey(k, prefix)];
      } else {
        emitted := GetKeys(t.obj, GetKey(k, prefix));
      }
      assert emitted == ChildKeys(o, i, prefix);
      assert KeysFrom(o, i, prefix) == emitted + KeysFrom(o, i + 1, prefix);
      ConcatAssoc(keys, emitted, KeysFrom(o, i + 1, prefix));
      keys := keys + emitted;
      i := i + 1;
    }
  }

  // ---------------------------------------------------------------------
  // Reference: the string leaves of a catalog, with their paths, depth first.
  // ---------------------------------------------------------------------

  function Prepend(k: string, xs: seq<(seq<string>, string)>): (r: seq<(seq<string>, string)>)
    ensures |r| == |xs|
    ensures forall j :: 0 <= j < |r| ==> r[j] == ([k] + xs[j].0, xs[j].1)
  {
    if xs == [] then [] else [([k] + xs[0].0, xs[0].1)] + Prepend(k, xs[1..])
  }

  /** Every string leaf among the children from index `i` on: its path of names and its text. */
  function Leaves(o: Obj, i: nat): seq<(seq<string>, string)>
    decreases o, |o.entries| - i, 1
  {
    if i >= |o.entries| then [] else ChildLeaves(o, i) + Leaves(o, i + 1)
  }

  /** The string leaves under child `i` alone. */
  function ChildLeaves(o: Obj, i: nat): seq<(seq<string>, string)>
    requires i < |o.entries|
    decreases o, |o.entries| - i, 0
  {
    var (k, t) := o.entries[i];
    match t
    case Leaf(text) => [([k], text)]
    case Node(c) => Prepend(k, Leaves(c, 0))
  }

  /** Every name in the tree is free of dots. */
  predicate NamesDotFree(o: Obj)
  {
    forall i :: 0 <= i < |o.entries| ==>
      DotFree(o.entries[i].0) && (o.entries[i].1.Node? ==> NamesDotFree(o.entries[i].1.obj))
  }

  /** No top-level name is one that `getKey` elides. */
  predicate RootNamesKept(o: Obj)
  {
    forall i :: 0 <= i < |o.entries| ==> o.entries[i].0 != "" && o.entries[i].0 != "default"
  }

  /** `keys` are the leaves' paths, flattened under `prefix`, one for one and in order. */
  predicate FlatKeysOf(keys: seq<string>, leaves: seq<(seq<string>, string)>, prefix: string)
  {
    |keys| == |leaves| && forall j :: 0 <= j < |keys| ==> keys[j] == FlatKey(prefix, leaves[j].0)
  }

  lemma FlatKeysConcat(ka: seq<string>, la: seq<(seq<string>, string)>, kb: seq<string>, lb: seq<(seq<string>, string)>, prefix: string)
    requires FlatKeysOf(ka, la, prefix) && FlatKeysOf(kb, lb, prefix)
    ensures FlatKeysOf(ka + kb, la + lb, prefix)
  {
    forall j | 0 <= j < |ka + kb| ensures (ka + kb)[j] == FlatKey(prefix, (la + lb)[j].0) {
      if j < |ka| {
        assert (ka + kb)[j] == ka[j] && (la + lb)[j] == la[j];
      } else {
        assert (ka + kb)[j] == kb[j - |ka|] && (la + lb)[j] == lb[j - |ka|];
      }
    }
  }

  /** `getKeys` emits exactly one key per string leaf, in depth-first order: the leaf's path, flattened. */
  lemma {:induction false} KeysAreFlatPaths(o: Obj, i: nat, prefix: string)
    ensures FlatKeysOf(KeysFrom(o, i, prefix), Leaves(o, i), prefix)
    decreases o, |o.entries| - i
  {
    if i < |o.entries| {
      var (k, t) := o.entries[i];
      KeysAreFlatPaths(o, i + 1, prefix);
      var keysRest, leavesRest := KeysFrom(o, i + 1, prefix), Leaves(o, i + 1);
      match t
      case Leaf(text) =>
        assert FlatKeysOf([GetKey(k, prefix)], [([k], text)], prefix) by {
          assert FlatKey(prefix, [k]) == GetKey(k, prefix);
        }
        FlatKeysConcat([GetKey(k, prefix)], [([k], text)], keysRest, leavesRest, prefix);
      case Node(c) =>
        var p := GetKey(k, prefix);
        KeysAreFlatPaths(c, 0, p);
        var keysHead, leavesHead := KeysFrom(c, 0, p), Prepend(k, Leaves(c, 0));
        assert FlatKeysOf(keysHead, leavesHead, prefix) by {
          forall j | 0 <= j < |leavesHead|
            ensures keysHead[j] == FlatKey(prefix, leavesHead[j].0)
          {
            var path := Leaves(c, 0)[j].0;
            assert ([k] + path)[0] == k && ([k] + path)[1..] == path;
          }
        }
        FlatKeysConcat(keysHead, leavesHead, keysRest, leavesRest, prefix);
    }
  }

  /** Each leaf's path leads, by strict descent, to that leaf; its names are dot-free and it starts at a child of `o`. */
  lemma {:induction false} LeavesDescend(o: Obj, i: nat, j: nat)
    requires WellFormed(o) && NamesDotFree(o)
    requires j < |Leaves(o, i)|
    ensures |Leaves(o, i)[j].0| >= 1
    ensures forall n :: 0 <= n < |Leaves(o, i)[j].0| ==> DotFree(Leaves(o, i)[j].0[n])
    ensures exists m :: i <= m < |o.entries| && o.entries[m].0 == Leaves(o, i)[j].0[0]
    ensures Descend(Node(o), Leaves(o, i)[j].0) == Some(Leaf(Leaves(o, i)[j].1))
    decreases o, |o.entries| - i
  {
    var (k, t) := o.entries[i];
    var head := ChildLeaves(o, i);
    assert Leaves(o, i) == head + Leaves(o, i + 1);
    if j < |head| {
      LookupDistinct(o, i);
      match t
      case Leaf(text) =>
      case Node(c) =>
        LeavesDescend(c, 0, j);
        var path := Leaves(c, 0)[j].0;
        assert head[j].0 == [k] + path;
        assert ([k] + path)[1..] == path;
    } else {
      LeavesDescend(o, i + 1, j - |head|);
    }
  }

  /** A leaf listed from child `i + 1` on is also listed from child `i`. */
  lemma LeavesGrow(o: Obj, i: nat, x: (seq<string>, string))
    requires x in Leaves(o, i + 1)
    ensures x in Leaves(o, i)
  {
    assert i < |o.entries|;
    assert Leaves(o, i) == ChildLeaves(o, i) + Leaves(o, i + 1);
  }

  /** A leaf listed from child `m` on is also listed from any earlier child `i`. */
  lemma LeavesFromEarlier(o: Obj, i: nat, m: nat, x: (seq<string>, string))
    requires i <= m && x in Leaves(o, m)
    ensures x in Leaves(o, i)
  {
    var j := m;
    while j > i
      invariant i <= j <= m && x in Leaves(o, j)
    {
      LeavesGrow(o, j - 1, x);
      j := j - 1;
    }
  }

  /** Conversely, every string leaf that a path reaches by strict descent is listed, and so gets a key. */
  lemma {:induction false} LeavesComplete(o: Obj, path: seq<string>, text: string)
    requires Descend(Node(o), path) == Some(Leaf(text))
    ensures (path, text) in Leaves(o, 0)
    decreases o
  {
    var k := path[0];
    var t := Lookup(o, k).value;
    assert Descend(t, path[1..]) == Some(Leaf(text));
    var m :| 0 <= m < |o.entries| && o.entries[m] == (k, t);
    match t
    case Leaf(x) =>
      assert path[1..] == [] && x == text;
      assert path == [k];
      assert Leaves(o, m) == ChildLeaves(o, m) + Leaves(o, m + 1);
      LeavesFromEarlier(o, 0, m, (path, text));
    case Node(c) =>
      assert c < o.entries[m].1;
      LeavesComplete(c, path[1..], text);
      var j :| 0 <= j < |Leaves(c, 0)| && Leaves(c, 0)[j] == (path[1..], text);
      assert [k] + path[1..] == path;
      assert Prepend(k, Leaves(c, 0))[j] == (path, text);
      assert Leaves(o, m) == ChildLeaves(o, m) + Leaves(o, m + 1);
      LeavesFromEarlier(o, 0, m, (path, text));
  }

  /** A flattened path under a kept prefix is the dotted join of prefix and path. */
  lemma {:induction false} FlatKeyJoins(prefix: string, path: seq<string>)
    requires prefix != "" && prefix != "default"
    ensures FlatKey(prefix, path) == JoinDots([prefix] + path)
    decreases path
  {
    if path != [] {
      var next := prefix + "." + path[0];
      assert next[|prefix|] == '.';
      assert '.' !in "default";
      FlatKeyJoins(next, path[1..]);
      if path[1..] == [] {
        assert [prefix] + path == [prefix, path[0]];
      } else {
        assert ([prefix] + path)[1..] == path;
        assert [next] + path[1..] == [next] + path[1..];
      }
    }
  }

  /** Every key `getKeys(o)` emits resolves, through `getTemplate`, to the text of its own leaf. */
  lemma KeysResolve(o: Obj, j: nat)
    requires WellFormed(o) && NamesDotFree(o) && RootNamesKept(o)
    requires j < |Leaves(o, 0)|
    ensures j < |KeysFrom(o, 0, "")|
    ensures GetTemplate(o, KeysFrom(o, 0, "")[j]) == Some(Leaf(Leaves(o, 0)[j].1))
  {
    KeysAreFlatPaths(o, 0, "");
    LeavesDescend(o, 0, j);
    var (path, text) := Leaves(o, 0)[j];
    var m :| 0 <= m < |o.entries| && o.entries[m].0 == path[0];
    FlatKeyJoins(path[0], path[1..]);
    assert [path[0]] + path[1..] == path;
    ResolveLeaf(o, path, text);
  }

  /** Leaves under a top-level "default" object are emitted without the "default." prefix. */
  lemma DefaultElided()
    ensures KeysFrom(Obj([("default", Node(Obj([("hello", Leaf("Hi"))]))),
                          ("a", Node(Obj([("b", Leaf("x"))]))),
                          ("c", Leaf("y"))]), 0, "")
         == ["hello", "a.b", "c"]
  {
    var inner := Obj([("hello", Leaf("Hi"))]);
    var ab := Obj([("b", Leaf("x"))]);
    var o := Obj([("default", Node(inner)), ("a", Node(ab)), ("c", Leaf("y"))]);
    assert KeysFrom(inner, 0, "default") == ["hello"];
    assert KeysFrom(ab, 1, "a") == [];
    assert GetKey("b", "a") == "a.b";
    assert KeysFrom(ab, 0, "a") == ["a.b"];
    assert KeysFrom(o, 2, "") == ["c"];
    assert KeysFrom(o, 1, "") == ["a.b", "c"];
  }
}
