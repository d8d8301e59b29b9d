/**
 * The catalog model and the template resolver: a language catalog is a tree
 * whose leaves are template strings and whose inner nodes are objects mapping
 * names to sub-trees. A dotted key is split on '.' and walked through the tree.
 */
module Catalog {
  import opened Wrappers

  /** A catalog value: a template string, or a nested object. */
  datatype Tree = Leaf(text: string) | Node(obj: Obj)

  /** A catalog object: its named children, in insertion order. */
  datatype Obj = Obj(entries: seq<(string, Tree)>)

  /** Property access `o[name]`: the first child called `name`, or `None` (undefined). */
  function Lookup(o: Obj, name: string): (r: Option<Tree>)
    ensures r.None? <==> forall i :: 0 <= i < |o.entries| ==> o.entries[i].0 != name
    ensures r.Some? ==> (name, r.value) in o.entries
  {
    LookupIn(o.entries, name)
  }

  function LookupIn(es: seq<(string, Tree)>, name: string): (r: Option<Tree>)
    ensures r.None? <==> forall i :: 0 <= i < |es| ==> es[i].0 != name
    ensures r.Some? ==> (name, r.value) in es
  {
    if es == [] then None
    else if es[0].0 == name then Some(es[0].1)
    else LookupIn(es[1..], name)
  }

  /** No object in the tree has two children with the same name (as for any JavaScript object). */
  predicate WellFormed(o: Obj)
  {
    && (forall i, j :: 0 <= i < j < |o.entries| ==> o.entries[i].0 != o.entries[j].0)
    && (forall i :: 0 <= i < |o.entries| ==> o.entries[i].1.Node? ==> WellFormed(o.entries[i].1.obj))
  }

  /** With distinct names, looking up a child's own name finds that child. */
  lemma LookupDistinct(o: Obj, i: nat)
    requires i < |o.entries|
    requires forall a, b :: 0 <= a < b < |o.entries| ==> o.entries[a].0 != o.entries[b].0
    ensures Lookup(o, o.entries[i].0) == Some(o.entries[i].1)
  {
    LookupInDistinct(o.entries, i);
  }

  lemma {:induction false} LookupInDistinct(es: seq<(string, Tree)>, i: nat)
    requires i < |es|
    requires forall a, b :: 0 <= a < b < |es| ==> es[a].0 != es[b].0
    ensures LookupIn(es, es[i].0) == Some(es[i].1)
  {
    if i > 0 {
      assert es[0].0 != es[i].0;
      assert es[1..][i - 1] == es[i];
      LookupInDistinct(es[1..], i - 1);
    }
  }

  // ---------------------------------------------------------------------
  // Dotted keys: `key.split(".")` and its inverse `segments.join(".")`.
  // ---------------------------------------------------------------------

  predicate DotFree(s: string) { '.' !in s }

  /** `key.split(".")`: the maximal dot-free pieces of `s`, in order. */
  function Split(s: string): (r: seq<string>)
    ensures |r| >= 1
    ensures forall i :: 0 <= i < |r| ==> DotFree(r[i])
    ensures JoinDots(r) == s
  {
    if s == [] then [""]
    else if s[0] == '.' then [""] + Split(s[1..])
    else
      var rest := Split(s[1..]);
      [[s[0]] + rest[0]] + rest[1..]
  }

  /** `segments.join(".")`. */
  function JoinDots(segs: seq<string>): string
  {
    if segs == [] then ""
    else if |segs| == 1 then segs[0]
    else segs[0] + "." + JoinDots(segs[1..])
  }

  /** Splitting a dot-free string prefixed to a dot separates it off. */
  lemma {:induction false} SplitFirst(a: string, t: string)
    requires DotFree(a)
    ensures Split(a + "." + t) == [a] + Split(t)
  {
    if a != [] {
      assert (a + "." + t)[1..] == a[1..] + "." + t;
      SplitFirst(a[1..], t);
      assert [a[0]] + a[1..] == a;
    }
  }

  lemma {:induction false} SplitDotFree(a: string)
    requires DotFree(a)
    ensures Split(a) == [a]
  {
    if a != [] {
      SplitDotFree(a[1..]);
      assert [a[0]] + a[1..] == a;
    }
  }

  /** Joining dot-free segments and splitting again gives the segments back. */
  lemma {:induction false} SplitJoinDots(segs: seq<string>)
    requires |segs| >= 1
    requires forall i :: 0 <= i < |segs| ==> DotFree(segs[i])
    ensures Split(JoinDots(segs)) == segs
  {
    if |segs| == 1 {
      SplitDotFree(segs[0]);
    } else {
      SplitJoinDots(segs[1..]);
      SplitFirst(segs[0], JoinDots(segs[1..]));
    }
  }

  // ---------------------------------------------------------------------
  // The resolver.
  // ---------------------------------------------------------------------

  /** One step of the reducer: descend while the value is an object, otherwise keep it. */
  function Step(acc: Option<Tree>, name: string): (r: Option<Tree>)
    ensures acc.Some? && acc.value.Node? && r.Some? ==> (name, r.value) in acc.value.obj.entries
    ensures acc.Some? && acc.value.Node? && r.None? ==>
      forall j :: 0 <= j < |acc.value.obj.entries| ==> acc.value.obj.entries[j].0 != name
    ensures acc.None? || acc.value.Leaf? ==> r == acc
  {
    if acc.Some? && acc.value.Node? then Lookup(acc.value.obj, name) else acc
  }

  /** `path.reduce(Step, acc)`. */
  function Walk(acc: Option<Tree>, path: seq<string>): (r: Option<Tree>)
    ensures r.Some? ==> acc.Some?
    ensures r.Some? && r.value.Node? ==> acc.value.Node?
    decreases path
  {
    if path == [] then acc else Walk(Step(acc, path[0]), path[1..])
  }

  /** `getTemplate`: look the first segment up in the root, then walk the rest. */
  function GetTemplate(language: Obj, key: string): (r: Option<Tree>)
    ensures r.Some? ==> exists j :: 0 <= j < |language.entries| && language.entries[j].0 == Split(key)[0]
  {
    var segs := Split(key);
    Walk(Lookup(language, segs[0]), segs[1..])
  }

  /** Strict descent: follow every name of `path` from `t`, through objects only. */
  function Descend(t: Tree, path: seq<string>): Option<Tree>
  {
    if path == [] then Some(t)
    else match t
      case Leaf(_) => None
      case Node(o) =>
        match Lookup(o, path[0])
        case None => None
        case Some(u) => Descend(u, path[1..])
  }

  /** Once a leaf or `undefined` is reached, every further segment is ignored. */
  lemma {:induction false} WalkStops(acc: Option<Tree>, path: seq<string>)
    requires acc.None? || acc.value.Leaf?
    ensures Walk(acc, path) == acc
    decreases path
  {
    if path != [] {
      WalkStops(Step(acc, path[0]), path[1..]);
    }
  }

  lemma {:induction false} WalkAppend(acc: Option<Tree>, p: seq<string>, q: seq<string>)
    ensures Walk(acc, p + q) == Walk(Walk(acc, p), q)
    decreases p
  {
    if p != [] {
      assert (p + q)[0] == p[0] && (p + q)[1..] == p[1..] + q;
      WalkAppend(Step(acc, p[0]), p[1..], q);
    } else {
      assert p + q == q;
    }
  }

  /** A strict path to a leaf is also followed by the lenient walk. */
  lemma {:induction false} WalkFollowsDescent(t: Tree, path: seq<string>, text: string)
    requires Descend(t, path) == Some(Leaf(text))
    ensures Walk(Some(t), path) == Some(Leaf(text))
  {
    if path != [] {
      var u := Lookup(t.obj, path[0]).value;
      WalkFollowsDescent(u, path[1..], text);
    }
  }

  /** The same holds for a strict path to an object: the walk ends on that object. */
  lemma {:induction false} WalkFollowsToNode(t: Tree, path: seq<string>, o: Obj)
    requires Descend(t, path) == Some(Node(o))
    ensures Walk(Some(t), path) == Some(Node(o))
  {
    if path != [] {
      var u := Lookup(t.obj, path[0]).value;
      WalkFollowsToNode(u, path[1..], o);
    }
  }

  /**
   * Whatever the walk reaches was reached by a strict descent along a prefix of
   * the path; an object stops nothing, so an object is reached only by the whole path.
   */
  lemma {:induction false} WalkReachesByDescent(t: Tree, path: seq<string>, u: Tree)
    requires Walk(Some(t), path) == Some(u)
    ensures exists k :: 0 <= k <= |path| && Descend(t, path[..k]) == Some(u) && (u.Node? ==> k == |path|)
  {
    if path == [] {
      assert Descend(t, path[..0]) == Some(u);
    } else if t.Leaf? {
      WalkStops(Some(t), path);
      assert Descend(t, path[..0]) == Some(u);
    } else {
      var next := Lookup(t.obj, path[0]);
      if next.None? {
        assert false;
      }
      WalkReachesByDescent(next.value, path[1..], u);
      var k :| 0 <= k <= |path[1..]| && Descend(next.value, path[1..][..k]) == Some(u)
               && (u.Node? ==> k == |path[1..]|);
      assert path[..k + 1][0] == path[0] && path[..k + 1][1..] == path[1..][..k];
      assert Descend(t, path[..k + 1]) == Some(u);
    }
  }

  /** A key whose every segment leads, object by object, to a leaf resolves to exactly that leaf. */
  lemma ResolveLeaf(language: Obj, path: seq<string>, text: string)
    requires |path| >= 1
    requires forall i :: 0 <= i < |path| ==> DotFree(path[i])
    requires Descend(Node(language), path) == Some(Leaf(text))
    ensures GetTemplate(language, JoinDots(path)) == Some(Leaf(text))
  {
    SplitJoinDots(path);
    var first := Lookup(language, path[0]);
    WalkFollowsDescent(first.value, path[1..], text);
  }

  /** A key whose every segment leads, object by object, to an object resolves to that object. */
  lemma ResolveNode(language: Obj, path: seq<string>, o: Obj)
    requires |path| >= 1
    requires forall i :: 0 <= i < |path| ==> DotFree(path[i])
    requires Descend(Node(language), path) == Some(Node(o))
    ensures GetTemplate(language, JoinDots(path)) == Some(Node(o))
  {
    SplitJoinDots(path);
    var first := Lookup(language, path[0]);
    WalkFollowsToNode(first.value, path[1..], o);
  }

  /** Trailing segments after a leaf are ignored: `a.b.extra` resolves like `a.b`. */
  lemma ResolveIgnoresTrailing(language: Obj, path: seq<string>, extra: seq<string>, text: string)
    requires |path| >= 1
    requires forall i :: 0 <= i < |path| ==> DotFree(path[i])
    requires forall i :: 0 <= i < |extra| ==> DotFree(extra[i])
    requires Descend(Node(language), path) == Some(Leaf(text))
    ensures GetTemplate(language, JoinDots(path + extra)) == Some(Leaf(text))
  {
    var full := path + extra;
    DotFreeConcat(path, extra);
    SplitJoinDots(full);
    assert full[0] == path[0] && full[1..] == path[1..] + extra;
    WalkPastLeaf(Lookup(language, path[0]).value, path[1..], extra, text);
  }

  /** Segments after the leaf a strict path reaches leave the walk on that leaf. */
  lemma WalkPastLeaf(t: Tree, path: seq<string>, extra: seq<string>, text: string)
    requires Descend(t, path) == Some(Leaf(text))
    ensures Walk(Some(t), path + extra) == Some(Leaf(text))
  {
    WalkFollowsDescent(t, path, text);
    WalkAppend(Some(t), path, extra);
    WalkStops(Some(Leaf(text)), extra);
  }

  lemma DotFreeConcat(path: seq<string>, extra: seq<string>)
    requires forall i :: 0 <= i < |path| ==> DotFree(path[i])
    requires forall i :: 0 <= i < |extra| ==> DotFree(extra[i])
    ensures forall i :: 0 <= i < |path + extra| ==> DotFree((path + extra)[i])
  {
    forall i | 0 <= i < |path + extra|
      ensures DotFree((path + extra)[i])
    {
      if i < |path| {
        assert (path + extra)[i] == path[i];
      } else {
        assert (path + extra)[i] == extra[i - |path|];
      }
    }
  }

  /** A key whose first segment is not a child of the root resolves to `undefined`. */
  lemma ResolveMissingFirst(language: Obj, key: string)
    requires Lookup(language, Split(key)[0]).None?
    ensures GetTemplate(language, key).None?
  {
    WalkStops(None, Split(key)[1..]);
  }

  /**
   * Every resolved value is reached by a strict descent along a prefix of the
   * key's segments, and an object only along all of them.
   */
  lemma ResolveSound(language: Obj, key: string, u: Tree)
    requires GetTemplate(language, key) == Some(u)
    ensures exists k :: 1 <= k <= |Split(key)| && Descend(Node(language), Split(key)[..k]) == Some(u)
                        && (u.Node? ==> k == |Split(key)|)
  {
    var segs := Split(key);
    var first := Lookup(language, segs[0]);
    if first.None? {
      assert false;
    }
    WalkReachesByDescent(first.value, segs[1..], u);
    var k :| 0 <= k <= |segs[1..]| && Descend(first.value, segs[1..][..k]) == Some(u)
             && (u.Node? ==> k == |segs[1..]|);
    assert segs[..k + 1][0] == segs[0] && segs[..k + 1][1..] == segs[1..][..k];
    assert Descend(Node(language), segs[..k + 1]) == Some(u);
  }
}
