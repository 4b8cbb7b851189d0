/** Cascaded configuration trees and their flattening (libdm-config.c): the lookup
    tries one tree after the other, the flattened tree is one tree that answers the
    same. */
module ConfigFlatten {
  import opened ConfigTree
  import opened Wrappers

  // ---- the trees ----

  predicate PlainKey(key: string) {
    key != "" && '/' !in key
  }

  /** Siblings have different, plain keys and every leaf has a value. */
  predicate Regular(ns: seq<Node>)
    decreases ns
  {
    Distinct(Keys(ns)) && forall n <- ns :: RegularNode(n)
  }

  predicate RegularNode(n: Node)
    decreases n
  {
    PlainKey(n.key) && Regular(n.child) && (n.child == [] ==> n.v.Some?)
  }

  /** _find_first_config_node, from the k-th tree of the cascade on */
  function FindFirst(trees: seq<seq<Node>>, k: nat, q: seq<string>): Option<Node>
    requires k <= |trees| && q != []
    decreases |trees| - k
  {
    if k == |trees| then None
    else if Find(trees[k], q).Some? then Find(trees[k], q)
    else FindFirst(trees, k + 1, q)
  }

  // ---- what one tree says about a path ----

  datatype Hit = Miss | Inner | Leaf(v: Option<seq<Value>>)

  function HitAt(ns: seq<Node>, r: seq<string>): Hit {
    if r == [] then if ns == [] then Miss else Inner
    else
      var n := Find(ns, r);
      if n.None? then Miss else if n.value.child != [] then Inner else Leaf(n.value.v)
  }

  /** What a lookup in one tree shows: no node, or a node with or without a value. */
  function View(ns: seq<Node>, q: seq<string>): Option<Option<seq<Value>>>
    requires q != []
  {
    var n := Find(ns, q);
    if n.None? then None else Some(n.value.v)
  }

  /** A leaf replaces the value; a path on the way to a leaf only has to exist. */
  function Over(before: Option<Option<seq<Value>>>, hit: Hit): Option<Option<seq<Value>>> {
    match hit
    case Miss => before
    case Inner => if before.Some? then before else Some(None)
    case Leaf(v) => Some(v)
  }

  // ---- setting a value at a path ----

  lemma ViewHead(ns: seq<Node>, q: seq<string>)
    requires q != []
    ensures var k := Index(ns, q[0]);
      if k == |ns| then View(ns, q) == None
      else if |q| == 1 then View(ns, q) == Some(ns[k].v)
      else View(ns, q) == View(ns[k].child, q[1..])
  {
  }

  /** Making a path adds the nodes on it that were missing, without values. */
  lemma {:induction false} ViewMade(ns: seq<Node>, segs: seq<string>, q: seq<string>)
    requires segs != [] && q != []
    ensures View(Made(ns, segs), q) == Over(View(ns, q), if q <= segs then Inner else Miss)
    decreases |segs|
  {
    hide View, Find;
    var r := WithKey(ns, segs[0]);
    var k := Index(r, segs[0]);
    var made := Made(ns, segs);
    assert Keys(made) == Keys(r);
    SameIndex(r, made, q[0]);
    ViewHead(ns, q);
    ViewHead(made, q);
    if q[0] != segs[0] {
      IndexWithKey(ns, segs[0], q[0]);
    } else {
      PrefixHead(q, segs);
      if |q| > 1 {
        NewIsEmpty(q[1..]);
        if |segs| > 1 {
          ViewMade(r[k].child, segs[1..], q[1..]);
        }
      }
    }
  }

  lemma NewIsEmpty(q: seq<string>)
    requires q != []
    ensures View([], q) == None
  {
  }

  lemma {:induction false} ViewPut(ns: seq<Node>, segs: seq<string>, v: seq<Value>, q: seq<string>)
    requires segs != [] && q != [] && Find(ns, segs).Some?
    ensures View(Put(ns, segs, Find(ns, segs).value.(v := Some(v))), q)
      == if q == segs then Some(Some(v)) else View(ns, q)
    decreases |segs|
  {
    hide View;
    var k := Index(ns, segs[0]);
    var put := Put(ns, segs, Find(ns, segs).value.(v := Some(v)));
    assert Keys(put) == Keys(ns) by {
      KeyFound(ns, segs);
    }
    SameIndex(ns, put, q[0]);
    ViewHead(ns, q);
    ViewHead(put, q);
    if q[0] == segs[0] {
      PrefixHead(q, segs);
      if |segs| > 1 && |q| > 1 {
        ViewPut(ns[k].child, segs[1..], v, q[1..]);
      }
    }
  }

  lemma {:induction false} KeyFound(ns: seq<Node>, segs: seq<string>)
    requires segs != [] && Find(ns, segs).Some?
    ensures Find(ns, segs).value.key == segs[|segs| - 1]
    decreases |segs|
  {
    if |segs| > 1 {
      KeyFound(ns[Index(ns, segs[0])].child, segs[1..]);
    }
  }

  /** _override_path sets the value at exactly its path. */
  function Overridden(ns: seq<Node>, segs: seq<string>, v: seq<Value>): seq<Node>
    requires segs != []
  {
    Applied(ns, Assign(segs, v))
  }

  lemma ViewOverridden(ns: seq<Node>, segs: seq<string>, v: seq<Value>, q: seq<string>)
    requires segs != [] && q != []
    ensures View(Overridden(ns, segs, v), q)
      == if q == segs then Some(Some(v)) else Over(View(ns, q), if q <= segs then Inner else Miss)
  {
    hide View, Find, Made, Put;
    MadeFinds(ns, segs);
    ViewMade(ns, segs, q);
    ViewPut(Made(ns, segs), segs, v, q);
  }

  // ---- enumerating a tree ----

  /** _enumerate with _override_path, for the first k siblings below the path p. */
  function Enumerated(res: seq<Node>, ns: seq<Node>, k: nat, p: seq<string>): seq<Node>
    requires k <= |ns| && Regular(ns)
    decreases ns, k, 1
  {
    if k == 0 then res
    else EnumeratedNode(Enumerated(res, ns, k - 1, p), ns[k - 1], p)
  }

  function EnumeratedNode(res: seq<Node>, n: Node, p: seq<string>): seq<Node>
    requires RegularNode(n)
    decreases n, 0
  {
    if n.child != [] then Enumerated(res, n.child, |n.child|, p + [n.key])
    else Overridden(res, p + [n.key], n.v.value)
  }

  /** What siblings below the path p say about the path q. */
  function HitBelow(ns: seq<Node>, p: seq<string>, q: seq<string>): Hit {
    if p <= q then HitAt(ns, q[|p|..])
    else if q <= p && ns != [] then Inner
    else Miss
  }

  lemma SingleFind(n: Node, r: seq<string>)
    requires r != []
    ensures Find([n], r) == if r[0] != n.key then None else if |r| == 1 then Some(n) else Find(n.child, r[1..])
  {
  }

  lemma LeafBelow(n: Node, p: seq<string>, q: seq<string>)
    requires n.child == []
    ensures HitBelow([n], p, q)
      == if q == p + [n.key] then Leaf(n.v) else if q <= p + [n.key] then Inner else Miss
  {
    var segs := p + [n.key];
    if p <= q {
      var r := q[|p|..];
      assert q == p + r;
      if r != [] {
        SingleFind(n, r);
        assert q == segs <==> r == [n.key];
        assert q <= segs ==> q[|p|] == segs[|p|];
      }
    } else {
      assert q <= segs ==> q <= p;
    }
  }

  lemma InnerBelow(n: Node, p: seq<string>, q: seq<string>)
    requires n.child != []
    ensures HitBelow([n], p, q) == HitBelow(n.child, p + [n.key], q)
  {
    var segs := p + [n.key];
    if p <= q {
      var r := q[|p|..];
      assert q == p + r;
      if r != [] {
        SingleFind(n, r);
        if r[0] == n.key {
          assert r == [n.key] + r[1..];
          assert segs <= q && q[|segs|..] == r[1..];
        } else {
          assert q[|p|] != segs[|p|];
        }
      }
    } else {
      assert q <= segs ==> q <= p;
    }
  }

  /** One more sibling, with a key of its own. */
  lemma OneMoreSibling(ns: seq<Node>, k: nat, p: seq<string>, q: seq<string>, before: Option<Option<seq<Value>>>)
    requires 0 < k <= |ns| && Distinct(Keys(ns))
    ensures Over(Over(before, HitBelow(ns[..k - 1], p, q)), HitBelow([ns[k - 1]], p, q))
      == Over(before, HitBelow(ns[..k], p, q))
  {
    hide Over, HitAt;
    if p <= q && q[|p|..] != [] {
      SiblingHit(ns, k, q[|p|..]);
      OverMiss(before, HitAt(ns[..k - 1], q[|p|..]));
      OverMiss(Over(before, Miss), HitAt([ns[k - 1]], q[|p|..]));
    } else {
      NoSiblingHit(ns, k, before);
    }
  }

  lemma OverMiss(before: Option<Option<seq<Value>>>, hit: Hit)
    ensures Over(before, Miss) == before
    ensures Over(Over(before, hit), Miss) == Over(before, hit)
  {
  }

  lemma NoSiblingHit(ns: seq<Node>, k: nat, before: Option<Option<seq<Value>>>)
    requires 0 < k <= |ns|
    ensures HitAt(ns[..k - 1], []) == if k == 1 then Miss else Inner
    ensures HitAt([ns[k - 1]], []) == HitAt(ns[..k], []) == Inner
    ensures Over(Over(before, Inner), Inner) == Over(before, Inner)
      && Over(Over(before, Miss), Inner) == Over(before, Inner)
    ensures Over(Over(before, Miss), Miss) == Over(before, Miss)
  {
  }

  lemma HitHead(ns: seq<Node>, r: seq<string>)
    requires r != []
    ensures HitAt(ns, r) == if Index(ns, r[0]) == |ns| then Miss else HitAt([ns[Index(ns, r[0])]], r)
  {
    var k := Index(ns, r[0]);
    if k < |ns| {
      SingleFind(ns[k], r);
    }
  }

  lemma SiblingHit(ns: seq<Node>, k: nat, r: seq<string>)
    requires 0 < k <= |ns| && Distinct(Keys(ns)) && r != []
    ensures if r[0] == ns[k - 1].key then HitAt(ns[..k - 1], r) == Miss && HitAt(ns[..k], r) == HitAt([ns[k - 1]], r)
      else HitAt([ns[k - 1]], r) == Miss && HitAt(ns[..k], r) == HitAt(ns[..k - 1], r)
  {
    hide HitAt, Index;
    HitHead(ns[..k - 1], r);
    HitHead(ns[..k], r);
    HitHead([ns[k - 1]], r);
    FirstOfPrefix(ns, k - 1, r[0]);
    FirstOfPrefix(ns, k, r[0]);
    if r[0] == ns[k - 1].key {
      var i := Index(ns, r[0]);
      assert Keys(ns)[i] == ns[i].key && Keys(ns)[k - 1] == ns[k - 1].key;
    }
  }

  lemma FirstOfPrefix(ns: seq<Node>, k: nat, key: string)
    requires k <= |ns|
    ensures Index(ns[..k], key) == if Index(ns, key) < k then Index(ns, key) else k
  {
    var i, j := Index(ns[..k], key), Index(ns, key);
  }

  lemma {:induction false} ViewEnumeratedNode(res: seq<Node>, n: Node, p: seq<string>, q: seq<string>)
    requires RegularNode(n) && q != []
    ensures View(EnumeratedNode(res, n, p), q) == Over(View(res, q), HitBelow([n], p, q))
    decreases n, 0
  {
    hide View, HitBelow, Overridden, Over;
    if n.child == [] {
      LeafBelow(n, p, q);
      ViewOverridden(res, p + [n.key], n.v.value, q);
      OverLeaf(View(res, q), n.v);
    } else {
      InnerBelow(n, p, q);
      ViewEnumerated(res, n.child, |n.child|, p + [n.key], q);
      assert n.child[..|n.child|] == n.child;
    }
  }

  lemma OverLeaf(before: Option<Option<seq<Value>>>, v: Option<seq<Value>>)
    ensures Over(before, Leaf(v)) == Some(v)
  {
  }

  /** Enumerating a tree lays it over the result: its leaves win, and its other nodes
      exist. */
  lemma {:induction false} ViewEnumerated(res: seq<Node>, ns: seq<Node>, k: nat, p: seq<string>, q: seq<string>)
    requires k <= |ns| && Regular(ns) && q != []
    ensures View(Enumerated(res, ns, k, p), q) == Over(View(res, q), HitBelow(ns[..k], p, q))
    decreases ns, k, 1
  {
    hide View, EnumeratedNode, RegularNode;
    if k == 0 {
      NothingBelow(p, q);
    } else {
      ViewEnumerated(res, ns, k - 1, p, q);
      ViewEnumeratedNode(Enumerated(res, ns, k - 1, p), ns[k - 1], p, q);
      OneMoreSibling(ns, k, p, q, View(res, q));
    }
  }

  lemma NothingBelow(p: seq<string>, q: seq<string>)
    ensures HitBelow([], p, q) == Miss
  {
  }

  // ---- flattening ----

  ghost predicate RegularTrees(trees: seq<seq<Node>>) {
    forall ns <- trees :: Regular(ns)
  }

  /** dm_config_flatten, when the trees from the k-th on have been laid down. */
  function FlatFrom(trees: seq<seq<Node>>, k: nat): seq<Node>
    requires k <= |trees| && RegularTrees(trees)
    decreases |trees| - k
  {
    if k == |trees| then [] else Enumerated(FlatFrom(trees, k + 1), trees[k], |trees[k]|, [])
  }

  /** The first leaf that the cascade has at a path. */
  function FirstLeaf(trees: seq<seq<Node>>, k: nat, q: seq<string>): Option<Option<seq<Value>>>
    requires k <= |trees|
    decreases |trees| - k
  {
    if k == |trees| then None
    else if HitAt(trees[k], q).Leaf? then Some(HitAt(trees[k], q).v)
    else FirstLeaf(trees, k + 1, q)
  }

  /** The flattened tree on every path: the value of the first leaf there; without one,
      a node without a value where some tree has a node, and nothing otherwise. */
  lemma {:induction false} FlatView(trees: seq<seq<Node>>, k: nat, q: seq<string>)
    requires k <= |trees| && RegularTrees(trees) && q != []
    ensures View(FlatFrom(trees, k), q)
      == if FirstLeaf(trees, k, q).Some? then FirstLeaf(trees, k, q)
         else if FindFirst(trees, k, q).Some? then Some(None) else None
    decreases |trees| - k
  {
    if k == |trees| {
      NewIsEmpty(q);
    } else {
      hide View, Find, Enumerated, Regular;
      FlatView(trees, k + 1, q);
      ViewEnumerated(FlatFrom(trees, k + 1), trees[k], |trees[k]|, [], q);
      assert trees[k][..|trees[k]|] == trees[k] && q[0..] == q;
    }
  }

  lemma {:induction false} LeafIsFirst(trees: seq<seq<Node>>, k: nat, q: seq<string>)
    requires k <= |trees| && q != [] && FindFirst(trees, k, q).Some? && FindFirst(trees, k, q).value.child == []
    ensures FirstLeaf(trees, k, q) == Some(FindFirst(trees, k, q).value.v)
    decreases |trees| - k
  {
    if Find(trees[k], q).None? {
      LeafIsFirst(trees, k + 1, q);
    }
  }

  /** Whenever the cascaded lookup finds a leaf, the flattened tree has its value. */
  lemma FlattenKeepsLeaves(trees: seq<seq<Node>>, q: seq<string>)
    requires RegularTrees(trees) && q != []
    requires FindFirst(trees, 0, q).Some? && FindFirst(trees, 0, q).value.child == []
    ensures Find(FlatFrom(trees, 0), q).Some? && Find(FlatFrom(trees, 0), q).value.v == FindFirst(trees, 0, q).value.v
  {
    FlatView(trees, 0, q);
    LeafIsFirst(trees, 0, q);
  }

  /** What the cascaded lookup shows. */
  function CascadeView(trees: seq<seq<Node>>, q: seq<string>): Option<Option<seq<Value>>>
    requires q != []
  {
    var n := FindFirst(trees, 0, q);
    if n.None? then None else Some(n.value.v)
  }

  lemma {:induction false} FirstLeafExists(trees: seq<seq<Node>>, k: nat, q: seq<string>)
    requires k <= |trees| && q != []
    ensures FirstLeaf(trees, k, q).Some? <==> exists i :: k <= i < |trees| && HitAt(trees[i], q).Leaf?
    decreases |trees| - k
  {
    if k < |trees| {
      FirstLeafExists(trees, k + 1, q);
    }
  }

  /** The cascade has a section at the path whose own value is not that of a leaf which
      another tree has there; without such a leaf, a section with any value. */
  predicate SectionDiffers(trees: seq<seq<Node>>, q: seq<string>)
    requires q != []
  {
    var n, leaf := FindFirst(trees, 0, q), FirstLeaf(trees, 0, q);
    n.Some? && n.value.child != [] && n.value.v != (if leaf.Some? then leaf.value else None)
  }

  /** Cascade and flattened tree agree on a path exactly when no such section is there. */
  lemma FlattenAgrees(trees: seq<seq<Node>>, q: seq<string>)
    requires RegularTrees(trees) && q != []
    ensures View(FlatFrom(trees, 0), q) == CascadeView(trees, q) <==> !SectionDiffers(trees, q)
  {
    hide View, HitAt, FlatFrom, RegularTrees;
    FlatView(trees, 0, q);
    if FindFirst(trees, 0, q).None? {
      NoLeaf(trees, 0, q);
    } else if FindFirst(trees, 0, q).value.child == [] {
      LeafIsFirst(trees, 0, q);
    }
  }

  lemma {:induction false} NoLeaf(trees: seq<seq<Node>>, k: nat, q: seq<string>)
    requires k <= |trees| && q != [] && FindFirst(trees, k, q).None?
    ensures FirstLeaf(trees, k, q).None?
    decreases |trees| - k
  {
    if k < |trees| {
      NoLeaf(trees, k + 1, q);
    }
  }

  /** A section with a value of its own loses it. */
  lemma SectionValueLost(v: seq<Value>, w: seq<Value>)
    ensures var trees := [[Node("a", Some(v), [Node("b", Some(w), [])])]];
      RegularTrees(trees) && CascadeView(trees, ["a"]) == Some(Some(v)) && View(FlatFrom(trees, 0), ["a"]) == Some(None)
  {
    var inner := [Node("b", Some(w), [])];
    var ns := [Node("a", Some(v), inner)];
    assert RegularNode(inner[0]) && Regular(inner);
    assert RegularNode(ns[0]) && Regular(ns);
    assert FindFirst([ns], 0, ["a"]) == Some(ns[0]);
    assert FirstLeaf([ns], 1, ["a"]) == None;
    FlatView([ns], 0, ["a"]);
  }

  /** The trees agree on which paths are leaves. */
  ghost predicate SameLeaves(trees: seq<seq<Node>>) {
    forall i, j, q: seq<string> {:trigger HitAt(trees[i], q), HitAt(trees[j], q)} ::
      0 <= i < |trees| && 0 <= j < |trees| && HitAt(trees[i], q).Leaf? ==> !HitAt(trees[j], q).Inner? || q == []
  }

  lemma {:induction false} FoundAt(trees: seq<seq<Node>>, k: nat, q: seq<string>) returns (i: nat)
    requires k <= |trees| && q != [] && FindFirst(trees, k, q).Some?
    ensures k <= i < |trees| && Find(trees[i], q) == FindFirst(trees, k, q)
    decreases |trees| - k
  {
    if Find(trees[k], q).Some? {
      i := k;
    } else {
      i := FoundAt(trees, k + 1, q);
    }
  }

  /** When sections carry no values and the trees agree on which paths are leaves, both answer every path alike. */
  lemma FlattenPreserves(trees: seq<seq<Node>>, q: seq<string>)
    requires RegularTrees(trees) && q != [] && SameLeaves(trees)
    requires forall n :: FindFirst(trees, 0, q) == Some(n) && n.child != [] ==> n.v == None
    ensures View(FlatFrom(trees, 0), q) == CascadeView(trees, q)
  {
    hide View, FlatFrom, RegularTrees;
    FlattenAgrees(trees, q);
    FirstLeafExists(trees, 0, q);
    if FindFirst(trees, 0, q).Some? {
      var i := FoundAt(trees, 0, q);
      assert FindFirst(trees, 0, q).value.child != [] ==> HitAt(trees[i], q).Inner?;
    }
  }

  // ---- the loops ----

  /** The text of a path, with a slash before every key. */
  function PathText(segs: seq<string>): string {
    if segs == [] then "" else "/" + segs[0] + PathText(segs[1..])
  }

  predicate PlainKeys(segs: seq<string>) {
    forall key <- segs :: PlainKey(key)
  }

  lemma {:induction false} SegmentsBack(segs: seq<string>)
    requires segs != [] && PlainKeys(segs)
    ensures Segments(PathText(segs)) == segs
  {
    var rest := PathText(segs[1..]);
    var path := "/" + segs[0] + rest;
    FirstSegment(segs[0], rest);
    assert segs == [segs[0]] + segs[1..];
    if |segs| > 1 {
      SegmentsBack(segs[1..]);
    }
  }

  lemma FirstSegment(key: string, rest: string)
    requires PlainKey(key) && (rest == "" || rest[0] == '/')
    ensures Segments("/" + key + rest) == if rest == "" then [key] else [key] + Segments(rest)
  {
    var path := "/" + key + rest;
    assert path[1..] == key + rest;
    assert SkipSlashes(path) == SkipSlashes(key + rest);
    SkipsSlashes(key + rest);
    hide SkipSlashes;
    KeyExtent(key, rest);
    assert (key + rest)[..|key|] == key && (key + rest)[|key|..] == rest;
    assert key + "" == key;
  }

  lemma {:induction false} KeyExtent(key: string, rest: string)
    requires '/' !in key && (rest == "" || rest[0] == '/')
    ensures SegmentLength(key + rest) == |key|
  {
    if key == "" {
      assert key + rest == rest;
    } else {
      KeyExtent(key[1..], rest);
      assert (key + rest)[1..] == key[1..] + rest;
    }
  }

  lemma {:induction false} PathNext(segs: seq<string>, key: string)
    ensures PathText(segs + [key]) == PathText(segs) + "/" + key
  {
    if segs == [] {
      assert segs + [key] == [key];
      assert PathText([key]) == "/" + key + "";
    } else {
      PathNext(segs[1..], key);
      assert (segs + [key])[1..] == segs[1..] + [key];
    }
  }

  /** The tree that is being flattened into. */
  class FlatTree {
    var root: seq<Node>

    constructor ()
      ensures root == []
    {
      root := [];
    }

    /** _override_path */
    method OverridePath(path: string, v: seq<Value>)
      modifies this
      ensures root == Overridden(old(root), Segments(path), v)
    {
      var segs := Segments(path);
      var made := Made(root, segs);
      MadeFinds(root, segs);
      root := Put(made, segs, Find(made, segs).value.(v := Some(v)));
    }

    /** _enumerate, with _override_path for every leaf */
    method Enumerate(path: string, ns: seq<Node>, ghost p: seq<string>)
      requires Regular(ns) && PlainKeys(p) && path == PathText(p)
      modifies this
      ensures root == Enumerated(old(root), ns, |ns|, p)
      decreases ns
    {
      hide PathText, Overridden, Segments;
      for i := 0 to |ns|
        invariant root == Enumerated(old(root), ns, i, p)
      {
        var n := ns[i];
        assert RegularNode(n) && PlainKeys(p + [n.key]);
        var sub := path + "/" + n.key;
        PathNext(p, n.key);
        if n.child != [] {
          Enumerate(sub, n.child, p + [n.key]);
        } else {
          SegmentsBack(p + [n.key]);
          OverridePath(sub, n.v.value);
        }
      }
    }

    /** dm_config_flatten: the last tree of the cascade first, each found by a walk
        from the first. */
    method Flatten(trees: seq<seq<Node>>)
      requires RegularTrees(trees) && root == []
      modifies this
      ensures root == FlatFrom(trees, 0)
    {
      hide Enumerated, Regular;
      var done := |trees|;
      while done != 0
        invariant 0 <= done <= |trees| && root == FlatFrom(trees, done)
        decreases done
      {
        var current := 0;
        while current + 1 != done
          invariant 0 <= current < done
        {
          current := current + 1;
        }
        assert PathText([]) == "";
        Enumerate("", trees[current], []);
        done := current;
      }
    }
  }

  /** _find_first_config_node */
  method FindFirstNode(trees: seq<seq<Node>>, path: string) returns (found: Option<Node>)
    ensures found == FindFirst(trees, 0, Segments(path))
  {
    hide Find, Segments;
    for i := 0 to |trees|
      invariant FindFirst(trees, i, Segments(path)) == FindFirst(trees, 0, Segments(path))
    {
      found := FindNode(trees[i], path);
      if found.Some? {
        return;
      }
    }
    found := None;
  }
}
