/** Configuration nodes (libdm-config.c): siblings are lists, paths find the first
    sibling with each key, and a missing node is put in front of its siblings. */
module ConfigTree {
  import opened Wrappers

  /** A float is kept as the text of its token. */
  datatype Value = Int(i: int) | Float(text: string) | Str(s: string)

  /** A value is a list; the empty array is the empty list. */
  datatype Node = Node(key: string, v: Option<seq<Value>>, child: seq<Node>)

  // ---- paths ----

  function SkipSlashes(path: string): (r: string)
    ensures |r| <= |path|
    ensures r != "" ==> r[0] != '/'
  {
    if path != "" && path[0] == '/' then SkipSlashes(path[1..]) else path
  }

  function SegmentLength(path: string): (n: nat)
    ensures n <= |path|
    ensures forall i :: 0 <= i < n ==> path[i] != '/'
    ensures n < |path| ==> path[n] == '/'
  {
    if path == "" || path[0] == '/' then 0 else 1 + SegmentLength(path[1..])
  }

  /** The keys of a path; slashes at the end ask for an empty key. */
  function Segments(path: string): (segs: seq<string>)
    ensures segs != []
    decreases |path|
  {
    var p := SkipSlashes(path);
    var n := SegmentLength(p);
    if n == |p| then [p] else [p[..n]] + Segments(p[n..])
  }

  // ---- nodes ----

  function Keys(ns: seq<Node>): (ks: seq<string>)
    ensures |ks| == |ns| && forall i :: 0 <= i < |ks| ==> ks[i] == ns[i].key
  {
    seq(|ns|, i requires 0 <= i < |ns| => ns[i].key)
  }

  /** The first sibling with the key, or the end. */
  function Index(ns: seq<Node>, key: string): (k: nat)
    ensures k <= |ns| && (k < |ns| ==> ns[k].key == key)
    ensures forall i :: 0 <= i < k ==> ns[i].key != key
  {
    if ns == [] || ns[0].key == key then 0 else 1 + Index(ns[1..], key)
  }

  /** _find_or_make_node without a pool */
  function Find(ns: seq<Node>, segs: seq<string>): Option<Node>
    requires segs != []
    decreases |segs|
  {
    var k := Index(ns, segs[0]);
    if k == |ns| then None
    else if |segs| == 1 then Some(ns[k])
    else Find(ns[k].child, segs[1..])
  }

  /** The same walk over the text of the path, segment by segment. */
  method FindNode(ns: seq<Node>, path: string) returns (found: Option<Node>)
    ensures found == Find(ns, Segments(path))
  {
    var cn, p := ns, path;
    while cn != []
      invariant Find(cn, Segments(p)) == Find(ns, Segments(path))
      decreases |p|
    {
      p := SkipSlashes(p);
      SkipsSlashes(p);
      var e := SegmentLength(p);
      var k := Index(cn, p[..e]);
      found := if k == |cn| then None else Some(cn[k]);
      if found.None? || e == |p| {
        return;
      }
      cn, p := cn[k].child, p[e..];
    }
    found := None;
  }

  lemma SkipsSlashes(p: string)
    requires p != "" ==> p[0] != '/'
    ensures SkipSlashes(p) == p
  {
  }

  /** With the key in front, if no sibling has it. */
  function WithKey(ns: seq<Node>, key: string): (r: seq<Node>)
    ensures Index(r, key) < |r|
  {
    if Index(ns, key) == |ns| then [Node(key, None, [])] + ns else ns
  }

  /** The tree that _find_or_make_node leaves. */
  function Made(ns: seq<Node>, segs: seq<string>): (r: seq<Node>)
    requires segs != []
    decreases |segs|
  {
    var r := WithKey(ns, segs[0]);
    var k := Index(r, segs[0]);
    if |segs| == 1 then r else r[k := r[k].(child := Made(r[k].child, segs[1..]))]
  }

  /** The tree with another node where the path leads. */
  function Put(ns: seq<Node>, segs: seq<string>, n: Node): (r: seq<Node>)
    requires segs != [] && Find(ns, segs).Some?
    ensures |r| == |ns|
    decreases |segs|
  {
    var k := Index(ns, segs[0]);
    if |segs| == 1 then ns[k := n]
    else ns[k := ns[k].(child := Put(ns[k].child, segs[1..], n))]
  }

  lemma {:induction false} MadeFinds(ns: seq<Node>, segs: seq<string>)
    requires segs != []
    ensures Find(Made(ns, segs), segs).Some? && Find(Made(ns, segs), segs).value.key == segs[|segs| - 1]
    decreases |segs|
  {
    var r := WithKey(ns, segs[0]);
    var k := Index(r, segs[0]);
    if |segs| > 1 {
      MadeFinds(r[k].child, segs[1..]);
      SameIndex(r, Made(ns, segs), segs[0]);
    }
  }

  /** The first sibling with a key depends on the keys only. */
  lemma {:induction false} SameIndex(a: seq<Node>, b: seq<Node>, key: string)
    requires Keys(a) == Keys(b)
    ensures Index(a, key) == Index(b, key)
  {
    var k := Index(a, key);
    assert |a| == |b|;
    assert forall i :: 0 <= i < |a| ==> a[i].key == Keys(a)[i] && b[i].key == Keys(b)[i];
  }

  lemma IndexWithKey(ns: seq<Node>, key: string, other: string)
    requires other != key
    ensures var r := WithKey(ns, key);
      if Index(ns, other) == |ns| then Index(r, other) == |r|
      else Index(r, other) < |r| && r[Index(r, other)] == ns[Index(ns, other)]
  {
    if Index(ns, key) == |ns| {
      assert ([Node(key, None, [])] + ns)[1..] == ns;
    }
  }

  lemma PrefixHead(q: seq<string>, segs: seq<string>)
    requires q != [] && segs != [] && q[0] == segs[0]
    ensures q <= segs <==> q[1..] <= segs[1..]
    ensures q == segs <==> q[1..] == segs[1..]
  {
    assert q == [q[0]] + q[1..] && segs == [segs[0]] + segs[1..];
  }

  // ---- what a configuration file says ----

  /** One entry of a file: a value for a path, or a section at a path. */
  datatype Entry = Assign(segs: seq<string>, v: seq<Value>) | Section(segs: seq<string>, body: seq<Entry>)

  predicate IsEntry(e: Entry)
    decreases e
  {
    e.segs != [] && (e.Section? ==> forall x <- e.body :: IsEntry(x))
  }

  predicate AreEntries(es: seq<Entry>) {
    forall e <- es :: IsEntry(e)
  }

  /** What _section does to the children of its parent. */
  function Applied(ns: seq<Node>, e: Entry): seq<Node>
    requires IsEntry(e)
    decreases e, 0
  {
    var made := Made(ns, e.segs);
    MadeFinds(ns, e.segs);
    var n := Find(made, e.segs).value;
    match e
    case Assign(_, v) => Put(made, e.segs, n.(v := Some(v)))
    case Section(_, body) => Put(made, e.segs, n.(child := AppliedAll(n.child, body, |body|)))
  }

  /** The first n entries, one after the other. */
  function AppliedAll(ns: seq<Node>, es: seq<Entry>, n: nat): seq<Node>
    requires n <= |es| && AreEntries(es)
    decreases es, n
  {
    if n == 0 then ns else Applied(AppliedAll(ns, es, n - 1), es[n - 1])
  }

  // ---- siblings never share a key ----

  predicate Distinct(ks: seq<string>) {
    forall i, j :: 0 <= i < j < |ks| ==> ks[i] != ks[j]
  }

  predicate Unique(ns: seq<Node>) {
    Distinct(Keys(ns)) && forall n <- ns :: Unique(n.child)
  }

  lemma UniqueWithKey(ns: seq<Node>, key: string)
    requires Unique(ns)
    ensures Unique(WithKey(ns, key))
  {
    var r := WithKey(ns, key);
    if Index(ns, key) == |ns| {
      assert Unique(Node(key, None, []).child);
    }
  }

  /** Exchanging the children of one sibling. */
  lemma UniqueUpdate(ns: seq<Node>, k: nat, n: Node)
    requires Unique(ns) && k < |ns| && n.key == ns[k].key && Unique(n.child)
    ensures Unique(ns[k := n]) && Keys(ns[k := n]) == Keys(ns)
  {
    assert Keys(ns[k := n]) == Keys(ns);
  }

  lemma {:induction false} UniqueMade(ns: seq<Node>, segs: seq<string>)
    requires Unique(ns) && segs != []
    ensures Unique(Made(ns, segs))
    decreases |segs|
  {
    var r := WithKey(ns, segs[0]);
    var k := Index(r, segs[0]);
    UniqueWithKey(ns, segs[0]);
    if |segs| > 1 {
      assert r[k] in r;
      UniqueMade(r[k].child, segs[1..]);
      UniqueUpdate(r, k, r[k].(child := Made(r[k].child, segs[1..])));
    }
  }

  lemma {:induction false} UniquePut(ns: seq<Node>, segs: seq<string>, n: Node)
    requires Unique(ns) && segs != [] && Find(ns, segs).Some? && n.key == segs[|segs| - 1] && Unique(n.child)
    ensures Unique(Put(ns, segs, n))
    decreases |segs|
  {
    var k := Index(ns, segs[0]);
    if |segs| == 1 {
      UniqueUpdate(ns, k, n);
    } else {
      assert ns[k] in ns;
      UniquePut(ns[k].child, segs[1..], n);
      UniqueUpdate(ns, k, ns[k].(child := Put(ns[k].child, segs[1..], n)));
    }
  }

  lemma {:induction false} UniqueFind(ns: seq<Node>, segs: seq<string>)
    requires Unique(ns) && segs != [] && Find(ns, segs).Some?
    ensures Unique(Find(ns, segs).value.child)
    decreases |segs|
  {
    var k := Index(ns, segs[0]);
    assert ns[k] in ns;
    if |segs| > 1 {
      UniqueFind(ns[k].child, segs[1..]);
    }
  }

  lemma {:induction false} UniqueApplied(ns: seq<Node>, e: Entry)
    requires Unique(ns) && IsEntry(e)
    ensures Unique(Applied(ns, e))
    decreases e, 0
  {
    var made := Made(ns, e.segs);
    MadeFinds(ns, e.segs);
    UniqueMade(ns, e.segs);
    UniqueFind(made, e.segs);
    var n := Find(made, e.segs).value;
    match e
    case Assign(_, v) =>
      UniquePut(made, e.segs, n.(v := Some(v)));
    case Section(_, body) =>
      UniqueAppliedAll(n.child, body, |body|);
      UniquePut(made, e.segs, n.(child := AppliedAll(n.child, body, |body|)));
  }

  /** Whatever a file says, siblings never share a key. */
  lemma {:induction false} UniqueAppliedAll(ns: seq<Node>, es: seq<Entry>, n: nat)
    requires Unique(ns) && n <= |es| && AreEntries(es)
    ensures Unique(AppliedAll(ns, es, n))
    decreases es, n
  {
    if n > 0 {
      UniqueAppliedAll(ns, es, n - 1);
      UniqueApplied(AppliedAll(ns, es, n - 1), es[n - 1]);
    }
  }
}
