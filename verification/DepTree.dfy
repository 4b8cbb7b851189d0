/** The two-way linked device dependency tree of libdm-deptree.c: `uses` and
    `used_by` lists, the root that stands in for missing parents and children,
    and `_add_dev`, which grows the tree from the kernel's dependency lists. */
module DepTree {

  datatype Dev = Dev(major: nat, minor: nat)
  datatype NodeId = Root | Device(dev: Dev)

  /** What every node's `uses` and `used_by` lists hold at one moment. */
  datatype Links = Links(uses: map<NodeId, seq<NodeId>>, usedBy: map<NodeId, seq<NodeId>>)

  ghost predicate NoDup(s: seq<NodeId>) {
    forall i, j :: 0 <= i < j < |s| ==> s[i] != s[j]
  }

  // ---- what the header comment of dm_tree_create promises ----

  /** `uses` and `used_by` are each other's converse, and no link is doubled. */
  ghost predicate Mirrored(l: Links) {
    && l.uses.Keys == l.usedBy.Keys
    && Root in l.uses
    && (forall n :: n in l.uses ==> NoDup(l.uses[n]))
    && (forall n :: n in l.usedBy ==> NoDup(l.usedBy[n]))
    && (forall p, c :: Uses(l, p, c) <==> UsedBy(l, p, c))
  }

  /** The nodes a node uses. */
  ghost function Kids(l: Links, n: NodeId): set<NodeId>
    requires n in l.uses
  {
    set c | c in l.uses[n]
  }

  predicate Uses(l: Links, p: NodeId, c: NodeId) {
    p in l.uses && c in l.uses[p]
  }

  predicate UsedBy(l: Links, p: NodeId, c: NodeId) {
    c in l.usedBy && p in l.usedBy[c]
  }

  /** The root is listed only where nothing else is. */
  predicate RootAlone(s: seq<NodeId>) {
    Root in s ==> s == [Root]
  }

  /** Every device but those just made has a parent, the root being one exactly
      when it is the only one. */
  ghost predicate ParentsRule(l: Links, made: set<NodeId>) {
    && !Uses(l, Root, Root)
    && forall n :: n in l.usedBy && n != Root ==> RootAlone(l.usedBy[n]) && (n !in made ==> l.usedBy[n] != [])
  }

  /** The same below, for every device whose dependencies have all been added. */
  ghost predicate ChildrenRule(l: Links, open: set<NodeId>) {
    forall n :: n in l.uses && n != Root ==> RootAlone(l.uses[n]) && (n !in open ==> l.uses[n] != [])
  }

  ghost predicate WellLinked(l: Links, open: set<NodeId>) {
    Mirrored(l) && ParentsRule(l, {}) && ChildrenRule(l, open)
  }

  // ---- link and unlink ----

  /** The list without its first occurrence of x. */
  function Remove(s: seq<NodeId>, x: NodeId): seq<NodeId> {
    if s == [] then [] else if s[0] == x then s[1..] else [s[0]] + Remove(s[1..], x)
  }

  function WithLink(l: Links, p: NodeId, c: NodeId): Links
    requires p in l.uses && c in l.usedBy
  {
    if c in l.uses[p] then l
    else Links(l.uses[p := l.uses[p] + [c]], l.usedBy[c := l.usedBy[c] + [p]])
  }

  function WithoutLink(l: Links, p: NodeId, c: NodeId): Links
    requires p in l.uses && c in l.usedBy
  {
    if c !in l.uses[p] then l
    else Links(l.uses[p := Remove(l.uses[p], c)], l.usedBy[c := Remove(l.usedBy[c], p)])
  }

  /** dm_tree_node_num_children: a link with the root counts as none. */
  function NumParents(l: Links, n: NodeId): nat
    requires n in l.usedBy && Root in l.uses
  {
    if n in l.uses[Root] then 0 else |l.usedBy[n]|
  }

  function NumChildren(l: Links, n: NodeId): nat
    requires n in l.uses
  {
    if Root in l.uses[n] then 0 else |l.uses[n]|
  }

  function LinkTree(l: Links, p: NodeId, c: NodeId): Links
    requires p in l.uses && p in l.usedBy && c in l.uses && c in l.usedBy && Root in l.uses && Root in l.usedBy
  {
    if p == Root && NumParents(l, c) > 0 then l else
    var l1 := if p == Root then l else WithoutLink(l, Root, c);
    if c == Root && NumChildren(l1, p) > 0 then l1 else
    var l2 := if c == Root then l1 else WithoutLink(l1, p, Root);
    WithLink(l2, p, c)
  }

  lemma {:induction false} RemoveEffect(s: seq<NodeId>, x: NodeId)
    requires NoDup(s)
    ensures NoDup(Remove(s, x))
    ensures forall y :: y in Remove(s, x) <==> y in s && y != x
    ensures x !in s ==> Remove(s, x) == s
  {
    if s != [] {
      assert s == [s[0]] + s[1..];
      if s[0] != x {
        RemoveEffect(s[1..], x);
        assert s[0] !in s[1..];
      }
    }
  }

  lemma LinkEffect(l: Links, p: NodeId, c: NodeId)
    requires Mirrored(l) && p in l.uses && c in l.uses
    ensures var l' := WithLink(l, p, c);
      Mirrored(l') && forall x, y :: Uses(l', x, y) <==> Uses(l, x, y) || (x == p && y == c)
  {
    var l' := WithLink(l, p, c);
    assert Uses(l, p, c) <==> UsedBy(l, p, c);
    forall x, y
      ensures Uses(l', x, y) <==> Uses(l, x, y) || (x == p && y == c)
      ensures UsedBy(l', x, y) <==> UsedBy(l, x, y) || (x == p && y == c)
    {
    }
  }

  lemma UnlinkEffect(l: Links, p: NodeId, c: NodeId)
    requires Mirrored(l) && p in l.uses && c in l.uses
    ensures var l' := WithoutLink(l, p, c);
      Mirrored(l') && forall x, y :: Uses(l', x, y) <==> Uses(l, x, y) && !(x == p && y == c)
  {
    var l' := WithoutLink(l, p, c);
    RemoveEffect(l.uses[p], c);
    RemoveEffect(l.usedBy[c], p);
    assert Uses(l, p, c) <==> UsedBy(l, p, c);
    forall x, y
      ensures Uses(l', x, y) <==> Uses(l, x, y) && !(x == p && y == c)
      ensures UsedBy(l', x, y) <==> UsedBy(l, x, y) && !(x == p && y == c)
    {
    }
  }

  /** `_link_tree_nodes` for two devices: the pair is linked, the root is cut
      from both sides, and every other link stays. */
  lemma LinkTreeDevices(l: Links, p: NodeId, c: NodeId)
    requires Mirrored(l) && p in l.uses && c in l.uses && p != Root && c != Root
    ensures var l' := LinkTree(l, p, c);
      && Mirrored(l') && l'.uses.Keys == l.uses.Keys
      && (forall x, y :: Uses(l', x, y) <==>
           (x == p && y == c) || (Uses(l, x, y) && !(x == Root && y == c) && !(x == p && y == Root)))
      && (forall n :: n in l.uses && n != p && n != Root ==> l'.uses[n] == l.uses[n])
      && (forall n :: n in l.usedBy && n != c && n != Root ==> l'.usedBy[n] == l.usedBy[n])
  {
    UnlinkEffect(l, Root, c);
    var l1 := WithoutLink(l, Root, c);
    UnlinkEffect(l1, p, Root);
    var l2 := WithoutLink(l1, p, Root);
    LinkEffect(l2, p, c);
  }

  /** `_link_tree_nodes` from the root: the root becomes a parent only of a
      device that has no other. */
  lemma LinkTreeFromRoot(l: Links, c: NodeId)
    requires Mirrored(l) && c in l.uses && c != Root && RootAlone(l.usedBy[c]) && !Uses(l, Root, Root)
    ensures var l' := LinkTree(l, Root, c);
      && Mirrored(l') && l'.uses.Keys == l.uses.Keys
      && (forall n :: n in l.uses && n != Root ==> l'.uses[n] == l.uses[n])
      && (forall n :: n in l.usedBy && n != c ==> l'.usedBy[n] == l.usedBy[n])
      && l'.usedBy[c] == if l.usedBy[c] == [] then [Root] else l.usedBy[c]
  {
    assert Uses(l, Root, c) <==> UsedBy(l, Root, c);
    LinkEffect(l, Root, c);
  }

  /** Attaching c below p restores the rules for c, and leaves p with a child. */
  lemma AttachKeepsRules(l: Links, p: NodeId, c: NodeId, open: set<NodeId>)
    requires Mirrored(l) && ParentsRule(l, {c}) && ChildrenRule(l, open)
    requires p in l.uses && c in l.uses && c != Root
    ensures var l' := LinkTree(l, p, c);
      && WellLinked(l', open - {p}) && l'.uses.Keys == l.uses.Keys
      && (forall n :: n in l.uses && n != p && n != Root ==> l'.uses[n] == l.uses[n])
      && (p != Root ==> Kids(l', p) == Kids(l, p) - {Root} + {c})
  {
    hide LinkTree;
    var l' := LinkTree(l, p, c);
    if p == Root {
      LinkTreeFromRoot(l, c);
      assert Uses(l', Root, Root) <==> UsedBy(l', Root, Root);
      assert Uses(l, Root, Root) <==> UsedBy(l, Root, Root);
    } else {
      LinkTreeDevices(l, p, c);
      assert UsedBy(l', p, c) && !UsedBy(l', Root, c) by {
        assert Uses(l', p, c) && !Uses(l', Root, c);
      }
      forall y ensures y in l'.uses[p] <==> y != Root && (y in l.uses[p] || y == c) {
        assert Uses(l', p, y) <==> y in l'.uses[p];
        assert Uses(l, p, y) <==> y in l.uses[p];
      }
      assert c in l'.uses[p];
      assert p in l'.usedBy[c] && Root !in l'.usedBy[c];
    }
  }

  function Made(l: Links, n: NodeId): Links {
    Links(l.uses[n := []], l.usedBy[n := []])
  }

  lemma MadeKeepsRules(l: Links, n: NodeId, open: set<NodeId>)
    requires WellLinked(l, open) && n !in l.uses
    ensures Mirrored(Made(l, n)) && ParentsRule(Made(l, n), {n}) && ChildrenRule(Made(l, n), open + {n})
  {
    var l' := Made(l, n);
    forall x, y ensures Uses(l', x, y) <==> UsedBy(l', x, y) {
      assert Uses(l, x, y) <==> UsedBy(l, x, y);
    }
    assert Uses(l, Root, Root) <==> UsedBy(l, Root, Root);
  }

  /** A childless device gets the root for a child. */
  lemma BottomKeepsRules(l: Links, n: NodeId, open: set<NodeId>)
    requires WellLinked(l, open) && n in l.uses && n != Root && l.uses[n] == []
    ensures var l' := WithLink(l, n, Root);
      && WellLinked(l', open - {n}) && l'.uses == l.uses[n := [Root]]
  {
    LinkEffect(l, n, Root);
  }

  // ---- the kernel's dependency lists ----

  /** The mapped devices that exist, with the devices each one's table uses.
      Any other device is a leaf: not device-mapper, or gone. */
  type Kernel = map<Dev, seq<Dev>>

  function DepsOf(k: Kernel, d: Dev): seq<Dev> {
    if d in k then k[d] else []
  }

  ghost predicate DepPath(k: Kernel, path: seq<Dev>) {
    path != [] && forall i :: 0 <= i < |path| - 1 ==> path[i + 1] in DepsOf(k, path[i])
  }

  /** b is reached from a by following zero or more dependencies. */
  ghost predicate Reaches(k: Kernel, a: Dev, b: Dev) {
    exists path: seq<Dev> :: DepPath(k, path) && path[0] == a && path[|path| - 1] == b
  }

  lemma ReachesSelf(k: Kernel, a: Dev)
    ensures Reaches(k, a, a)
  {
    assert DepPath(k, [a]) && [a][0] == a && [a][|[a]| - 1] == a;
  }

  lemma ReachesStep(k: Kernel, a: Dev, b: Dev, c: Dev)
    requires b in DepsOf(k, a) && Reaches(k, b, c)
    ensures Reaches(k, a, c)
  {
    var path: seq<Dev> :| DepPath(k, path) && path[0] == b && path[|path| - 1] == c;
    var longer := [a] + path;
    assert forall i :: 0 < i < |longer| ==> longer[i] == path[i - 1];
    assert DepPath(k, longer) && longer[0] == a && longer[|longer| - 1] == c;
  }

  ghost predicate DepClosed(k: Kernel, nodes: set<NodeId>) {
    forall d, e :: Device(d) in nodes && e in DepsOf(k, d) ==> Device(e) in nodes
  }

  lemma {:induction false} PathStaysInside(k: Kernel, nodes: set<NodeId>, path: seq<Dev>)
    requires DepClosed(k, nodes) && DepPath(k, path) && Device(path[0]) in nodes
    ensures Device(path[|path| - 1]) in nodes
  {
    if |path| > 1 {
      var tail := path[1..];
      assert path[1] in DepsOf(k, path[0]);
      assert DepPath(k, tail) by {
        forall i | 0 <= i < |tail| - 1 ensures tail[i + 1] in DepsOf(k, tail[i]) {
          assert path[i + 1 + 1] in DepsOf(k, path[i + 1]);
        }
      }
      PathStaysInside(k, nodes, tail);
    }
  }

  ghost function Nodes(deps: seq<Dev>): set<NodeId> {
    set d | d in deps :: Device(d)
  }

  /** The links of a device whose dependencies were all added are its dependency
      list without repetitions, or the root when that list is empty. */
  ghost predicate ExactUses(k: Kernel, l: Links, n: NodeId) {
    n.Device? && n in l.uses &&
    Kids(l, n) == if DepsOf(k, n.dev) == [] then {Root} else Nodes(DepsOf(k, n.dev))
  }

  /** From `before` to `after`, only devices reachable from d were made, and only
      the lists of the root and of `parent` may name different children. */
  ghost predicate Grew(k: Kernel, before: Links, after: Links, parent: NodeId, d: Dev) {
    && Mirrored(after) && ParentsRule(after, {}) && before.uses.Keys <= after.uses.Keys
    && (forall n :: n in before.uses && n != Root && n != parent ==> after.uses[n] == before.uses[n])
    && (forall n :: n in after.uses && n !in before.uses ==> n.Device? && Reaches(k, d, n.dev))
  }

  /** d was linked below its parent. */
  ghost predicate Attached(before: Links, after: Links, parent: NodeId, d: Dev) {
    parent != Root && parent in before.uses && parent in after.uses ==>
      Kids(after, parent) == Kids(before, parent) - {Root} + {Device(d)}
  }

  /** Every device made is complete, and d is a child of its parent. */
  ghost predicate Added(k: Kernel, before: Links, after: Links, parent: NodeId, d: Dev, open: set<NodeId>) {
    && Grew(k, before, after, parent, d)
    && Attached(before, after, parent, d)
    && ChildrenRule(after, open - {parent}) && Device(d) in after.uses
    && (forall n :: n in after.uses && n !in before.uses ==> ExactUses(k, after, n))
  }

  /** The dependencies of d, from the i-th on, are still to be added. */
  ghost predicate Adding(k: Kernel, before: Links, now: Links, parent: NodeId, d: Dev, open: set<NodeId>, i: nat)
    requires i <= |DepsOf(k, d)|
  {
    && Grew(k, before, now, parent, d)
    && Attached(before, now, parent, d)
    && Device(d) !in before.uses && Device(d) in now.uses
    && ChildrenRule(now, if i == 0 then open - {parent} + {Device(d)} else open - {parent})
    && Kids(now, Device(d)) == Nodes(DepsOf(k, d)[..i])
    && (forall n :: n in now.uses && n !in before.uses && n != Device(d) ==> ExactUses(k, now, n))
  }

  lemma NodesUpTo(deps: seq<Dev>, i: nat)
    requires i < |deps|
    ensures Nodes(deps[..i + 1]) == Nodes(deps[..i]) - {Root} + {Device(deps[i])}
  {
    assert deps[..i + 1] == deps[..i] + [deps[i]];
  }

  lemma AddedNext(k: Kernel, before: Links, now: Links, after: Links, parent: NodeId, d: Dev, open: set<NodeId>, i: nat)
    requires i < |DepsOf(k, d)| && Adding(k, before, now, parent, d, open, i) && parent in before.uses
    requires Added(k, now, after, Device(d), DepsOf(k, d)[i], open - {parent} + {Device(d)})
    ensures Adding(k, before, after, parent, d, open, i + 1)
  {
    GrewNext(k, before, now, after, parent, d, i);
    var deps, node := DepsOf(k, d), Device(d);
    NodesUpTo(deps, i);
    assert Kids(after, node) == Nodes(deps[..i + 1]);
    assert open - {parent} + {node} - {node} <= open - {parent};
    forall n | n in after.uses && n !in before.uses && n != node
      ensures ExactUses(k, after, n)
    {
      if n in now.uses {
        assert ExactUses(k, now, n) && after.uses[n] == now.uses[n];
      }
    }
  }

  lemma RootIsThere(l: Links)
    requires Mirrored(l)
    ensures Root in l.uses && l.uses.Keys == l.usedBy.Keys
  {
  }

  lemma GrewKeeps(k: Kernel, before: Links, after: Links, parent: NodeId, d: Dev)
    requires Grew(k, before, after, parent, d)
    ensures before.uses.Keys <= after.uses.Keys && Root in after.usedBy
  {
  }

  lemma StaysGrown(k: Kernel, l: Links, parent: NodeId, d: Dev, open: set<NodeId>)
    requires WellLinked(l, open)
    ensures Grew(k, l, l, parent, d)
  {
  }

  lemma AddedExisting(k: Kernel, l: Links, after: Links, parent: NodeId, d: Dev, open: set<NodeId>)
    requires WellLinked(l, open) && parent in l.uses && Device(d) in l.uses
    requires after == LinkTree(l, parent, Device(d))
    ensures Added(k, l, after, parent, d, open) && Grew(k, l, after, parent, d)
  {
    hide LinkTree;
    AttachKeepsRules(l, parent, Device(d), open);
  }

  lemma AddingNew(k: Kernel, l: Links, after: Links, parent: NodeId, d: Dev, open: set<NodeId>)
    requires WellLinked(l, open) && parent in l.uses && Device(d) !in l.uses
    requires after == LinkTree(Made(l, Device(d)), parent, Device(d))
    ensures Adding(k, l, after, parent, d, open, 0) && Grew(k, l, after, parent, d)
    ensures Device(d) in after.uses && after.uses[Device(d)] == []
  {
    hide LinkTree, Reaches;
    var node := Device(d);
    MadeKeepsRules(l, node, open);
    AttachKeepsRules(Made(l, node), parent, node, open + {node});
    hide Mirrored, ParentsRule, ChildrenRule;
    ReachesSelf(k, d);
    assert open + {node} - {parent} == open - {parent} + {node};
  }

  /** A device without dependencies is complete once the root is its child. */
  lemma AddedLeaf(k: Kernel, before: Links, now: Links, after: Links, parent: NodeId, d: Dev, open: set<NodeId>)
    requires Adding(k, before, now, parent, d, open, 0) && parent in before.uses
    requires Device(d) in now.uses && now.uses[Device(d)] == [] && DepsOf(k, d) == []
    requires Root in now.usedBy && after == WithLink(now, Device(d), Root)
    ensures Added(k, before, after, parent, d, open) && Grew(k, before, after, parent, d)
  {
    var node := Device(d);
    BottomKeepsRules(now, node, open - {parent} + {node});
    assert open - {parent} + {node} - {node} <= open - {parent};
    forall n | n in after.uses && n !in before.uses
      ensures ExactUses(k, after, n)
    {
      if n != node {
        assert ExactUses(k, now, n) && after.uses[n] == now.uses[n];
      }
    }
  }

  lemma GrewNext(k: Kernel, before: Links, now: Links, after: Links, parent: NodeId, d: Dev, i: nat)
    requires i < |DepsOf(k, d)| && Grew(k, before, now, parent, d) && Device(d) !in before.uses
    requires Grew(k, now, after, Device(d), DepsOf(k, d)[i])
    ensures Grew(k, before, after, parent, d)
  {
    forall n | n in after.uses && n !in before.uses
      ensures n.Device? && Reaches(k, d, n.dev)
    {
      if n !in now.uses {
        ReachesStep(k, d, DepsOf(k, d)[i], n.dev);
      }
    }
  }

  /** struct dm_tree: the hash of nodes is the key set of the two link maps. */
  class DmTree {
    var uses: map<NodeId, seq<NodeId>>
    var usedBy: map<NodeId, seq<NodeId>>

    ghost function Now(): Links
      reads this
    {
      Links(uses, usedBy)
    }

    /** dm_tree_create */
    constructor ()
      ensures WellLinked(Now(), {}) && uses == map[Root := []]
    {
      uses, usedBy := map[Root := []], map[Root := []];
    }

    /** _nodes_are_linked */
    method NodesAreLinked(parent: NodeId, child: NodeId) returns (linked: bool)
      requires parent in uses
      ensures linked <==> child in uses[parent]
    {
      var list := uses[parent];
      for i := 0 to |list|
        invariant child !in list[..i]
      {
        if list[i] == child {
          return true;
        }
        assert list[..i + 1] == list[..i] + [list[i]];
      }
      assert list[..|list|] == list;
      return false;
    }

    /** _unlink: deletes the first entry for node. */
    static method Unlink(list: seq<NodeId>, node: NodeId) returns (out: seq<NodeId>)
      ensures out == Remove(list, node)
    {
      var i := 0;
      while i < |list| && list[i] != node
        invariant 0 <= i <= |list|
        invariant Remove(list, node) == list[..i] + Remove(list[i..], node)
      {
        assert list[i..] == [list[i]] + list[i + 1..];
        assert list[i..][1..] == list[i + 1..];
        assert list[..i + 1] == list[..i] + [list[i]];
        i := i + 1;
      }
      if i == |list| {
        assert list[..i] == list && list[i..] == [];
        return list;
      }
      assert list[i..][1..] == list[i + 1..];
      return list[..i] + list[i + 1..];
    }

    /** _link_nodes */
    method LinkNodes(parent: NodeId, child: NodeId)
      requires parent in uses && child in usedBy
      modifies this
      ensures Now() == WithLink(old(Now()), parent, child)
    {
      var linked := NodesAreLinked(parent, child);
      if !linked {
        uses := uses[parent := uses[parent] + [child]];
        usedBy := usedBy[child := usedBy[child] + [parent]];
      }
    }

    /** _unlink_nodes */
    method UnlinkNodes(parent: NodeId, child: NodeId)
      requires parent in uses && child in usedBy
      modifies this
      ensures Now() == WithoutLink(old(Now()), parent, child)
    {
      var linked := NodesAreLinked(parent, child);
      if linked {
        var list := Unlink(uses[parent], child);
        uses := uses[parent := list];
        list := Unlink(usedBy[child], parent);
        usedBy := usedBy[child := list];
      }
    }

    /** _link_tree_nodes */
    method LinkTreeNodes(parent: NodeId, child: NodeId)
      requires parent in uses && parent in usedBy && child in uses && child in usedBy
      requires Root in uses && Root in usedBy
      modifies this
      ensures Now() == LinkTree(old(Now()), parent, child)
    {
      if parent == Root {
        var top := NodesAreLinked(Root, child);
        if !top && |usedBy[child]| > 0 {
          return;
        }
      } else {
        UnlinkNodes(Root, child);
      }
      if child == Root {
        var bottom := NodesAreLinked(parent, Root);
        if !bottom && |uses[parent]| > 0 {
          return;
        }
      } else {
        UnlinkNodes(parent, Root);
      }
      LinkNodes(parent, child);
    }

    /** _deps: the query may fail; a device that is not an existing mapped one
        has no dependencies. */
    method Deps(k: Kernel, d: Dev) returns (ok: bool, exists_: bool, deps: seq<Dev>)
      ensures ok ==> exists_ == (d in k) && deps == DepsOf(k, d)
    {
      ok := *;
      exists_, deps := d in k, DepsOf(k, d);
    }

    /** The mapped devices not yet in the tree. */
    ghost function Missing(k: Kernel): set<Dev>
      reads this
    {
      set e | e in k && Device(e) !in uses
    }

    /** _add_dev. `open` are the devices whose dependency loops are running. */
    method AddDev(k: Kernel, parent: NodeId, d: Dev, ghost open: set<NodeId>) returns (ok: bool)
      requires WellLinked(Now(), open) && parent in uses
      modifies this
      ensures Grew(k, old(Now()), Now(), parent, d)
      ensures ok ==> Added(k, old(Now()), Now(), parent, d, open)
      decreases Missing(k), 1
    {
      hide LinkTree, Added, Adding, Grew, Mirrored, ParentsRule, ChildrenRule, WithLink;
      var node := Device(d);
      StaysGrown(k, Now(), parent, d, open);
      RootIsThere(Now());
      if node in uses {
        LinkTreeNodes(parent, node);
        AddedExisting(k, old(Now()), Now(), parent, d, open);
        return true;
      }
      var got, mapped, deps := Deps(k, d);
      if !got {
        return false;
      }
      uses, usedBy := uses[node := []], usedBy[node := []];
      LinkTreeNodes(parent, node);
      AddingNew(k, old(Now()), Now(), parent, d, open);
      ghost var now := Now();
      GrewKeeps(k, old(Now()), now, parent, d);
      if !mapped || |deps| == 0 {
        LinkNodes(node, Root);
        AddedLeaf(k, old(Now()), now, Now(), parent, d, open);
        return true;
      }
      assert d in old(Missing(k)) && d !in Missing(k);
      ok := AddDeps(k, parent, d, open, old(Now()));
    }

    /** The dependency loop of _add_dev. */
    method AddDeps(k: Kernel, parent: NodeId, d: Dev, ghost open: set<NodeId>, ghost before: Links) returns (ok: bool)
      requires d in k && k[d] != [] && parent in before.uses
      requires Adding(k, before, Now(), parent, d, open, 0)
      modifies this
      ensures Grew(k, before, Now(), parent, d)
      ensures ok ==> Added(k, before, Now(), parent, d, open)
      decreases Missing(k), 2
    {
      var deps := k[d];
      for i := 0 to |deps|
        invariant Adding(k, before, Now(), parent, d, open, i)
        invariant Missing(k) <= old(Missing(k))
      {
        ghost var now := Now();
        ok := AddDev(k, Device(d), deps[i], open - {parent} + {Device(d)});
        if !ok {
          GrewNext(k, before, now, Now(), parent, d, i);
          return false;
        }
        AddedNext(k, before, now, Now(), parent, d, open, i);
      }
      assert deps[..|deps|] == deps;
      assert ExactUses(k, Now(), Device(d));
      return true;
    }

    /** dm_tree_add_dev: into a tree closed under dependencies, a successful call
        adds exactly the devices reachable from d. */
    method AddDevToTree(k: Kernel, d: Dev) returns (ok: bool)
      requires WellLinked(Now(), {}) && DepClosed(k, uses.Keys)
      modifies this
      ensures Mirrored(Now()) && ParentsRule(Now(), {})
      ensures ok ==> WellLinked(Now(), {}) && DepClosed(k, uses.Keys)
      ensures ok ==> forall e :: Device(e) in uses <==> Device(e) in old(uses) || Reaches(k, d, e)
      ensures ok ==> forall n :: n in uses && n !in old(uses) ==> ExactUses(k, Now(), n)
      ensures forall n :: n in old(uses) && n != Root ==> n in uses && uses[n] == old(uses)[n]
    {
      ok := AddDev(k, Root, d, {});
      if ok {
        assert {} - {Root} == {};
        forall e, f | Device(e) in uses && f in DepsOf(k, e)
          ensures Device(f) in uses
        {
          if Device(e) !in old(uses) {
            assert ExactUses(k, Now(), Device(e));
            assert Device(f) in Kids(Now(), Device(e));
            assert Uses(Now(), Device(e), Device(f)) <==> UsedBy(Now(), Device(e), Device(f));
          }
        }
        forall e | Reaches(k, d, e)
          ensures Device(e) in uses
        {
          var path: seq<Dev> :| DepPath(k, path) && path[0] == d && path[|path| - 1] == e;
          PathStaysInside(k, uses.Keys, path);
        }
      }
    }
  }
}
