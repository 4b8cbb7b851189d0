/** Names and pending renames of the nodes of a tree (libdm-deptree.c), and how the
    children of one node look to the rename loop. */
module TreeNames {
  import opened DepTree
  import opened TreeShape
  import opened Wrappers
  import RenameLoop

  type Names = map<NodeId, string>

  /** dm_tree_node_get_name: empty for a node that does not exist. */
  function NameOf(names: Names, n: NodeId): string {
    if n in names then names[n] else ""
  }

  ghost predicate Distinct(names: Names) {
    forall a, b :: a in names && b in names && names[a] == names[b] ==> a == b
  }

  /** Only devices with a name are renamed, and never to an empty one. */
  ghost predicate ProperNames(names: Names, pending: Names) {
    Distinct(names) && pending.Keys <= names.Keys && (forall n :: n in pending ==> pending[n] != "")
  }

  /** n wants the name that its sibling b still has, and b is to be renamed. */
  predicate WaitsFor(names: Names, pending: Names, n: NodeId, b: NodeId) {
    n != b && n in pending && b in pending && NameOf(names, b) == pending[n]
  }

  /** Some child of d keeps n waiting. */
  ghost predicate Blocked(sh: Shape, names: Names, pending: Names, d: NodeId, n: NodeId) {
    exists b :: Uses(sh.links, d, b) && WaitsFor(names, pending, n, b)
  }

  /** n is one of the nodes handled at level p. */
  predicate OnLevel(sh: Shape, priority: map<NodeId, nat>, p: nat, n: NodeId) {
    n in sh.matching && n in priority && priority[n] == p
  }

  /** Among the children of each node, whoever is waited for is renamed on the
      same level, and no chain of waiting closes. */
  ghost predicate Grounded(sh: Shape, priority: map<NodeId, nat>, order: map<NodeId, nat>, names: Names,
      pending: Names)
  {
    forall d, n, b | Uses(sh.links, d, n) && Uses(sh.links, d, b) && n in sh.matching
                     && WaitsFor(names, pending, n, b) ::
      b in sh.matching && n in priority && b in priority && priority[b] == priority[n]
      && n in order && b in order && order[b] < order[n]
  }

  /** A finished rename creates nobody who is waited for. */
  lemma GroundedStays(sh: Shape, priority: map<NodeId, nat>, order: map<NodeId, nat>, names: Names, pending: Names,
                      n: NodeId, to: string)
    requires Grounded(sh, priority, order, names, pending)
    ensures Grounded(sh, priority, order, names[n := to], pending - {n})
  {
    forall d, a, b | Uses(sh.links, d, a) && Uses(sh.links, d, b) && a in sh.matching
                     && WaitsFor(names[n := to], pending - {n}, a, b)
      ensures b in sh.matching && a in priority && b in priority && priority[b] == priority[a]
              && a in order && b in order && order[b] < order[a]
    {
      assert WaitsFor(names, pending, a, b);
    }
  }

  lemma ProperNamesStay(names: Names, pending: Names, n: NodeId, to: string)
    requires ProperNames(names, pending) && to !in names.Values && n in pending
    ensures ProperNames(names[n := to], pending - {n})
  {
    assert forall m :: m in names ==> names[m] in names.Values;
  }

  // ---- the children of a node, as the rename loop sees them ----

  function Wanted(pending: Names, n: NodeId): Option<string> {
    if n in pending then Some(pending[n]) else None
  }

  function SiblingsOf(sh: Shape, priority: map<NodeId, nat>, p: nat, list: seq<NodeId>, names: Names, pending: Names)
    : (s: RenameLoop.Siblings)
    ensures |s| == |list|
    ensures forall i :: 0 <= i < |s| ==>
              s[i] == RenameLoop.Sibling(NameOf(names, list[i]), Wanted(pending, list[i]),
                OnLevel(sh, priority, p, list[i]))
  {
    seq(|list|, i requires 0 <= i < |list| =>
      RenameLoop.Sibling(NameOf(names, list[i]), Wanted(pending, list[i]), OnLevel(sh, priority, p, list[i])))
  }

  /** The names of all other devices. */
  ghost function Taken(list: seq<NodeId>, names: Names): set<string> {
    set m | m in names && m !in list :: names[m]
  }

  lemma SiblingsUnique(sh: Shape, priority: map<NodeId, nat>, p: nat, list: seq<NodeId>, names: Names, pending: Names)
    requires NoDup(list) && ProperNames(names, pending)
    ensures RenameLoop.Unique(SiblingsOf(sh, priority, p, list, names, pending), Taken(list, names))
  {
  }

  /** A child waits in the loop exactly when a sibling keeps it waiting. */
  lemma WaitsIsBlocked(sh: Shape, priority: map<NodeId, nat>, p: nat, d: NodeId, i: nat, names: Names, pending: Names)
    requires d in sh.links.uses && NoDup(sh.links.uses[d]) && ProperNames(names, pending) && i < |sh.links.uses[d]|
    ensures var list := sh.links.uses[d];
      RenameLoop.Waits(SiblingsOf(sh, priority, p, list, names, pending), i) <==>
        Blocked(sh, names, pending, d, list[i])
  {
    var list := sh.links.uses[d];
    var s := SiblingsOf(sh, priority, p, list, names, pending);
    SiblingsUnique(sh, priority, p, list, names, pending);
    RenameLoop.WaitsMeans(s, i, Taken(list, names));
    if b: nat :| RenameLoop.WaitsFor(s, i, b) {
      assert Uses(sh.links, d, list[b]) && WaitsFor(names, pending, list[i], list[b]);
    }
    if b :| Uses(sh.links, d, b) && WaitsFor(names, pending, list[i], b) {
      var j :| 0 <= j < |list| && list[j] == b;
      assert RenameLoop.WaitsFor(s, i, j);
    }
  }

  /** What handling node n of level p does to the names, unless its rename fails. */
  ghost predicate NamesStep(sh: Shape, priority: map<NodeId, nat>, p: nat, d: NodeId, n: NodeId,
                            names: Names, pending: Names, names': Names, pending': Names)
  {
    if OnLevel(sh, priority, p, n) && n in pending && !Blocked(sh, names, pending, d, n) then
      pending[n] !in names.Values && names' == names[n := pending[n]] && pending' == pending - {n}
    else names' == names && pending' == pending
  }

  /** It is one visit of the loop, and not one that the kernel refuses. */
  lemma StepIsVisit(sh: Shape, priority: map<NodeId, nat>, p: nat, d: NodeId, i: nat,
                    names: Names, pending: Names, names': Names, pending': Names)
    requires d in sh.links.uses && NoDup(sh.links.uses[d]) && ProperNames(names, pending) && i < |sh.links.uses[d]|
    requires NamesStep(sh, priority, p, d, sh.links.uses[d][i], names, pending, names', pending')
    ensures var list := sh.links.uses[d]; var s := SiblingsOf(sh, priority, p, list, names, pending);
      && SiblingsOf(sh, priority, p, list, names', pending') == RenameLoop.Visit(s, i)
      && Taken(list, names') == Taken(list, names)
      && !(RenameLoop.Handled(s[i]) && RenameLoop.Refused(s, i, Taken(list, names)))
  {
    hide Blocked, RenameLoop.Waits;
    var list := sh.links.uses[d];
    var s := SiblingsOf(sh, priority, p, list, names, pending);
    WaitsIsBlocked(sh, priority, p, d, i, names, pending);
    if RenameLoop.Handled(s[i]) && !RenameLoop.Waits(s, i) {
      assert forall m :: m in names ==> names[m] in names.Values;
      RenameLoop.HolderHolds(s, i, 0);
    }
  }

  /** A child whose name is in use, and will stay so, is refused in the loop too. */
  lemma RefusalIsRefused(sh: Shape, priority: map<NodeId, nat>, p: nat, d: NodeId, i: nat, names: Names, pending: Names)
    requires d in sh.links.uses && NoDup(sh.links.uses[d]) && ProperNames(names, pending) && i < |sh.links.uses[d]|
    requires var n := sh.links.uses[d][i];
      OnLevel(sh, priority, p, n) && n in pending && !Blocked(sh, names, pending, d, n) && pending[n] in names.Values
    ensures var list := sh.links.uses[d]; var s := SiblingsOf(sh, priority, p, list, names, pending);
      RenameLoop.Handled(s[i]) && RenameLoop.Refused(s, i, Taken(list, names))
  {
    hide Blocked, RenameLoop.Waits, RenameLoop.Holder;
    var list := sh.links.uses[d];
    var s := SiblingsOf(sh, priority, p, list, names, pending);
    WaitsIsBlocked(sh, priority, p, d, i, names, pending);
    SiblingsUnique(sh, priority, p, list, names, pending);
    var m :| m in names && names[m] == pending[list[i]];
    if m in list {
      var j :| 0 <= j < |list| && list[j] == m;
      assert s[j].name == s[i].newName.value;
      RenameLoop.FreeName(s, i, Taken(list, names));
    } else {
      assert s[i].newName.value in Taken(list, names);
    }
  }

  /** Under an order of waiting inside the level the loop ends. */
  lemma GroundedEnds(sh: Shape, priority: map<NodeId, nat>, order: map<NodeId, nat>, p: nat, d: NodeId,
                     names: Names, pending: Names)
    requires d in sh.links.uses && NoDup(sh.links.uses[d]) && ProperNames(names, pending)
    requires Grounded(sh, priority, order, names, pending)
    ensures var list := sh.links.uses[d];
      RenameLoop.Ends(SiblingsOf(sh, priority, p, list, names, pending), Taken(list, names))
  {
    var list := sh.links.uses[d];
    var s := SiblingsOf(sh, priority, p, list, names, pending);
    var ranks := seq(|list|, i requires 0 <= i < |list| => if list[i] in order then order[list[i]] else 0);
    SiblingsUnique(sh, priority, p, list, names, pending);
    forall n: nat, b: nat | RenameLoop.WaitsFor(s, n, b) && s[n].inLevel
      ensures s[b].inLevel && ranks[b] < ranks[n]
    {
      assert Uses(sh.links, d, list[n]) && Uses(sh.links, d, list[b]) && WaitsFor(names, pending, list[n], list[b]);
    }
    RenameLoop.OrderedEnds(s, ranks, Taken(list, names));
  }

  /** Then a round that leaves somebody waiting has renamed somebody else. */
  lemma GroundedMoves(sh: Shape, priority: map<NodeId, nat>, order: map<NodeId, nat>, p: nat, d: NodeId,
                      names: Names, pending: Names)
    requires d in sh.links.uses && NoDup(sh.links.uses[d]) && ProperNames(names, pending)
    requires Grounded(sh, priority, order, names, pending)
    ensures var list := sh.links.uses[d]; var s := SiblingsOf(sh, priority, p, list, names, pending);
      var o := RenameLoop.Round(s, 0, Taken(list, names));
      !o.failed && o.waiting > 0 ==> o.after != s
  {
    hide Grounded, ProperNames, RenameLoop.Round, RenameLoop.Ends, RenameLoop.Unique;
    var list := sh.links.uses[d];
    var s := SiblingsOf(sh, priority, p, list, names, pending);
    var o := RenameLoop.Round(s, 0, Taken(list, names));
    if !o.failed && o.waiting > 0 && o.after == s {
      SiblingsUnique(sh, priority, p, list, names, pending);
      RenameLoop.RoundsIdle(s, 0, Taken(list, names));
      GroundedEnds(sh, priority, order, p, d, names, pending);
      assert false;
    }
  }
}
