/** What the suspend and activate passes of libdm-deptree.c share: the shape of
    the tree they walk, which no pass changes, and the device states. */
module TreeShape {
  import opened DepTree

  /** The tree with the nodes whose uuid matches the prefix and the
      `presuspend_node` of the nodes that have one. */
  datatype Shape = Shape(links: Links, matching: set<NodeId>, presuspend: map<NodeId, NodeId>) {

    /** A well linked tree without cycles: some rank falls along every link
        between devices. */
    ghost predicate Valid(rank: map<NodeId, nat>) {
      && WellLinked(links, {})
      && matching <= links.uses.Keys && Root !in matching
      && rank.Keys == links.uses.Keys
      && forall p, c :: p in links.uses && c in links.uses[p] && c != Root ==> c in links.uses && rank[c] < rank[p]
    }

    /** The parents of n. */
    ghost function Parents(n: NodeId): set<NodeId>
      requires n in links.usedBy
    {
      set p | p in links.usedBy[n]
    }

    /** The parents that have to be suspended before n: those that match and do
        not themselves presuspend n. */
    ghost function Blockers(n: NodeId): set<NodeId>
      requires n in links.usedBy
    {
      set p | p in links.usedBy[n] && p in matching && !(p in presuspend && presuspend[p] == n)
    }

    lemma ToplevelHasNoBlockers(n: NodeId, rank: map<NodeId, nat>)
      requires Valid(rank) && n in matching && n in links.uses[Root]
      ensures n in links.usedBy && Blockers(n) == {} && Parents(n) == {Root}
    {
      assert Uses(links, Root, n) <==> UsedBy(links, Root, n);
    }

    /** The matching nodes at or below d, as the recursion of a pass meets them. */
    ghost function Below(d: NodeId, rank: map<NodeId, nat>): set<NodeId>
      requires Valid(rank) && d in links.uses
      decreases rank[d], |links.uses[d]| + 1
    {
      {d} + BelowFrom(d, 0, rank)
    }

    ghost function BelowFrom(d: NodeId, i: nat, rank: map<NodeId, nat>): set<NodeId>
      requires Valid(rank) && d in links.uses && i <= |links.uses[d]|
      decreases rank[d], |links.uses[d]| - i
    {
      if i == |links.uses[d]| then {}
      else
        var c := links.uses[d][i];
        (if c in matching then Below(c, rank) else {}) + BelowFrom(d, i + 1, rank)
    }

    lemma RootIsLinked(rank: map<NodeId, nat>)
      requires Valid(rank)
      ensures Root in links.uses
    {
    }

    lemma MatchingIsLinked(n: NodeId, rank: map<NodeId, nat>)
      requires Valid(rank) && n in matching
      ensures n in links.uses && n in links.usedBy && Root in links.uses
    {
    }

    lemma KidsDistinct(d: NodeId, rank: map<NodeId, nat>)
      requires Valid(rank) && d in links.uses
      ensures NoDup(links.uses[d])
    {
    }

    lemma KidIsLower(d: NodeId, i: nat, rank: map<NodeId, nat>)
      requires Valid(rank) && d in links.uses && i < |links.uses[d]|
      ensures d in rank && links.uses[d][i] in links.uses && links.uses[d][i] in rank
      ensures links.uses[d][i] in matching ==> rank[links.uses[d][i]] < rank[d]
    {
    }

    lemma BelowSplit(d: NodeId, i: nat, rank: map<NodeId, nat>, s: set<NodeId>)
      requires Valid(rank) && d in links.uses && i <= |links.uses[d]|
      ensures i == |links.uses[d]| ==> s + BelowFrom(d, i, rank) == s
      ensures i < |links.uses[d]| && links.uses[d][i] in matching ==>
        s + BelowFrom(d, i, rank) == (s + BelowFrom(d, i + 1, rank)) + Below(links.uses[d][i], rank)
    {
    }

    lemma {:induction false} KidInBelow(d: NodeId, i: nat, j: nat, rank: map<NodeId, nat>)
      requires Valid(rank) && d in links.uses && i <= j < |links.uses[d]| && links.uses[d][j] in matching
      ensures links.uses[d][j] in BelowFrom(d, i, rank)
      decreases j - i
    {
      if i < j {
        KidInBelow(d, i + 1, j, rank);
      }
    }

    /** If each matching child and all below it avoids a set, so does all below d. */
    lemma {:induction false} BelowAvoids(d: NodeId, i: nat, rank: map<NodeId, nat>, s: set<NodeId>)
      requires Valid(rank) && d in links.uses && i <= |links.uses[d]|
      requires forall j :: i <= j < |links.uses[d]| && links.uses[d][j] in matching ==>
        links.uses[d][j] !in s && links.uses[d][j] in links.uses && BelowFrom(links.uses[d][j], 0, rank) !! s
      ensures BelowFrom(d, i, rank) !! s
      decreases |links.uses[d]| - i
    {
      if i < |links.uses[d]| {
        BelowAvoids(d, i + 1, rank, s);
      }
    }

    /** A matching node without children is the parent of none. */
    lemma ChildlessParentOfNone(c: NodeId, rank: map<NodeId, nat>)
      requires Valid(rank) && c in matching && NumChildren(links, c) == 0
      ensures Below(c, rank) == {c} && BelowFrom(c, 0, rank) == {}
      ensures forall n :: n in matching && n in links.usedBy ==> c !in Parents(n)
    {
      assert links.uses[c] == [Root];
      forall n | n in matching && n in links.usedBy
        ensures c !in Parents(n)
      {
        assert Uses(links, c, n) <==> UsedBy(links, c, n);
      }
      assert BelowFrom(c, 1, rank) == {};
    }

    lemma {:induction false} BelowClosed(d: NodeId, p: NodeId, c: NodeId, rank: map<NodeId, nat>)
      requires Valid(rank) && d in links.uses && p in Below(d, rank)
      requires p in links.uses && c in links.uses[p] && c in matching
      ensures c in Below(d, rank)
      decreases rank[d], |links.uses[d]| + 1
    {
      if p == d {
        var j :| 0 <= j < |links.uses[d]| && links.uses[d][j] == c;
        KidInBelow(d, 0, j, rank);
      } else {
        BelowFromClosed(d, 0, p, c, rank);
      }
    }

    lemma {:induction false} BelowFromClosed(d: NodeId, i: nat, p: NodeId, c: NodeId, rank: map<NodeId, nat>)
      requires Valid(rank) && d in links.uses && i <= |links.uses[d]| && p in BelowFrom(d, i, rank)
      requires p in links.uses && c in links.uses[p] && c in matching
      ensures c in BelowFrom(d, i, rank)
      decreases rank[d], |links.uses[d]| - i
    {
      var k := links.uses[d][i];
      if k in matching && p in Below(k, rank) {
        BelowClosed(k, p, c, rank);
      } else {
        BelowFromClosed(d, i + 1, p, c, rank);
      }
    }

    /** A way down from d over matching nodes, each used by the one before. */
    ghost predicate IsPath(d: NodeId, path: seq<NodeId>)
      decreases |path|
    {
      path != [] && path[0] in matching && Uses(links, d, path[0]) && (|path| > 1 ==> IsPath(path[0], path[1..]))
    }

    lemma {:induction false} PathDown(d: NodeId, i: nat, x: NodeId, rank: map<NodeId, nat>) returns (path: seq<NodeId>)
      requires Valid(rank) && d in links.uses && i <= |links.uses[d]| && x in BelowFrom(d, i, rank)
      ensures IsPath(d, path) && path[|path| - 1] == x
      decreases rank[d], |links.uses[d]| - i
    {
      var c := links.uses[d][i];
      if c in matching && x == c {
        path := [c];
      } else if c in matching && x in Below(c, rank) {
        var more := PathDown(c, 0, x, rank);
        path := [c] + more;
        assert path[1..] == more;
      } else {
        path := PathDown(d, i + 1, x, rank);
      }
    }

    lemma {:induction false} KidBelow(d: NodeId, i: nat, j: nat, rank: map<NodeId, nat>)
      requires Valid(rank) && d in links.uses && i <= j < |links.uses[d]| && links.uses[d][j] in matching
      ensures links.uses[d][j] in links.uses && Below(links.uses[d][j], rank) <= BelowFrom(d, i, rank)
      decreases j - i
    {
      if i < j {
        KidBelow(d, i + 1, j, rank);
      }
    }

    lemma {:induction false} PathIsBelow(d: NodeId, path: seq<NodeId>, rank: map<NodeId, nat>)
      requires Valid(rank) && d in links.uses && IsPath(d, path)
      ensures path[|path| - 1] in BelowFrom(d, 0, rank)
      decreases |path|
    {
      var j :| 0 <= j < |links.uses[d]| && links.uses[d][j] == path[0];
      KidBelow(d, 0, j, rank);
      hide BelowFrom, Valid;
      if |path| > 1 {
        PathIsBelow(path[0], path[1..], rank);
      }
    }

    /** What lies below a node is what can be reached over matching nodes. */
    lemma BelowIsReachable(d: NodeId, x: NodeId, rank: map<NodeId, nat>)
      requires Valid(rank) && d in links.uses
      ensures x in BelowFrom(d, 0, rank) <==> exists path :: IsPath(d, path) && path[|path| - 1] == x
    {
      if x in BelowFrom(d, 0, rank) {
        var path := PathDown(d, 0, x, rank);
      }
      if path :| IsPath(d, path) && path[|path| - 1] == x {
        PathIsBelow(d, path, rank);
      }
    }

    /** Every device that uses another one matches. */
    ghost predicate MappedMatch() {
      forall n :: n in matching && n in links.usedBy ==> Parents(n) <= matching + {Root}
    }

    /** Seen from the root, the pass meets every matching device. */
    lemma AllBelowRoot(rank: map<NodeId, nat>)
      requires Valid(rank) && MappedMatch()
      ensures matching <= Below(Root, rank)
    {
      var missed := matching - Below(Root, rank);
      if missed != {} {
        var n := Highest(missed, rank);
        var p := links.usedBy[n][0];
        assert p in Parents(n);
        assert Uses(links, p, n) <==> UsedBy(links, p, n);
        BelowClosed(Root, p, n, rank);
      }
    }
  }

  lemma {:induction false} Highest(s: set<NodeId>, rank: map<NodeId, nat>) returns (n: NodeId)
    requires s != {} && s <= rank.Keys
    ensures n in s && forall m :: m in s ==> rank[m] <= rank[n]
  {
    n :| n in s;
    if s != {n} {
      var m := Highest(s - {n}, rank);
      if rank[m] > rank[n] {
        n := m;
      }
    }
  }
}

module TreeSuspend {
  import opened DepTree
  import opened TreeShape

  /** A suspend ioctl, whether it took effect, and what the caller is told. */
  datatype Event = Suspend(n: NodeId, ok: bool, told: bool)

  ghost function SuspendedIn(log: seq<Event>): set<NodeId> {
    set e | e in log && e.ok :: e.n
  }

  /** Each suspend in the log comes after those of all its blockers, other than
      the ones suspended to begin with. */
  ghost predicate ParentsFirst(sh: Shape, initially: set<NodeId>, log: seq<Event>) {
    log == [] ||
    var before, e := log[..|log| - 1], log[|log| - 1];
    && ParentsFirst(sh, initially, before)
    && e.n in sh.matching && e.n in sh.links.usedBy
    && sh.Blockers(e.n) <= initially + SuspendedIn(before)
  }

  lemma {:induction false} ParentsFirstAt(sh: Shape, initially: set<NodeId>, log: seq<Event>, i: nat)
    requires ParentsFirst(sh, initially, log) && i < |log|
    ensures log[i].n in sh.links.usedBy && sh.Blockers(log[i].n) <= initially + SuspendedIn(log[..i])
    ensures forall p | UsedBy(sh.links, p, log[i].n) && p in sh.matching && p !in initially
                       && !(p in sh.presuspend && sh.presuspend[p] == log[i].n) ::
      exists k :: 0 <= k < i && log[k].n == p && log[k].ok
  {
    if i < |log| - 1 {
      ParentsFirstAt(sh, initially, log[..|log| - 1], i);
      assert log[..|log| - 1][..i] == log[..i];
      assert forall k :: 0 <= k < i ==> log[..|log| - 1][k] == log[k];
    } else {
      var n := log[i].n;
      forall p | UsedBy(sh.links, p, n) && p in sh.matching && !(p in sh.presuspend && sh.presuspend[p] == n)
        && p !in initially
        ensures exists k :: 0 <= k < i && log[k].n == p && log[k].ok
      {
        assert p in sh.Blockers(n) && p in SuspendedIn(log[..i]);
        var e :| e in log[..i] && e.ok && e.n == p;
      }
    }
  }

  lemma LogGrows(sh: Shape, initially: set<NodeId>, log: seq<Event>, e: Event)
    requires ParentsFirst(sh, initially, log) && e.n in sh.matching && e.n in sh.links.usedBy
    requires sh.Blockers(e.n) <= initially + SuspendedIn(log)
    ensures ParentsFirst(sh, initially, log + [e])
    ensures SuspendedIn(log + [e]) == SuspendedIn(log) + if e.ok then {e.n} else {}
  {
    var longer := log + [e];
    assert longer[..|longer| - 1] == log;
    if e.ok {
      assert e in longer;
    }
  }

  lemma {:induction false} OnlyMatching(sh: Shape, initially: set<NodeId>, log: seq<Event>)
    requires ParentsFirst(sh, initially, log)
    ensures SuspendedIn(log) <= sh.matching
  {
    if log != [] {
      OnlyMatching(sh, initially, log[..|log| - 1]);
      SuspendedInSplit(log);
    }
  }

  /** Every suspend so far worked and hit a different device, and together with
      those suspended initially they are the devices suspended now. */
  ghost predicate ExactLog(initially: set<NodeId>, kernel: set<NodeId>, log: seq<Event>) {
    && kernel == initially + SuspendedIn(log)
    && initially !! SuspendedIn(log)
    && |SuspendedIn(log)| == |log|
  }

  lemma ExactLogGrows(initially: set<NodeId>, kernel: set<NodeId>, log: seq<Event>, n: NodeId)
    requires ExactLog(initially, kernel, log) && n !in kernel
    ensures ExactLog(initially, kernel + {n}, log + [Suspend(n, true, true)])
  {
    var e := Suspend(n, true, true);
    assert e in log + [e];
    assert SuspendedIn(log + [e]) == SuspendedIn(log) + {n};
  }

  /** Whatever could be suspended but is not has a parent in `pending`, the nodes
      below which the pass has yet to look. */
  ghost predicate Saturated(sh: Shape, s: set<NodeId>, pending: set<NodeId>) {
    forall n :: n in sh.matching && n in sh.links.usedBy && n !in s && sh.Blockers(n) <= s ==>
      sh.Parents(n) * pending != {}
  }

  /** Once the children of d have been tried, what is left to look at is what
      lies below them. */
  lemma LevelTried(sh: Shape, rank: map<NodeId, nat>, d: NodeId, s: set<NodeId>, s': set<NodeId>, pending: set<NodeId>)
    requires sh.Valid(rank) && d in sh.links.uses
    requires Saturated(sh, s, pending + sh.Below(d, rank))
    requires s <= s' <= s + Kids(sh.links, d) * sh.matching
    requires forall n :: n in Kids(sh.links, d) && n in sh.matching && n in sh.links.usedBy && sh.Blockers(n) <= s ==>
      n in s'
    ensures Saturated(sh, s', pending + sh.BelowFrom(d, 0, rank))
  {
    forall n | n in sh.matching && n in sh.links.usedBy && n !in s' && sh.Blockers(n) <= s'
      ensures sh.Parents(n) * (pending + sh.BelowFrom(d, 0, rank)) != {}
    {
      if sh.Blockers(n) <= s {
        assert Uses(sh.links, d, n) <==> UsedBy(sh.links, d, n);
        var p :| p in sh.Parents(n) * (pending + sh.Below(d, rank));
        assert p in sh.Parents(n) * (pending + sh.BelowFrom(d, 0, rank));
      } else {
        var p :| p in sh.Blockers(n) && p !in s;
        var j :| 0 <= j < |sh.links.uses[d]| && sh.links.uses[d][j] == p;
        sh.KidInBelow(d, 0, j, rank);
        assert p in sh.Parents(n) * (pending + sh.BelowFrom(d, 0, rank));
      }
    }
  }

  /** A child that is not descended into hides nothing. */
  lemma ChildSkipped(sh: Shape, rank: map<NodeId, nat>, d: NodeId, i: nat, s: set<NodeId>, pending: set<NodeId>)
    requires sh.Valid(rank) && d in sh.links.uses && i < |sh.links.uses[d]|
    requires var c := sh.links.uses[d][i]; c in sh.matching ==> NumChildren(sh.links, c) == 0
    requires Saturated(sh, s, pending + sh.BelowFrom(d, i, rank))
    ensures Saturated(sh, s, pending + sh.BelowFrom(d, i + 1, rank))
  {
    var c := sh.links.uses[d][i];
    if c in sh.matching {
      sh.ChildlessParentOfNone(c, rank);
      forall n | n in sh.matching && n in sh.links.usedBy && n !in s && sh.Blockers(n) <= s
        ensures sh.Parents(n) * (pending + sh.BelowFrom(d, i + 1, rank)) != {}
      {
        var p :| p in sh.Parents(n) * (pending + sh.BelowFrom(d, i, rank));
        assert p in sh.Parents(n) * (pending + sh.BelowFrom(d, i + 1, rank));
      }
    }
  }

  /** When nothing is left to look at, every matching device is suspended. */
  lemma SaturatedMeansAll(sh: Shape, rank: map<NodeId, nat>, s: set<NodeId>)
    requires sh.Valid(rank) && sh.MappedMatch() && Saturated(sh, s, {})
    ensures sh.matching <= s
  {
    var missed := sh.matching - s;
    if missed != {} {
      var n := Highest(missed, rank);
      forall p | p in sh.Blockers(n)
        ensures p in s
      {
        assert Uses(sh.links, p, n) <==> UsedBy(sh.links, p, n);
      }
      assert false;
    }
  }

  lemma SaturatedAtStart(sh: Shape, rank: map<NodeId, nat>, s: set<NodeId>)
    requires sh.Valid(rank) && sh.MappedMatch()
    ensures Saturated(sh, s, {} + sh.Below(Root, rank))
  {
    sh.AllBelowRoot(rank);
    forall n | n in sh.matching && n in sh.links.usedBy
      ensures sh.Parents(n) * ({} + sh.Below(Root, rank)) != {}
    {
      assert sh.links.usedBy[n][0] in sh.Parents(n) * ({} + sh.Below(Root, rank));
    }
  }

  /** As many devices as suspends: no device was suspended twice, and none in vain. */
  lemma {:induction false} NoneTwice(log: seq<Event>)
    requires |SuspendedIn(log)| == |log|
    ensures forall i :: 0 <= i < |log| ==> log[i].ok && log[i].n in SuspendedIn(log)
    ensures forall i, j :: 0 <= i < j < |log| ==> log[i].n != log[j].n
  {
    if log != [] {
      var before, e := log[..|log| - 1], log[|log| - 1];
      AtMostLog(before);
      SuspendedInSplit(log);
      NoneTwice(before);
      hide SuspendedIn;
      assert forall i :: 0 <= i < |before| ==> log[i] == before[i];
    }
  }

  lemma SuspendedInSplit(log: seq<Event>)
    requires log != []
    ensures var before, e := log[..|log| - 1], log[|log| - 1];
      SuspendedIn(log) == SuspendedIn(before) + if e.ok then {e.n} else {}
  {
    assert log == log[..|log| - 1] + [log[|log| - 1]];
  }

  lemma {:induction false} AtMostLog(log: seq<Event>)
    ensures |SuspendedIn(log)| <= |log|
  {
    if log != [] {
      AtMostLog(log[..|log| - 1]);
      SuspendedInSplit(log);
    }
  }

  /** Nothing that was tried since `before` was reported as failed. */
  ghost predicate NoFailure(before: seq<Event>, log: seq<Event>) {
    forall i :: |before| <= i < |log| ==> log[i].told
  }

  lemma FailuresJoin(before: seq<Event>, mid: seq<Event>, log: seq<Event>)
    requires before <= mid <= log
    ensures NoFailure(before, log) <==> NoFailure(before, mid) && NoFailure(mid, log)
  {
    assert forall i :: 0 <= i < |mid| ==> log[i] == mid[i];
  }

  class SuspendPass {
    const sh: Shape
    ghost const rank: map<NodeId, nat>
    const faulty: bool              // whether ioctls may fail
    var kernel: set<NodeId>         // the devices that are suspended
    var info: set<NodeId>           // the nodes whose cached info says so
    var counter: nat                // _suspended_dev_counter
    ghost const initially: set<NodeId>
    ghost var log: seq<Event>

    ghost predicate Valid()
      reads this
    {
      && sh.Valid(rank)
      && info <= initially + SuspendedIn(log)
      && ParentsFirst(sh, initially, log)
    }

    constructor (sh: Shape, ghost rank: map<NodeId, nat>, faulty: bool, kernel: set<NodeId>, info: set<NodeId>,
        counter: nat)
      requires sh.Valid(rank)
      ensures Valid() && this.sh == sh && this.rank == rank && this.faulty == faulty
      ensures this.kernel == kernel && this.info == info && this.counter == counter
      ensures log == [] && initially == info
    {
      this.sh, this.rank, this.faulty := sh, rank, faulty;
      this.kernel, this.info, this.counter := kernel, info, counter;
      initially, log := info, [];
    }

    ghost predicate Exact()
      reads this
    {
      info == kernel && ExactLog(initially, kernel, log)
    }

    predicate Presuspends(p: NodeId, n: NodeId) {
      p in sh.presuspend && sh.presuspend[p] == n
    }

    /** _children_suspended with inverted set. */
    method ParentsSuspended(n: NodeId) returns (r: bool)
      requires Valid() && n in sh.matching && n in sh.links.usedBy && Root in sh.links.uses
      ensures r <==> sh.Blockers(n) <= info
      ensures r <==> forall p | UsedBy(sh.links, p, n) && p in sh.matching :: Presuspends(p, n) || p in info
    {
      hide Shape.Valid, ParentsFirst;
      if n in sh.links.uses[Root] {
        sh.ToplevelHasNoBlockers(n, rank);
        return true;
      }
      var list := sh.links.usedBy[n];
      for i := 0 to |list|
        invariant forall p :: p in sh.Blockers(n) && p in list[..i] ==> p in info
      {
        var p := list[i];
        assert list[..i + 1] == list[..i] + [p];
        if p in sh.matching && !(p in sh.presuspend && sh.presuspend[p] == n) && p !in info {
          assert p in sh.Blockers(n);
          return false;
        }
      }
      assert list[..|list|] == list;
      return true;
    }

    /** _info_by_dev; when things go wrong a device may have gone, unless it is suspended. */
    method InfoByDev(n: NodeId) returns (ok: bool, found: bool, suspended: bool)
      ensures ok ==> suspended == (found && n in kernel)
      ensures ok && n in kernel ==> found
      ensures !faulty ==> ok && found
    {
      ok, found := *, *;
      ok, found := ok || !faulty, found || !faulty || n in kernel;
      suspended := found && n in kernel;
    }

    /** _suspend_node: the ioctl may fail, and so may reading back the new info
        once the device is suspended. */
    method SuspendNode(n: NodeId) returns (ok: bool)
      requires Valid() && n !in kernel && n in sh.matching && n in sh.links.usedBy && sh.Blockers(n) <= info
      modifies this`kernel, this`counter, this`log
      ensures Valid() && (!faulty ==> ok)
      ensures log == old(log) + [Suspend(n, n in kernel, ok)]
      ensures n in kernel ==> n in SuspendedIn(log)
      ensures SuspendedIn(old(log)) <= SuspendedIn(log)
      ensures kernel == old(kernel) || kernel == old(kernel) + {n}
      ensures ok ==> n in kernel
      ensures counter + |old(kernel)| == old(counter) + |kernel|
    {
      hide Shape.Valid;
      var ran: bool, got: bool := *, *;
      ran, got := ran || !faulty, got || !faulty;
      ok := ran && got;
      LogGrows(sh, initially, log, Suspend(n, ran, ok));
      log := log + [Suspend(n, ran, ok)];
      if ran {
        kernel, counter := kernel + {n}, counter + 1;
      }
    }

    /** Suspend n unless the kernel says it is, and update its cached info. */
    method SuspendUnlessDone(n: NodeId) returns (r: bool)
      requires Valid() && n in sh.matching && n in sh.links.usedBy && sh.Blockers(n) <= info
      modifies this`kernel, this`info, this`counter, this`log
      ensures Valid() && (!faulty ==> r)
      ensures old(log) <= log && (r <==> NoFailure(old(log), log))
      ensures counter + |old(kernel)| == old(counter) + |kernel|
      ensures info == old(info) || info == old(info) + {n}
      ensures !faulty && old(Exact()) ==> Exact() && n in info
    {
      hide Shape.Valid, Shape.Blockers, ParentsFirst, ExactLog, SuspendedIn;
      var ok, found, suspended := InfoByDev(n);
      if !ok || !found || suspended {
        return true;
      }
      r := SuspendNode(n);
      assert log[|old(log)|].told == r;
      if old(Exact()) {
        ExactLogGrows(initially, old(kernel), old(log), n);
      }
      if r {
        info := info + {n};
      }
    }

    /** The body of the first loop of dm_tree_suspend_children. */
    method SuspendChild(n: NodeId) returns (r: bool)
      requires Valid()
      modifies this`kernel, this`info, this`counter, this`log
      ensures Valid() && (!faulty ==> r)
      ensures old(log) <= log && (r <==> NoFailure(old(log), log))
      ensures counter + |old(kernel)| == old(counter) + |kernel|
      ensures info == old(info) || (n in sh.matching && info == old(info) + {n})
      ensures !faulty && old(Exact()) ==> Exact() && Tried(n, old(info))
    {
      if n !in sh.matching {
        return true;
      }
      sh.MatchingIsLinked(n, rank);
      hide Shape.Valid, Shape.Blockers, ParentsFirst, ExactLog, SuspendedIn;
      var ready := ParentsSuspended(n);
      if !ready {
        return true;
      }
      r := SuspendUnlessDone(n);
    }

    /** The first loop of dm_tree_suspend_children. */
    method SuspendLevel(d: NodeId) returns (r: bool)
      requires Valid() && d in sh.links.uses
      modifies this`kernel, this`info, this`counter, this`log
      ensures Valid() && (!faulty ==> r)
      ensures old(log) <= log && (r <==> NoFailure(old(log), log))
      ensures counter + |old(kernel)| == old(counter) + |kernel|
      ensures old(info) <= info <= old(info) + Kids(sh.links, d) * sh.matching
      ensures !faulty && old(Exact()) ==> Exact()
      ensures !faulty && old(Exact()) ==> forall n :: n in Kids(sh.links, d) ==> Tried(n, old(info))
    {
      hide Shape.Valid, ParentsFirst, ExactLog, SuspendedIn;
      r := true;
      var list := sh.links.uses[d];
      for i := 0 to |list|
        invariant Valid() && (!faulty ==> r) && old(log) <= log && (r <==> NoFailure(old(log), log))
        invariant counter + |old(kernel)| == old(counter) + |kernel|
        invariant old(info) <= info <= old(info) + Kids(sh.links, d) * sh.matching
        invariant !faulty && old(Exact()) ==> Exact()
        invariant !faulty && old(Exact()) ==> forall j :: 0 <= j < i ==> Tried(list[j], old(info))
      {
        ghost var mid := log;
        var ok := SuspendChild(list[i]);
        FailuresJoin(old(log), mid, log);
        r := r && ok;
      }
    }

    /** n is suspended now if it could be in state s. */
    ghost predicate Tried(n: NodeId, s: set<NodeId>)
      reads this
    {
      n in sh.matching && n in sh.links.usedBy && sh.Blockers(n) <= s ==> n in info
    }

    /** dm_tree_suspend_children. `pending` are nodes below which callers will
        still look. */
    method SuspendChildren(d: NodeId, ghost pending: set<NodeId>) returns (r: bool)
      requires Valid() && d in sh.links.uses
      modifies this`kernel, this`info, this`counter, this`log
      ensures Valid() && (!faulty ==> r)
      ensures old(log) <= log && (r <==> NoFailure(old(log), log))
      ensures counter + |old(kernel)| == old(counter) + |kernel|
      ensures old(info) <= info
      ensures !faulty && old(Exact()) ==> Exact()
      ensures !faulty && old(Exact()) && Saturated(sh, old(info), pending + sh.Below(d, rank)) ==>
        Saturated(sh, info, pending)
      decreases if d in rank then rank[d] else 0
    {
      hide Shape.Valid, ParentsFirst, ExactLog, SuspendedIn, Saturated, Shape.Below, Shape.BelowFrom;
      ghost var todo := !faulty && Exact() && Saturated(sh, info, pending + sh.Below(d, rank));
      r := SuspendLevel(d);
      if todo {
        LevelTried(sh, rank, d, old(info), info, pending);
      }
      var list := sh.links.uses[d];
      for i := 0 to |list|
        invariant Valid() && (!faulty ==> r) && old(log) <= log && (r <==> NoFailure(old(log), log))
        invariant counter + |old(kernel)| == old(counter) + |kernel|
        invariant old(info) <= info
        invariant !faulty && old(Exact()) ==> Exact()
        invariant todo ==> Saturated(sh, info, pending + sh.BelowFrom(d, i, rank))
      {
        var c := list[i];
        sh.KidIsLower(d, i, rank);
        if c in sh.matching && NumChildren(sh.links, c) > 0 {
          sh.BelowSplit(d, i, rank, pending);
          ghost var mid := log;
          var ok := SuspendChildren(c, pending + sh.BelowFrom(d, i + 1, rank));
          FailuresJoin(old(log), mid, log);
          if !ok {
            return false;
          }
        } else if todo {
          ChildSkipped(sh, rank, d, i, info, pending);
        }
      }
      sh.BelowSplit(d, |list|, rank, pending);
    }

    /** A pass from the root over accurate info, with every ioctl working: each
        device not suspended before is suspended exactly once. */
    method SuspendTree()
      requires Valid() && !faulty && sh.MappedMatch() && info == kernel == initially && log == []
      modifies this`kernel, this`info, this`counter, this`log
      ensures Valid() && info == kernel == old(kernel) + sh.matching
      ensures kernel == initially + SuspendedIn(log) && initially !! SuspendedIn(log)
      ensures forall i :: 0 <= i < |log| ==> log[i].ok
      ensures forall i, j :: 0 <= i < j < |log| ==> log[i].n != log[j].n
      ensures counter + |old(kernel)| == old(counter) + |kernel|
    {
      hide Shape.Below, Shape.BelowFrom, NoFailure;
      SaturatedAtStart(sh, rank, info);
      sh.RootIsLinked(rank);
      var _ := SuspendChildren(Root, {});
      SaturatedMeansAll(sh, rank, info);
      OnlyMatching(sh, initially, log);
      NoneTwice(log);
    }
  }
}
