/** dm_tree_activate_children of libdm-deptree.c: children first, level by level,
    with the loop that redoes a level while a sibling's rename has to go first. */
module TreeActivate {
  import opened DepTree
  import opened TreeShape
  import opened TreeNames
  import RenameLoop

  /** What the pass does, each with the part of the state that decided it. `ran` says
      whether the ioctl itself worked; `ok` is what the caller is told. */
  datatype Event =
    | Resume(parent: NodeId, n: NodeId, ran: bool, ok: bool, dirty: set<NodeId>, pending: Names)
    | Rename(level: NodeId, n: NodeId, to: string, ok: bool, names: Names, pending: Names)
    | Messages(n: NodeId, ok: bool, dirty: set<NodeId>)

  /** A device is resumed, and its messages are sent, only when nothing below it is left
      suspended or with an inactive table; it is renamed before it is resumed, and only
      to a name no sibling is about to give up. */
  ghost predicate SafeEvent(sh: Shape, rank: map<NodeId, nat>, e: Event) {
    match e
    case Resume(_, n, _, _, dirty, pending) =>
      sh.Valid(rank) && n in sh.links.uses && n in dirty && sh.BelowFrom(n, 0, rank) !! dirty && n !in pending
    case Rename(level, n, to, _, names, pending) =>
      forall s :: Uses(sh.links, level, s) && s != n && s in pending ==> NameOf(names, s) != to
    case Messages(n, _, dirty) =>
      sh.Valid(rank) && n in sh.links.uses && sh.BelowFrom(n, 0, rank) !! dirty
  }

  ghost predicate SafeLog(sh: Shape, rank: map<NodeId, nat>, log: seq<Event>) {
    forall i :: 0 <= i < |log| ==> SafeEvent(sh, rank, log[i])
  }

  /** What an event takes off the devices that are due. */
  function Finished(e: Event): set<NodeId> {
    if e.Resume? && e.ran then {e.n} else {}
  }

  /** Up to the present, no device becomes due, and one stops being due only by its own
      resume. */
  ghost predicate Continuous(log: seq<Event>, now: set<NodeId>) {
    log == [] ||
    var before, e := log[..|log| - 1], log[|log| - 1];
    if e.Rename? then Continuous(before, now)
    else Continuous(before, e.dirty) && e.dirty - Finished(e) <= now <= e.dirty
  }

  lemma ContinuousGrows(log: seq<Event>, now: set<NodeId>, e: Event, later: set<NodeId>)
    requires Continuous(log, now)
    requires if e.Rename? then later == now else e.dirty == now && now - Finished(e) <= later <= now
    ensures Continuous(log + [e], later)
  {
    assert (log + [e])[..|log + [e]| - 1] == log;
  }

  /** A device due at one event and not at a later one was resumed in between. */
  lemma {:induction false} ResumedBetween(log: seq<Event>, now: set<NodeId>, i: nat, x: NodeId) returns (k: nat)
    requires Continuous(log, now) && i < |log| && !log[i].Rename? && x in log[i].dirty && x !in now
    ensures i <= k < |log| && log[k].Resume? && log[k].ran && log[k].n == x
  {
    var before, e := log[..|log| - 1], log[|log| - 1];
    if !e.Rename? && x in e.dirty {
      k := |log| - 1;
    } else {
      k := ResumedBetween(before, if e.Rename? then now else e.dirty, i, x);
    }
  }

  /** Over any number of passes: after a resume of x whose ioctl failed, nothing above x
      is resumed and no messages of anything above x are sent, unless a later resume
      of x runs first. */
  lemma FailureStopsAncestors(sh: Shape, rank: map<NodeId, nat>, log: seq<Event>, now: set<NodeId>, i: nat, j: nat)
    returns (k: nat)
    requires SafeLog(sh, rank, log) && Continuous(log, now) && i < j < |log|
    requires log[i].Resume? && !log[i].ran && !log[j].Rename? && log[j].n in sh.links.uses
    requires sh.Valid(rank) && log[i].n in sh.BelowFrom(log[j].n, 0, rank)
    ensures i < k < j && log[k].Resume? && log[k].ran && log[k].n == log[i].n
  {
    hide Continuous, Shape.Valid;
    assert SafeEvent(sh, rank, log[i]) && SafeEvent(sh, rank, log[j]);
    ContinuousPrefix(log, now, j);
    k := ResumedBetween(log[..j], log[j].dirty, i, log[i].n);
  }

  lemma {:induction false} ContinuousPrefix(log: seq<Event>, now: set<NodeId>, j: nat)
    requires Continuous(log, now) && j < |log| && !log[j].Rename?
    ensures Continuous(log[..j], log[j].dirty)
  {
    var before, e := log[..|log| - 1], log[|log| - 1];
    if j < |log| - 1 {
      ContinuousPrefix(before, if e.Rename? then now else e.dirty, j);
      assert before[..j] == log[..j];
    }
  }

  lemma {:induction false} DueShrinks(log: seq<Event>, now: set<NodeId>, j: nat)
    requires Continuous(log, now) && j < |log| && !log[j].Rename?
    ensures now <= log[j].dirty
  {
    var before, e := log[..|log| - 1], log[|log| - 1];
    if j < |log| - 1 {
      DueShrinks(before, if e.Rename? then now else e.dirty, j);
    }
  }

  // ---- lower priorities first ----

  /** The resume of a child of d was tried in vain. */
  ghost predicate FailedSince(log: seq<Event>, base: nat, d: NodeId, c: NodeId) {
    exists i :: base <= i < |log| && log[i].Resume? && log[i].parent == d && log[i].n == c && !log[i].ok
  }

  /** A child has its name, and is no longer due unless its resume failed. */
  ghost predicate Settled(log: seq<Event>, base: nat, dirty: set<NodeId>, pending: Names, d: NodeId, c: NodeId) {
    c !in pending && (c !in dirty || FailedSince(log, base, d, c))
  }

  /** All children of d with a priority below p are settled. */
  ghost predicate LowerSettled(sh: Shape, priority: map<NodeId, nat>, p: nat, d: NodeId, log: seq<Event>, base: nat,
                               dirty: set<NodeId>, pending: Names)
  {
    forall c :: Uses(sh.links, d, c) && c in sh.matching && c in priority && priority[c] < p ==>
      Settled(log, base, dirty, pending, d, c)
  }

  /** When a child is renamed, every sibling of lower priority has its name; when it is
      resumed, none is due any more unless its resume failed before. */
  ghost predicate InTurn(sh: Shape, priority: map<NodeId, nat>, log: seq<Event>, base: nat, e: Event) {
    match e
    case Resume(d, n, _, _, dirty, _) =>
      && Uses(sh.links, d, n) && n in priority
      && (forall c :: Uses(sh.links, d, c) && c in sh.matching && c in priority && priority[c] < priority[n] ==>
            c !in dirty || FailedSince(log, base, d, c))
    case Rename(d, n, _, _, _, pending) =>
      && Uses(sh.links, d, n) && n in priority
      && (forall c :: Uses(sh.links, d, c) && c in sh.matching && c in priority && priority[c] < priority[n] ==>
            c !in pending)
    case Messages(_, _, _) => true
  }

  ghost predicate InOrder(sh: Shape, priority: map<NodeId, nat>, base: nat, log: seq<Event>) {
    forall j :: base <= j < |log| ==> InTurn(sh, priority, log[..j], base, log[j])
  }

  lemma FailedStays(log: seq<Event>, later: seq<Event>, base: nat, base': nat, d: NodeId, c: NodeId)
    requires FailedSince(log, base, d, c) && log <= later && base' <= base
    ensures FailedSince(later, base', d, c)
  {
    var i :| base <= i < |log| && log[i].Resume? && log[i].parent == d && log[i].n == c && !log[i].ok;
    assert later[i] == log[i];
  }

  lemma LowerStays(sh: Shape, priority: map<NodeId, nat>, p: nat, d: NodeId, log: seq<Event>, base: nat,
                   dirty: set<NodeId>, pending: Names, log': seq<Event>, dirty': set<NodeId>, pending': Names)
    requires LowerSettled(sh, priority, p, d, log, base, dirty, pending)
    requires log <= log' && dirty' <= dirty && pending'.Keys <= pending.Keys
    ensures LowerSettled(sh, priority, p, d, log', base, dirty', pending')
  {
    hide FailedSince;
    forall c | Uses(sh.links, d, c) && c in sh.matching && c in priority && priority[c] < p
      ensures Settled(log', base, dirty', pending', d, c)
    {
      assert Settled(log, base, dirty, pending, d, c);
      if c in dirty {
        FailedStays(log, log', base, base, d, c);
      }
    }
  }

  lemma InOrderStart(sh: Shape, priority: map<NodeId, nat>, log: seq<Event>)
    ensures InOrder(sh, priority, |log|, log)
  {
  }

  lemma InOrderJoins(sh: Shape, priority: map<NodeId, nat>, base: nat, mid: seq<Event>, log: seq<Event>)
    requires base <= |mid| && mid <= log
    requires InOrder(sh, priority, base, mid)
    requires InOrder(sh, priority, base, log) || InOrder(sh, priority, |mid|, log)
    ensures InOrder(sh, priority, base, log)
  {
    if !InOrder(sh, priority, base, log) {
      forall j | base <= j < |log|
        ensures InTurn(sh, priority, log[..j], base, log[j])
      {
        if j < |mid| {
          assert log[..j] == mid[..j] && log[j] == mid[j];
        } else {
          EarlierBase(sh, priority, log[..j], |mid|, base, log[j]);
        }
      }
    }
  }

  lemma EarlierBase(sh: Shape, priority: map<NodeId, nat>, log: seq<Event>, base: nat, base': nat, e: Event)
    requires InTurn(sh, priority, log, base, e) && base' <= base
    ensures InTurn(sh, priority, log, base', e)
  {
    hide FailedSince;
    if e.Resume? {
      forall c | FailedSince(log, base, e.parent, c)
        ensures FailedSince(log, base', e.parent, c)
      {
        FailedStays(log, log, base, base', e.parent, c);
      }
    }
  }

  lemma InOrderNext(sh: Shape, priority: map<NodeId, nat>, base: nat, log: seq<Event>, e: Event)
    requires InOrder(sh, priority, base, log) && base <= |log| && InTurn(sh, priority, log, base, e)
    ensures InOrder(sh, priority, base, log + [e])
  {
    hide InTurn;
    var longer := log + [e];
    forall j | base <= j < |longer|
      ensures InTurn(sh, priority, longer[..j], base, longer[j])
    {
      if j < |log| {
        assert longer[..j] == log[..j] && longer[j] == log[j];
      } else {
        assert longer[..j] == log;
      }
    }
  }

  /** Settled siblings below the level of a child make its event come in turn. */
  lemma ResumeInTurn(sh: Shape, priority: map<NodeId, nat>, p: nat, base: nat, log: seq<Event>, pending: Names,
      e: Event)
    requires e.Resume? && Uses(sh.links, e.parent, e.n) && OnLevel(sh, priority, p, e.n)
    requires LowerSettled(sh, priority, p, e.parent, log, base, e.dirty, pending)
    ensures InTurn(sh, priority, log, base, e)
  {
    hide FailedSince;
    forall c | Uses(sh.links, e.parent, c) && c in sh.matching && c in priority && priority[c] < priority[e.n]
      ensures c !in e.dirty || FailedSince(log, base, e.parent, c)
    {
      assert Settled(log, base, e.dirty, pending, e.parent, c);
    }
  }

  lemma RenameInTurn(sh: Shape, priority: map<NodeId, nat>, p: nat, base: nat, log: seq<Event>, dirty: set<NodeId>,
                     e: Event)
    requires e.Rename? && Uses(sh.links, e.level, e.n) && OnLevel(sh, priority, p, e.n)
    requires LowerSettled(sh, priority, p, e.level, log, base, dirty, e.pending)
    ensures InTurn(sh, priority, log, base, e)
  {
    hide FailedSince;
    forall c | Uses(sh.links, e.level, c) && c in sh.matching && c in priority && priority[c] < priority[e.n]
      ensures c !in e.pending
    {
      assert Settled(log, base, dirty, e.pending, e.level, c);
    }
  }

  lemma FailedNow(log: seq<Event>, e: Event)
    requires e.Resume? && !e.ok
    ensures FailedSince(log + [e], |log|, e.parent, e.n)
  {
    assert (log + [e])[|log|] == e;
  }

  /** Everything since `before` concerns children of level p. */
  ghost predicate OfLevel(sh: Shape, priority: map<NodeId, nat>, p: nat, before: seq<Event>, log: seq<Event>) {
    before <= log && forall i :: |before| <= i < |log| ==> OnLevel(sh, priority, p, log[i].n)
  }

  lemma OfLevelStart(sh: Shape, priority: map<NodeId, nat>, p: nat, log: seq<Event>)
    ensures OfLevel(sh, priority, p, log, log)
  {
  }

  /** The priorities of the children dealt with never fall. */
  ghost predicate Ascending(priority: map<NodeId, nat>, base: nat, log: seq<Event>) {
    forall i, j :: base <= i < j < |log| ==>
      log[i].n in priority && log[j].n in priority && priority[log[i].n] <= priority[log[j].n]
  }

  ghost predicate AscendingBelow(priority: map<NodeId, nat>, base: nat, log: seq<Event>, p: nat) {
    && Ascending(priority, base, log)
    && forall i :: base <= i < |log| ==> log[i].n in priority && priority[log[i].n] < p
  }

  lemma LevelAscends(sh: Shape, priority: map<NodeId, nat>, p: nat, base: nat, mid: seq<Event>, log: seq<Event>)
    requires base <= |mid| && AscendingBelow(priority, base, mid, p) && OfLevel(sh, priority, p, mid, log)
    ensures AscendingBelow(priority, base, log, p + 1)
  {
    assert forall i :: base <= i < |mid| ==> log[i] == mid[i];
  }

  lemma OfLevelOne(sh: Shape, priority: map<NodeId, nat>, p: nat, log: seq<Event>, e: Event)
    requires OnLevel(sh, priority, p, e.n)
    ensures OfLevel(sh, priority, p, log, log + [e])
  {
  }

  lemma OfLevelJoins(sh: Shape, priority: map<NodeId, nat>, p: nat, before: seq<Event>, mid: seq<Event>,
                     log: seq<Event>)
    requires OfLevel(sh, priority, p, before, mid) && OfLevel(sh, priority, p, mid, log)
    ensures OfLevel(sh, priority, p, before, log) && before <= mid <= log
  {
    assert forall i :: |before| <= i < |mid| ==> log[i] == mid[i];
  }

  /** Of two children of a node, resumed while it was dealt with or before, the one of
      lower priority is resumed first. */
  ghost predicate LowestFirst(sh: Shape, priority: map<NodeId, nat>, log: seq<Event>) {
    forall j, k :: 0 <= j < |log| && 0 <= k < |log| && log[j].Resume? && log[k].Resume?
      && Uses(sh.links, log[j].parent, log[k].n) && log[k].n in sh.matching
      && log[k].n in priority && log[j].n in priority && priority[log[k].n] < priority[log[j].n]
      ==> k < j
  }

  lemma AllInOrder(sh: Shape, rank: map<NodeId, nat>, priority: map<NodeId, nat>, log: seq<Event>, now: set<NodeId>)
    requires InOrder(sh, priority, 0, log) && SafeLog(sh, rank, log) && Continuous(log, now) && NoFailure([], log)
    ensures LowestFirst(sh, priority, log)
  {
    hide InOrder, SafeLog, Continuous, NoFailure;
    forall j: nat, k: nat | j < |log| && k < |log| && log[j].Resume? && log[k].Resume?
      && Uses(sh.links, log[j].parent, log[k].n) && log[k].n in sh.matching
      && log[k].n in priority && log[j].n in priority && priority[log[k].n] < priority[log[j].n]
      ensures k < j
    {
      LowerFirst(sh, rank, priority, log, now, j, k);
    }
  }

  /** Without failures, a sibling of lower priority that is resumed at all is resumed
      first. */
  lemma LowerFirst(sh: Shape, rank: map<NodeId, nat>, priority: map<NodeId, nat>, log: seq<Event>, now: set<NodeId>,
                   j: nat, k: nat)
    requires InOrder(sh, priority, 0, log) && SafeLog(sh, rank, log) && Continuous(log, now)
    requires j < |log| && k < |log| && log[j].Resume? && log[k].Resume? && NoFailure([], log)
    requires Uses(sh.links, log[j].parent, log[k].n) && log[k].n in sh.matching
    requires log[k].n in priority && log[j].n in priority && priority[log[k].n] < priority[log[j].n]
    ensures k < j
  {
    hide Continuous, Shape.Valid;
    assert SafeEvent(sh, rank, log[k]) && InTurn(sh, priority, log[..j], 0, log[j]);
    if j < k {
      ContinuousPrefix(log, now, k);
      DueShrinks(log[..k], log[k].dirty, j);
    }
  }

  // ---- what a failure stops within a pass ----

  /** Nothing that was logged since `before` failed. */
  ghost predicate NoFailure(before: seq<Event>, log: seq<Event>) {
    forall i :: |before| <= i < |log| ==> log[i].ok
  }

  /** What may still follow a failed event: nothing at all after a rename or after
      messages; after a resume no messages, and no resume of anything above. */
  ghost predicate MayFollow(sh: Shape, rank: map<NodeId, nat>, e: Event, f: Event) {
    && e.Resume? && !f.Messages?
    && (f.Resume? ==> sh.Valid(rank) && f.n in sh.links.uses && e.n !in sh.BelowFrom(f.n, 0, rank))
  }

  ghost predicate Stops(sh: Shape, rank: map<NodeId, nat>, before: seq<Event>, log: seq<Event>) {
    forall i, j :: |before| <= i < j < |log| && !log[i].ok ==> MayFollow(sh, rank, log[i], log[j])
  }

  /** A pass that comes to an end reports success exactly when nothing failed, and
      failures stop it. */
  ghost predicate PassLog(sh: Shape, rank: map<NodeId, nat>, before: seq<Event>, log: seq<Event>, r: bool,
      ended: bool)
  {
    && before <= log && (ended ==> (r <==> NoFailure(before, log))) && (r ==> ended)
    && Stops(sh, rank, before, log)
  }

  lemma PassLogStart(sh: Shape, rank: map<NodeId, nat>, log: seq<Event>)
    ensures PassLog(sh, rank, log, log, true, true)
  {
  }

  lemma PassLogJoins(sh: Shape, rank: map<NodeId, nat>, before: seq<Event>, mid: seq<Event>, log: seq<Event>, r: bool,
      ended: bool)
    requires PassLog(sh, rank, before, mid, true, true) && PassLog(sh, rank, mid, log, r, ended)
    ensures PassLog(sh, rank, before, log, r, ended) && before <= mid <= log
  {
    assert forall i :: |before| <= i < |mid| ==> log[i] == mid[i];
    if ended && !r {
      var i :| |mid| <= i < |log| && !log[i].ok;
    }
  }

  /** Nodes lose their messages only by sending them. */
  ghost predicate MessagesGone(before: set<NodeId>, after: set<NodeId>, base: nat, log: seq<Event>) {
    after <= before && forall x :: x in before && x !in after ==> Posted(base, log, x)
  }

  ghost predicate Posted(base: nat, log: seq<Event>, x: NodeId) {
    exists i :: base <= i < |log| && log[i].Messages? && log[i].n == x && log[i].ok
  }

  lemma NoneGone(all: set<NodeId>, log: seq<Event>)
    ensures MessagesGone(all, all, |log|, log)
  {
  }

  lemma GoneStays(all: set<NodeId>, had: set<NodeId>, has: set<NodeId>, base: nat, mid: seq<Event>, log: seq<Event>)
    requires MessagesGone(all, had, base, mid) && mid <= log && base <= |mid|
    requires had == has || MessagesGone(had, has, |mid|, log)
    ensures MessagesGone(all, has, base, log)
  {
    forall x | x in all && x !in has
      ensures Posted(base, log, x)
    {
      if x !in had {
        assert Posted(base, mid, x);
        var i :| base <= i < |mid| && mid[i].Messages? && mid[i].n == x && mid[i].ok;
        assert log[i] == mid[i];
      } else {
        assert Posted(|mid|, log, x);
      }
    }
  }

  lemma MessagesPosted(had: set<NodeId>, has: set<NodeId>, log: seq<Event>, e: Event)
    requires e.Messages? && (has == had || (e.ok && has == had - {e.n}))
    ensures MessagesGone(had, has, |log|, log + [e])
  {
    assert (log + [e])[|log|] == e;
    forall x | x in had && x !in has
      ensures Posted(|log|, log + [e], x)
    {
    }
  }

  /** Messages come last. */
  lemma PassLogMessages(sh: Shape, rank: map<NodeId, nat>, before: seq<Event>, log: seq<Event>, e: Event)
    requires PassLog(sh, rank, before, log, true, true) && e.Messages?
    ensures PassLog(sh, rank, before, log + [e], e.ok, true)
  {
    assert (log + [e])[|log|] == e;
  }

  /** One level: children with nothing due below them, and a failed rename only at the
      end, when the level is given up. */
  ghost predicate LevelEvent(sh: Shape, rank: map<NodeId, nat>, dirty: set<NodeId>, e: Event) {
    !e.Messages? &&
    (e.Resume? ==> sh.Valid(rank) && e.n in sh.links.uses && e.n in dirty && sh.BelowFrom(e.n, 0, rank) !! dirty)
  }

  ghost predicate LevelLog(sh: Shape, rank: map<NodeId, nat>, dirty: set<NodeId>, before: seq<Event>, log: seq<Event>,
      abort: bool)
  {
    && before <= log
    && (forall i :: |before| <= i < |log| ==> LevelEvent(sh, rank, dirty, log[i]))
    && (forall i :: |before| <= i < |log| && log[i].Rename? && !log[i].ok ==> abort && i == |log| - 1)
  }

  lemma LevelLogStart(sh: Shape, rank: map<NodeId, nat>, dirty: set<NodeId>, log: seq<Event>)
    ensures LevelLog(sh, rank, dirty, log, log, false) && NoFailure(log, log)
  {
  }

  lemma LevelLogOne(sh: Shape, rank: map<NodeId, nat>, dirty: set<NodeId>, before: seq<Event>, e: Event)
    requires LevelEvent(sh, rank, dirty, e)
    ensures LevelLog(sh, rank, dirty, before, before + [e], e.Rename? && !e.ok)
    ensures NoFailure(before, before + [e]) <==> e.ok
  {
    assert (before + [e])[|before|] == e;
  }

  lemma LevelLogJoins(sh: Shape, rank: map<NodeId, nat>, dirty: set<NodeId>, before: seq<Event>, mid: seq<Event>,
      log: seq<Event>, abort: bool)
    requires LevelLog(sh, rank, dirty, before, mid, false) && LevelLog(sh, rank, dirty, mid, log, abort)
    ensures LevelLog(sh, rank, dirty, before, log, abort)
    ensures NoFailure(before, log) <==> NoFailure(before, mid) && NoFailure(mid, log)
  {
    hide LevelEvent;
    assert forall i :: |before| <= i < |mid| ==> log[i] == mid[i];
  }

  /** On a level nothing above a failed child is resumed: the child was due when the
      level began, and nothing due lay below any of the children. */
  lemma LevelLogPasses(sh: Shape, rank: map<NodeId, nat>, dirty: set<NodeId>, before: seq<Event>, log: seq<Event>,
      abort: bool)
    requires LevelLog(sh, rank, dirty, before, log, abort)
    ensures before <= log && Stops(sh, rank, before, log)
  {
    forall i, j | |before| <= i < j < |log| && !log[i].ok
      ensures MayFollow(sh, rank, log[i], log[j])
    {
      assert LevelEvent(sh, rank, dirty, log[i]) && LevelEvent(sh, rank, dirty, log[j]);
    }
  }

  ghost function ResumedIn(log: seq<Event>): set<NodeId> {
    set e | e in log && e.Resume? && e.ok :: e.n
  }

  /** Nothing failed or was renamed so far, no device was resumed twice, and what is
      still to do is the rest of what was. */
  ghost predicate ExactLog(initially: set<NodeId>, dirty: set<NodeId>, log: seq<Event>) {
    && initially == dirty + ResumedIn(log)
    && dirty !! ResumedIn(log)
    && (forall i :: 0 <= i < |log| ==> log[i].ok && !log[i].Rename?)
    && OnceEach(log)
  }

  ghost predicate OnceEach(log: seq<Event>) {
    forall i, j :: 0 <= i < j < |log| && log[i].Resume? && log[j].Resume? ==> log[i].n != log[j].n
  }

  lemma ExactLogGrows(initially: set<NodeId>, dirty: set<NodeId>, log: seq<Event>, d: NodeId, n: NodeId, pending: Names)
    requires ExactLog(initially, dirty, log) && n in dirty
    ensures ExactLog(initially, dirty - {n}, log + [Resume(d, n, true, true, dirty, pending)])
  {
    var e := Resume(d, n, true, true, dirty, pending);
    assert e in log + [e];
    assert ResumedIn(log + [e]) == ResumedIn(log) + {n};
    assert forall i :: 0 <= i < |log| && log[i].Resume? ==> log[i] in log && log[i].n in ResumedIn(log);
  }

  lemma ExactLogMessages(initially: set<NodeId>, dirty: set<NodeId>, log: seq<Event>, n: NodeId)
    requires ExactLog(initially, dirty, log)
    ensures ExactLog(initially, dirty, log + [Messages(n, true, dirty)])
  {
    assert ResumedIn(log + [Messages(n, true, dirty)]) == ResumedIn(log);
  }

  lemma SafeLogGrows(sh: Shape, rank: map<NodeId, nat>, log: seq<Event>, e: Event)
    requires SafeLog(sh, rank, log) && SafeEvent(sh, rank, e)
    ensures SafeLog(sh, rank, log + [e])
  {
  }

  // ---- a level against the rounds of the rename loop ----

  /** The round from child i on, and `count` children that wait already, make the
      whole round. */
  ghost predicate Ahead(before: RenameLoop.Siblings, now: RenameLoop.Siblings, i: nat, count: nat, taken: set<string>) {
    && i <= |now|
    && var o := RenameLoop.Round(now, i, taken);
       RenameLoop.Round(before, 0, taken) == o.(waiting := o.waiting + count)
  }

  lemma AheadStart(s: RenameLoop.Siblings, taken: set<string>)
    ensures Ahead(s, s, 0, 0, taken)
  {
  }

  lemma AheadEnd(before: RenameLoop.Siblings, now: RenameLoop.Siblings, count: nat, taken: set<string>)
    requires Ahead(before, now, |now|, count, taken)
    ensures RenameLoop.Round(before, 0, taken) == RenameLoop.Outcome(now, count, false)
  {
  }

  lemma AheadVisit(before: RenameLoop.Siblings, now: RenameLoop.Siblings, i: nat, count: nat, taken: set<string>)
    requires i < |now| && Ahead(before, now, i, count, taken)
    requires !(RenameLoop.Handled(now[i]) && RenameLoop.Refused(now, i, taken))
    ensures Ahead(before, RenameLoop.Visit(now, i), i + 1,
                  count + if RenameLoop.Handled(now[i]) && RenameLoop.Waits(now, i) then 1 else 0, taken)
  {
    hide RenameLoop.Waits, RenameLoop.Refused;
  }

  lemma AheadRefused(before: RenameLoop.Siblings, now: RenameLoop.Siblings, i: nat, count: nat, taken: set<string>)
    requires i < |now| && Ahead(before, now, i, count, taken)
    requires RenameLoop.Handled(now[i]) && RenameLoop.Refused(now, i, taken)
    ensures RenameLoop.Round(before, 0, taken).failed
  {
    hide RenameLoop.Waits, RenameLoop.Refused;
  }

  lemma RoundsStart(s: RenameLoop.Siblings, taken: set<string>)
    ensures RenameLoop.AllWaiting(s, 0, taken) && RenameLoop.RoundsFrom(s, 0, taken) == s
  {
  }

  lemma RoundsNext(s: RenameLoop.Siblings, k: nat, taken: set<string>, after: RenameLoop.Siblings, waiting: bool)
    requires RenameLoop.AllWaiting(s, k, taken)
    requires var o := RenameLoop.Round(RenameLoop.RoundsFrom(s, k, taken), 0, taken);
      !o.failed && o.after == after && (waiting <==> o.waiting > 0)
    ensures after == RenameLoop.RoundsFrom(s, k + 1, taken)
    ensures waiting ==> RenameLoop.AllWaiting(s, k + 1, taken)
    ensures !waiting ==> RenameLoop.Succeeds(s, taken)
  {
    hide RenameLoop.Round;
    if !waiting {
      assert RenameLoop.SucceedsIn(RenameLoop.RoundsFrom(s, k, taken), 0, taken);
      RenameLoop.RoundsSucceed(s, k, taken);
    }
  }

  /** What a round starts from. */
  datatype RoundStart = RoundStart(log: seq<Event>, names: Names, pending: Names, siblings: RenameLoop.Siblings,
      taken: set<string>)

  class ActivatePass {
    const sh: Shape
    const priority: map<NodeId, nat>
    const faulty: bool                 // whether ioctls may fail
    ghost const rank: map<NodeId, nat>
    ghost const order: map<NodeId, nat>
    var kernelSuspended: set<NodeId>   // what the kernel knows
    var kernelInactive: set<NodeId>
    var suspended: set<NodeId>         // what the cached node->info says
    var inactive: set<NodeId>
    var names: Names
    var newName: Names                 // renames still to be done
    var counter: nat                   // _suspended_dev_counter
    var sendMessages: set<NodeId>      // nodes with props.send_messages
    ghost const initially: set<NodeId>
    ghost var log: seq<Event>

    function Dirty(): set<NodeId>
      reads this
    {
      suspended + inactive
    }

    ghost predicate Valid()
      reads this
    {
      && sh.Valid(rank)
      && (forall n :: n in sh.matching ==> n in priority && priority[n] < 3)
      && ProperNames(names, newName)
      && kernelSuspended + kernelInactive <= Dirty()
      && SafeLog(sh, rank, log) && Continuous(log, Dirty())
    }

    /** Waiting for names follows an order inside each level. */
    ghost predicate IsGrounded()
      reads this
    {
      Grounded(sh, priority, order, names, newName)
    }

    /** The children of d at level p, as the rename loop sees them. */
    ghost function Siblings(d: NodeId, p: nat): RenameLoop.Siblings
      requires d in sh.links.uses
      reads this
    {
      SiblingsOf(sh, priority, p, sh.links.uses[d], names, newName)
    }

    ghost function TakenBeside(d: NodeId): set<string>
      requires d in sh.links.uses
      reads this
    {
      Taken(sh.links.uses[d], names)
    }

    /** Accurate info, no renames, and every resume so far counted. */
    ghost predicate Exact()
      reads this
    {
      && suspended == kernelSuspended && inactive == kernelInactive
      && newName == map[] && |suspended| <= counter
      && ExactLog(initially, Dirty(), log)
    }

    /** _rename_conflict_exists */
    method RenameConflictExists(d: NodeId, n: NodeId) returns (conflict: bool, resolvable: bool)
      requires d in sh.links.uses && n in newName && ProperNames(names, newName)
      ensures conflict && resolvable <==> Blocked(sh, names, newName, d, n)
    {
      var list := sh.links.uses[d];
      for i := 0 to |list|
        invariant forall j :: 0 <= j < i && list[j] != n ==> NameOf(names, list[j]) != newName[n]
      {
        var s := list[i];
        if s != n && newName[n] == NameOf(names, s) {
          if s in newName {
            assert Uses(sh.links, d, s) && WaitsFor(names, newName, n, s);
            return true, true;
          }
          assert !Blocked(sh, names, newName, d, n);
          return true, false;
        }
      }
      return false, false;
    }

    lemma UnblockedIsSafe(d: NodeId, n: NodeId, ok: bool)
      requires n in newName && !Blocked(sh, names, newName, d, n)
      ensures SafeEvent(sh, rank, Rename(d, n, newName[n], ok, names, newName))
    {
      forall s | Uses(sh.links, d, s) && s != n && s in newName
        ensures NameOf(names, s) != newName[n]
      {
        assert !WaitsFor(names, newName, n, s);
      }
    }

    /** _rename_node: refused by the kernel when a device has the name. */
    method RenameNode(d: NodeId, n: NodeId) returns (ok: bool)
      requires Valid() && n in newName && !Blocked(sh, names, newName, d, n)
      modifies this`names, this`newName, this`log
      ensures Valid() && (old(IsGrounded()) ==> IsGrounded())
      ensures ok ==> old(newName)[n] !in old(names).Values
      ensures !faulty && old(newName)[n] !in old(names).Values ==> ok
      ensures ok ==> names == old(names)[n := old(newName)[n]] && newName == old(newName) - {n}
      ensures ok ==> |newName| < |old(newName)|
      ensures !ok ==> names == old(names) && newName == old(newName)
      ensures log == old(log) + [Rename(d, n, old(newName)[n], ok, old(names), old(newName))]
    {
      hide Shape.Valid, Grounded, SafeEvent, SafeLog, ProperNames, Blocked, Continuous;
      var to := newName[n];
      ok := *;
      ok := (ok || !faulty) && to !in names.Values;
      UnblockedIsSafe(d, n, ok);
      SafeLogGrows(sh, rank, log, Rename(d, n, to, ok, names, newName));
      ContinuousGrows(log, Dirty(), Rename(d, n, to, ok, names, newName), Dirty());
      log := log + [Rename(d, n, to, ok, names, newName)];
      if ok {
        if IsGrounded() {
          GroundedStays(sh, priority, order, names, newName, n, to);
        }
        ProperNamesStay(names, newName, n, to);
        names, newName := names[n := to], newName - {n};
        assert newName.Keys == old(newName).Keys - {n};
      }
    }

    /** _resume_node: swaps in the inactive table; the ioctl may fail, and so may
        reading back the new info. */
    method ResumeNode(n: NodeId, ghost d: NodeId) returns (ok: bool, ghost ran: bool)
      requires Valid() && n in Dirty() && n in sh.links.uses && sh.BelowFrom(n, 0, rank) !! Dirty() && n !in newName
      modifies this`kernelSuspended, this`kernelInactive, this`counter, this`log
      ensures Valid() && (!faulty ==> ok)
      ensures ok ==> kernelSuspended == old(kernelSuspended) - {n} && kernelInactive == old(kernelInactive) - {n}
      ensures log == old(log) + [Resume(d, n, ran, ok, Dirty(), newName)] && (ok ==> ran)
      ensures ok ==> counter == if n in suspended && old(counter) > 0 then old(counter) - 1 else old(counter)
    {
      hide Shape.Valid, Grounded, SafeLog, ProperNames, Continuous;
      var done: bool, got: bool := *, *;
      done, got := done || !faulty, got || !faulty;
      ok, ran := done && got, done;
      SafeLogGrows(sh, rank, log, Resume(d, n, ran, ok, Dirty(), newName));
      ContinuousGrows(log, Dirty(), Resume(d, n, ran, ok, Dirty(), newName), Dirty());
      log := log + [Resume(d, n, ran, ok, Dirty(), newName)];
      if done {
        if n in suspended && counter > 0 {
          counter := counter - 1;
        }
        kernelSuspended, kernelInactive := kernelSuspended - {n}, kernelInactive - {n};
      }
    }

    /** n is one of the children handled at level p. */
    predicate InLevel(n: NodeId, p: nat) {
      OnLevel(sh, priority, p, n)
    }

    /** Since `base` everything came in its turn, and the children of d below level p
        are settled. */
    ghost predicate Turn(d: NodeId, p: nat, base: nat)
      reads this
    {
      && base <= |log| && InOrder(sh, priority, base, log)
      && LowerSettled(sh, priority, p, d, log, base, Dirty(), newName)
    }

    /** The children of d on level p are settled. */
    ghost predicate LevelSettled(d: NodeId, p: nat, base: nat)
      requires d in sh.links.uses
      reads this
    {
      forall c :: c in sh.links.uses[d] && InLevel(c, p) ==> Settled(log, base, Dirty(), newName, d, c)
    }

    /** Resume n if its info asks for it, and update that info. */
    method ResumeChild(d: NodeId, n: NodeId, p: nat, ghost dirty: set<NodeId>, ghost base: nat) returns (r: bool)
      requires Valid() && n in sh.links.uses && Dirty() <= dirty && sh.BelowFrom(n, 0, rank) !! dirty
      requires Uses(sh.links, d, n) && InLevel(n, p) && Turn(d, p, base) && n !in newName
      modifies this`kernelSuspended, this`kernelInactive, this`suspended, this`inactive, this`counter, this`log
      ensures Valid() && Dirty() <= old(Dirty()) && (n !in Dirty() || FailedSince(log, |old(log)|, d, n))
      ensures Turn(d, p, base) && OfLevel(sh, priority, p, old(log), log)
      ensures LevelLog(sh, rank, dirty, old(log), log, false) && (r <==> NoFailure(old(log), log))
      ensures !faulty && old(Exact()) ==> Exact() && r
      ensures !faulty && old(Exact()) ==> counter + |old(suspended)| == old(counter) + |suspended|
    {
      hide Shape.Valid, Grounded, SafeLog, ProperNames, ExactLog, Continuous, LevelLog, NoFailure, InOrder,
        LowerSettled, FailedSince, OfLevel;
      LevelLogStart(sh, rank, dirty, log);
      OfLevelStart(sh, priority, p, log);
      if n !in inactive && n !in suspended {
        return true;
      }
      ghost var ran;
      r, ran := ResumeNode(n, d);
      ghost var e := Resume(d, n, ran, r, Dirty(), newName);
      LevelLogOne(sh, rank, dirty, old(log), e);
      OfLevelOne(sh, priority, p, old(log), e);
      ResumeInTurn(sh, priority, p, base, old(log), newName, e);
      InOrderNext(sh, priority, base, old(log), e);
      if old(Exact()) {
        ExactLogGrows(initially, Dirty(), old(log), d, n, newName);
      }
      if r {
        ContinuousGrows(old(log), Dirty(), Resume(d, n, true, true, Dirty(), newName), Dirty() - {n});
        suspended, inactive := suspended - {n}, inactive - {n};
        assert Dirty() == old(Dirty()) - {n};
      } else {
        FailedNow(old(log), e);
      }
      LowerStays(sh, priority, p, d, old(log), base, old(Dirty()), newName, log, Dirty(), newName);
    }

    /** The body of the level loop for one child: rename it, or wait for a
        sibling to be renamed, then resume it. */
    method ActivateChild(d: NodeId, n: NodeId, p: nat, ghost dirty: set<NodeId>, ghost base: nat)
      returns (r: bool, waiting: bool, abort: bool)
      requires Valid() && d in sh.links.uses && n in sh.links.uses && Dirty() <= dirty
      requires Uses(sh.links, d, n) && Turn(d, p, base)
      requires n in sh.matching ==> sh.BelowFrom(n, 0, rank) !! dirty
      modifies this`kernelSuspended, this`kernelInactive, this`suspended, this`inactive, this`names, this`newName,
        this`counter, this`log
      ensures Valid() && Dirty() <= old(Dirty()) && (old(IsGrounded()) ==> IsGrounded())
      ensures if newName == old(newName) then names == old(names) else |newName| < |old(newName)|
      ensures waiting <==> InLevel(n, p) && n in old(newName) && Blocked(sh, old(names), old(newName), d, n)
      ensures !abort ==> NamesStep(sh, priority, p, d, n, old(names), old(newName), names, newName)
      ensures abort && !faulty ==> InLevel(n, p) && n in old(newName) && old(newName)[n] in old(names).Values
                                   && !Blocked(sh, old(names), old(newName), d, n)
      ensures Turn(d, p, base) && OfLevel(sh, priority, p, old(log), log) && newName.Keys <= old(newName).Keys
      ensures !waiting && !abort && InLevel(n, p) ==> Settled(log, |old(log)|, Dirty(), newName, d, n)
      ensures LevelLog(sh, rank, dirty, old(log), log, abort) && (r <==> NoFailure(old(log), log)) && (abort ==> !r)
      ensures !faulty && old(Exact()) ==> Exact() && r && !waiting && !abort
      ensures !faulty && old(Exact()) ==> counter + |old(suspended)| == old(counter) + |suspended|
    {
      hide Shape.Valid, Grounded, SafeLog, ProperNames, Blocked, ExactLog, Continuous, LevelLog, NoFailure, InOrder,
        LowerSettled, FailedSince, OfLevel;
      r, waiting, abort := true, false, false;
      LevelLogStart(sh, rank, dirty, log);
      OfLevelStart(sh, priority, p, log);
      if !InLevel(n, p) {
        return;
      }
      if n in newName {
        var conflict, resolvable := RenameConflictExists(d, n);
        if conflict && resolvable {
          waiting := true;
          return;
        }
        var ok := RenameNode(d, n);
        ghost var e := Rename(d, n, old(newName)[n], ok, old(names), old(newName));
        LevelLogOne(sh, rank, dirty, old(log), e);
        OfLevelOne(sh, priority, p, old(log), e);
        RenameInTurn(sh, priority, p, base, old(log), Dirty(), e);
        InOrderNext(sh, priority, base, old(log), e);
        LowerStays(sh, priority, p, d, old(log), base, Dirty(), old(newName), log, Dirty(), newName);
        if !ok {
          r, abort := false, true;
          return;
        }
      }
      ghost var mid := log;
      r := ResumeChild(d, n, p, dirty, base);
      LevelLogJoins(sh, rank, dirty, old(log), mid, log, false);
      OfLevelJoins(sh, priority, p, old(log), mid, log);
      SettledSince(mid, |old(log)|, n, d);
    }

    lemma SettledSince(mid: seq<Event>, base: nat, n: NodeId, d: NodeId)
      requires base <= |mid| && n !in newName && (n !in Dirty() || FailedSince(log, |mid|, d, n))
      ensures Settled(log, base, Dirty(), newName, d, n)
    {
      if n in Dirty() {
        FailedStays(log, log, |mid|, base, d, n);
      }
    }

    /** Nothing below a child of d is left to do. */
    ghost predicate KidsSettled(d: NodeId, dirty: set<NodeId>)
      requires sh.Valid(rank) && d in sh.links.uses
    {
      forall c :: c in sh.links.uses[d] && c in sh.matching ==> c in sh.links.uses && sh.BelowFrom(c, 0, rank) !! dirty
    }

    lemma AheadNext(d: NodeId, p: nat, before: RenameLoop.Siblings, i: nat, count: nat,
                    names0: Names, pending0: Names, names1: Names, pending1: Names, waiting: bool) returns (count': nat)
      requires d in sh.links.uses && NoDup(sh.links.uses[d]) && ProperNames(names0, pending0) && i < |sh.links.uses[d]|
      requires NamesStep(sh, priority, p, d, sh.links.uses[d][i], names0, pending0, names1, pending1)
      requires waiting <==> InLevel(sh.links.uses[d][i], p) && sh.links.uses[d][i] in pending0
                            && Blocked(sh, names0, pending0, d, sh.links.uses[d][i])
      requires var list := sh.links.uses[d];
        Ahead(before, SiblingsOf(sh, priority, p, list, names0, pending0), i, count, Taken(list, names0))
      ensures count' == count + if waiting then 1 else 0
      ensures var list := sh.links.uses[d];
        Taken(list, names1) == Taken(list, names0)
        && Ahead(before, SiblingsOf(sh, priority, p, list, names1, pending1), i + 1, count', Taken(list, names0))
    {
      hide Ahead, NamesStep, Blocked, ProperNames, RenameLoop.Waits, RenameLoop.Refused, RenameLoop.Visit;
      var list := sh.links.uses[d];
      count' := count + if waiting then 1 else 0;
      StepIsVisit(sh, priority, p, d, i, names0, pending0, names1, pending1);
      WaitsIsBlocked(sh, priority, p, d, i, names0, pending0);
      AheadVisit(before, SiblingsOf(sh, priority, p, list, names0, pending0), i, count, Taken(list, names0));
    }

    /** A round that changed no pending rename changed no child: it is repeated for ever. */
    lemma IdleRound(d: NodeId, p: nat, s: RenameLoop.Siblings, k: nat, taken: set<string>, now: RenameLoop.Siblings)
      requires d in sh.links.uses && RenameLoop.Unique(s, taken)
      requires RenameLoop.AllWaiting(s, k + 1, taken) && now == RenameLoop.RoundsFrom(s, k, taken)
      requires Siblings(d, p) == RenameLoop.RoundsFrom(s, k + 1, taken) == now
      ensures !RenameLoop.Ends(s, taken)
    {
      RenameLoop.RoundsIdle(s, k, taken);
    }

    /** Of the first i children, those of the level are settled. */
    ghost predicate LevelDone(d: NodeId, i: nat, p: nat, log: seq<Event>, base: nat, dirty: set<NodeId>, pending: Names)
      requires d in sh.links.uses
    {
      var list := sh.links.uses[d];
      i <= |list| && forall j :: 0 <= j < i && InLevel(list[j], p) ==> Settled(log, base, dirty, pending, d, list[j])
    }

    lemma ValidParts()
      requires Valid()
      ensures sh.Valid(rank) && ProperNames(names, newName)
    {
    }

    lemma AllDone(d: NodeId, p: nat, base: nat)
      requires d in sh.links.uses && LevelDone(d, |sh.links.uses[d]|, p, log, base, Dirty(), newName)
      ensures LevelSettled(d, p, base)
    {
    }

    lemma LevelDoneNext(d: NodeId, i: nat, p: nat, base: nat, log0: seq<Event>, dirty0: set<NodeId>, pending0: Names,
                        log1: seq<Event>, dirty1: set<NodeId>, pending1: Names)
      requires d in sh.links.uses && i < |sh.links.uses[d]| && LevelDone(d, i, p, log0, base, dirty0, pending0)
      requires log0 <= log1 && dirty1 <= dirty0 && pending1.Keys <= pending0.Keys && base <= |log0|
      requires InLevel(sh.links.uses[d][i], p) ==> Settled(log1, |log0|, dirty1, pending1, d, sh.links.uses[d][i])
      ensures LevelDone(d, i + 1, p, log1, base, dirty1, pending1)
    {
      hide FailedSince;
      var list := sh.links.uses[d];
      forall j | 0 <= j < i + 1 && InLevel(list[j], p)
        ensures Settled(log1, base, dirty1, pending1, d, list[j])
      {
        if j < i {
          if FailedSince(log0, base, d, list[j]) {
            FailedStays(log0, log1, base, base, d, list[j]);
          }
        } else if FailedSince(log1, |log0|, d, list[j]) {
          FailedStays(log1, log1, |log0|, base, d, list[j]);
        }
      }
    }

    lemma EarlierLevel(d: NodeId, p: nat, base: nat, from: nat)
      requires d in sh.links.uses && LevelSettled(d, p, from) && base <= from
      ensures LevelSettled(d, p, base)
    {
      hide FailedSince;
      forall c | c in sh.links.uses[d] && InLevel(c, p)
        ensures Settled(log, base, Dirty(), newName, d, c)
      {
        if FailedSince(log, from, d, c) {
          FailedStays(log, log, from, base, d, c);
        }
      }
    }

    /** A level that is settled leaves everything below the next one settled. */
    lemma LevelRises(d: NodeId, p: nat, base: nat, from: nat)
      requires d in sh.links.uses && Turn(d, p, base) && LevelSettled(d, p, from) && base <= from
      ensures Turn(d, p + 1, base)
    {
      hide FailedSince;
      forall c | Uses(sh.links, d, c) && c in sh.matching && c in priority && priority[c] < p + 1
        ensures Settled(log, base, Dirty(), newName, d, c)
      {
        if priority[c] == p {
          assert InLevel(c, p);
          if FailedSince(log, from, d, c) {
            FailedStays(log, log, from, base, d, c);
          }
        }
      }
    }

    /** How a round over the children of d with priority p began. */
    ghost function Beginning(d: NodeId, p: nat): RoundStart
      requires d in sh.links.uses
      reads this
    {
      RoundStart(log, names, newName, Siblings(d, p), TakenBeside(d))
    }

    /** The round has dealt with the first i children, of whom `count` wait. */
    ghost predicate RoundState(d: NodeId, p: nat, i: nat, count: nat, s: RoundStart, dirty: set<NodeId>, base: nat,
        r: bool)
      requires d in sh.links.uses
      reads this
    {
      && (if newName == s.pending then names == s.names else |newName| < |s.pending|)
      && Ahead(s.siblings, Siblings(d, p), i, count, s.taken) && TakenBeside(d) == s.taken
      && Turn(d, p, base) && OfLevel(sh, priority, p, s.log, log) && newName.Keys <= s.pending.Keys
      && (count == 0 ==> LevelDone(d, i, p, log, |s.log|, Dirty(), newName))
      && s.log <= log && LevelLog(sh, rank, dirty, s.log, log, false) && (r <==> NoFailure(s.log, log))
    }

    lemma RoundBegins(d: NodeId, p: nat, dirty: set<NodeId>, base: nat)
      requires d in sh.links.uses && Turn(d, p, base)
      ensures RoundState(d, p, 0, 0, Beginning(d, p), dirty, base, true)
    {
      hide Turn, LevelEvent;
      AheadStart(Siblings(d, p), TakenBeside(d));
    }

    /** The i-th child in a round. */
    method VisitChild(d: NodeId, i: nat, p: nat, ghost dirty: set<NodeId>, ghost base: nat, ghost s: RoundStart,
                      ghost count: nat, ghost r0: bool)
      returns (r: bool, waiting: bool, abort: bool, ghost count': nat)
      requires Valid() && d in sh.links.uses && i < |sh.links.uses[d]| && NoDup(sh.links.uses[d])
      requires Dirty() <= dirty && KidsSettled(d, dirty) && RoundState(d, p, i, count, s, dirty, base, r0)
      modifies this`kernelSuspended, this`kernelInactive, this`suspended, this`inactive, this`names, this`newName,
        this`counter, this`log
      ensures Valid() && Dirty() <= old(Dirty()) && (old(IsGrounded()) ==> IsGrounded())
      ensures !abort ==> RoundState(d, p, i + 1, count', s, dirty, base, r0 && r)
      ensures abort && !faulty ==> RenameLoop.Round(s.siblings, 0, s.taken).failed
      ensures count' == count + if waiting then 1 else 0
      ensures if newName == s.pending then names == s.names else |newName| < |s.pending|
      ensures Turn(d, p, base) && OfLevel(sh, priority, p, s.log, log) && newName.Keys <= s.pending.Keys
      ensures LevelLog(sh, rank, dirty, s.log, log, abort) && (r0 && r <==> NoFailure(s.log, log)) && (abort ==> !r)
      ensures !faulty && old(Exact()) ==> Exact() && r && !waiting && !abort
      ensures !faulty && old(Exact()) ==> counter + |old(suspended)| == old(counter) + |suspended|
    {
      hide Shape.Valid, Grounded, SafeLog, ProperNames, Blocked, ExactLog, Continuous, LevelLog, NoFailure, LevelDone,
        NamesStep, Ahead, RenameLoop.Round, Turn, OfLevel, Settled, SiblingsOf, Taken, Valid, Exact;
      ValidParts();
      sh.KidIsLower(d, i, rank);
      ghost var mid, due, was, wanted := log, Dirty(), names, newName;
      r, waiting, abort := ActivateChild(d, sh.links.uses[d][i], p, dirty, base);
      LevelLogJoins(sh, rank, dirty, s.log, mid, log, abort);
      OfLevelJoins(sh, priority, p, s.log, mid, log);
      count' := count + if waiting then 1 else 0;
      if abort && !faulty {
        RefusalIsRefused(sh, priority, p, d, i, was, wanted);
        AheadRefused(s.siblings, SiblingsOf(sh, priority, p, sh.links.uses[d], was, wanted), i, count, s.taken);
      }
      if !abort {
        count' := AheadNext(d, p, s.siblings, i, count, was, wanted, names, newName, waiting);
        if count' == 0 {
          LevelDoneNext(d, i, p, |s.log|, mid, due, wanted, log, Dirty(), newName);
        }
      }
    }

    /** One round over the children of d with priority p: a round of the rename loop. */
    method ActivateLevel(d: NodeId, p: nat, ghost dirty: set<NodeId>, ghost base: nat)
      returns (r: bool, waiting: bool, abort: bool)
      requires Valid() && d in sh.links.uses && Dirty() <= dirty && KidsSettled(d, dirty) && Turn(d, p, base)
      modifies this`kernelSuspended, this`kernelInactive, this`suspended, this`inactive, this`names, this`newName,
        this`counter, this`log
      ensures Valid() && Dirty() <= old(Dirty()) && (old(IsGrounded()) ==> IsGrounded())
      ensures if newName == old(newName) then names == old(names) else |newName| < |old(newName)|
      ensures old(IsGrounded()) && waiting && !abort ==> |newName| < |old(newName)|
      ensures !abort ==> RoundDone(d, p, old(Siblings(d, p)), old(TakenBeside(d)), waiting)
      ensures abort && !faulty ==> RenameLoop.Round(old(Siblings(d, p)), 0, old(TakenBeside(d))).failed
      ensures Turn(d, p, base) && OfLevel(sh, priority, p, old(log), log) && newName.Keys <= old(newName).Keys
      ensures !waiting && !abort ==> LevelSettled(d, p, |old(log)|)
      ensures LevelLog(sh, rank, dirty, old(log), log, abort) && (r <==> NoFailure(old(log), log)) && (abort ==> !r)
      ensures !faulty && old(Exact()) ==> Exact() && r && !waiting && !abort
      ensures !faulty && old(Exact()) ==> counter + |old(suspended)| == old(counter) + |suspended|
    {
      hide Shape.Valid, Grounded, LevelLog, NoFailure, LevelDone, Ahead, RenameLoop.Round, Turn, OfLevel, LevelSettled,
        SiblingsOf, Taken, Valid, Exact, ProperNames, KidsSettled;
      r, waiting, abort := true, false, false;
      ValidParts();
      sh.KidsDistinct(d, rank);
      if IsGrounded() {
        GroundedMoves(sh, priority, order, p, d, names, newName);
      }
      ghost var s, count := Beginning(d, p), 0;
      RoundBegins(d, p, dirty, base);
      for i := 0 to |sh.links.uses[d]|
        invariant Valid() && Dirty() <= old(Dirty()) && !abort && (old(IsGrounded()) ==> IsGrounded())
        invariant RoundState(d, p, i, count, s, dirty, base, r) && (waiting <==> count > 0)
        invariant !faulty && old(Exact()) ==> Exact() && r && !waiting
        invariant !faulty && old(Exact()) ==> counter + |old(suspended)| == old(counter) + |suspended|
      {
        var ok, w;
        ok, w, abort, count := VisitChild(d, i, p, dirty, base, s, count, r);
        r, waiting := r && ok, waiting || w;
        if abort {
          return;
        }
      }
      AheadEnd(s.siblings, Siblings(d, p), count, s.taken);
      if !waiting {
        AllDone(d, p, |old(log)|);
      }
    }

    /** What a round that was not given up has done to the children's names. */
    ghost predicate RoundDone(d: NodeId, p: nat, before: RenameLoop.Siblings, taken: set<string>, waiting: bool)
      requires d in sh.links.uses
      reads this
    {
      var o := RenameLoop.Round(before, 0, taken);
      !o.failed && o.after == Siblings(d, p) && TakenBeside(d) == taken && (waiting <==> o.waiting > 0)
    }

    /** The level at priority p, redone until nobody waits. A level that would be redone
        for ever is given up, not ended, after some number of idle rounds. */
    method RedoLevel(d: NodeId, p: nat, ghost dirty: set<NodeId>, ghost base: nat)
      returns (r: bool, abort: bool, ended: bool)
      requires Valid() && d in sh.links.uses && Dirty() <= dirty && KidsSettled(d, dirty) && Turn(d, p, base)
      modifies this`kernelSuspended, this`kernelInactive, this`suspended, this`inactive, this`names, this`newName,
        this`counter, this`log
      ensures Valid() && Dirty() <= old(Dirty()) && (old(IsGrounded()) ==> ended && IsGrounded())
      ensures ended && !abort ==> RenameLoop.Succeeds(old(Siblings(d, p)), old(TakenBeside(d)))
      ensures !ended ==> !RenameLoop.Ends(old(Siblings(d, p)), old(TakenBeside(d)))
      ensures !faulty ==> (ended && !abort <==> RenameLoop.Succeeds(old(Siblings(d, p)), old(TakenBeside(d))))
      ensures Turn(d, p, base) && OfLevel(sh, priority, p, old(log), log)
      ensures !abort && ended ==> LevelSettled(d, p, |old(log)|)
      ensures LevelLog(sh, rank, dirty, old(log), log, abort) && (abort ==> !r && ended)
      ensures (ended ==> (r <==> NoFailure(old(log), log))) && (r ==> ended)
      ensures !faulty && old(Exact()) ==> Exact() && r
      ensures !faulty && old(Exact()) ==> counter + |old(suspended)| == old(counter) + |suspended|
    {
      hide Shape.Valid, Grounded, SafeLog, ProperNames, ExactLog, Continuous, LevelLog, NoFailure,
        RenameLoop.Round, RenameLoop.AllWaiting, RenameLoop.Unique, RenameLoop.Ends, Turn, OfLevel, LevelSettled;
      ghost var s, taken := Siblings(d, p), TakenBeside(d);
      sh.KidsDistinct(d, rank);
      SiblingsUnique(sh, priority, p, sh.links.uses[d], names, newName);
      if IsGrounded() {
        GroundedEnds(sh, priority, order, p, d, names, newName);
      }
      LevelLogStart(sh, rank, dirty, log);
      OfLevelStart(sh, priority, p, log);
      RoundsStart(s, taken);
      var patience: nat := *;
      var waiting := true;
      ghost var k := 0;
      r, abort, ended := true, false, true;
      while waiting
        invariant Valid() && Dirty() <= old(Dirty()) && !abort && ended && (old(IsGrounded()) ==> IsGrounded())
        invariant waiting ==> RenameLoop.AllWaiting(s, k, taken) && Siblings(d, p) == RenameLoop.RoundsFrom(s, k, taken)
        invariant TakenBeside(d) == taken && (!waiting ==> RenameLoop.Succeeds(s, taken))
        invariant Turn(d, p, base) && OfLevel(sh, priority, p, old(log), log) && |old(log)| <= |log|
        invariant !waiting ==> LevelSettled(d, p, |old(log)|)
        invariant LevelLog(sh, rank, dirty, old(log), log, false) && (r <==> NoFailure(old(log), log))
        invariant !faulty && old(Exact()) ==> Exact() && r
        invariant !faulty && old(Exact()) ==> counter + |old(suspended)| == old(counter) + |suspended|
        decreases waiting, |newName|, patience
      {
        ghost var mid := log;
        var before, ok := newName, true;
        ghost var now := Siblings(d, p);
        ok, waiting, abort := ActivateLevel(d, p, dirty, base);
        LevelLogJoins(sh, rank, dirty, old(log), mid, log, abort);
        OfLevelJoins(sh, priority, p, old(log), mid, log);
        r := r && ok;
        if abort {
          if !faulty {
            RenameLoop.RoundsFail(s, k, taken);
          }
          return;
        }
        if !waiting {
          EarlierLevel(d, p, |old(log)|, |mid|);
        }
        RoundsNext(s, k, taken, Siblings(d, p), waiting);
        k := k + 1;
        if waiting && |newName| == |before| {
          if patience == 0 {
            IdleRound(d, p, s, k - 1, taken, now);
            RenameLoop.SuccessEnds(s, taken);
            r, ended := false, false;
            return;
          }
          patience := patience - 1;
        }
      }
    }

    /** _node_send_messages, seen from here. */
    method SendMessages(d: NodeId) returns (ok: bool)
      requires Valid() && d in sh.links.uses && sh.BelowFrom(d, 0, rank) !! Dirty()
      modifies this`log, this`sendMessages
      ensures Valid() && log == old(log) + [Messages(d, ok, Dirty())] && (old(IsGrounded()) ==> IsGrounded())
      ensures !faulty ==> ok
      ensures ok && old(Exact()) ==> Exact()
      ensures sendMessages == old(sendMessages) || (ok && sendMessages == old(sendMessages) - {d})
    {
      hide Shape.Valid, Grounded, SafeLog, ProperNames, ExactLog, Continuous;
      var posted: bool;
      ok, posted := *, *;
      ok := ok || !faulty;
      SafeLogGrows(sh, rank, log, Messages(d, ok, Dirty()));
      ContinuousGrows(log, Dirty(), Messages(d, ok, Dirty()), Dirty());
      if old(Exact()) {
        ExactLogMessages(initially, Dirty(), log, d);
      }
      log := log + [Messages(d, ok, Dirty())];
      if ok && posted {
        sendMessages := sendMessages - {d};
      }
    }

    /** The priority loop. */
    method ActivateLevels(d: NodeId) returns (r: bool, ended: bool)
      requires Valid() && d in sh.links.uses && KidsSettled(d, Dirty())
      modifies this`kernelSuspended, this`kernelInactive, this`suspended, this`inactive, this`names, this`newName,
        this`counter, this`log
      ensures Valid() && Dirty() <= old(Dirty()) && (old(IsGrounded()) ==> ended && IsGrounded())
      ensures r ==> forall c :: c in sh.links.uses[d] && c in sh.matching ==> c !in Dirty()
      ensures InOrder(sh, priority, |old(log)|, log) && Ascending(priority, |old(log)|, log)
      ensures PassLog(sh, rank, old(log), log, r, ended)
      ensures !faulty && old(Exact()) ==> Exact() && r
      ensures !faulty && old(Exact()) ==> counter + |old(suspended)| == old(counter) + |suspended|
    {
      hide Shape.Valid, Grounded, SafeLog, ProperNames, ExactLog, Continuous, LevelLog, NoFailure, Stops, InOrder,
        LowerSettled, OfLevel, LevelSettled, Ascending;
      r, ended := true, true;
      ghost var dirty, base := Dirty(), |log|;
      LevelLogStart(sh, rank, dirty, log);
      FirstTurn(d);
      for p := 0 to 3
        invariant Valid() && Dirty() <= old(Dirty()) && ended && (old(IsGrounded()) ==> IsGrounded())
        invariant Turn(d, p, base) && AscendingBelow(priority, base, log, p)
        invariant LevelLog(sh, rank, dirty, old(log), log, false) && (r <==> NoFailure(old(log), log))
        invariant !faulty && old(Exact()) ==> Exact() && r
        invariant !faulty && old(Exact()) ==> counter + |old(suspended)| == old(counter) + |suspended|
      {
        ghost var mid := log;
        var ok, abort;
        ok, abort, ended := RedoLevel(d, p, dirty, base);
        LevelLogJoins(sh, rank, dirty, old(log), mid, log, abort);
        LevelLogPasses(sh, rank, dirty, old(log), log, abort);
        LevelAscends(sh, priority, p, base, mid, log);
        r := r && ok;
        if abort || !ended {
          return;
        }
        LevelRises(d, p, base, |mid|);
      }
      LevelLogPasses(sh, rank, dirty, old(log), log, false);
      if r {
        AllSettled(d, old(log));
      }
    }

    lemma FirstTurn(d: NodeId)
      ensures Turn(d, 0, |log|) && AscendingBelow(priority, |log|, log, 0)
    {
    }

    lemma AllSettled(d: NodeId, before: seq<Event>)
      requires Valid() && d in sh.links.uses && Turn(d, 3, |before|) && NoFailure(before, log)
      ensures forall c :: c in sh.links.uses[d] && c in sh.matching ==> c !in Dirty()
    {
      hide Shape.Valid, SafeLog, ProperNames, Continuous, InOrder;
      forall c | c in sh.links.uses[d] && c in sh.matching
        ensures c !in Dirty()
      {
        assert Settled(log, |before|, Dirty(), newName, d, c);
      }
    }

    /** dm_tree_activate_children */
    method ActivateChildren(d: NodeId) returns (r: bool, ended: bool)
      requires Valid() && d in sh.links.uses
      modifies this
      ensures Valid() && Dirty() <= old(Dirty()) && (old(IsGrounded()) ==> ended && IsGrounded())
      ensures r ==> sh.BelowFrom(d, 0, rank) !! Dirty()
      ensures PassLog(sh, rank, old(log), log, r, ended) && InOrder(sh, priority, |old(log)|, log)
      ensures r ==> d !in sendMessages || (log != [] && log[|log| - 1] == Messages(d, true, Dirty()))
      ensures MessagesGone(old(sendMessages), sendMessages, |old(log)|, log)
      ensures !faulty && old(Exact()) ==> Exact() && r
      ensures !faulty && old(Exact()) ==> counter + |old(suspended)| == old(counter) + |suspended|
      decreases if d in rank then rank[d] else 0
    {
      hide Shape.Valid, Grounded, SafeLog, ProperNames, ExactLog, Continuous, PassLog, InOrder, MessagesGone;
      PassLogStart(sh, rank, log);
      InOrderStart(sh, priority, log);
      NoneGone(sendMessages, log);
      var list := sh.links.uses[d];
      for i := 0 to |list|
        invariant Valid() && Dirty() <= old(Dirty()) && PassLog(sh, rank, old(log), log, true, true)
        invariant (old(IsGrounded()) ==> IsGrounded()) && InOrder(sh, priority, |old(log)|, log)
        invariant MessagesGone(old(sendMessages), sendMessages, |old(log)|, log)
        invariant forall j :: 0 <= j < i && list[j] in sh.matching ==>
          list[j] in sh.links.uses && sh.BelowFrom(list[j], 0, rank) !! Dirty()
        invariant !faulty && old(Exact()) ==> Exact()
        invariant !faulty && old(Exact()) ==> counter + |old(suspended)| == old(counter) + |suspended|
      {
        var c := list[i];
        sh.KidIsLower(d, i, rank);
        if c in sh.matching {
          if NumChildren(sh.links, c) > 0 {
            ghost var mid, had := log, sendMessages;
            r, ended := ActivateChildren(c);
            PassLogJoins(sh, rank, old(log), mid, log, r, ended);
            PassOrder(old(log), mid, r, ended);
            GoneStays(old(sendMessages), had, sendMessages, |old(log)|, mid, log);
            if !r {
              return;
            }
          } else {
            sh.ChildlessParentOfNone(c, rank);
          }
        }
      }
      ghost var mid, had := log, sendMessages;
      r, ended := ActivateLevels(d);
      PassLogJoins(sh, rank, old(log), mid, log, r, ended);
      PassOrder(old(log), mid, r, ended);
      GoneStays(old(sendMessages), had, had, |old(log)|, mid, log);
      if r {
        sh.BelowAvoids(d, 0, rank, Dirty());
        if d in sendMessages {
          ghost var e := log;
          r := SendMessages(d);
          PassLogMessages(sh, rank, old(log), e, Messages(d, r, Dirty()));
          MessagesInTurn(old(log), e, Messages(d, r, Dirty()));
          MessagesPosted(had, sendMessages, e, Messages(d, r, Dirty()));
          GoneStays(old(sendMessages), had, sendMessages, |old(log)|, e, log);
        }
      }
    }

    lemma PassOrder(before: seq<Event>, mid: seq<Event>, r: bool, ended: bool)
      requires PassLog(sh, rank, before, mid, true, true) && PassLog(sh, rank, mid, log, r, ended)
      requires InOrder(sh, priority, |before|, mid) && InOrder(sh, priority, |mid|, log)
      ensures InOrder(sh, priority, |before|, log)
    {
      hide InOrder, NoFailure, Stops;
      InOrderJoins(sh, priority, |before|, mid, log);
    }

    lemma MessagesInTurn(before: seq<Event>, mid: seq<Event>, e: Event)
      requires PassLog(sh, rank, before, mid, true, true) && InOrder(sh, priority, |before|, mid) && e.Messages?
      ensures InOrder(sh, priority, |before|, mid + [e])
    {
      hide InOrder, NoFailure, Stops;
      InOrderNext(sh, priority, |before|, mid, e);
    }

    /** A pass from the root over accurate info, with every ioctl working and no
        rename to do: each device that is due is resumed exactly once. */
    method ActivateTree()
      requires Valid() && !faulty && Exact() && sh.MappedMatch() && Dirty() <= sh.matching && log == []
      modifies this
      ensures Valid() && suspended == kernelSuspended == {} && inactive == kernelInactive == {}
      ensures ResumedIn(log) == initially && OnceEach(log)
      ensures forall i :: 0 <= i < |log| ==> log[i].ok && !log[i].Rename?
      ensures counter == old(counter) - |old(suspended)|
      ensures LowestFirst(sh, priority, log)
    {
      hide Grounded, SafeLog, ProperNames, Continuous, InOrder, LowestFirst;
      var _, _ := ActivateChildren(Root);
      sh.AllBelowRoot(rank);
      assert Dirty() == {} by {
        assert sh.BelowFrom(Root, 0, rank) !! Dirty();
      }
      AllInOrder(sh, rank, priority, log, Dirty());
    }

    constructor (sh: Shape, priority: map<NodeId, nat>, sendMessages: set<NodeId>, faulty: bool,
                 ghost rank: map<NodeId, nat>, ghost order: map<NodeId, nat>,
                 suspended: set<NodeId>, inactive: set<NodeId>, names: Names, newName: Names, counter: nat)
      requires sh.Valid(rank) && (forall n :: n in sh.matching ==> n in priority && priority[n] < 3)
      requires ProperNames(names, newName)
      ensures Valid() && this.sh == sh && this.priority == priority && this.rank == rank && this.faulty == faulty
      ensures this.suspended == kernelSuspended == suspended && this.inactive == kernelInactive == inactive
      ensures this.newName == newName && this.counter == counter && log == [] && initially == Dirty()
    {
      this.sh, this.priority, this.sendMessages, this.faulty, this.rank, this.order :=
        sh, priority, sendMessages, faulty, rank, order;
      this.kernelSuspended, this.kernelInactive, this.suspended, this.inactive :=
        suspended, inactive, suspended, inactive;
      this.names, this.newName, this.counter := names, newName, counter;
      initially, log := suspended + inactive, [];
    }
  }
}

/** One suspend pass and the activate pass that follows it. */
module TreeCycle {
  import opened DepTree
  import opened TreeShape
  import opened TreeNames
  import TreeSuspend
  import TreeActivate

  /** With nothing suspended before, no failing ioctl and no rename:
      the suspend pass suspends every matching device exactly once, the activate
      pass resumes each exactly once, and the suspended counter is back where it was. */
  method SuspendThenActivate(sh: Shape, ghost rank: map<NodeId, nat>, priority: map<NodeId, nat>, names: Names,
                             sendMessages: set<NodeId>, counter: nat)
    returns (after: nat, ghost suspends: seq<TreeSuspend.Event>, ghost resumes: seq<TreeActivate.Event>)
    requires sh.Valid(rank) && sh.MappedMatch()
    requires (forall n :: n in sh.matching ==> n in priority && priority[n] < 3) && Distinct(names)
    ensures after == counter
    ensures TreeSuspend.SuspendedIn(suspends) == sh.matching
    ensures forall i, j :: 0 <= i < j < |suspends| ==> suspends[i].n != suspends[j].n
    ensures TreeActivate.ResumedIn(resumes) == sh.matching
    ensures TreeActivate.OnceEach(resumes) && forall i :: 0 <= i < |resumes| ==> resumes[i].ok && !resumes[i].Rename?
    ensures TreeSuspend.ParentsFirst(sh, {}, suspends) && TreeActivate.SafeLog(sh, rank, resumes)
    ensures TreeActivate.LowestFirst(sh, priority, resumes)
  {
    hide Shape.Valid, Shape.MappedMatch, TreeSuspend.ParentsFirst, TreeActivate.SafeLog, TreeActivate.Continuous,
      Distinct, TreeSuspend.SuspendedIn, TreeActivate.LowestFirst;
    var down := new TreeSuspend.SuspendPass(sh, rank, false, {}, {}, counter);
    down.SuspendTree();
    suspends := down.log;
    var up := new TreeActivate.ActivatePass(sh, priority, sendMessages, false, rank, map[], down.info, {}, names,
      map[], down.counter);
    assert TreeActivate.ResumedIn([]) == {};
    up.ActivateTree();
    resumes := up.log;
    after := up.counter;
  }
}
