/** The redo loop of dm_tree_activate_children, on the children of one node and with
    a kernel that refuses exactly the names in use, by a child or by another device
    (`taken`): when does it end, and when well? */
module RenameLoop {
  import opened Wrappers

  /** A child: its name, the name it is to get, and whether the level handles it
      (right priority, matching uuid). A device that does not exist has no name. */
  datatype Sibling = Sibling(name: string, newName: Option<string>, inLevel: bool) {
    predicate Pending() {
      newName.Some?
    }
  }

  type Siblings = seq<Sibling>

  /** _rename_conflict_exists: the first sibling that has the wanted name. */
  function Holder(s: Siblings, n: nat, i: nat): Option<nat>
    requires n < |s| && s[n].Pending() && i <= |s|
    decreases |s| - i
  {
    if i == |s| then None
    else if i != n && s[i].name == s[n].newName.value then Some(i)
    else Holder(s, n, i + 1)
  }

  /** The conflict exists and is resolvable: n has to wait. */
  predicate Waits(s: Siblings, n: nat)
    requires n < |s|
  {
    s[n].Pending() && Holder(s, n, 0).Some? && Holder(s, n, 0).value < |s| && s[Holder(s, n, 0).value].Pending()
  }

  /** The name is in use and will stay so: the kernel refuses the rename. */
  predicate Refused(s: Siblings, n: nat, taken: set<string>)
    requires n < |s|
  {
    s[n].Pending() && !Waits(s, n)
      && (Holder(s, n, 0).Some? || s[n].newName.value in taken || s[n].newName.value == s[n].name)
  }

  predicate Handled(x: Sibling) {
    x.inLevel && x.Pending()
  }

  function Renamed(x: Sibling): Sibling
    requires x.Pending()
  {
    x.(name := x.newName.value, newName := None)
  }

  /** What one visit of the loop does to child n, unless the kernel refuses. */
  function Visit(s: Siblings, n: nat): Siblings
    requires n < |s|
  {
    if Handled(s[n]) && !Waits(s, n) then s[n := Renamed(s[n])] else s
  }

  /** What a round leaves, how many children wait, and whether a rename failed, which
      ends the whole pass. */
  datatype Outcome = Outcome(after: Siblings, waiting: nat, failed: bool)

  function Round(s: Siblings, i: nat, taken: set<string>): (r: Outcome)
    requires i <= |s|
    ensures |r.after| == |s|
    decreases |s| - i
  {
    if i == |s| then Outcome(s, 0, false)
    else if Handled(s[i]) && Refused(s, i, taken) then Outcome(s, 0, true)
    else
      var rest := Round(Visit(s, i), i + 1, taken);
      rest.(waiting := rest.waiting + if Handled(s[i]) && Waits(s, i) then 1 else 0)
  }

  /** One of the first k + 1 rounds is the last: it fails, or leaves nobody waiting. */
  predicate EndsIn(s: Siblings, k: nat, taken: set<string>)
    decreases k
  {
    var r := Round(s, 0, taken);
    r.failed || r.waiting == 0 || (k > 0 && EndsIn(r.after, k - 1, taken))
  }

  ghost predicate Ends(s: Siblings, taken: set<string>) {
    exists k: nat :: EndsIn(s, k, taken)
  }

  /** After k rounds without failure one more leaves nobody waiting. */
  predicate SucceedsIn(s: Siblings, k: nat, taken: set<string>)
    decreases k
  {
    var r := Round(s, 0, taken);
    !r.failed && if k == 0 then r.waiting == 0 else r.waiting > 0 && SucceedsIn(r.after, k - 1, taken)
  }

  ghost predicate Succeeds(s: Siblings, taken: set<string>) {
    exists k: nat :: SucceedsIn(s, k, taken)
  }

  /** No two devices have the same name, and nobody wants an empty one. */
  ghost predicate Unique(s: Siblings, taken: set<string>) {
    && (forall i, j :: 0 <= i < j < |s| && s[i].name != "" ==> s[i].name != s[j].name)
    && (forall i :: 0 <= i < |s| && s[i].name != "" ==> s[i].name !in taken)
    && (forall i :: 0 <= i < |s| && s[i].Pending() ==> s[i].newName.value != "")
  }

  /** Child n waits for child b. */
  predicate WaitsFor(s: Siblings, n: nat, b: nat) {
    n < |s| && b < |s| && n != b && s[n].Pending() && s[b].Pending() && s[n].newName.value == s[b].name
  }

  /** Each of these children waits for one of them, or for one that this level
      does not handle. */
  ghost predicate Stuck(s: Siblings, w: set<nat>) {
    w != {} && forall n :: n in w ==> n < |s| && Handled(s[n]) && WaitsIn(s, n, w)
  }

  ghost predicate WaitsIn(s: Siblings, n: nat, w: set<nat>) {
    exists b: nat :: WaitsFor(s, n, b) && (b in w || !s[b].inLevel)
  }

  /** The name that n wants is held by a child that keeps it, or wanted as well by
      another child that the level can rename. */
  ghost predicate Clash(s: Siblings, n: nat, j: nat, w: set<nat>) {
    && n < |s| && j < |s| && n != j && s[n].Pending()
    && (if s[j].Pending() then s[j].inLevel && j !in w && s[j].newName == s[n].newName
        else s[j].name == s[n].newName.value)
  }

  /** The wanted name is new, and no device beside the children has it. */
  predicate Free(x: Sibling, taken: set<string>) {
    x.Pending() ==> x.newName.value !in taken && x.newName.value != x.name
  }

  /** No child outside w is going to be refused. */
  ghost predicate NoClash(s: Siblings, w: set<nat>, taken: set<string>) {
    && (forall n: nat :: n < |s| && Handled(s[n]) && n !in w ==> Free(s[n], taken))
    && forall n: nat, j: nat :: n < |s| && Handled(s[n]) && n !in w ==> !Clash(s, n, j, w)
  }

  // ---- what the search for a holder finds ----

  lemma {:induction false} HolderIsFirst(s: Siblings, n: nat, i: nat, b: nat, taken: set<string>)
    requires Unique(s, taken) && n < |s| && s[n].Pending() && i <= b < |s| && b != n && s[b].name == s[n].newName.value
    ensures Holder(s, n, i) == Some(b)
    decreases b - i
  {
    if i < b {
      HolderIsFirst(s, n, i + 1, b, taken);
    }
  }

  lemma {:induction false} HolderHolds(s: Siblings, n: nat, i: nat)
    requires n < |s| && s[n].Pending() && i <= |s|
    ensures Holder(s, n, i).Some? ==>
      var b := Holder(s, n, i).value; i <= b < |s| && b != n && s[b].name == s[n].newName.value
    decreases |s| - i
  {
    if i < |s| {
      HolderHolds(s, n, i + 1);
    }
  }

  lemma WaitsMeans(s: Siblings, n: nat, taken: set<string>)
    requires Unique(s, taken) && n < |s|
    ensures Waits(s, n) <==> exists b: nat :: WaitsFor(s, n, b)
  {
    if s[n].Pending() {
      HolderHolds(s, n, 0);
      if Waits(s, n) {
        assert WaitsFor(s, n, Holder(s, n, 0).value);
      }
      forall b: nat | WaitsFor(s, n, b) ensures Waits(s, n) {
        HolderIsFirst(s, n, 0, b, taken);
      }
    }
  }

  /** A child that neither waits nor is refused wants a name that nobody else has. */
  lemma FreeName(s: Siblings, n: nat, taken: set<string>)
    requires Unique(s, taken) && n < |s| && s[n].Pending()
    ensures !Waits(s, n) && !Refused(s, n, taken) ==> Free(s[n], taken)
    ensures !Waits(s, n) && !Refused(s, n, taken) ==>
      forall j :: 0 <= j < |s| && j != n ==> s[j].name != s[n].newName.value
    ensures Refused(s, n, taken) && Free(s[n], taken) ==>
      exists j: nat :: j < |s| && j != n && !s[j].Pending() && s[j].name == s[n].newName.value
  {
    HolderHolds(s, n, 0);
    forall j | 0 <= j < |s| && j != n && s[j].name == s[n].newName.value ensures Holder(s, n, 0) == Some(j) {
      HolderIsFirst(s, n, 0, j, taken);
    }
  }

  lemma VisitKeepsUnique(s: Siblings, n: nat, taken: set<string>)
    requires Unique(s, taken) && n < |s| && !(Handled(s[n]) && Refused(s, n, taken))
    ensures Unique(Visit(s, n), taken)
  {
    if s[n].Pending() {
      FreeName(s, n, taken);
    }
  }

  // ---- a stuck set is never resolved ----

  lemma VisitKeepsStuck(s: Siblings, n: nat, w: set<nat>, taken: set<string>)
    requires Unique(s, taken) && Stuck(s, w) && n < |s|
    ensures Stuck(Visit(s, n), w)
    ensures n in w ==> Handled(s[n]) && Waits(s, n)
  {
    var s' := Visit(s, n);
    WaitsMeans(s, n, taken);
    forall m | m in w
      ensures m < |s'| && Handled(s'[m]) && WaitsIn(s', m, w)
    {
      var b: nat :| WaitsFor(s, m, b) && (b in w || !s[b].inLevel);
      WaitsMeans(s, m, taken);
      if b in w {
        WaitsMeans(s, b, taken);
      }
      assert s'[m] == s[m] && s'[b] == s[b];
      assert WaitsFor(s', m, b) && (b in w || !s'[b].inLevel);
    }
  }

  lemma {:induction false} RoundKeepsStuck(s: Siblings, i: nat, w: set<nat>, taken: set<string>)
    requires Unique(s, taken) && Stuck(s, w) && i <= |s| && !Round(s, i, taken).failed
    ensures Stuck(Round(s, i, taken).after, w)
    ensures (exists n :: n in w && i <= n) ==> Round(s, i, taken).waiting > 0
    decreases |s| - i
  {
    if i < |s| {
      VisitKeepsUnique(s, i, taken);
      VisitKeepsStuck(s, i, w, taken);
      RoundKeepsStuck(Visit(s, i), i + 1, w, taken);
    }
  }

  // ---- without a clash no rename is refused ----

  lemma NotRefused(s: Siblings, n: nat, w: set<nat>, taken: set<string>)
    requires Unique(s, taken) && NoClash(s, w, taken) && n < |s| && Handled(s[n]) && (n in w ==> Waits(s, n))
    ensures !Refused(s, n, taken)
  {
    FreeName(s, n, taken);
    forall j: nat | j < |s| && j != n && !s[j].Pending() && s[j].name == s[n].newName.value
      ensures n in w
    {
      assert n in w || Clash(s, n, j, w);
    }
  }

  lemma VisitKeepsNoClash(s: Siblings, n: nat, w: set<nat>, taken: set<string>)
    requires Unique(s, taken) && NoClash(s, w, taken) && n < |s| && (n in w ==> Waits(s, n))
    ensures NoClash(Visit(s, n), w, taken)
  {
    var s' := Visit(s, n);
    forall m: nat, j: nat | m < |s'| && Handled(s'[m]) && m !in w
      ensures !Clash(s', m, j, w)
    {
      assert s'[m] == s[m] && !Clash(s, m, j, w);
    }
  }

  lemma {:induction false} RoundKeepsNoClash(s: Siblings, i: nat, w: set<nat>, taken: set<string>)
    requires Unique(s, taken) && NoClash(s, w, taken) && i <= |s| && (w == {} || Stuck(s, w))
    ensures !Round(s, i, taken).failed && NoClash(Round(s, i, taken).after, w, taken)
    decreases |s| - i
  {
    if i < |s| {
      if w != {} {
        VisitKeepsStuck(s, i, w, taken);
      }
      if Handled(s[i]) {
        NotRefused(s, i, w, taken);
      }
      VisitKeepsUnique(s, i, taken);
      VisitKeepsNoClash(s, i, w, taken);
      RoundKeepsNoClash(Visit(s, i), i + 1, w, taken);
    }
  }

  lemma {:induction false} StuckNeverEnds(s: Siblings, w: set<nat>, k: nat, taken: set<string>)
    requires Unique(s, taken) && Stuck(s, w) && NoClash(s, w, taken)
    ensures !EndsIn(s, k, taken)
    decreases k
  {
    RoundKeepsNoClash(s, 0, w, taken);
    RoundKeepsStuck(s, 0, w, taken);
    RoundIsLater(s, 0, taken);
    var n :| n in w;
    if k > 0 {
      StuckNeverEnds(Round(s, 0, taken).after, w, k - 1, taken);
    }
  }

  // ---- otherwise every round renames somebody ----

  ghost function PendingSet(s: Siblings): set<nat> {
    set n | 0 <= n < |s| && s[n].Pending()
  }

  ghost function HandledSet(s: Siblings): set<nat> {
    set n | 0 <= n < |s| && Handled(s[n])
  }

  /** A later state of the same children: some have been renamed. */
  ghost predicate Later(s: Siblings, t: Siblings) {
    && |t| == |s|
    && forall n :: 0 <= n < |s| ==>
      t[n] == s[n] || (s[n].Pending() && s[n].newName.value != s[n].name && t[n] == Renamed(s[n]))
  }

  /** A round only renames, and if it renames nobody, every handled child waits. */
  lemma {:induction false} RoundIsLater(s: Siblings, i: nat, taken: set<string>)
    requires Unique(s, taken) && i <= |s| && !Round(s, i, taken).failed
    ensures Unique(Round(s, i, taken).after, taken) && Later(s, Round(s, i, taken).after)
    ensures Round(s, i, taken).after == s ==> forall n :: i <= n < |s| && Handled(s[n]) ==> Waits(s, n)
    decreases |s| - i
  {
    if i < |s| {
      VisitKeepsUnique(s, i, taken);
      RoundIsLater(Visit(s, i), i + 1, taken);
    }
  }

  /** Somebody waits exactly when a handled child is left. */
  lemma {:induction false} WaitingMeansLeft(s: Siblings, i: nat, taken: set<string>)
    requires i <= |s| && !Round(s, i, taken).failed
    ensures Round(s, i, taken).waiting > 0 <==> exists n: nat :: i <= n < |s| && Handled(Round(s, i, taken).after[n])
    ensures forall n :: 0 <= n < i ==> Round(s, i, taken).after[n] == s[n]
    decreases |s| - i
  {
    if i < |s| {
      hide Waits, Refused;
      WaitingMeansLeft(Visit(s, i), i + 1, taken);
    }
  }

  lemma StuckEarlier(s: Siblings, t: Siblings, w: set<nat>)
    requires Later(s, t) && Stuck(t, w)
    ensures Stuck(s, w)
  {
    forall n | n in w
      ensures n < |s| && Handled(s[n]) && WaitsIn(s, n, w)
    {
      var b: nat :| WaitsFor(t, n, b) && (b in w || !t[b].inLevel);
      assert t[n] == s[n] && t[b] == s[b];
      assert WaitsFor(s, n, b) && (b in w || !s[b].inLevel);
    }
  }

  /** Renames that went well did not clash. */
  lemma NoClashEarlier(s: Siblings, t: Siblings, w: set<nat>, taken: set<string>)
    requires Later(s, t) && Unique(s, taken) && Unique(t, taken) && NoClash(t, w, taken)
    ensures NoClash(s, w, taken)
  {
    forall n: nat | n < |s| && Handled(s[n]) && n !in w
      ensures Free(s[n], taken)
    {
      assert t[n] == s[n] ==> Free(t[n], taken);
      assert t[n] != s[n] ==> t[n].name !in taken;
    }
    forall n: nat, j: nat | n < |s| && Handled(s[n]) && n !in w
      ensures !Clash(s, n, j, w)
    {
      if t[n] == s[n] {
        assert !Clash(t, n, j, w);
      } else if j < |s| && j != n {
        assert t[n].name != t[j].name;
        assert Handled(t[j]) && j !in w ==> !Clash(t, j, n, w);
      }
    }
  }

  lemma NoChangeIsStuck(s: Siblings, taken: set<string>)
    requires Unique(s, taken) && !Round(s, 0, taken).failed && Round(s, 0, taken).after == s
      && Round(s, 0, taken).waiting > 0
    ensures Stuck(s, HandledSet(s)) && NoClash(s, HandledSet(s), taken)
  {
    RoundIsLater(s, 0, taken);
    WaitingMeansLeft(s, 0, taken);
    var w := HandledSet(s);
    var n0: nat :| n0 < |s| && Handled(s[n0]);
    assert n0 in w;
    forall n | n in w
      ensures WaitsIn(s, n, w)
    {
      WaitsMeans(s, n, taken);
      var b: nat :| WaitsFor(s, n, b);
      assert b in w || !s[b].inLevel;
    }
  }

  /** A set that waits for ever while nothing else makes the pass fail. */
  ghost predicate Hopeless(s: Siblings, w: set<nat>, taken: set<string>) {
    Stuck(s, w) && NoClash(s, w, taken)
  }

  /** A round that leaves somebody waiting has renamed somebody else. */
  lemma RoundProgress(s: Siblings, taken: set<string>)
    requires Unique(s, taken) && !(exists w: set<nat> :: Hopeless(s, w, taken)) && !Round(s, 0, taken).failed
      && Round(s, 0, taken).waiting > 0
    ensures PendingSet(Round(s, 0, taken).after) < PendingSet(s)
  {
    RoundIsLater(s, 0, taken);
    if Round(s, 0, taken).after == s {
      NoChangeIsStuck(s, taken);
      assert Hopeless(s, HandledSet(s), taken);
    } else {
      SomeRenamed(s, Round(s, 0, taken).after);
    }
  }

  lemma SomeRenamed(s: Siblings, t: Siblings)
    requires Later(s, t) && s != t
    ensures PendingSet(t) < PendingSet(s)
  {
    var n :| 0 <= n < |s| && t[n] != s[n];
    assert n in PendingSet(s) && n !in PendingSet(t);
  }

  /** A loop that goes on for ever has such a set. */
  lemma {:induction false} EndlessIsHopeless(s: Siblings, taken: set<string>) returns (w: set<nat>)
    requires Unique(s, taken) && !Ends(s, taken)
    ensures Hopeless(s, w, taken)
    decreases PendingSet(s)
  {
    var r := Round(s, 0, taken);
    assert !EndsIn(s, 0, taken);
    RoundIsLater(s, 0, taken);
    if r.after == s {
      NoChangeIsStuck(s, taken);
      w := HandledSet(s);
    } else {
      SomeRenamed(s, r.after);
      forall k: nat ensures !EndsIn(r.after, k, taken) {
        assert !EndsIn(s, k + 1, taken);
      }
      w := EndlessIsHopeless(r.after, taken);
      StuckEarlier(s, r.after, w);
      NoClashEarlier(s, r.after, w, taken);
    }
  }

  /** The loop ends exactly when no set of children waits only for itself and for
      children that the level does not handle, without a refusal elsewhere. */
  lemma EndsUnlessStuck(s: Siblings, taken: set<string>)
    requires Unique(s, taken)
    ensures Ends(s, taken) <==> !exists w: set<nat> :: Hopeless(s, w, taken)
  {
    if w: set<nat> :| Hopeless(s, w, taken) {
      forall k: nat ensures !EndsIn(s, k, taken) {
        StuckNeverEnds(s, w, k, taken);
      }
    } else if !Ends(s, taken) {
      var w := EndlessIsHopeless(s, taken);
    }
  }

  // ---- when it ends with every rename done ----

  lemma {:induction false} SuccessIsClean(s: Siblings, k: nat, w: set<nat>, taken: set<string>)
    requires Unique(s, taken) && SucceedsIn(s, k, taken)
    ensures NoClash(s, {}, taken) && !Stuck(s, w)
    decreases k
  {
    var r := Round(s, 0, taken);
    RoundIsLater(s, 0, taken);
    WaitingMeansLeft(s, 0, taken);
    if k > 0 {
      SuccessIsClean(r.after, k - 1, w, taken);
    }
    NoClashEarlier(s, r.after, {}, taken);
    if Stuck(s, w) {
      var n :| n in w;
      RoundKeepsStuck(s, 0, w, taken);
      assert false;
    }
  }

  lemma {:induction false} CleanSucceeds(s: Siblings, taken: set<string>) returns (k: nat)
    requires Unique(s, taken) && NoClash(s, {}, taken) && !exists w: set<nat> :: Stuck(s, w)
    ensures SucceedsIn(s, k, taken)
    decreases PendingSet(s)
  {
    var r := Round(s, 0, taken);
    RoundKeepsNoClash(s, 0, {}, taken);
    RoundIsLater(s, 0, taken);
    if r.waiting == 0 {
      k := 0;
    } else {
      if r.after == s {
        NoChangeIsStuck(s, taken);
        assert false;
      }
      SomeRenamed(s, r.after);
      forall w: set<nat> ensures !Stuck(r.after, w) {
        if Stuck(r.after, w) {
          StuckEarlier(s, r.after, w);
        }
      }
      k := CleanSucceeds(r.after, taken);
      k := k + 1;
    }
  }

  /** Every rename is done exactly when nobody is stuck and no wanted name is kept or
      wanted twice. */
  lemma SucceedsExactly(s: Siblings, taken: set<string>)
    requires Unique(s, taken)
    ensures Succeeds(s, taken) <==> NoClash(s, {}, taken) && !exists w: set<nat> :: Stuck(s, w)
  {
    if k: nat :| SucceedsIn(s, k, taken) {
      forall w: set<nat> ensures NoClash(s, {}, taken) && !Stuck(s, w) {
        SuccessIsClean(s, k, w, taken);
      }
      SuccessIsClean(s, k, {}, taken);
    } else if NoClash(s, {}, taken) && !exists w: set<nat> :: Stuck(s, w) {
      var k := CleanSucceeds(s, taken);
    }
  }

  // ---- the rounds one after the other ----

  /** The children after k rounds. */
  function RoundsFrom(s: Siblings, k: nat, taken: set<string>): Siblings {
    if k == 0 then s else Round(RoundsFrom(s, k - 1, taken), 0, taken).after
  }

  /** None of the first k rounds failed, and each left somebody waiting. */
  ghost predicate AllWaiting(s: Siblings, k: nat, taken: set<string>) {
    forall j :: 0 <= j < k ==>
      !Round(RoundsFrom(s, j, taken), 0, taken).failed && Round(RoundsFrom(s, j, taken), 0, taken).waiting > 0
  }

  lemma {:induction false} LaterRounds(s: Siblings, k: nat, taken: set<string>)
    requires Unique(s, taken) && AllWaiting(s, k, taken)
    ensures Unique(RoundsFrom(s, k, taken), taken) && Later(s, RoundsFrom(s, k, taken))
  {
    if k > 0 {
      LaterRounds(s, k - 1, taken);
      RoundIsLater(RoundsFrom(s, k - 1, taken), 0, taken);
    }
  }

  lemma {:induction false} SuccessAfter(s: Siblings, k: nat, i: nat, taken: set<string>)
    requires AllWaiting(s, k, taken) && i <= k && SucceedsIn(RoundsFrom(s, k, taken), 0, taken)
    ensures SucceedsIn(RoundsFrom(s, i, taken), k - i, taken)
    decreases k - i
  {
    if i < k {
      SuccessAfter(s, k, i + 1, taken);
    }
  }

  /** A last round after k rounds: the loop has succeeded. */
  lemma RoundsSucceed(s: Siblings, k: nat, taken: set<string>)
    requires AllWaiting(s, k, taken) && SucceedsIn(RoundsFrom(s, k, taken), 0, taken)
    ensures Succeeds(s, taken)
  {
    SuccessAfter(s, k, 0, taken);
  }

  lemma {:induction false} FailureAfter(s: Siblings, k: nat, i: nat, j: nat, taken: set<string>)
    requires AllWaiting(s, k, taken) && i <= k && Round(RoundsFrom(s, k, taken), 0, taken).failed
    ensures !SucceedsIn(RoundsFrom(s, i, taken), j, taken)
    decreases k - i
  {
    if i < k && j > 0 {
      FailureAfter(s, k, i + 1, j - 1, taken);
    }
  }

  /** A refused rename after k rounds: the loop does not succeed. */
  lemma RoundsFail(s: Siblings, k: nat, taken: set<string>)
    requires AllWaiting(s, k, taken) && Round(RoundsFrom(s, k, taken), 0, taken).failed
    ensures !Succeeds(s, taken)
  {
    forall j: nat ensures !SucceedsIn(s, j, taken) {
      FailureAfter(s, k, 0, j, taken);
    }
  }

  lemma {:induction false} SuccessIsEnd(s: Siblings, k: nat, taken: set<string>)
    requires SucceedsIn(s, k, taken)
    ensures EndsIn(s, k, taken)
    decreases k
  {
    if k > 0 {
      SuccessIsEnd(Round(s, 0, taken).after, k - 1, taken);
    }
  }

  lemma SuccessEnds(s: Siblings, taken: set<string>)
    ensures Succeeds(s, taken) ==> Ends(s, taken)
  {
    if k: nat :| SucceedsIn(s, k, taken) {
      SuccessIsEnd(s, k, taken);
    }
  }

  /** A round in which somebody waits and nothing changes: the loop never ends. */
  lemma RoundsIdle(s: Siblings, k: nat, taken: set<string>)
    requires Unique(s, taken) && AllWaiting(s, k + 1, taken)
    requires RoundsFrom(s, k + 1, taken) == RoundsFrom(s, k, taken)
    ensures !Ends(s, taken)
  {
    var t := RoundsFrom(s, k, taken);
    LaterRounds(s, k, taken);
    NoChangeIsStuck(t, taken);
    StuckEarlier(s, t, HandledSet(t));
    NoClashEarlier(s, t, HandledSet(t), taken);
    assert Hopeless(s, HandledSet(t), taken);
    EndsUnlessStuck(s, taken);
  }

  /** In particular it ends when whoever is waited for is on the level, and waiting
      follows some order. */
  lemma OrderedEnds(s: Siblings, order: seq<nat>, taken: set<string>)
    requires Unique(s, taken) && |order| == |s|
    requires forall n: nat, b: nat :: WaitsFor(s, n, b) && s[n].inLevel ==> s[b].inLevel && order[b] < order[n]
    ensures Ends(s, taken)
  {
    forall w: set<nat> | Stuck(s, w) ensures false {
      var n: nat :| n in w;
      NotStuckBelow(s, order, w, n);
    }
    EndsUnlessStuck(s, taken);
  }

  lemma {:induction false} NotStuckBelow(s: Siblings, order: seq<nat>, w: set<nat>, n: nat)
    requires |order| == |s| && n in w && Stuck(s, w)
    requires forall m: nat, b: nat :: WaitsFor(s, m, b) && s[m].inLevel ==> s[b].inLevel && order[b] < order[m]
    ensures false
    decreases if n < |order| then order[n] else 0
  {
    var b: nat :| WaitsFor(s, n, b) && (b in w || !s[b].inLevel);
    NotStuckBelow(s, order, w, b);
  }

  /** Two children that swap their names are never renamed. */
  lemma SwapNeverEnds(a: string, b: string, taken: set<string>)
    requires a != b && a != "" && b != "" && a !in taken && b !in taken
    ensures Unique([Sibling(a, Some(b), true), Sibling(b, Some(a), true)], taken)
    ensures !Ends([Sibling(a, Some(b), true), Sibling(b, Some(a), true)], taken)
  {
    var s := [Sibling(a, Some(b), true), Sibling(b, Some(a), true)];
    assert WaitsFor(s, 0, 1) && WaitsFor(s, 1, 0);
    assert Hopeless(s, {0, 1}, taken);
    EndsUnlessStuck(s, taken);
  }
}
