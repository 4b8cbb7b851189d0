/** The semaphore by which a device-mapper command waits for udev
    (libdm-common.c), as a state machine over its system calls, and the cookie that
    travels in the kernel's event number (libdm-common.c, dmsetup.c). */
module UdevCookie {
  import opened BitCount
  import opened Wrappers

  // ---- the protocol ----

  datatype Owner = Assigning | Waiting | Returned(ok: bool)

  /** One owner, the tasks it gave the cookie to, and those udev has completed.
      `held` is the owner's own count; `leaked` counts increments whose task was then
      told it has no cookie; `removed` records that somebody else destroyed the
      semaphore. */
  datatype State = State(sem: Option<nat>, owner: Owner, held: bool, given: set<nat>, completed: set<nat>,
      leaked: nat, removed: bool)

  datatype Step =
    | Assign(task: nat)                               // dm_task_set_cookie
    | AssignRefused                                   // the increment fails
    | AssignLeaked                                    // it works, but reading the value back fails
    | Complete(task: nat, works: bool)                // dm_udev_complete, run by udev
    | WaitDecrement(works: bool, destroyed: bool)     // _udev_wait gives up the owner's count
    | WaitInterrupted                                 // EINTR: wait again
    | WaitZero(destroyed: bool)                       // the semaphore is zero
    | WaitGone                                        // EIDRM
    | WaitError(destroyed: bool)                      // any other error
    | Remove                                          // another process destroys the semaphore

  /** _udev_notify_sem_create leaves the semaphore at one. */
  function Created(): State {
    State(Some(1), Assigning, true, {}, {}, 0, false)
  }

  /** The decrement with IPC_NOWAIT that completion and wait share. */
  predicate Decrements(s: State, works: bool) {
    works && s.sem.Some? && s.sem.value > 0
  }

  function Destroyed(s: State, destroyed: bool): State {
    if destroyed then s.(sem := None) else s
  }

  predicate Enabled(s: State, step: Step) {
    match step
    case Assign(t) => s.owner.Assigning? && s.sem.Some? && t !in s.given
    case AssignRefused => s.owner.Assigning?
    case AssignLeaked => s.owner.Assigning? && s.sem.Some?
    case Complete(t, _) => t in s.given && t !in s.completed
    case WaitDecrement(_, _) => s.owner.Assigning?
    case WaitInterrupted => s.owner.Waiting?
    case WaitZero(_) => s.owner.Waiting? && s.sem == Some(0)
    case WaitGone => s.owner.Waiting? && s.sem.None?
    case WaitError(_) => s.owner.Waiting?
    case Remove => s.sem.Some?
  }

  function Next(s: State, step: Step): State
    requires Enabled(s, step)
  {
    match step
    case Assign(t) => s.(sem := Some(s.sem.value + 1), given := s.given + {t})
    case AssignRefused => s
    case AssignLeaked => s.(sem := Some(s.sem.value + 1), leaked := s.leaked + 1)
    case Complete(t, works) =>
      if Decrements(s, works) then s.(sem := Some(s.sem.value - 1), completed := s.completed + {t}) else s
    case WaitDecrement(works, destroyed) =>
      if Decrements(s, works) then s.(sem := Some(s.sem.value - 1), held := false, owner := Waiting)
      else Destroyed(s, destroyed).(owner := Returned(false))
    case WaitInterrupted => s
    case WaitZero(destroyed) => Destroyed(s, destroyed).(owner := Returned(destroyed))
    case WaitGone => s.(owner := Returned(true))
    case WaitError(destroyed) => Destroyed(s, destroyed).(owner := Returned(false))
    case Remove => s.(sem := None, removed := true)
  }

  ghost predicate IsRun(states: seq<State>, steps: seq<Step>) {
    && |states| == |steps| + 1 && states[0] == Created()
    && forall i :: 0 <= i < |steps| ==> Enabled(states[i], steps[i]) && states[i + 1] == Next(states[i], steps[i])
  }

  /** The semaphore counts what is outstanding, and one more until the wait. */
  ghost predicate Inv(s: State) {
    && s.completed <= s.given
    && (s.sem.Some? ==> s.sem.value == |s.given| - |s.completed| + s.leaked + (if s.held then 1 else 0))
    && (s.owner.Assigning? ==> s.held)
    && (s.owner.Waiting? ==> !s.held)
    && (s.sem.None? ==> s.owner.Returned? || s.removed)
    && (s.owner == Returned(true) ==> s.removed || (s.completed == s.given && s.leaked == 0))
  }

  lemma {:induction false} SubsetSize(a: set<nat>, b: set<nat>)
    requires a <= b
    ensures |a| <= |b|
    ensures a != b ==> |a| < |b|
  {
    if a != b {
      var x :| x in b && x !in a;
      SubsetSize(a, b - {x});
    }
  }

  lemma NextKeepsInv(s: State, step: Step)
    requires Inv(s) && Enabled(s, step)
    ensures Inv(Next(s, step))
  {
    SubsetSize(s.completed, s.given);
  }

  lemma {:induction false} RunKeepsInv(states: seq<State>, steps: seq<Step>, i: nat)
    requires IsRun(states, steps) && i < |states|
    ensures Inv(states[i])
  {
    if i > 0 {
      RunKeepsInv(states, steps, i - 1);
      NextKeepsInv(states[i - 1], steps[i - 1]);
    }
  }

  /** In every interleaving: a completion that finds the semaphore finds it above
      zero, so it is counted; so does the owner's own decrement. */
  lemma NothingMeetsZero(states: seq<State>, steps: seq<Step>, i: nat)
    requires IsRun(states, steps) && i < |steps| && states[i].sem.Some?
    requires (steps[i].Complete? || steps[i].WaitDecrement?) && steps[i].works
    ensures states[i].sem.value > 0
    ensures steps[i].Complete? ==> steps[i].task in states[i + 1].completed
    ensures steps[i].WaitDecrement? ==> states[i + 1].owner.Waiting?
  {
    RunKeepsInv(states, steps, i);
    SubsetSize(states[i].completed, states[i].given);
  }

  /** A wait that succeeds, while nobody else removed the semaphore, saw every
      assigned task completed. */
  lemma WaitMeansCompleted(states: seq<State>, steps: seq<Step>, i: nat)
    requires IsRun(states, steps) && i < |states| && states[i].owner == Returned(true) && !states[i].removed
    ensures states[i].completed == states[i].given && states[i].leaked == 0
  {
    RunKeepsInv(states, steps, i);
  }

  /** And once they are all completed, a waiting owner can go on: exactly then, as
      long as the semaphore exists. */
  lemma WaitIffCompleted(states: seq<State>, steps: seq<Step>, i: nat)
    requires IsRun(states, steps) && i < |states| && states[i].owner.Waiting? && states[i].sem.Some?
    ensures Enabled(states[i], WaitZero(true)) <==> states[i].completed == states[i].given && states[i].leaked == 0
    ensures Enabled(states[i], WaitZero(true)) ==>
      Next(states[i], WaitZero(true)) == states[i].(sem := None, owner := Returned(true))
  {
    RunKeepsInv(states, steps, i);
    SubsetSize(states[i].completed, states[i].given);
  }

  // ---- what the steps taken say about the state ----

  /** The step takes the semaphore away. */
  predicate Destroys(step: Step) {
    match step
    case Remove => true
    case WaitDecrement(works, destroyed) => !works && destroyed
    case WaitZero(destroyed) => destroyed
    case WaitError(destroyed) => destroyed
    case _ => false
  }

  /** The first i steps left the semaphore there. */
  predicate Alive(steps: seq<Step>, i: nat)
    requires i <= |steps|
  {
    forall j :: 0 <= j < i ==> !Destroys(steps[j])
  }

  /** A decrement that is made. */
  predicate Decrement(steps: seq<Step>, j: nat)
    requires j < |steps|
  {
    (steps[j].Complete? || steps[j].WaitDecrement?) && steps[j].works && Alive(steps, j)
  }

  /** A step by which the wait fails, and one by which it succeeds. */
  predicate WaitFails(steps: seq<Step>, j: nat)
    requires j < |steps|
  {
    (steps[j].WaitDecrement? && !Decrement(steps, j)) || steps[j].WaitError? || steps[j] == WaitZero(false)
  }

  predicate WaitWorks(step: Step) {
    step == WaitZero(true) || step.WaitGone?
  }

  function GivenBy(steps: seq<Step>, i: nat): set<nat>
    requires i <= |steps|
  {
    set j | 0 <= j < i && steps[j].Assign? :: steps[j].task
  }

  function CompletedBy(steps: seq<Step>, i: nat): set<nat>
    requires i <= |steps|
  {
    set j | 0 <= j < i && steps[j].Complete? && Decrement(steps, j) :: steps[j].task
  }

  function LeakedBy(steps: seq<Step>, i: nat): nat
    requires i <= |steps|
  {
    |set j | 0 <= j < i && steps[j].AssignLeaked?|
  }

  /** Which tasks were given and completed, and what leaked. */
  ghost predicate TaskHistory(steps: seq<Step>, i: nat, s: State)
    requires i <= |steps|
  {
    s.given == GivenBy(steps, i) && s.completed == CompletedBy(steps, i) && s.leaked == LeakedBy(steps, i)
  }

  /** Whether the semaphore is there, was removed by somebody else, and has the
      owner's count. */
  ghost predicate SemHistory(steps: seq<Step>, i: nat, s: State)
    requires i <= |steps|
  {
    && (s.sem.Some? <==> Alive(steps, i))
    && (s.removed <==> exists j :: 0 <= j < i && steps[j].Remove?)
    && (s.held <==> forall j :: 0 <= j < i && steps[j].WaitDecrement? ==> !Decrement(steps, j))
  }

  /** How far the owner is. */
  ghost predicate OwnerHistory(steps: seq<Step>, i: nat, s: State)
    requires i <= |steps|
  {
    && (s.owner.Assigning? <==> forall j :: 0 <= j < i ==> !steps[j].WaitDecrement?)
    && (s.owner == Returned(false) <==> exists j :: 0 <= j < i && WaitFails(steps, j))
    && (s.owner == Returned(true) <==> exists j :: 0 <= j < i && WaitWorks(steps[j]))
  }

  lemma LeakedNext(steps: seq<Step>, i: nat)
    requires i < |steps|
    ensures LeakedBy(steps, i + 1) == LeakedBy(steps, i) + if steps[i].AssignLeaked? then 1 else 0
  {
    var before := set j | 0 <= j < i && steps[j].AssignLeaked?;
    assert (set j | 0 <= j < i + 1 && steps[j].AssignLeaked?)
      == if steps[i].AssignLeaked? then before + {i} else before;
  }

  lemma TasksNext(steps: seq<Step>, i: nat)
    requires i < |steps|
    ensures GivenBy(steps, i + 1)
      == if steps[i].Assign? then GivenBy(steps, i) + {steps[i].task} else GivenBy(steps, i)
    ensures CompletedBy(steps, i + 1)
      == if steps[i].Complete? && Decrement(steps, i) then CompletedBy(steps, i) + {steps[i].task}
         else CompletedBy(steps, i)
  {
  }

  lemma AliveNext(steps: seq<Step>, i: nat, s: State)
    requires i < |steps| && Inv(s) && SemHistory(steps, i, s) && Enabled(s, steps[i])
    ensures Alive(steps, i + 1) <==> Alive(steps, i) && !Destroys(steps[i])
    ensures steps[i].Complete? || steps[i].WaitDecrement? ==> (Decrement(steps, i) <==> Decrements(s, steps[i].works))
  {
    SubsetSize(s.completed, s.given);
  }

  lemma TaskNext(steps: seq<Step>, i: nat, s: State)
    requires i < |steps| && Inv(s) && Enabled(s, steps[i])
    requires TaskHistory(steps, i, s) && SemHistory(steps, i, s)
    ensures TaskHistory(steps, i + 1, Next(s, steps[i]))
  {
    AliveNext(steps, i, s);
    TasksNext(steps, i);
    LeakedNext(steps, i);
    hide GivenBy, CompletedBy, LeakedBy, Inv, SemHistory, Decrement, Alive;
  }

  lemma SemNext(steps: seq<Step>, i: nat, s: State)
    requires i < |steps| && Inv(s) && Enabled(s, steps[i]) && SemHistory(steps, i, s)
    ensures SemHistory(steps, i + 1, Next(s, steps[i]))
  {
    AliveNext(steps, i, s);
    hide Decrement, Alive;
  }

  lemma OwnerNext(steps: seq<Step>, i: nat, s: State)
    requires i < |steps| && Inv(s) && Enabled(s, steps[i])
    requires SemHistory(steps, i, s) && OwnerHistory(steps, i, s)
    ensures OwnerHistory(steps, i + 1, Next(s, steps[i]))
  {
    AliveNext(steps, i, s);
    assert (exists j :: 0 <= j < i + 1 && WaitFails(steps, j))
      <==> (exists j :: 0 <= j < i && WaitFails(steps, j)) || WaitFails(steps, i);
    assert (exists j :: 0 <= j < i + 1 && WaitWorks(steps[j]))
      <==> (exists j :: 0 <= j < i && WaitWorks(steps[j])) || WaitWorks(steps[i]);
    hide Inv, SemHistory, Decrement, Alive;
  }

  /** At every moment of every interleaving, the steps taken decide the state; with the
      invariant, the value of the semaphore too. */
  lemma {:induction false} StepsDecide(states: seq<State>, steps: seq<Step>, i: nat)
    requires IsRun(states, steps) && i < |states|
    ensures TaskHistory(steps, i, states[i]) && SemHistory(steps, i, states[i]) && OwnerHistory(steps, i, states[i])
  {
    if i > 0 {
      StepsDecide(states, steps, i - 1);
      RunKeepsInv(states, steps, i - 1);
      TaskNext(steps, i - 1, states[i - 1]);
      SemNext(steps, i - 1, states[i - 1]);
      OwnerNext(steps, i - 1, states[i - 1]);
    }
  }

  /** A wait that is over failed exactly when its own decrement, the waiting or the
      destroying failed. */
  lemma FailsExactly(states: seq<State>, steps: seq<Step>, i: nat)
    requires IsRun(states, steps) && i < |states| && states[i].owner.Returned?
    ensures !states[i].owner.ok <==> exists j :: 0 <= j < i && WaitFails(steps, j)
  {
    StepsDecide(states, steps, i);
  }

  /** The state after some steps, if they are possible one after the other. */
  function After(s: State, steps: seq<Step>): Option<State>
    decreases |steps|
  {
    if steps == [] then Some(s)
    else if Enabled(s, steps[0]) then After(Next(s, steps[0]), steps[1..])
    else None
  }

  /** Wherever a waiting owner is, with the semaphore there and nothing leaked: once
      udev completes what is outstanding, the wait succeeds and the semaphore is gone. */
  lemma {:induction false} WaitCanSucceed(s: State) returns (steps: seq<Step>)
    requires Inv(s) && s.owner.Waiting? && s.sem.Some? && s.leaked == 0
    ensures |steps| == |s.given - s.completed| + 1 && steps[|steps| - 1] == WaitZero(true)
    ensures forall i :: 0 <= i < |steps| - 1 ==> steps[i].Complete? && steps[i].works
    ensures After(s, steps).Some?
    ensures After(s, steps).value == s.(sem := None, owner := Returned(true), completed := s.given)
    decreases |s.given - s.completed|
  {
    SubsetSize(s.completed, s.given);
    if s.completed == s.given {
      assert s.given - s.completed == {};
      steps := [WaitZero(true)];
      assert After(Next(s, steps[0]), []) == Some(Next(s, steps[0]));
    } else {
      var t :| t in s.given && t !in s.completed;
      var next := Next(s, Complete(t, true));
      NextKeepsInv(s, Complete(t, true));
      assert next.given - next.completed == s.given - s.completed - {t};
      var more := WaitCanSucceed(next);
      steps := [Complete(t, true)] + more;
      assert steps[1..] == more;
    }
  }

  /** Tasks that are assigned, and completed in any order behind that. */
  ghost predicate Prelude(steps: seq<Step>) {
    steps == [] ||
    var before, step := steps[..|steps| - 1], steps[|steps| - 1];
    && Prelude(before)
    && match step
       case Assign(t) => t !in GivenBy(before, |before|)
       case Complete(t, works) => works && t in GivenBy(before, |before|) && t !in DoneBy(before)
       case _ => false
  }

  function DoneBy(steps: seq<Step>): set<nat> {
    set step | step in steps && step.Complete? :: step.task
  }

  lemma {:induction false} AfterJoin(s: State, a: seq<Step>, b: seq<Step>)
    ensures After(s, a + b) == if After(s, a).None? then None else After(After(s, a).value, b)
    decreases |a|
  {
    if a == [] {
      assert a + b == b;
    } else if Enabled(s, a[0]) {
      AfterJoin(Next(s, a[0]), a[1..], b);
      assert (a + b)[1..] == a[1..] + b;
    }
  }

  lemma AfterOne(s: State, step: Step)
    ensures After(s, [step]) == if Enabled(s, step) then Some(Next(s, step)) else None
  {
    assert [step][1..] == [];
  }

  lemma LastStep(steps: seq<Step>)
    requires steps != []
    ensures var before, step := steps[..|steps| - 1], steps[|steps| - 1];
      && GivenBy(steps, |steps|) == GivenBy(before, |before|) + (if step.Assign? then {step.task} else {})
      && DoneBy(steps) == DoneBy(before) + if step.Complete? then {step.task} else {}
  {
    var before, step := steps[..|steps| - 1], steps[|steps| - 1];
    assert steps == before + [step];
    assert forall j :: 0 <= j < |before| ==> steps[j] == before[j];
  }

  lemma PreludeStep(s: State, step: Step)
    requires Inv(s) && s.owner.Assigning? && s.sem.Some? && s.leaked == 0 && !s.removed
    requires match step
      case Assign(t) => t !in s.given
      case Complete(t, works) => works && t in s.given && t !in s.completed
      case _ => false
    ensures Enabled(s, step)
    ensures var next := Next(s, step);
      && Inv(next) && next.owner.Assigning? && next.sem.Some? && next.leaked == 0 && !next.removed
      && next.given == s.given + (if step.Assign? then {step.task} else {})
      && next.completed == s.completed + if step.Complete? then {step.task} else {}
  {
    SubsetSize(s.completed, s.given);
    NextKeepsInv(s, step);
    hide Inv;
    assert s.given + {} == s.given && s.completed + {} == s.completed;
  }

  /** The state a prelude leads to: the owner is still assigning. */
  ghost predicate AtPrelude(steps: seq<Step>, s: State) {
    && Inv(s) && s.owner.Assigning? && s.sem.Some? && s.leaked == 0 && !s.removed
    && s.given == GivenBy(steps, |steps|) && s.completed == DoneBy(steps)
  }

  lemma AtPreludeNext(steps: seq<Step>, s: State)
    requires steps != [] && Prelude(steps) && AtPrelude(steps[..|steps| - 1], s)
    ensures Enabled(s, steps[|steps| - 1]) && AtPrelude(steps, Next(s, steps[|steps| - 1]))
  {
    hide GivenBy, DoneBy, Inv, Enabled, Next;
    LastStep(steps);
    PreludeStep(s, steps[|steps| - 1]);
  }

  /** Every prelude can happen. */
  lemma {:induction false} PreludeRuns(steps: seq<Step>)
    requires Prelude(steps)
    ensures After(Created(), steps).Some? && AtPrelude(steps, After(Created(), steps).value)
  {
    if steps == [] {
      assert Inv(Created());
    } else {
      var before, step := steps[..|steps| - 1], steps[|steps| - 1];
      PreludeRuns(before);
      hide After, AtPrelude, Enabled, Next;
      var s := After(Created(), before).value;
      AtPreludeNext(steps, s);
      assert steps == before + [step];
      AfterJoin(Created(), before, [step]);
      AfterOne(s, step);
    }
  }

  /** Whatever order udev completes in, before the wait or during it: the wait can end
      with success, and does as soon as the rest is completed. */
  lemma AnyOrderSucceeds(prelude: seq<Step>, destroyed: bool) returns (rest: seq<Step>)
    requires Prelude(prelude)
    ensures |rest| == |GivenBy(prelude, |prelude|) - DoneBy(prelude)| + 1 && rest[|rest| - 1] == WaitZero(true)
    ensures forall i :: 0 <= i < |rest| - 1 ==> rest[i].Complete? && rest[i].works
    ensures
      var last := After(Created(), prelude + ([WaitDecrement(true, destroyed)] + rest));
      last.Some? && last.value.owner == Returned(true) && last.value.sem.None?
        && last.value.completed == last.value.given
  {
    PreludeRuns(prelude);
    var s, wait := After(Created(), prelude).value, WaitDecrement(true, destroyed);
    SubsetSize(s.completed, s.given);
    NextKeepsInv(s, wait);
    hide After, GivenBy, DoneBy, Inv, Prelude;
    rest := WaitCanSucceed(Next(s, wait));
    AfterJoin(Created(), prelude, [wait] + rest);
    AfterJoin(s, [wait], rest);
    AfterOne(s, wait);
  }

  // ---- the cookie in the event number ----

  const DM_COOKIE_MAGIC: nat := 0x0D4D

  /** The bitwise or of two words. */
  function Or(a: nat, b: nat): nat
    decreases a + b
  {
    if a == 0 && b == 0 then 0
    else (if a % 2 == 1 || b % 2 == 1 then 1 else 0) + 2 * Or(a / 2, b / 2)
  }

  lemma {:induction false} OrDisjoint(a: nat, b: nat, k: nat)
    requires b < Power(2, k)
    ensures Or(a * Power(2, k), b) == a * Power(2, k) + b
    decreases k
  {
    if k == 0 {
      OrZero(a);
    } else {
      var p := a * Power(2, k - 1);
      assert a * Power(2, k) == 2 * p;
      OrDisjoint(a, b / 2, k - 1);
      assert (2 * p) / 2 == p && (2 * p) % 2 == 0;
    }
  }

  lemma {:induction false} OrZero(a: nat)
    ensures Or(a, 0) == a
  {
    if a != 0 {
      OrZero(a / 2);
    }
  }

  /** DM_COOKIE_MAGIC << 16 | base_cookie; the base is never zero. */
  function Cookie(base: nat): nat {
    Or(DM_COOKIE_MAGIC * 65536, base)
  }

  /** dm_task_set_cookie: the flags above the low half of the cookie. */
  function EventNumber(flags: nat, cookie: nat): nat {
    Or(flags * 65536, And(cookie, 0xFFFF))
  }

  /** dmsetup udevflags */
  function FlagsOf(event: nat): nat {
    event / 65536
  }

  /** dmsetup udevcomplete: the cookie to complete, if the event carries one. */
  function CookieOf(event: nat): Option<nat> {
    var low := And(event, 0xFFFF);
    if low == 0 then None else Some(Or(low, DM_COOKIE_MAGIC * 65536))
  }

  lemma Power16()
    ensures Power(2, 16) == 65536
  {
    assert Power(2, 8) == 256;
  }

  lemma {:induction false} OrCommutes(a: nat, b: nat)
    ensures Or(a, b) == Or(b, a)
    decreases a + b
  {
    if a != 0 || b != 0 {
      OrCommutes(a / 2, b / 2);
    }
  }

  lemma LowHalf(x: nat)
    ensures And(x, 0xFFFF) == x % 65536
  {
    hide And;
    AndBits16(x, 0);
    AndNothing(x / 65536);
  }

  lemma {:induction false} AndNothing(x: nat)
    ensures And(x, 0) == 0
  {
    if x != 0 {
      AndNothing(x / 2);
    }
  }

  /** Flags and cookie are recovered exactly from the event number. */
  lemma CookieRoundTrip(flags: nat, base: nat)
    requires flags < 65536 && 0 < base < 65536
    ensures var event := EventNumber(flags, Cookie(base));
      FlagsOf(event) == flags && CookieOf(event) == Some(Cookie(base))
  {
    hide And, Or, Power;
    Power16();
    var cookie := Cookie(base);
    OrDisjoint(DM_COOKIE_MAGIC, base, 16);
    LowHalf(cookie);
    OrDisjoint(flags, base, 16);
    var event := EventNumber(flags, cookie);
    assert event == flags * 65536 + base;
    LowHalf(event);
    OrCommutes(base, DM_COOKIE_MAGIC * 65536);
  }

  /** Whatever event arrives, the cookie taken from it has the prefix that
      _get_cookie_sem asks for. */
  lemma PrefixAccepted(event: nat)
    ensures CookieOf(event).Some? <==> event % 65536 != 0
    ensures CookieOf(event).Some? ==> CookieOf(event).value / 65536 == DM_COOKIE_MAGIC
  {
    hide And, Or, Power;
    Power16();
    LowHalf(event);
    OrCommutes(event % 65536, DM_COOKIE_MAGIC * 65536);
    OrDisjoint(DM_COOKIE_MAGIC, event % 65536, 16);
  }
}
