/** The queue of pending /dev node operations of libdm-common.c: operations are
    coalesced when stacked, and carried out when the queue is popped. */
module NodeOps {
  import opened Wrappers

  datatype Kind = Add | Del | Rename | ReadAhead

  type Dev = (nat, nat)

  /** With `minimum` a read-ahead is a lower bound. */
  datatype NodeOp = NodeOp(kind: Kind, name: string, dev: Dev, oldName: string, readAhead: nat, minimum: bool,
      relyOnUdev: bool)

  type Queue = seq<NodeOp>

  // ---- carrying operations out on the node files ----

  type Nodes = map<string, Dev>

  function Lookup(nodes: Nodes, n: string): Option<Dev> {
    if n in nodes then Some(nodes[n]) else None
  }

  /** _do_node_op where no file operation fails. A rename first removes whatever has
      the new name, and then moves the old node if there is one. */
  function Done(op: NodeOp, nodes: Nodes): Nodes {
    match op.kind
    case Add => nodes[op.name := op.dev]
    case Del => nodes - {op.name}
    case ReadAhead => nodes
    case Rename =>
      var without := nodes - {op.name};
      if op.oldName in without then (without - {op.oldName})[op.name := without[op.oldName]] else without
  }

  function Replay(q: Queue, nodes: Nodes): Nodes {
    if q == [] then nodes else Done(q[|q| - 1], Replay(q[..|q| - 1], nodes))
  }

  predicate Plain(q: Queue) {
    forall i :: 0 <= i < |q| ==> !q[i].kind.Rename? && !q[i].relyOnUdev
  }

  /** What plain operations leave under one name. */
  function Final(q: Queue, n: string, was: Option<Dev>): Option<Dev> {
    if q == [] then was
    else
      var op := q[|q| - 1];
      if op.name == n && op.kind.Add? then Some(op.dev)
      else if op.name == n && op.kind.Del? then None
      else Final(q[..|q| - 1], n, was)
  }

  lemma {:induction false} ReplayIsFinal(q: Queue, nodes: Nodes, n: string)
    requires Plain(q)
    ensures Lookup(Replay(q, nodes), n) == Final(q, n, Lookup(nodes, n))
  {
    if q != [] {
      ReplayIsFinal(q[..|q| - 1], nodes, n);
    }
  }

  // ---- coalescing ----

  predicate HasOther(q: Queue, kind: Kind) {
    exists i :: 0 <= i < |q| && q[i].kind != kind
  }

  function Without(q: Queue, i: nat): Queue
    requires i < |q|
  {
    q[..i] + q[i + 1..]
  }

  /** Stacking a DEL: drop operations on the node, until only DELs are left. */
  function ScanDel(q: Queue, i: nat, name: string): Queue
    requires i <= |q|
    decreases |q| - i
  {
    if i == |q| then q
    else if q[i].name != name then ScanDel(q, i + 1, name)
    else if !HasOther(Without(q, i), Del) then Without(q, i)
    else ScanDel(Without(q, i), i, name)
  }

  /** Stacking an ADD: drop the first DEL of the node. */
  function ScanAdd(q: Queue, i: nat, name: string): Queue
    requires i <= |q|
    decreases |q| - i
  {
    if i == |q| then q
    else if q[i].kind == Del && q[i].name == name then Without(q, i)
    else ScanAdd(q, i + 1, name)
  }

  /** Stacking a RENAME: drop all operations on the old name. */
  function ScanRename(q: Queue, i: nat, name: string): Queue
    requires i <= |q|
    decreases |q| - i
  {
    if i == |q| then q
    else if q[i].name == name then ScanRename(Without(q, i), i, name)
    else ScanRename(q, i + 1, name)
  }

  function Normalised(op: NodeOp): NodeOp {
    if op.kind == ReadAhead then op.(relyOnUdev := false) else op
  }

  /** What a new operation leaves of the queue. */
  function Unstacked(q: Queue, op: NodeOp): Queue {
    match op.kind
    case Del => if HasOther(q, Del) then ScanDel(q, 0, op.name) else q
    case Add => ScanAdd(q, 0, op.name)
    case Rename => ScanRename(q, 0, op.oldName)
    case ReadAhead => q
  }

  /** The queue after _stack_node_op. */
  function Stacked(q: Queue, op: NodeOp): Queue {
    Unstacked(q, op) + [Normalised(op)]
  }

  // ---- dropping operations on one node changes nothing elsewhere ----

  lemma {:induction false} WithoutElsewhere(q: Queue, i: nat, n: string, was: Option<Dev>)
    requires i < |q| && q[i].name != n
    ensures Final(Without(q, i), n, was) == Final(q, n, was)
    decreases |q|
  {
    if i < |q| - 1 {
      var init := q[..|q| - 1];
      WithoutElsewhere(init, i, n, was);
      assert Without(q, i)[..|q| - 2] == Without(init, i);
    } else {
      assert Without(q, i) == q[..|q| - 1];
    }
  }

  lemma {:induction false} ScanDelElsewhere(q: Queue, i: nat, name: string, n: string, was: Option<Dev>)
    requires i <= |q| && Plain(q)
    ensures Plain(ScanDel(q, i, name))
    ensures n != name ==> Final(ScanDel(q, i, name), n, was) == Final(q, n, was)
    decreases |q| - i
  {
    if i < |q| {
      if q[i].name != name {
        ScanDelElsewhere(q, i + 1, name, n, was);
      } else {
        if n != name {
          WithoutElsewhere(q, i, n, was);
        }
        ScanDelElsewhere(Without(q, i), i, name, n, was);
      }
    }
  }

  lemma {:induction false} ScanAddElsewhere(q: Queue, i: nat, name: string, n: string, was: Option<Dev>)
    requires i <= |q| && Plain(q)
    ensures Plain(ScanAdd(q, i, name))
    ensures n != name ==> Final(ScanAdd(q, i, name), n, was) == Final(q, n, was)
    decreases |q| - i
  {
    if i < |q| {
      if q[i].kind == Del && q[i].name == name {
        if n != name {
          WithoutElsewhere(q, i, n, was);
        }
      } else {
        ScanAddElsewhere(q, i + 1, name, n, was);
      }
    }
  }

  lemma {:induction false} ScanRenameEffect(q: Queue, i: nat, name: string, n: string, was: Option<Dev>)
    requires i <= |q| && Plain(q) && forall j :: 0 <= j < i ==> q[j].name != name
    ensures Plain(ScanRename(q, i, name))
    ensures n != name ==> Final(ScanRename(q, i, name), n, was) == Final(q, n, was)
    ensures forall j :: 0 <= j < |ScanRename(q, i, name)| ==> ScanRename(q, i, name)[j].name != name
    decreases |q| - i
  {
    if i < |q| {
      if q[i].name == name {
        if n != name {
          WithoutElsewhere(q, i, n, was);
        }
        ScanRenameEffect(Without(q, i), i, name, n, was);
      } else {
        ScanRenameEffect(q, i + 1, name, n, was);
      }
    }
  }

  lemma {:induction false} FinalOfOthers(q: Queue, n: string, was: Option<Dev>)
    requires forall j :: 0 <= j < |q| ==> q[j].name != n
    ensures Final(q, n, was) == was
  {
    if q != [] {
      FinalOfOthers(q[..|q| - 1], n, was);
    }
  }

  /** Coalescing refines carrying out each operation at once. */
  lemma StackedReplays(q: Queue, op: NodeOp, nodes: Nodes)
    requires Plain(q) && !op.kind.Rename? && !op.relyOnUdev
    ensures Plain(Stacked(q, op))
    ensures Replay(Stacked(q, op), nodes) == Done(op, Replay(q, nodes))
  {
    var q' := Stacked(q, op);
    ScanDelElsewhere(q, 0, op.name, op.name, None);
    ScanAddElsewhere(q, 0, op.name, op.name, None);
    assert Plain(q');
    forall n
      ensures Lookup(Replay(q', nodes), n) == Lookup(Done(op, Replay(q, nodes)), n)
    {
      var was := Lookup(nodes, n);
      ScanDelElsewhere(q, 0, op.name, n, was);
      ScanAddElsewhere(q, 0, op.name, n, was);
      assert q'[..|q'| - 1] + [Normalised(op)] == q';
      ReplayIsFinal(q, nodes, n);
      ReplayIsFinal(q', nodes, n);
    }
    MapsEqual(Replay(q', nodes), Done(op, Replay(q, nodes)));
  }

  lemma MapsEqual(a: Nodes, b: Nodes)
    requires forall n :: Lookup(a, n) == Lookup(b, n)
    ensures a == b
  {
    assert forall n :: n in a <==> Lookup(a, n).Some?;
    assert forall n :: n in b <==> Lookup(b, n).Some?;
    assert forall n :: n in a && n in b ==> Lookup(a, n) == Some(a[n]) && Lookup(b, n) == Some(b[n]);
  }

  /** For a rename this holds exactly when the operations it drops would have left
      the old name as it was found. */
  lemma RenameReplaysIff(q: Queue, op: NodeOp, nodes: Nodes)
    requires Plain(q) && op.kind.Rename? && op.oldName != op.name
    ensures Replay(Stacked(q, op), nodes) == Done(op, Replay(q, nodes)) <==>
      Lookup(Replay(q, nodes), op.oldName) == Lookup(nodes, op.oldName)
  {
    var kept := ScanRename(q, 0, op.oldName);
    assert Stacked(q, op) == kept + [op];
    assert (kept + [op])[..|kept|] == kept;
    var a, b := Replay(kept, nodes), Replay(q, nodes);
    forall n
      ensures n != op.oldName ==> Lookup(a, n) == Lookup(b, n)
      ensures Lookup(a, op.oldName) == Lookup(nodes, op.oldName)
    {
      ScanRenameEffect(q, 0, op.oldName, n, Lookup(nodes, n));
      ReplayIsFinal(q, nodes, n);
      ReplayIsFinal(kept, nodes, n);
      ReplayIsFinal(kept, nodes, op.oldName);
      FinalOfOthers(kept, op.oldName, Lookup(nodes, op.oldName));
    }
    assert Lookup(Done(op, a), op.name) == Lookup(a, op.oldName);
    assert Lookup(Done(op, b), op.name) == Lookup(b, op.oldName);
    if Lookup(b, op.oldName) == Lookup(nodes, op.oldName) {
      MapsEqual(a, b);
    }
  }

  /** The same device under every name but one. */
  ghost predicate SameBut(a: Nodes, b: Nodes, name: string) {
    forall n :: n != name ==> Lookup(a, n) == Lookup(b, n)
  }

  /** For any queue, with renames or not: exactly when the operations that are kept
      leave the same as all of them under every name but the new one. */
  lemma RenameReplaysExactly(q: Queue, op: NodeOp, nodes: Nodes)
    requires op.kind.Rename?
    ensures Replay(Stacked(q, op), nodes) == Done(op, Replay(q, nodes)) <==>
      SameBut(Replay(ScanRename(q, 0, op.oldName), nodes), Replay(q, nodes), op.name)
  {
    var kept := ScanRename(q, 0, op.oldName);
    assert Stacked(q, op) == kept + [op];
    assert (kept + [op])[..|kept|] == kept;
    RenamedAlike(op, Replay(kept, nodes), Replay(q, nodes));
  }

  lemma RenameLookup(op: NodeOp, m: Nodes, n: string)
    requires op.kind.Rename?
    ensures Lookup(Done(op, m), n)
      == if op.name == op.oldName then if n == op.name then None else Lookup(m, n)
         else if n == op.name then Lookup(m, op.oldName) else if n == op.oldName then None else Lookup(m, n)
  {
  }

  /** A rename forgets what had the new name, and nothing else. */
  lemma RenamedAlike(op: NodeOp, a: Nodes, b: Nodes)
    requires op.kind.Rename?
    ensures Done(op, a) == Done(op, b) <==> SameBut(a, b, op.name)
  {
    hide Done;
    if SameBut(a, b, op.name) {
      forall n ensures Lookup(Done(op, a), n) == Lookup(Done(op, b), n) {
        RenameLookup(op, a, n);
        RenameLookup(op, b, n);
      }
      MapsEqual(Done(op, a), Done(op, b));
    }
    if Done(op, a) == Done(op, b) {
      forall n | n != op.name ensures Lookup(a, n) == Lookup(b, n) {
        RenameLookup(op, a, if n == op.oldName then op.name else n);
        RenameLookup(op, b, if n == op.oldName then op.name else n);
      }
    }
  }

  /** An addition of the old name that is still queued is lost by the rename. */
  lemma RenameLosesAddition(oldName: string, newName: string, dev: Dev)
    requires oldName != newName
    ensures
      var q := [NodeOp(Add, oldName, dev, "", 0, false, false)];
      var op := NodeOp(Rename, newName, dev, oldName, 0, false, false);
      Replay(Stacked(q, op), map[]) != Done(op, Replay(q, map[]))
  {
    var add, op := NodeOp(Add, oldName, dev, "", 0, false, false),
      NodeOp(Rename, newName, dev, oldName, 0, false, false);
    assert [add][..0] == [];
    assert Replay([add], map[]) == map[oldName := dev];
    hide Replay, Stacked, Done;
    RenameReplaysIff([add], op, map[]);
  }

  function StackedAll(q: Queue, run: seq<NodeOp>): Queue {
    if run == [] then q else Stacked(StackedAll(q, run[..|run| - 1]), run[|run| - 1])
  }

  /** Over a whole run of operations. */
  lemma {:induction false} RunReplays(run: seq<NodeOp>, nodes: Nodes)
    requires Plain(run)
    ensures Plain(StackedAll([], run)) && Replay(StackedAll([], run), nodes) == Replay(run, nodes)
  {
    if run != [] {
      RunReplays(run[..|run| - 1], nodes);
      StackedReplays(StackedAll([], run[..|run| - 1]), run[|run| - 1], nodes);
    }
  }

  predicate OnlyDels(q: Queue, name: string) {
    forall j :: 0 <= j < |q| ==> q[j].name != name || q[j].kind == Del
  }

  /** The early exit of the DEL scan loses nothing: no other operation on the
      deleted node stays queued. */
  lemma DelUnstacksNode(q: Queue, op: NodeOp)
    requires op.kind == Del
    ensures OnlyDels(Stacked(q, op), op.name)
  {
    if HasOther(q, Del) {
      ScanDelUnstacks(q, 0, op.name);
    }
  }

  lemma {:induction false} ScanDelUnstacks(q: Queue, i: nat, name: string)
    requires i <= |q| && forall j :: 0 <= j < i ==> q[j].name != name
    ensures OnlyDels(ScanDel(q, i, name), name)
    decreases |q| - i
  {
    if i < |q| {
      if q[i].name != name {
        ScanDelUnstacks(q, i + 1, name);
      } else if HasOther(Without(q, i), Del) {
        ScanDelUnstacks(Without(q, i), i, name);
      }
    }
  }

  // ---- read-ahead ----

  /** What the kernel has for each device; others have its default. */
  datatype Ahead = Ahead(known: map<Dev, nat>, initial: nat) {
    function Of(d: Dev): nat {
      if d in known then known[d] else initial
    }
  }

  /** _set_dev_node_read_ahead: sysfs counts in units of two sectors. */
  function AheadAfter(op: NodeOp, a: Ahead): Ahead {
    if !op.kind.ReadAhead? || (op.minimum && a.Of(op.dev) >= op.readAhead) then a
    else a.(known := a.known[op.dev := (op.readAhead + 1) / 2 * 2])
  }

  function AheadAfterAll(q: Queue, a: Ahead): Ahead {
    if q == [] then a else AheadAfter(q[|q| - 1], AheadAfterAll(q[..|q| - 1], a))
  }

  /** The read-ahead operations of a queue. */
  function Settings(q: Queue): Queue {
    if q == [] then []
    else if q[0].kind.ReadAhead? then [q[0]] + Settings(q[1..])
    else Settings(q[1..])
  }

  /** Its node is deleted or renamed later in the run. */
  predicate LostLater(run: seq<NodeOp>, i: nat)
    requires i < |run|
  {
    exists j :: i < j < |run| && ((run[j].kind == Del && run[j].name == run[i].name)
                                  || (run[j].kind == Rename && run[j].oldName == run[i].name))
  }

  /** The settings from i on whose node is neither deleted nor renamed later. */
  function Surviving(run: seq<NodeOp>, i: nat): Queue
    requires i <= |run|
    decreases |run| - i
  {
    if i == |run| then []
    else if run[i].kind.ReadAhead? && !LostLater(run, i) then [Normalised(run[i])] + Surviving(run, i + 1)
    else Surviving(run, i + 1)
  }

  function Dropped(q: Queue, name: string): Queue {
    if q == [] then []
    else if q[0].name == name then Dropped(q[1..], name)
    else [q[0]] + Dropped(q[1..], name)
  }

  /** What one more operation leaves of the settings. */
  function SettingsAfter(q: Queue, op: NodeOp): Queue {
    match op.kind
    case Del => Dropped(q, op.name)
    case Rename => Dropped(q, op.oldName)
    case ReadAhead => q + [Normalised(op)]
    case Add => q
  }

  lemma {:induction false} SurvivingNext(run: seq<NodeOp>, op: NodeOp, i: nat)
    requires i <= |run|
    ensures Surviving(run + [op], i) == SettingsAfter(Surviving(run, i), op)
    decreases |run| - i
  {
    var longer := run + [op];
    if i == |run| {
      assert longer[i] == op && Surviving(longer, i + 1) == [];
      assert !LostLater(longer, i);
      assert [] + [Normalised(op)] == [Normalised(op)] + [];
    } else {
      SurvivingNext(run, op, i + 1);
      LostNext(run, op, i);
      assert longer[i] == run[i];
      var head, more := [Normalised(run[i])], Surviving(run, i + 1);
      assert (head + more)[1..] == more;
      assert head + (more + [Normalised(op)]) == head + more + [Normalised(op)];
    }
  }

  lemma LostNext(run: seq<NodeOp>, op: NodeOp, i: nat)
    requires i < |run|
    ensures LostLater(run + [op], i) <==>
      LostLater(run, i) || (op.kind == Del && op.name == run[i].name)
        || (op.kind == Rename && op.oldName == run[i].name)
  {
    var longer := run + [op];
    assert longer[|run|] == op && forall j :: 0 <= j < |run| ==> longer[j] == run[j];
  }

  // ---- what coalescing leaves of the settings ----

  lemma {:induction false} SettingsJoin(a: Queue, b: Queue)
    ensures Settings(a + b) == Settings(a) + Settings(b)
  {
    if a == [] {
      assert a + b == b;
    } else {
      SettingsJoin(a[1..], b);
      assert (a + b)[1..] == a[1..] + b;
    }
  }

  lemma {:induction false} DroppedJoin(a: Queue, b: Queue, name: string)
    ensures Dropped(a + b, name) == Dropped(a, name) + Dropped(b, name)
  {
    if a == [] {
      assert a + b == b;
    } else {
      DroppedJoin(a[1..], b, name);
      assert (a + b)[1..] == a[1..] + b;
      var x, y, z := [a[0]], Dropped(a[1..], name), Dropped(b, name);
      assert x + (y + z) == x + y + z;
    }
  }

  lemma SettingsWithout(q: Queue, i: nat, name: string)
    requires i < |q|
    ensures !q[i].kind.ReadAhead? ==> Settings(Without(q, i)) == Settings(q)
    ensures q[i].name == name ==> Dropped(Settings(Without(q, i)), name) == Dropped(Settings(q), name)
  {
    var a, x, b := q[..i], [q[i]], q[i + 1..];
    SettingsJoin(a, b);
    SettingsJoin(a, x + b);
    SettingsJoin(x, b);
    assert q == a + (x + b);
    assert Settings(x) == if q[i].kind.ReadAhead? then x else [];
    DroppedJoin(Settings(a), Settings(b), name);
    DroppedJoin(Settings(a), Settings(x) + Settings(b), name);
    DroppedJoin(Settings(x), Settings(b), name);
  }

  lemma {:induction false} NothingDropped(q: Queue, name: string)
    requires forall j :: 0 <= j < |q| ==> q[j].name != name
    ensures Dropped(Settings(q), name) == Settings(q)
  {
    if q != [] {
      NothingDropped(q[1..], name);
      assert ([q[0]] + Settings(q[1..]))[1..] == Settings(q[1..]);
    }
  }

  lemma {:induction false} NoSettings(q: Queue)
    requires forall j :: 0 <= j < |q| ==> !q[j].kind.ReadAhead?
    ensures Settings(q) == []
  {
    if q != [] {
      NoSettings(q[1..]);
    }
  }

  lemma {:induction false} SettingsScanDel(q: Queue, i: nat, name: string)
    requires i <= |q| && forall j :: 0 <= j < i ==> q[j].name != name
    ensures Settings(ScanDel(q, i, name)) == Dropped(Settings(q), name)
    decreases |q| - i
  {
    if i == |q| {
      NothingDropped(q, name);
    } else if q[i].name != name {
      SettingsScanDel(q, i + 1, name);
    } else {
      SettingsWithout(q, i, name);
      if HasOther(Without(q, i), Del) {
        SettingsScanDel(Without(q, i), i, name);
      } else {
        NoSettings(Without(q, i));
      }
    }
  }

  lemma {:induction false} SettingsScanRename(q: Queue, i: nat, name: string)
    requires i <= |q| && forall j :: 0 <= j < i ==> q[j].name != name
    ensures Settings(ScanRename(q, i, name)) == Dropped(Settings(q), name)
    decreases |q| - i
  {
    if i == |q| {
      NothingDropped(q, name);
    } else if q[i].name != name {
      SettingsScanRename(q, i + 1, name);
    } else {
      SettingsWithout(q, i, name);
      SettingsScanRename(Without(q, i), i, name);
    }
  }

  lemma {:induction false} SettingsScanAdd(q: Queue, i: nat, name: string)
    requires i <= |q|
    ensures Settings(ScanAdd(q, i, name)) == Settings(q)
    decreases |q| - i
  {
    if i < |q| {
      if q[i].kind == Del && q[i].name == name {
        SettingsWithout(q, i, name);
      } else {
        SettingsScanAdd(q, i + 1, name);
      }
    }
  }

  lemma SettingsStacked(q: Queue, op: NodeOp)
    ensures Settings(Stacked(q, op)) == SettingsAfter(Settings(q), op)
  {
    hide ScanDel, ScanAdd, ScanRename;
    var last := [Normalised(op)];
    SettingsJoin(Unstacked(q, op), last);
    assert last[1..] == [] && Settings(last) == if op.kind.ReadAhead? then last else [];
    assert Settings(Unstacked(q, op)) + [] == Settings(Unstacked(q, op));
    match op.kind
    case Del =>
      if HasOther(q, Del) {
        SettingsScanDel(q, 0, op.name);
      } else {
        NoSettings(q);
      }
    case Add => SettingsScanAdd(q, 0, op.name);
    case Rename => SettingsScanRename(q, 0, op.oldName);
    case ReadAhead =>
  }

  /** Over any run of operations, renames and those left to udev among them: the settings
      still queued are those whose node is neither deleted nor renamed later, in order. */
  lemma {:induction false} SettingsSurvive(run: seq<NodeOp>)
    ensures Settings(StackedAll([], run)) == Surviving(run, 0)
  {
    if run != [] {
      var init, op := run[..|run| - 1], run[|run| - 1];
      SettingsSurvive(init);
      SettingsStacked(StackedAll([], init), op);
      SurvivingNext(init, op, 0);
      assert run == init + [op];
    }
  }

  /** All settings from i on, as they are queued. */
  function AllSettings(run: seq<NodeOp>, i: nat): Queue
    requires i <= |run|
    decreases |run| - i
  {
    if i == |run| then []
    else if run[i].kind.ReadAhead? then [Normalised(run[i])] + AllSettings(run, i + 1)
    else AllSettings(run, i + 1)
  }

  /** None is missing exactly when no node with a setting is deleted or renamed later. */
  lemma {:induction false} NoneLost(run: seq<NodeOp>, i: nat)
    requires i <= |run|
    ensures |Surviving(run, i)| <= |AllSettings(run, i)|
    ensures Surviving(run, i) == AllSettings(run, i) <==>
      forall j :: i <= j < |run| && run[j].kind.ReadAhead? ==> !LostLater(run, j)
    decreases |run| - i
  {
    hide LostLater;
    if i < |run| {
      NoneLost(run, i + 1);
      var head, a, b := [Normalised(run[i])], Surviving(run, i + 1), AllSettings(run, i + 1);
      assert head + a == head + b ==> a == b by {
        assert (head + a)[1..] == a && (head + b)[1..] == b;
      }
    }
  }

  /** A setting is lost with its node, although the device may go on. */
  lemma DeletionLosesSetting(name: string, dev: Dev, value: nat, a: Ahead)
    requires a.Of(dev) != (value + 1) / 2 * 2
    ensures
      var run := [NodeOp(ReadAhead, name, dev, "", value, false, false), NodeOp(Del, name, dev, "", 0, false, false)];
      AheadAfterAll(Surviving(run, 0), a) == a && AheadAfterAll(run, a) != a
  {
    var ra, del := NodeOp(ReadAhead, name, dev, "", value, false, false), NodeOp(Del, name, dev, "", 0, false, false);
    var run := [ra, del];
    assert run[1].kind == Del;
    assert LostLater(run, 0) && Surviving(run, 2) == [];
    assert Surviving(run, 0) == Surviving(run, 1) == [];
    assert run[..1] == [ra] && [ra][..0] == [];
    assert AheadAfterAll([ra], a) == AheadAfter(ra, AheadAfterAll([], a));
    assert AheadAfterAll(run, a) == AheadAfter(del, AheadAfterAll([ra], a));
    assert AheadAfter(ra, a).Of(dev) == (value + 1) / 2 * 2;
  }

  // ---- the queue and its counters ----

  function CountOf(q: Queue, kind: Kind): nat {
    if q == [] then 0 else CountOf(q[..|q| - 1], kind) + if q[|q| - 1].kind == kind then 1 else 0
  }

  lemma CountLast(q: Queue, op: NodeOp, kind: Kind)
    ensures CountOf(q + [op], kind) == CountOf(q, kind) + if op.kind == kind then 1 else 0
  {
    assert (q + [op])[..|q|] == q;
  }

  lemma {:induction false} CountWithout(q: Queue, i: nat, kind: Kind)
    requires i < |q|
    ensures CountOf(q, kind) == CountOf(Without(q, i), kind) + if q[i].kind == kind then 1 else 0
    decreases |q|
  {
    hide CountOf;
    var init, last := q[..|q| - 1], q[|q| - 1];
    assert q == init + [last];
    CountLast(init, last, kind);
    if i < |q| - 1 {
      CountWithout(init, i, kind);
      assert Without(q, i) == Without(init, i) + [last];
      CountLast(Without(init, i), last, kind);
    } else {
      assert Without(q, i) == init;
    }
  }

  lemma CountPush(q: Queue, op: NodeOp)
    ensures forall kind :: CountOf(q + [op], kind) == CountOf(q, kind) + if op.kind == kind then 1 else 0
  {
    hide CountOf;
    forall kind {
      CountLast(q, op, kind);
    }
  }

  lemma {:induction false} CountPositive(q: Queue, kind: Kind)
    ensures CountOf(q, kind) > 0 <==> exists i :: 0 <= i < |q| && q[i].kind == kind
  {
    if q != [] {
      CountPositive(q[..|q| - 1], kind);
      assert q[|q| - 1].kind == kind ==> CountOf(q, kind) > 0;
      if i :| 0 <= i < |q| && q[i].kind == kind && i < |q| - 1 {
        assert q[..|q| - 1][i].kind == kind;
      }
    }
  }

  /** Skipping the scan is harmless when no DEL is queued. */
  lemma {:induction false} ScanAddNone(q: Queue, i: nat, name: string)
    requires i <= |q| && forall j :: 0 <= j < |q| ==> q[j].kind != Del
    ensures ScanAdd(q, i, name) == q
    decreases |q| - i
  {
    if i < |q| {
      ScanAddNone(q, i + 1, name);
    }
  }

  function Index(kind: Kind): nat {
    match kind case Add => 0 case Del => 1 case Rename => 2 case ReadAhead => 3
  }

  /** Read-ahead is never left to udev. */
  predicate OwnSettings(q: Queue) {
    forall i :: 0 <= i < |q| && q[i].kind.ReadAhead? ==> !q[i].relyOnUdev
  }

  class NodeOpQueue {
    var ops: Queue                // _node_ops
    const count: array<int>       // _count_node_ops
    var nodes: Nodes              // the node files
    var ahead: Ahead              // the kernel's read-ahead
    ghost var atOnce: Nodes       // the node files had every operation been done at once

    ghost predicate Valid()
      reads this, count
    {
      && count.Length == 4
      && (forall kind :: count[Index(kind)] == CountOf(ops, kind))
      && OwnSettings(ops)
    }

    /** Flushing would lead to the same node files. */
    ghost predicate InStep()
      reads this
    {
      Plain(ops) && Replay(ops, nodes) == atOnce
    }

    constructor (nodes: Nodes, ahead: Ahead)
      ensures Valid() && InStep() && ops == [] && this.nodes == nodes && atOnce == nodes && fresh(count)
      ensures this.ahead == ahead
    {
      ops, this.nodes, this.ahead, atOnce := [], nodes, ahead, nodes;
      count := new int[4](_ => 0);
    }

    /** _del_node_op */
    method DelNodeOp(i: nat)
      requires Valid() && i < |ops|
      modifies this`ops, count
      ensures Valid() && ops == Without(old(ops), i)
    {
      forall kind { CountWithout(ops, i, kind); }
      var k := Index(ops[i].kind);
      count[k] := count[k] - 1;
      ops := Without(ops, i);
    }

    /** _other_node_ops */
    method OtherNodeOps(kind: Kind) returns (r: bool)
      requires Valid()
      ensures r <==> HasOther(ops, kind)
    {
      for i := 0 to 4
        invariant forall k :: Index(k) < i && k != kind ==> CountOf(ops, k) == 0
      {
        if i != Index(kind) && count[i] != 0 {
          var k: Kind :| Index(k) == i;
          CountPositive(ops, k);
          return true;
        }
      }
      forall i | 0 <= i < |ops| ensures ops[i].kind == kind {
        CountPositive(ops, ops[i].kind);
      }
      return false;
    }

    /** _stack_node_op */
    method StackNodeOp(op: NodeOp)
      requires Valid()
      modifies this`ops, this`atOnce, count
      ensures Valid() && ops == Stacked(old(ops), op)
      ensures atOnce == Done(op, old(atOnce))
      ensures old(InStep()) && !op.kind.Rename? && !op.relyOnUdev ==> InStep()
    {
      hide Done, Replay, Plain, Unstacked;
      if InStep() && !op.kind.Rename? && !op.relyOnUdev {
        StackedReplays(ops, op, nodes);
      }
      Unstack(op);
      var k := Index(op.kind);
      count[k] := count[k] + 1;
      CountPush(ops, Normalised(op));
      ops := ops + [Normalised(op)];
      atOnce := Done(op, atOnce);
    }

    method Unstack(op: NodeOp)
      requires Valid()
      modifies this`ops, count
      ensures Valid() && ops == Unstacked(old(ops), op)
    {
      hide ScanDel, ScanAdd, ScanRename, CountOf;
      var others := OtherNodeOps(op.kind);
      if op.kind == Del && others {
        UnstackForDel(op.name);
      } else if op.kind == Add && count[Index(Del)] != 0 {
        UnstackForAdd(op.name);
      } else if op.kind == Rename {
        UnstackForRename(op.oldName);
      } else if op.kind == Add {
        CountPositive(ops, Del);
        ScanAddNone(ops, 0, op.name);
      }
    }

    method UnstackForDel(name: string)
      requires Valid()
      modifies this`ops, count
      ensures Valid() && ops == ScanDel(old(ops), 0, name)
    {
      var i := 0;
      while i < |ops|
        invariant Valid() && i <= |ops| && ScanDel(ops, i, name) == ScanDel(old(ops), 0, name)
        decreases |ops| - i
      {
        if ops[i].name == name {
          DelNodeOp(i);
          var others := OtherNodeOps(Del);
          if !others {
            return;
          }
        } else {
          i := i + 1;
        }
      }
    }

    method UnstackForAdd(name: string)
      requires Valid()
      modifies this`ops, count
      ensures Valid() && ops == ScanAdd(old(ops), 0, name)
    {
      var i := 0;
      while i < |ops|
        invariant Valid() && i <= |ops| && ops == old(ops) && ScanAdd(ops, i, name) == ScanAdd(old(ops), 0, name)
        decreases |ops| - i
      {
        if ops[i].kind == Del && ops[i].name == name {
          DelNodeOp(i);
          return;
        }
        i := i + 1;
      }
    }

    method UnstackForRename(oldName: string)
      requires Valid()
      modifies this`ops, count
      ensures Valid() && ops == ScanRename(old(ops), 0, oldName)
    {
      var i := 0;
      while i < |ops|
        invariant Valid() && i <= |ops| && ScanRename(ops, i, oldName) == ScanRename(old(ops), 0, oldName)
        decreases |ops| - i
      {
        if ops[i].name == oldName {
          DelNodeOp(i);
        } else {
          i := i + 1;
        }
      }
    }

    /** _pop_node_ops: operations that rely on udev are dropped undone. */
    method PopNodeOps()
      requires Valid()
      modifies this`ops, this`nodes, this`ahead, count
      ensures Valid() && ops == []
      ensures nodes == Replay(Trusted(old(ops)), old(nodes))
      ensures ahead == AheadAfterAll(Settings(old(ops)), old(ahead))
      ensures old(InStep()) ==> nodes == atOnce && InStep()
    {
      hide Done, CountOf, Trusted, Replay, AheadAfter, AheadAfterAll, Settings;
      ghost var queue := ops;
      ghost var i := 0;
      ReplayNothing(nodes);
      assert queue[..0] == [] && AheadAfterAll(Settings([]), ahead) == ahead by {
        NothingSet(ahead);
      }
      while |ops| > 0
        invariant Valid() && i <= |queue| && ops == queue[i..] && nodes == Replay(Trusted(queue[..i]), old(nodes))
        invariant ahead == AheadAfterAll(Settings(queue[..i]), old(ahead))
        decreases |ops|
      {
        PopSlices(queue, i);
        TrustedNext(queue[..i], queue[i], old(nodes));
        AheadNext(queue[..i], queue[i], old(ahead));
        if !ops[0].relyOnUdev {
          nodes, ahead := Done(ops[0], nodes), AheadAfter(ops[0], ahead);
        }
        DelNodeOp(0);
        i := i + 1;
      }
      assert queue[..i] == queue;
      ReplayNothing(nodes);
      if Plain(queue) {
        PlainIsTrusted(queue);
      }
    }
  }

  lemma PopSlices(q: Queue, i: nat)
    requires i < |q|
    ensures q[i..][0] == q[i] && Without(q[i..], 0) == q[i + 1..] && q[..i + 1] == q[..i] + [q[i]]
  {
  }

  lemma ReplayNothing(nodes: Nodes)
    ensures Replay([], nodes) == nodes && Trusted([]) == []
  {
  }

  lemma NothingSet(a: Ahead)
    ensures AheadAfterAll(Settings([]), a) == a
  {
  }

  lemma AheadNext(q: Queue, op: NodeOp, a: Ahead)
    ensures op.kind.ReadAhead? ==>
      AheadAfterAll(Settings(q + [op]), a) == AheadAfter(op, AheadAfterAll(Settings(q), a))
    ensures !op.kind.ReadAhead? ==> AheadAfter(op, AheadAfterAll(Settings(q), a)) == AheadAfterAll(Settings(q), a)
    ensures !op.kind.ReadAhead? ==> AheadAfterAll(Settings(q + [op]), a) == AheadAfterAll(Settings(q), a)
  {
    SettingsJoin(q, [op]);
    var s := Settings(q);
    assert Settings([op]) == if op.kind.ReadAhead? then [op] else [];
    assert s + [] == s && (s + [op])[..|s|] == s;
  }

  /** The operations that the library carries out itself. */
  function Trusted(q: Queue): Queue {
    if q == [] then [] else Trusted(q[..|q| - 1]) + if q[|q| - 1].relyOnUdev then [] else [q[|q| - 1]]
  }

  lemma TrustedNext(q: Queue, op: NodeOp, nodes: Nodes)
    ensures Replay(Trusted(q + [op]), nodes) ==
      if op.relyOnUdev then Replay(Trusted(q), nodes) else Done(op, Replay(Trusted(q), nodes))
  {
    assert (q + [op])[..|q|] == q;
    var t := Trusted(q);
    assert t + [] == t;
    assert (t + [op])[..|t|] == t;
  }

  lemma {:induction false} PlainIsTrusted(q: Queue)
    requires Plain(q)
    ensures Trusted(q) == q
  {
    if q != [] {
      PlainIsTrusted(q[..|q| - 1]);
      assert q == q[..|q| - 1] + [q[|q| - 1]];
    }
  }
}
