/** The values in a parsed configuration (libdm-config.c): at every path, the last one that
    the text gives it. */
module ConfigValues {
  import opened ConfigOrder
  import opened ConfigParser
  import opened ConfigTree
  import opened Wrappers

  function ValueAt(ns: seq<Node>, q: seq<string>): Option<seq<Value>>
    requires q != []
  {
    var n := Find(ns, q);
    if n.None? then None else n.value.v
  }

  /** A value for a path. */
  type Assignment = (seq<string>, seq<Value>)

  predicate HavePaths(list: seq<Assignment>) {
    forall a <- list :: a.0 != []
  }

  /** The assignments of an entry, with whole paths, in the order of the text. */
  function Assignments(e: Entry): (r: seq<Assignment>)
    requires IsEntry(e)
    ensures HavePaths(r)
    decreases e, 0
  {
    match e
    case Assign(segs, v) => [(segs, v)]
    case Section(segs, body) => Inside(segs, AssignmentsOf(body, |body|))
  }

  function AssignmentsOf(es: seq<Entry>, n: nat): (r: seq<Assignment>)
    requires n <= |es| && AreEntries(es)
    ensures HavePaths(r)
    decreases es, n
  {
    if n == 0 then [] else AssignmentsOf(es, n - 1) + Assignments(es[n - 1])
  }

  function Inside(segs: seq<string>, list: seq<Assignment>): (r: seq<Assignment>)
    requires HavePaths(list)
    ensures HavePaths(r)
  {
    seq(|list|, i requires 0 <= i < |list| => (segs + list[i].0, list[i].1))
  }

  /** The last assignment to a path decides. */
  function Last(list: seq<Assignment>, q: seq<string>, was: Option<seq<Value>>): Option<seq<Value>> {
    if list == [] then was
    else if list[|list| - 1].0 == q then Some(list[|list| - 1].1)
    else Last(list[..|list| - 1], q, was)
  }

  // ---- one path ----

  lemma ValueHead(ns: seq<Node>, q: seq<string>)
    requires q != []
    ensures Index(ns, q[0]) == |ns| ==> ValueAt(ns, q) == None
    ensures Index(ns, q[0]) < |ns| ==>
      var n := ns[Index(ns, q[0])];
      ValueAt(ns, q) == if |q| == 1 then n.v else ValueAt(n.child, q[1..])
  {
  }

  lemma NoValue(q: seq<string>)
    requires q != []
    ensures ValueAt([], q) == None
  {
  }

  lemma ValueWithKey(ns: seq<Node>, key: string, q: seq<string>)
    requires q != []
    ensures ValueAt(WithKey(ns, key), q) == ValueAt(ns, q)
  {
    hide ValueAt;
    ValueHead(ns, q);
    ValueHead(WithKey(ns, key), q);
    if q[0] != key {
      IndexWithKey(ns, key, q[0]);
    } else if Index(ns, key) == |ns| && |q| > 1 {
      NoValue(q[1..]);
    }
  }

  /** Making a path gives no value to anything. */
  lemma {:induction false} ValueMade(ns: seq<Node>, segs: seq<string>, q: seq<string>)
    requires segs != [] && q != []
    ensures ValueAt(Made(ns, segs), q) == ValueAt(ns, q)
    decreases |segs|
  {
    hide ValueAt;
    var r, made := WithKey(ns, segs[0]), Made(ns, segs);
    var k := Index(r, segs[0]);
    ValueWithKey(ns, segs[0], q);
    if |segs| > 1 {
      assert Keys(made) == Keys(r);
      SameIndex(r, made, q[0]);
      ValueHead(r, q);
      ValueHead(made, q);
      if q[0] == segs[0] && |q| > 1 {
        ValueMade(r[k].child, segs[1..], q[1..]);
      }
    }
  }

  lemma {:induction false} ValuePut(ns: seq<Node>, segs: seq<string>, n: Node, q: seq<string>)
    requires segs != [] && q != [] && Find(ns, segs).Some? && n.key == segs[|segs| - 1]
    ensures ValueAt(Put(ns, segs, n), q)
      == if q == segs then n.v else if segs <= q then ValueAt(n.child, q[|segs|..]) else ValueAt(ns, q)
    decreases |segs|
  {
    hide ValueAt;
    var k, put := Index(ns, segs[0]), Put(ns, segs, n);
    assert Keys(put) == Keys(ns);
    SameIndex(ns, put, q[0]);
    ValueHead(ns, q);
    ValueHead(put, q);
    if q[0] == segs[0] {
      PrefixHead(segs, q);
      if |segs| > 1 && |q| > 1 {
        ValuePut(ns[k].child, segs[1..], n, q[1..]);
        if segs <= q {
          assert q[1..][|segs[1..]|..] == q[|segs|..];
        }
      } else if |segs| == 1 {
        assert segs == [q[0]];
      }
    }
  }

  lemma {:induction false} ValueFind(ns: seq<Node>, segs: seq<string>, q: seq<string>)
    requires segs != [] && segs <= q && q != segs && Find(ns, segs).Some?
    ensures ValueAt(ns, q) == ValueAt(Find(ns, segs).value.child, q[|segs|..])
    decreases |segs|
  {
    hide ValueAt;
    ValueHead(ns, q);
    if |segs| > 1 {
      PrefixHead(segs, q);
      ValueFind(ns[Index(ns, segs[0])].child, segs[1..], q[1..]);
      assert q[1..][|segs[1..]|..] == q[|segs|..];
    }
  }

  lemma FindIsValue(ns: seq<Node>, segs: seq<string>)
    requires segs != [] && Find(ns, segs).Some?
    ensures ValueAt(ns, segs) == Find(ns, segs).value.v
  {
  }

  // ---- whole files ----

  lemma {:induction false} LastJoin(a: seq<Assignment>, b: seq<Assignment>, q: seq<string>, was: Option<seq<Value>>)
    ensures Last(a + b, q, was) == Last(b, q, Last(a, q, was))
    decreases |b|
  {
    if b == [] {
      assert a + b == a;
    } else {
      LastJoin(a, b[..|b| - 1], q, was);
      assert (a + b)[..|a + b| - 1] == a + b[..|b| - 1];
    }
  }

  /** Assignments inside segs, seen from there and from elsewhere. */
  lemma {:induction false} LastInside(segs: seq<string>, list: seq<Assignment>, q: seq<string>, was: Option<seq<Value>>)
    requires HavePaths(list)
    ensures Last(Inside(segs, list), q, was)
      == if segs <= q && q != segs then Last(list, q[|segs|..], was) else was
    decreases |list|
  {
    var all := Inside(segs, list);
    if list != [] {
      var init, a := list[..|list| - 1], list[|list| - 1];
      LastInside(segs, init, q, was);
      assert all[..|all| - 1] == Inside(segs, init);
      assert a in list && (segs + a.0)[|segs|..] == a.0;
      if segs <= q {
        assert segs + q[|segs|..] == q;
      }
    }
  }

  lemma {:induction false} ValueApplied(ns: seq<Node>, e: Entry, q: seq<string>)
    requires IsEntry(e) && q != []
    ensures ValueAt(Applied(ns, e), q) == Last(Assignments(e), q, ValueAt(ns, q))
    decreases e, 0
  {
    hide ValueAt, Find, Put, Made, Last, Inside;
    var made := Made(ns, e.segs);
    MadeFinds(ns, e.segs);
    ValueMade(ns, e.segs, q);
    var n := Find(made, e.segs).value;
    FindIsValue(made, e.segs);
    if e.segs <= q && q != e.segs {
      ValueFind(made, e.segs, q);
    }
    match e
    case Assign(segs, v) =>
      ValuePut(made, segs, n.(v := Some(v)), q);
      LastOne(segs, v, q, ValueAt(ns, q));
    case Section(segs, body) =>
      ValuePut(made, segs, n.(child := AppliedAll(n.child, body, |body|)), q);
      LastInside(segs, AssignmentsOf(body, |body|), q, ValueAt(ns, q));
      if segs <= q && q != segs {
        ValueAppliedAll(n.child, body, |body|, q[|segs|..]);
      }
  }

  lemma LastOne(segs: seq<string>, v: seq<Value>, q: seq<string>, was: Option<seq<Value>>)
    ensures Last([(segs, v)], q, was) == if q == segs then Some(v) else was
  {
    assert Last([], q, was) == was;
  }

  lemma {:induction false} ValueAppliedAll(ns: seq<Node>, es: seq<Entry>, n: nat, q: seq<string>)
    requires n <= |es| && AreEntries(es) && q != []
    ensures ValueAt(AppliedAll(ns, es, n), q) == Last(AssignmentsOf(es, n), q, ValueAt(ns, q))
    decreases es, n
  {
    hide ValueAt, Applied, Assignments, Last;
    if n == 0 {
      NoneLast(q, ValueAt(ns, q));
    } else {
      ValueAppliedAll(ns, es, n - 1, q);
      ValueApplied(AppliedAll(ns, es, n - 1), es[n - 1], q);
      LastJoin(AssignmentsOf(es, n - 1), Assignments(es[n - 1]), q, ValueAt(ns, q));
    }
  }

  lemma NoneLast(q: seq<string>, was: Option<seq<Value>>)
    ensures Last([], q, was) == was
  {
  }

  lemma {:induction false} ValueReversed(ns: seq<Node>, q: seq<string>)
    requires Unique(ns) && q != []
    ensures ValueAt(Reversed(ns), q) == ValueAt(ns, q)
    decreases |q|
  {
    hide ValueAt, Reversed;
    ValueHead(ns, q);
    ValueHead(Reversed(ns), q);
    ReversedIndex(ns, q[0]);
    var k := Index(ns, q[0]);
    if k < |ns| && |q| > 1 {
      assert ns[k] in ns;
      ValueReversed(ns[k].child, q[1..]);
    }
  }

  /** In any text that is accepted, every path has the last value that the text gives it,
      although the parser warns that it ignores duplicates. */
  lemma ParsedValues(text: string, q: seq<string>)
    requires Parsed(text).Some? && q != []
    ensures ValueAt(Parsed(text).value, q) == Last(AssignmentsOf(Entries(text).value, |Entries(text).value|), q, None)
  {
    hide Entries, ValueAt, Reversed, Unique, Last;
    var es := Entries(text).value;
    UniqueNothing();
    UniqueAppliedAll([], es, |es|);
    ValueReversed(AppliedAll([], es, |es|), q);
    ValueAppliedAll([], es, |es|, q);
    NoValue(q);
  }
}
