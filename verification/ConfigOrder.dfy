/** The order of siblings in a parsed configuration (libdm-config.c): at every level
    they stand in the order in which the file first mentions them. */
module ConfigOrder {
  import opened ConfigTree
  import opened Wrappers

  /** The keys of the children that stand at a path. */
  function KeysAt(ns: seq<Node>, q: seq<string>): seq<string> {
    if q == [] then Keys(ns)
    else var n := Find(ns, q); if n.None? then [] else Keys(n.value.child)
  }

  predicate Above(q: seq<string>, segs: seq<string>) {
    q <= segs && q != segs
  }

  /** A key is put in front unless it is there. */
  function Noted(ks: seq<string>, k: string): seq<string> {
    if k in ks then ks else [k] + ks
  }

  function NotedAll(ks: seq<string>, names: seq<string>): seq<string>
    decreases |names|
  {
    if names == [] then ks else Noted(NotedAll(ks, names[..|names| - 1]), names[|names| - 1])
  }

  /** The paths that an entry mentions, in the order of the text. */
  function Mentions(e: Entry): seq<seq<string>>
    decreases e, 0
  {
    match e
    case Assign(segs, _) => [segs]
    case Section(segs, body) => [segs] + Below(segs, MentionsOf(body, |body|))
  }

  function MentionsOf(es: seq<Entry>, n: nat): seq<seq<string>>
    requires n <= |es|
    decreases es, n
  {
    if n == 0 then [] else MentionsOf(es, n - 1) + Mentions(es[n - 1])
  }

  function Below(segs: seq<string>, paths: seq<seq<string>>): seq<seq<string>> {
    if paths == [] then [] else [segs + paths[0]] + Below(segs, paths[1..])
  }

  /** The keys that the paths mention directly below q, with repetitions. */
  function Under(paths: seq<seq<string>>, q: seq<string>): seq<string> {
    if paths == [] then []
    else (if Above(q, paths[0]) then [paths[0][|q|]] else []) + Under(paths[1..], q)
  }

  // ---- making a path ----

  lemma KeysAtHead(ns: seq<Node>, q: seq<string>)
    requires q != []
    ensures Index(ns, q[0]) == |ns| ==> KeysAt(ns, q) == []
    ensures Index(ns, q[0]) < |ns| ==> KeysAt(ns, q) == KeysAt(ns[Index(ns, q[0])].child, q[1..])
  {
  }

  lemma NotedKeys(ns: seq<Node>, key: string)
    ensures Keys(WithKey(ns, key)) == Noted(Keys(ns), key)
  {
    var k := Index(ns, key);
    if k < |ns| {
      assert Keys(ns)[k] == key;
    } else {
      assert forall i :: 0 <= i < |ns| ==> Keys(ns)[i] == ns[i].key;
      assert Keys([Node(key, None, [])] + ns) == [key] + Keys(ns);
    }
  }

  /** What making the path segs does to the keys at q. */
  function Mentioned(ks: seq<string>, segs: seq<string>, q: seq<string>): seq<string> {
    if Above(q, segs) then Noted(ks, segs[|q|]) else ks
  }

  /** A made path mentions itself at every level and changes nothing else. */
  lemma {:induction false} KeysAtMade(ns: seq<Node>, segs: seq<string>, q: seq<string>)
    requires segs != []
    ensures KeysAt(Made(ns, segs), q) == Mentioned(KeysAt(ns, q), segs, q)
    decreases |segs|
  {
    hide KeysAt, Find, Index;
    var r := WithKey(ns, segs[0]);
    var made := Made(ns, segs);
    assert Keys(made) == Keys(r);
    if q == [] {
      NotedKeys(ns, segs[0]);
      AtTop(ns);
      AtTop(made);
    } else {
      SameIndex(r, made, q[0]);
      KeysAtHead(ns, q);
      KeysAtHead(made, q);
      if q[0] != segs[0] {
        IndexWithKey(ns, segs[0], q[0]);
      } else {
        KeysAtHead(r, q);
        KeysAtNewKey(ns, segs[0], q);
        AboveTail(q, segs);
        if |segs| > 1 {
          KeysAtMade(r[Index(r, segs[0])].child, segs[1..], q[1..]);
        }
      }
    }
  }

  lemma AtTop(ns: seq<Node>)
    ensures KeysAt(ns, []) == Keys(ns)
  {
  }

  lemma AboveTail(q: seq<string>, segs: seq<string>)
    requires q != [] && segs != [] && q[0] == segs[0]
    ensures Above(q, segs) <==> Above(q[1..], segs[1..])
  {
    assert q == [q[0]] + q[1..] && segs == [segs[0]] + segs[1..];
  }

  lemma KeysAtNewKey(ns: seq<Node>, key: string, q: seq<string>)
    requires q != [] && q[0] == key
    ensures KeysAt(WithKey(ns, key), q) == KeysAt(ns, q)
  {
    KeysAtHead(ns, q);
    KeysAtHead(WithKey(ns, key), q);
    if Index(ns, key) == |ns| && |q| > 1 {
      KeysAtHead([], q[1..]);
    }
  }

  // ---- going below a path ----

  lemma {:induction false} KeysAtFind(ns: seq<Node>, segs: seq<string>, q: seq<string>)
    requires segs != [] && segs <= q && Find(ns, segs).Some?
    ensures KeysAt(ns, q) == KeysAt(Find(ns, segs).value.child, q[|segs|..])
    decreases |segs|
  {
    hide KeysAt;
    KeysAtHead(ns, q);
    if |segs| > 1 {
      KeysAtFind(ns[Index(ns, segs[0])].child, segs[1..], q[1..]);
      assert q[1..][|segs[1..]|..] == q[|segs|..];
    }
  }

  lemma {:induction false} KeysAtPut(ns: seq<Node>, segs: seq<string>, n: Node, q: seq<string>)
    requires segs != [] && Find(ns, segs).Some? && n.key == segs[|segs| - 1]
    ensures KeysAt(Put(ns, segs, n), q) == if segs <= q then KeysAt(n.child, q[|segs|..]) else KeysAt(ns, q)
    decreases |segs|
  {
    hide KeysAt;
    var k := Index(ns, segs[0]);
    var put := Put(ns, segs, n);
    assert Keys(put) == Keys(ns);
    if q == [] {
      AtTop(ns);
      AtTop(put);
    } else {
      SameIndex(ns, put, q[0]);
      KeysAtHead(ns, q);
      KeysAtHead(put, q);
      if q[0] == segs[0] && |segs| > 1 {
        KeysAtPut(ns[k].child, segs[1..], n, q[1..]);
        PrefixHead(segs, q);
        if segs <= q {
          assert q[1..][|segs[1..]|..] == q[|segs|..];
        }
      }
    }
  }

  // ---- whole files ----

  lemma {:induction false} UnderJoin(a: seq<seq<string>>, b: seq<seq<string>>, q: seq<string>)
    ensures Under(a + b, q) == Under(a, q) + Under(b, q)
  {
    if a == [] {
      assert a + b == b;
    } else {
      UnderJoin(a[1..], b, q);
      assert (a + b)[1..] == a[1..] + b;
    }
  }

  lemma {:induction false} NotedJoin(ks: seq<string>, a: seq<string>, b: seq<string>)
    ensures NotedAll(ks, a + b) == NotedAll(NotedAll(ks, a), b)
    decreases |b|
  {
    if b == [] {
      assert a + b == a;
    } else {
      var n := |b| - 1;
      NotedJoin(ks, a, b[..n]);
      NotedLast(ks, a + b, a + b[..n]);
    }
  }

  lemma NotedLast(ks: seq<string>, names: seq<string>, init: seq<string>)
    requires names != [] && init == names[..|names| - 1]
    ensures NotedAll(ks, names) == Noted(NotedAll(ks, init), names[|names| - 1])
  {
  }

  lemma MentionedIsNoted(ks: seq<string>, segs: seq<string>, q: seq<string>)
    ensures Mentioned(ks, segs, q) == NotedAll(ks, Under([segs], q))
  {
    assert Under([segs], q) == if Above(q, segs) then [segs[|q|]] else [];
  }

  /** Paths below segs, seen from a place inside segs ... */
  lemma {:induction false} UnderInside(segs: seq<string>, paths: seq<seq<string>>, q: seq<string>)
    requires segs <= q
    ensures Under(Below(segs, paths), q) == Under(paths, q[|segs|..])
  {
    if paths != [] {
      UnderInside(segs, paths[1..], q);
      var r := q[|segs|..];
      assert q == segs + r;
      assert Above(q, segs + paths[0]) <==> Above(r, paths[0]) by {
        assert (segs + paths[0])[|segs|..] == paths[0];
      }
    }
  }

  /** ... and from elsewhere: they mention what segs mentions, or nothing. */
  lemma {:induction false} NotedOutside(ks: seq<string>, segs: seq<string>, paths: seq<seq<string>>, q: seq<string>)
    requires !(segs <= q) && (Above(q, segs) ==> segs[|q|] in ks)
    ensures NotedAll(ks, Under(Below(segs, paths), q)) == ks
    decreases |paths|
  {
    if paths != [] {
      NotedOutside(ks, segs, paths[1..], q);
      var path := segs + paths[0];
      if Above(q, path) {
        assert q == path[..|q|] == segs[..|q|];
        assert Under(Below(segs, paths), q) == [segs[|q|]] + Under(Below(segs, paths[1..]), q);
        NotedJoin(ks, [segs[|q|]], Under(Below(segs, paths[1..]), q));
        NotedOne(ks, segs[|q|]);
      } else {
        assert Under(Below(segs, paths), q) == Under(Below(segs, paths[1..]), q);
      }
    }
  }

  lemma {:induction false} KeysAtApplied(ns: seq<Node>, e: Entry, q: seq<string>)
    requires IsEntry(e)
    ensures KeysAt(Applied(ns, e), q) == NotedAll(KeysAt(ns, q), Under(Mentions(e), q))
    decreases e, 0
  {
    hide KeysAt, Find, Put, Made, NotedAll, Under, Noted;
    var made := Made(ns, e.segs);
    MadeFinds(ns, e.segs);
    KeysAtMade(ns, e.segs, q);
    MentionedIsNoted(KeysAt(ns, q), e.segs, q);
    var n := Find(made, e.segs).value;
    match e
    case Assign(_, v) =>
      KeysAtPut(made, e.segs, n.(v := Some(v)), q);
      if e.segs <= q {
        KeysAtFind(made, e.segs, q);
      }
    case Section(segs, body) =>
      KeysAtPut(made, segs, n.(child := AppliedAll(n.child, body, |body|)), q);
      var inner := MentionsOf(body, |body|);
      UnderJoin([segs], Below(segs, inner), q);
      NotedJoin(KeysAt(ns, q), Under([segs], q), Under(Below(segs, inner), q));
      if segs <= q {
        KeysAtFind(made, segs, q);
        KeysAtAppliedAll(n.child, body, |body|, q[|segs|..]);
        UnderInside(segs, inner, q);
      } else {
        MadeIsMentioned(KeysAt(ns, q), segs, q);
        NotedOutside(KeysAt(made, q), segs, inner, q);
      }
  }

  lemma MadeIsMentioned(ks: seq<string>, segs: seq<string>, q: seq<string>)
    ensures Above(q, segs) ==> segs[|q|] in Mentioned(ks, segs, q)
  {
  }

  lemma {:induction false} KeysAtAppliedAll(ns: seq<Node>, es: seq<Entry>, n: nat, q: seq<string>)
    requires n <= |es| && AreEntries(es)
    ensures KeysAt(AppliedAll(ns, es, n), q) == NotedAll(KeysAt(ns, q), Under(MentionsOf(es, n), q))
    decreases es, n
  {
    hide KeysAt, Applied, Mentions;
    if n > 0 {
      KeysAtAppliedAll(ns, es, n - 1, q);
      KeysAtApplied(AppliedAll(ns, es, n - 1), es[n - 1], q);
      UnderJoin(MentionsOf(es, n - 1), Mentions(es[n - 1]), q);
      NotedJoin(KeysAt(ns, q), Under(MentionsOf(es, n - 1), q), Under(Mentions(es[n - 1]), q));
    }
  }

  // ---- the reversal ----

  /** What _config_reverse leaves: every list of siblings the other way round. */
  function Reversed(ns: seq<Node>): (r: seq<Node>)
    ensures |r| == |ns|
    decreases ns
  {
    if ns == [] then [] else Reversed(ns[1..]) + [ns[0].(child := Reversed(ns[0].child))]
  }

  /** _config_reverse: takes the siblings one by one and puts each in front. */
  method ConfigReverse(head: seq<Node>) returns (middle: seq<Node>)
    ensures middle == Reversed(head)
    decreases head
  {
    middle := [];
    var left := head;
    while left != []
      invariant Reversed(head) == Reversed(left) + middle
      invariant |left| <= |head| && left == head[|head| - |left|..]
      decreases |left|
    {
      var n := left[0];
      left := left[1..];
      assert n in head;
      var child := ConfigReverse(n.child);
      middle := [n.(child := child)] + middle;
    }
  }

  lemma {:induction false} ReversedAt(ns: seq<Node>, i: nat)
    requires i < |ns|
    ensures Reversed(ns)[i] == ns[|ns| - 1 - i].(child := Reversed(ns[|ns| - 1 - i].child))
    decreases |ns|
  {
    if i < |ns| - 1 {
      ReversedAt(ns[1..], i);
    }
  }

  function Backwards(ks: seq<string>): (r: seq<string>)
    ensures |r| == |ks| && forall i :: 0 <= i < |r| ==> r[i] == ks[|ks| - 1 - i]
  {
    seq(|ks|, i requires 0 <= i < |ks| => ks[|ks| - 1 - i])
  }

  lemma ReversedKeys(ns: seq<Node>)
    ensures Keys(Reversed(ns)) == Backwards(Keys(ns))
  {
    forall i | 0 <= i < |ns|
      ensures Keys(Reversed(ns))[i] == Backwards(Keys(ns))[i]
    {
      ReversedAt(ns, i);
    }
  }

  lemma ReversedIndex(ns: seq<Node>, key: string)
    requires Unique(ns)
    ensures var k := Index(ns, key); var r := Reversed(ns);
      if k == |ns| then Index(r, key) == |r|
      else Index(r, key) < |r| && r[Index(r, key)] == ns[k].(child := Reversed(ns[k].child))
  {
    hide Reversed, Index;
    var k, r := Index(ns, key), Reversed(ns);
    ReversedKeys(ns);
    if k < |ns| {
      ReversedAt(ns, |ns| - 1 - k);
      DistinctIndex(r, key, |ns| - 1 - k);
    } else {
      var j := Index(r, key);
      if j < |r| {
        ReversedAt(ns, j);
      }
    }
  }

  lemma DistinctIndex(ns: seq<Node>, key: string, k: nat)
    requires Distinct(Keys(ns)) && k < |ns| && ns[k].key == key
    ensures Index(ns, key) == k
  {
    var j := Index(ns, key);
    assert Keys(ns)[j] == key && Keys(ns)[k] == key;
  }

  lemma {:induction false} KeysAtReversed(ns: seq<Node>, q: seq<string>)
    requires Unique(ns)
    ensures KeysAt(Reversed(ns), q) == Backwards(KeysAt(ns, q))
    decreases |q|
  {
    hide KeysAt, Reversed;
    if q == [] {
      AtTop(ns);
      AtTop(Reversed(ns));
      ReversedKeys(ns);
    } else {
      KeysAtHead(ns, q);
      KeysAtHead(Reversed(ns), q);
      ReversedIndex(ns, q[0]);
      var k := Index(ns, q[0]);
      if k < |ns| {
        assert ns[k] in ns;
        KeysAtReversed(ns[k].child, q[1..]);
      }
    }
  }

  /** Each name once, where it first appears. */
  function FirstAppearances(names: seq<string>): seq<string> {
    if names == [] then []
    else
      var before := FirstAppearances(names[..|names| - 1]);
      if names[|names| - 1] in before then before else before + [names[|names| - 1]]
  }

  lemma {:induction false} NotedBackwards(names: seq<string>)
    ensures Backwards(NotedAll([], names)) == FirstAppearances(names)
    decreases |names|
  {
    if names != [] {
      hide NotedAll, Noted, Backwards;
      var n := |names| - 1;
      var ks := NotedAll([], names[..n]);
      NotedBackwards(names[..n]);
      assert names == names[..n] + [names[n]];
      NotedJoin([], names[..n], [names[n]]);
      BackwardsNoted(ks, names[n]);
      NotedOne(ks, names[n]);
    }
  }

  lemma NotedOne(ks: seq<string>, k: string)
    ensures NotedAll(ks, [k]) == Noted(ks, k)
  {
  }

  lemma BackwardsNoted(ks: seq<string>, k: string)
    ensures Backwards(Noted(ks, k)) == if k in Backwards(ks) then Backwards(ks) else Backwards(ks) + [k]
  {
    assert forall i :: 0 <= i < |ks| ==> Backwards(ks)[|ks| - 1 - i] == ks[i];
    if k !in ks {
      assert Backwards([k] + ks) == Backwards(ks) + [k];
    }
  }

  /** The tree of a file: at every place, the keys stand in the order in which the file
      first mentions them there, each once. */
  lemma OrderOfFirstAppearance(es: seq<Entry>, q: seq<string>)
    requires AreEntries(es)
    ensures KeysAt(Reversed(AppliedAll([], es, |es|)), q) == FirstAppearances(Under(MentionsOf(es, |es|), q))
    ensures Distinct(KeysAt(Reversed(AppliedAll([], es, |es|)), q))
  {
    var tree := AppliedAll([], es, |es|);
    UniqueAppliedAll([], es, |es|);
    KeysAtReversed(tree, q);
    KeysAtAppliedAll([], es, |es|, q);
    assert KeysAt([], q) == [];
    NotedBackwards(Under(MentionsOf(es, |es|), q));
    DistinctAppearances(Under(MentionsOf(es, |es|), q));
  }

  lemma {:induction false} UniqueReversed(ns: seq<Node>)
    requires Unique(ns)
    ensures Unique(Reversed(ns))
    decreases ns
  {
    ReversedKeys(ns);
    forall n | n in Reversed(ns)
      ensures Unique(n.child)
    {
      var i :| 0 <= i < |ns| && Reversed(ns)[i] == n;
      ReversedAt(ns, i);
      UniqueReversed(ns[|ns| - 1 - i].child);
    }
  }

  lemma {:induction false} DistinctAppearances(names: seq<string>)
    ensures Distinct(FirstAppearances(names))
  {
    if names != [] {
      DistinctAppearances(names[..|names| - 1]);
    }
  }
}
