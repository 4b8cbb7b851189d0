/** Row selection (libdm-report.c): the recursive-descent parser that gathers operands
    in an accumulator node, and the evaluation of the tree it builds. A comparison with
    a field is opaque; text that is no comparison is a token of its own. */
module Selection {
  import opened Wrappers

  datatype Kind = And | Or

  /** A comparison of the field with properties `fp`. */
  datatype Item = Item(fp: nat, criterion: nat)

  datatype Token = Not | Open | Close | Op(kind: Kind) | Comparison(item: Item) | Junk

  datatype Node =
    | Leaf(negated: bool, item: Item)
    | Set(negated: bool, kind: Kind, children: seq<Node>)

  type Parsed = Option<(Node, seq<Token>)>

  predicate At(ts: seq<Token>, t: Token) {
    |ts| > 0 && ts[0] == t
  }

  function Added(acc: Node, n: Node): Node
    requires acc.Set?
  {
    acc.(children := acc.children + [n])
  }

  // ---- the parser ----

  /** _parse_ex */
  function ParseEx(ts: seq<Token>): (r: Parsed)
    ensures r.Some? ==> |r.value.1| < |ts|
    decreases |ts|, 0
  {
    if At(ts, Not) then
      if !At(ts[1..], Open) then None
      else
        var inner := ParseOr(ts[2..], None);
        if inner.None? || !At(inner.value.1, Close) then None
        else Some((inner.value.0.(negated := true), inner.value.1[1..]))
    else if At(ts, Open) then
      var inner := ParseOr(ts[1..], None);
      if inner.None? || !At(inner.value.1, Close) then None
      else Some((inner.value.0, inner.value.1[1..]))
    else if ts != [] && ts[0].Comparison? then Some((Leaf(false, ts[0].item), ts[1..]))
    else None
  }

  /** _parse_and_ex */
  function ParseAnd(ts: seq<Token>, acc: Option<Node>): (r: Parsed)
    requires acc.Some? ==> acc.value.Set?
    ensures r.Some? ==> |r.value.1| < |ts|
    decreases |ts|, 1
  {
    var n := ParseEx(ts);
    if n.None? then None
    else if !At(n.value.1, Op(And)) then
      if acc.None? then n else Some((Added(acc.value, n.value.0), n.value.1))
    else
      ParseAnd(n.value.1[1..], Some(Added(if acc.Some? then acc.value else Set(false, And, []), n.value.0)))
  }

  /** _parse_or_ex */
  function ParseOr(ts: seq<Token>, acc: Option<Node>): (r: Parsed)
    requires acc.Some? ==> acc.value.Set?
    ensures r.Some? ==> |r.value.1| < |ts|
    decreases |ts|, 2
  {
    var n := ParseAnd(ts, None);
    if n.None? then None
    else if !At(n.value.1, Op(Or)) then
      if acc.None? then n else Some((Added(acc.value, n.value.0), n.value.1))
    else
      ParseOr(n.value.1[1..], Some(Added(if acc.Some? then acc.value else Set(false, Or, []), n.value.0)))
  }

  /** dm_report_init_with_selection: parse into a root node and expect the end. */
  function ParseSelection(ts: seq<Token>): Option<Node> {
    var root := ParseOr(ts, Some(Set(false, Or, [])));
    if root.None? || root.value.1 != [] then None else Some(root.value.0)
  }

  // ---- the language ----

  datatype Ex = Compare(item: Item) | Group(inner: Ors) | Negation(inner: Ors)
  datatype Ands = LastEx(ex: Ex) | ExAnd(ex: Ex, more: Ands)
  datatype Ors = LastAnds(ands: Ands) | AndsOr(ands: Ands, rest: Ors)

  function TextEx(e: Ex): seq<Token>
    decreases e
  {
    match e
    case Compare(item) => [Comparison(item)]
    case Group(inner) => [Open] + TextOrs(inner) + [Close]
    case Negation(inner) => [Not, Open] + TextOrs(inner) + [Close]
  }

  function TextAnds(a: Ands): seq<Token>
    decreases a
  {
    match a
    case LastEx(ex) => TextEx(ex)
    case ExAnd(ex, more) => TextEx(ex) + [Op(And)] + TextAnds(more)
  }

  function TextOrs(o: Ors): seq<Token>
    decreases o
  {
    match o
    case LastAnds(ands) => TextAnds(ands)
    case AndsOr(ands, rest) => TextAnds(ands) + [Op(Or)] + TextOrs(rest)
  }

  // ---- the trees the parser should build ----

  function TreeEx(e: Ex): Node
    decreases e, 0
  {
    match e
    case Compare(item) => Leaf(false, item)
    case Group(inner) => Joined(None, Or, NodesOr(inner))
    case Negation(inner) => Joined(None, Or, NodesOr(inner)).(negated := true)
  }

  function NodesAnd(a: Ands): (ns: seq<Node>)
    ensures |ns| > 0
    decreases a, 1
  {
    match a
    case LastEx(ex) => [TreeEx(ex)]
    case ExAnd(ex, more) => [TreeEx(ex)] + NodesAnd(more)
  }

  function NodesOr(o: Ors): (ns: seq<Node>)
    ensures |ns| > 0
    decreases o, 2
  {
    match o
    case LastAnds(ands) => [Joined(None, And, NodesAnd(ands))]
    case AndsOr(ands, rest) => [Joined(None, And, NodesAnd(ands))] + NodesOr(rest)
  }

  /** One operand alone is its own node; otherwise they are gathered under one. */
  function Joined(acc: Option<Node>, kind: Kind, ns: seq<Node>): Node
    requires |ns| > 0 && (acc.Some? ==> acc.value.Set?)
  {
    if acc.Some? then acc.value.(children := acc.value.children + ns)
    else if |ns| == 1 then ns[0]
    else Set(false, kind, ns)
  }

  lemma JoinedNext(acc: Option<Node>, kind: Kind, n: Node, ns: seq<Node>)
    requires |ns| > 0 && (acc.Some? ==> acc.value.Set?)
    ensures Joined(Some(Added(if acc.Some? then acc.value else Set(false, kind, []), n)), kind, ns)
      == Joined(acc, kind, [n] + ns)
  {
    if acc.Some? {
      assert acc.value.children + [n] + ns == acc.value.children + ([n] + ns);
    } else {
      assert [] + [n] + ns == [n] + ns;
    }
  }

  // ---- the parser accepts the language ... ----

  /** What may follow an operand of each level. */
  predicate EndsAnd(rest: seq<Token>) {
    !At(rest, Op(And))
  }

  predicate EndsOr(rest: seq<Token>) {
    !At(rest, Op(And)) && !At(rest, Op(Or))
  }

  lemma {:induction false} AcceptsEx(e: Ex, rest: seq<Token>)
    ensures ParseEx(TextEx(e) + rest) == Some((TreeEx(e), rest))
    decreases e, 0
  {
    var ts := TextEx(e) + rest;
    match e
    case Compare(item) =>
      assert ts[1..] == rest;
    case Group(inner) =>
      AcceptsOr(inner, [Close] + rest, None);
      assert ts[1..] == TextOrs(inner) + ([Close] + rest);
    case Negation(inner) =>
      AcceptsOr(inner, [Close] + rest, None);
      assert ts[2..] == TextOrs(inner) + ([Close] + rest);
  }

  lemma {:induction false} AcceptsAnd(a: Ands, rest: seq<Token>, acc: Option<Node>)
    requires EndsAnd(rest) && (acc.Some? ==> acc.value.Set?)
    ensures ParseAnd(TextAnds(a) + rest, acc) == Some((Joined(acc, And, NodesAnd(a)), rest))
    decreases a, 1
  {
    match a
    case LastEx(ex) =>
      AcceptsEx(ex, rest);
    case ExAnd(ex, more) =>
      var next := [Op(And)] + TextAnds(more) + rest;
      AcceptsEx(ex, next);
      assert TextAnds(a) + rest == TextEx(ex) + next;
      assert next[1..] == TextAnds(more) + rest;
      AcceptsAnd(more, rest, Some(Added(if acc.Some? then acc.value else Set(false, And, []), TreeEx(ex))));
      JoinedNext(acc, And, TreeEx(ex), NodesAnd(more));
  }

  lemma {:induction false} AcceptsOr(o: Ors, rest: seq<Token>, acc: Option<Node>)
    requires EndsOr(rest) && (acc.Some? ==> acc.value.Set?)
    ensures ParseOr(TextOrs(o) + rest, acc) == Some((Joined(acc, Or, NodesOr(o)), rest))
    decreases o, 2
  {
    match o
    case LastAnds(ands) =>
      AcceptsAnd(ands, rest, None);
    case AndsOr(ands, others) =>
      var next := [Op(Or)] + TextOrs(others) + rest;
      var n := Joined(None, And, NodesAnd(ands));
      AcceptsAnd(ands, next, None);
      assert TextOrs(o) + rest == TextAnds(ands) + next;
      assert next[1..] == TextOrs(others) + rest;
      AcceptsOr(others, rest, Some(Added(if acc.Some? then acc.value else Set(false, Or, []), n)));
      JoinedNext(acc, Or, n, NodesOr(others));
  }

  // ---- ... and nothing else ----

  lemma {:induction false} ReadsEx(ts: seq<Token>) returns (e: Ex)
    requires ParseEx(ts).Some?
    ensures ts == TextEx(e) + ParseEx(ts).value.1
    decreases |ts|, 0
  {
    if At(ts, Not) {
      var inner := ReadsOr(ts[2..], None);
      e := Negation(inner);
      var after := ParseOr(ts[2..], None).value.1;
      assert ts == [Not, Open] + ts[2..];
      assert after == [Close] + after[1..];
    } else if At(ts, Open) {
      var inner := ReadsOr(ts[1..], None);
      e := Group(inner);
      var after := ParseOr(ts[1..], None).value.1;
      assert ts == [Open] + ts[1..];
      assert after == [Close] + after[1..];
    } else {
      e := Compare(ts[0].item);
      assert ts == [ts[0]] + ts[1..];
    }
  }

  lemma {:induction false} ReadsAnd(ts: seq<Token>, acc: Option<Node>) returns (a: Ands)
    requires (acc.Some? ==> acc.value.Set?) && ParseAnd(ts, acc).Some?
    ensures ts == TextAnds(a) + ParseAnd(ts, acc).value.1 && EndsAnd(ParseAnd(ts, acc).value.1)
    decreases |ts|, 1
  {
    var ex := ReadsEx(ts);
    var (n, after) := ParseEx(ts).value;
    if !At(after, Op(And)) {
      a := LastEx(ex);
    } else {
      var more := ReadsAnd(after[1..], Some(Added(if acc.Some? then acc.value else Set(false, And, []), n)));
      a := ExAnd(ex, more);
      assert after == [Op(And)] + after[1..];
    }
  }

  lemma {:induction false} ReadsOr(ts: seq<Token>, acc: Option<Node>) returns (o: Ors)
    requires (acc.Some? ==> acc.value.Set?) && ParseOr(ts, acc).Some?
    ensures ts == TextOrs(o) + ParseOr(ts, acc).value.1 && EndsOr(ParseOr(ts, acc).value.1)
    decreases |ts|, 2
  {
    var ands := ReadsAnd(ts, None);
    var (n, after) := ParseAnd(ts, None).value;
    if !At(after, Op(Or)) {
      o := LastAnds(ands);
    } else {
      var rest := ReadsOr(after[1..], Some(Added(if acc.Some? then acc.value else Set(false, Or, []), n)));
      o := AndsOr(ands, rest);
      assert after == [Op(Or)] + after[1..];
    }
  }

  ghost predicate IsSelection(ts: seq<Token>) {
    exists o :: TextOrs(o) == ts
  }

  /** The parser takes exactly the texts of the language. */
  lemma ParsesTheLanguage(ts: seq<Token>)
    ensures ParseSelection(ts).Some? <==> IsSelection(ts)
  {
    var root := Some(Set(false, Or, []));
    if ParseSelection(ts).Some? {
      var o := ReadsOr(ts, root);
      assert TextOrs(o) + [] == TextOrs(o);
    }
    if IsSelection(ts) {
      var o :| TextOrs(o) == ts;
      assert TextOrs(o) + [] == TextOrs(o);
      AcceptsOr(o, [], root);
    }
  }

  // ---- evaluation ----

  /** Which comparisons hold for a row. */
  type Truth = Item -> bool

  /** _check_selection */
  predicate Eval(n: Node, truth: Truth)
    decreases n
  {
    match n
    case Leaf(negated, item) => truth(item) != negated
    case Set(negated, kind, children) =>
      (if kind == And then forall c <- children :: Eval(c, truth)
       else exists c <- children :: Eval(c, truth)) != negated
  }

  predicate ValueEx(e: Ex, truth: Truth)
    decreases e
  {
    match e
    case Compare(item) => truth(item)
    case Group(inner) => ValueOrs(inner, truth)
    case Negation(inner) => !ValueOrs(inner, truth)
  }

  predicate ValueAnds(a: Ands, truth: Truth)
    decreases a
  {
    match a
    case LastEx(ex) => ValueEx(ex, truth)
    case ExAnd(ex, more) => ValueEx(ex, truth) && ValueAnds(more, truth)
  }

  /** The standard value: AND binds tighter than OR. */
  predicate ValueOrs(o: Ors, truth: Truth)
    decreases o
  {
    match o
    case LastAnds(ands) => ValueAnds(ands, truth)
    case AndsOr(ands, rest) => ValueAnds(ands, truth) || ValueOrs(rest, truth)
  }

  /** Nothing but parentheses stands around a negation. */
  predicate IsNegation(o: Ors)
    decreases o
  {
    o.LastAnds? && o.ands.LastEx? && (o.ands.ex.Negation? || (o.ands.ex.Group? && IsNegation(o.ands.ex.inner)))
  }

  /** How many negations are nested directly, with nothing but parentheses between. */
  function Depth(o: Ors): nat
    decreases o
  {
    if o.AndsOr? || o.ands.ExAnd? || o.ands.ex.Compare? then 0
    else (if o.ands.ex.Negation? then 1 else 0) + Depth(o.ands.ex.inner)
  }

  /** Of a chain of negations the code keeps one: enough for none and for an odd number. */
  predicate Right(depth: nat) {
    depth == 0 || depth % 2 == 1
  }

  predicate PlainEx(e: Ex, inChain: bool)
    decreases e
  {
    match e
    case Compare(_) => true
    case Group(inner) => PlainOrs(inner, inChain)
    case Negation(inner) => (inChain || Right(1 + Depth(inner))) && PlainOrs(inner, true)
  }

  predicate PlainAnds(a: Ands, inChain: bool)
    decreases a
  {
    match a
    case LastEx(ex) => PlainEx(ex, inChain)
    case ExAnd(ex, more) => PlainEx(ex, false) && PlainAnds(more, false)
  }

  /** Every chain of directly nested negations has length zero or odd; inside a chain
      that began further out, this one is not looked at. */
  predicate PlainOrs(o: Ors, inChain: bool)
    decreases o
  {
    match o
    case LastAnds(ands) => PlainAnds(ands, inChain)
    case AndsOr(ands, rest) => PlainAnds(ands, false) && PlainOrs(rest, false)
  }

  // ---- what the tree means ----

  function CollapsedEx(e: Ex): Ex
    decreases e
  {
    match e
    case Compare(_) => e
    case Group(inner) => Group(CollapsedOrs(inner))
    case Negation(inner) => if IsNegation(inner) then Group(CollapsedOrs(inner)) else Negation(CollapsedOrs(inner))
  }

  function CollapsedAnds(a: Ands): Ands
    decreases a
  {
    match a
    case LastEx(ex) => LastEx(CollapsedEx(ex))
    case ExAnd(ex, more) => ExAnd(CollapsedEx(ex), CollapsedAnds(more))
  }

  /** A negation directly on a negation has no effect. */
  function CollapsedOrs(o: Ors): Ors
    decreases o
  {
    match o
    case LastAnds(ands) => LastAnds(CollapsedAnds(ands))
    case AndsOr(ands, rest) => AndsOr(CollapsedAnds(ands), CollapsedOrs(rest))
  }

  lemma {:induction false} DepthOfNegation(o: Ors)
    ensures IsNegation(o) <==> Depth(o) > 0
    decreases o
  {
    if o.LastAnds? && o.ands.LastEx? && o.ands.ex.Group? {
      DepthOfNegation(o.ands.ex.inner);
    }
  }

  /** A text is plain when it is plain below its own chain and that chain is right. */
  lemma {:induction false} PlainOutside(o: Ors)
    ensures PlainOrs(o, false) <==> PlainOrs(o, true) && Right(Depth(o))
    decreases o
  {
    if o.LastAnds? && o.ands.LastEx? {
      assert PlainAnds(o.ands, true) == PlainEx(o.ands.ex, true)
        && PlainAnds(o.ands, false) == PlainEx(o.ands.ex, false);
      if o.ands.ex.Group? {
        PlainOutside(o.ands.ex.inner);
      }
    }
  }

  lemma {:induction false} CollapsedValueEx(e: Ex, truth: Truth)
    requires PlainEx(e, true)
    ensures var d := (if e.Compare? then 0 else (if e.Negation? then 1 else 0) + Depth(e.inner));
      ValueEx(CollapsedEx(e), truth) == ValueEx(e, truth) <==> Right(d)
    decreases e, 0
  {
    if !e.Compare? {
      CollapsedValue(e.inner, truth);
      DepthOfNegation(e.inner);
    }
  }

  lemma {:induction false} CollapsedValueAnds(a: Ands, truth: Truth)
    requires PlainAnds(a, false)
    ensures ValueAnds(CollapsedAnds(a), truth) == ValueAnds(a, truth)
    decreases a, 1
  {
    PlainOutside(LastAnds(LastEx(a.ex)));
    assert PlainAnds(LastEx(a.ex), false) && PlainAnds(LastEx(a.ex), true) == PlainEx(a.ex, true);
    CollapsedValueEx(a.ex, truth);
    if a.ExAnd? {
      CollapsedValueAnds(a.more, truth);
    }
  }

  /** Dropping negations keeps the value exactly when the outermost chain is right. */
  lemma {:induction false} CollapsedValue(o: Ors, truth: Truth)
    requires PlainOrs(o, true)
    ensures ValueOrs(CollapsedOrs(o), truth) == ValueOrs(o, truth) <==> Right(Depth(o))
    decreases o, 2
  {
    if o.LastAnds? && o.ands.LastEx? {
      CollapsedValueEx(o.ands.ex, truth);
      assert CollapsedAnds(o.ands) == LastEx(CollapsedEx(o.ands.ex));
      assert ValueAnds(CollapsedAnds(o.ands), truth) == ValueEx(CollapsedEx(o.ands.ex), truth);
    } else {
      CollapsedValueAnds(o.ands, truth);
      if o.AndsOr? {
        PlainOutside(o.rest);
        CollapsedValue(o.rest, truth);
      }
    }
  }

  function TreeOrs(o: Ors): Node {
    Joined(None, Or, NodesOr(o))
  }

  /** The flag on a tree is set exactly for a negation in parentheses. */
  lemma {:induction false} FlagMeansNegation(o: Ors)
    ensures TreeOrs(o).negated <==> IsNegation(o)
    decreases o
  {
    if o.LastAnds? && o.ands.LastEx? {
      assert NodesOr(o) == [Joined(None, And, [TreeEx(o.ands.ex)])];
      if o.ands.ex.Group? {
        FlagMeansNegation(o.ands.ex.inner);
      }
    } else if o.LastAnds? {
      assert |NodesAnd(o.ands)| == 1 + |NodesAnd(o.ands.more)|;
    } else {
      assert |NodesOr(o)| == 1 + |NodesOr(o.rest)|;
    }
  }

  lemma EvalJoined(kind: Kind, ns: seq<Node>, truth: Truth)
    requires |ns| > 0
    ensures kind == And ==> (Eval(Joined(None, kind, ns), truth) <==> forall c <- ns :: Eval(c, truth))
    ensures kind == Or ==> (Eval(Joined(None, kind, ns), truth) <==> exists c <- ns :: Eval(c, truth))
  {
    if |ns| == 1 {
      assert ns == [ns[0]];
    }
  }

  lemma {:induction false} EvalEx(e: Ex, truth: Truth)
    ensures Eval(TreeEx(e), truth) <==> ValueEx(CollapsedEx(e), truth)
    decreases e, 0
  {
    if !e.Compare? {
      FlagMeansNegation(e.inner);
      EvalOrs(e.inner, truth);
      if e.Negation? {
        Flagged(TreeOrs(e.inner), truth);
      }
    }
  }

  /** Setting the flag negates a node, unless it is set already. */
  lemma Flagged(n: Node, truth: Truth)
    ensures Eval(n.(negated := true), truth) <==> (if n.negated then Eval(n, truth) else !Eval(n, truth))
  {
  }

  lemma {:induction false} EvalAnds(a: Ands, truth: Truth)
    ensures (forall c <- NodesAnd(a) :: Eval(c, truth)) <==> ValueAnds(CollapsedAnds(a), truth)
    decreases a, 1
  {
    EvalEx(a.ex, truth);
    if a.ExAnd? {
      EvalAnds(a.more, truth);
    }
  }

  lemma {:induction false} EvalOrs(o: Ors, truth: Truth)
    ensures Eval(TreeOrs(o), truth) <==> ValueOrs(CollapsedOrs(o), truth)
    ensures (exists c <- NodesOr(o) :: Eval(c, truth)) <==> ValueOrs(CollapsedOrs(o), truth)
    decreases o, 2
  {
    EvalAnds(o.ands, truth);
    EvalJoined(And, NodesAnd(o.ands), truth);
    if o.AndsOr? {
      EvalOrs(o.rest, truth);
    }
    EvalJoined(Or, NodesOr(o), truth);
  }

  /** Every text of the language is parsed to a tree with the standard value of the
      text, once negations directly on negations are dropped. */
  lemma SelectionMeaning(o: Ors, truth: Truth)
    ensures ParseSelection(TextOrs(o)).Some?
    ensures Eval(ParseSelection(TextOrs(o)).value, truth) <==> ValueOrs(CollapsedOrs(o), truth)
  {
    AcceptsOr(o, [], Some(Set(false, Or, [])));
    assert TextOrs(o) + [] == TextOrs(o) && [] + NodesOr(o) == NodesOr(o);
    EvalOrs(o, truth);
  }

  /** It is the standard value when every chain of negations has length zero or odd. */
  lemma PlainMeaning(o: Ors, truth: Truth)
    requires PlainOrs(o, false)
    ensures ParseSelection(TextOrs(o)).Some?
    ensures Eval(ParseSelection(TextOrs(o)).value, truth) <==> ValueOrs(o, truth)
  {
    SelectionMeaning(o, truth);
    PlainOutside(o);
    CollapsedValue(o, truth);
  }

  /** For a chain over such a text its length decides, for every row. */
  lemma ParityDecides(o: Ors, truth: Truth)
    requires PlainOrs(o, true)
    ensures ParseSelection(TextOrs(o)).Some?
    ensures Eval(ParseSelection(TextOrs(o)).value, truth) == ValueOrs(o, truth) <==> Depth(o) == 0 || Depth(o) % 2 == 1
  {
    SelectionMeaning(o, truth);
    CollapsedValue(o, truth);
  }

  /** `!( ... )` around a text, k times. */
  function Chain(inner: Ors, k: nat): Ors {
    if k == 0 then inner else LastAnds(LastEx(Negation(Chain(inner, k - 1))))
  }

  lemma {:induction false} ChainDepth(inner: Ors, k: nat)
    requires PlainOrs(inner, false) && Depth(inner) == 0
    ensures PlainOrs(Chain(inner, k), true) && Depth(Chain(inner, k)) == k
  {
    if k == 0 {
      PlainOutside(inner);
    } else {
      ChainDepth(inner, k - 1);
      var e := Negation(Chain(inner, k - 1));
      assert PlainEx(e, true) && PlainAnds(LastEx(e), true);
    }
  }

  lemma ChainMeaning(inner: Ors, k: nat, truth: Truth)
    requires PlainOrs(inner, false) && Depth(inner) == 0
    ensures ParseSelection(TextOrs(Chain(inner, k))).Some?
    ensures Eval(ParseSelection(TextOrs(Chain(inner, k))).value, truth) == ValueOrs(Chain(inner, k), truth)
      <==> k == 0 || k % 2 == 1
  {
    ChainDepth(inner, k);
    ParityDecides(Chain(inner, k), truth);
  }

  /** `!(!(a))` is wrong for every row, `!(!(!(a)))` right. */
  lemma DoubleNegationIsWrong(item: Item, truth: Truth)
    ensures
      var a := LastAnds(LastEx(Compare(item)));
      var two := TextOrs(Chain(a, 2));
      var three := TextOrs(Chain(a, 3));
      && ParseSelection(two).Some? && Eval(ParseSelection(two).value, truth) != truth(item)
      && ParseSelection(three).Some? && Eval(ParseSelection(three).value, truth) != truth(item)
  {
    var a := LastAnds(LastEx(Compare(item)));
    assert PlainAnds(LastEx(Compare(item)), false);
    ChainMeaning(a, 2, truth);
    ChainMeaning(a, 3, truth);
    ChainValue(a, 2, truth);
    ChainValue(a, 3, truth);
    assert ValueAnds(LastEx(Compare(item)), truth) == truth(item);
  }

  lemma {:induction false} ChainValue(inner: Ors, k: nat, truth: Truth)
    ensures ValueOrs(Chain(inner, k), truth) == (if k % 2 == 0 then ValueOrs(inner, truth) else !ValueOrs(inner, truth))
  {
    if k > 0 {
      ChainValue(inner, k - 1, truth);
      var e := Negation(Chain(inner, k - 1));
      assert ValueAnds(LastEx(e), truth) == ValueEx(e, truth);
    }
  }

  // ---- evaluation over a row ----

  datatype Field = Field(props: nat, value: nat)

  /** How a comparison decides one field. */
  type Comparer = (Item, Field) -> bool

  /** An item holds for a row when every field with its properties passes. */
  function RowTruth(fields: seq<Field>, cmp: Comparer): Truth {
    (item: Item) => forall f <- fields :: f.props == item.fp ==> cmp(item, f)
  }

  /** _check_selection, with its loops and their early exits. */
  method CheckSelection(n: Node, fields: seq<Field>, cmp: Comparer) returns (r: bool)
    ensures r == Eval(n, RowTruth(fields, cmp))
    decreases n
  {
    match n
    case Leaf(negated, item) =>
      r := true;
      for i := 0 to |fields|
        invariant r <==> forall f <- fields[..i] :: f.props == item.fp ==> cmp(item, f)
      {
        assert fields[..i + 1] == fields[..i] + [fields[i]];
        if fields[i].props == item.fp && !cmp(item, fields[i]) {
          r := false;
        }
      }
      assert fields[..|fields|] == fields;
      r := if negated then !r else r;
    case Set(negated, kind, children) =>
      r := CheckSet(kind, children, fields, cmp);
      r := if negated then !r else r;
  }

  method CheckSet(kind: Kind, children: seq<Node>, fields: seq<Field>, cmp: Comparer) returns (r: bool)
    ensures kind == And ==> (r <==> forall c <- children :: Eval(c, RowTruth(fields, cmp)))
    ensures kind == Or ==> (r <==> exists c <- children :: Eval(c, RowTruth(fields, cmp)))
    decreases children
  {
    r := kind == And;
    var i := 0;
    while i < |children| && r == (kind == And)
      invariant 0 <= i <= |children|
      invariant r == (kind == And) ==> forall c <- children[..i] :: Eval(c, RowTruth(fields, cmp)) == (kind == And)
      invariant r != (kind == And) ==> exists c <- children :: Eval(c, RowTruth(fields, cmp)) != (kind == And)
    {
      assert children[..i + 1] == children[..i] + [children[i]];
      r := CheckSelection(children[i], fields, cmp);
      i := i + 1;
    }
    assert i == |children| ==> children[..i] == children;
  }
}
