/** Exactly which selections are evaluated rightly (libdm-report.c): when no comparison
    occurs twice, those in which every chain of negations has length zero or odd. */
module SelectionExact {
  import opened Selection

  // ---- the comparisons of a text ----

  function ItemsEx(e: Ex): set<Item>
    decreases e
  {
    if e.Compare? then {e.item} else ItemsOrs(e.inner)
  }

  function ItemsAnds(a: Ands): set<Item>
    decreases a
  {
    ItemsEx(a.ex) + if a.ExAnd? then ItemsAnds(a.more) else {}
  }

  function ItemsOrs(o: Ors): set<Item>
    decreases o
  {
    ItemsAnds(o.ands) + if o.AndsOr? then ItemsOrs(o.rest) else {}
  }

  predicate OnceEx(e: Ex)
    decreases e
  {
    e.Compare? || OnceOrs(e.inner)
  }

  predicate OnceAnds(a: Ands)
    decreases a
  {
    OnceEx(a.ex) && (a.ExAnd? ==> OnceAnds(a.more) && ItemsEx(a.ex) !! ItemsAnds(a.more))
  }

  /** No comparison occurs twice. */
  predicate OnceOrs(o: Ors)
    decreases o
  {
    OnceAnds(o.ands) && (o.AndsOr? ==> OnceOrs(o.rest) && ItemsAnds(o.ands) !! ItemsOrs(o.rest))
  }

  // ---- the standard value and the value the code computes, side by side ----

  predicate ValEx(e: Ex, t: Truth, collapsed: bool)
    decreases e
  {
    match e
    case Compare(item) => t(item)
    case Group(inner) => ValOrs(inner, t, collapsed)
    case Negation(inner) => ValOrs(inner, t, collapsed) == (collapsed && IsNegation(inner))
  }

  predicate ValAnds(a: Ands, t: Truth, collapsed: bool)
    decreases a
  {
    ValEx(a.ex, t, collapsed) && (a.ExAnd? ==> ValAnds(a.more, t, collapsed))
  }

  predicate ValOrs(o: Ors, t: Truth, collapsed: bool)
    decreases o
  {
    ValAnds(o.ands, t, collapsed) || (o.AndsOr? && ValOrs(o.rest, t, collapsed))
  }

  lemma {:induction false} ValuesEx(e: Ex, t: Truth)
    ensures ValEx(e, t, false) == ValueEx(e, t) && ValEx(e, t, true) == ValueEx(CollapsedEx(e), t)
    decreases e
  {
    if !e.Compare? {
      Values(e.inner, t);
    }
  }

  lemma {:induction false} ValuesAnds(a: Ands, t: Truth)
    ensures ValAnds(a, t, false) == ValueAnds(a, t) && ValAnds(a, t, true) == ValueAnds(CollapsedAnds(a), t)
    decreases a
  {
    ValuesEx(a.ex, t);
    if a.ExAnd? {
      ValuesAnds(a.more, t);
    }
  }

  lemma {:induction false} Values(o: Ors, t: Truth)
    ensures ValOrs(o, t, false) == ValueOrs(o, t) && ValOrs(o, t, true) == ValueOrs(CollapsedOrs(o), t)
    decreases o
  {
    ValuesAnds(o.ands, t);
    if o.AndsOr? {
      Values(o.rest, t);
    }
  }

  // ---- only the comparisons of a text matter ----

  function Mix(s: set<Item>, t: Truth, u: Truth): Truth {
    (x: Item) => if x in s then t(x) else u(x)
  }

  ghost predicate Agree(s: set<Item>, t: Truth, u: Truth) {
    forall x <- s :: t(x) == u(x)
  }

  lemma {:induction false} SameEx(e: Ex, t: Truth, u: Truth, c: bool)
    requires Agree(ItemsEx(e), t, u)
    ensures ValEx(e, t, c) == ValEx(e, u, c)
    decreases e
  {
    if !e.Compare? {
      SameOrs(e.inner, t, u, c);
    }
  }

  lemma {:induction false} SameAnds(a: Ands, t: Truth, u: Truth, c: bool)
    requires Agree(ItemsAnds(a), t, u)
    ensures ValAnds(a, t, c) == ValAnds(a, u, c)
    decreases a
  {
    SameEx(a.ex, t, u, c);
    if a.ExAnd? {
      SameAnds(a.more, t, u, c);
    }
  }

  lemma {:induction false} SameOrs(o: Ors, t: Truth, u: Truth, c: bool)
    requires Agree(ItemsOrs(o), t, u)
    ensures ValOrs(o, t, c) == ValOrs(o, u, c)
    decreases o
  {
    SameAnds(o.ands, t, u, c);
    if o.AndsOr? {
      SameOrs(o.rest, t, u, c);
    }
  }

  /** The operands of an AND can be decided one by one, both values of each. */
  lemma MixAnds(a: Ands, t: Truth, u: Truth) returns (m: Truth)
    requires a.ExAnd? && OnceAnds(a)
    ensures forall c :: ValEx(a.ex, m, c) == ValEx(a.ex, t, c) && ValAnds(a.more, m, c) == ValAnds(a.more, u, c)
  {
    m := Mix(ItemsEx(a.ex), t, u);
    forall c
      ensures ValEx(a.ex, m, c) == ValEx(a.ex, t, c) && ValAnds(a.more, m, c) == ValAnds(a.more, u, c)
    {
      SameEx(a.ex, m, t, c);
      SameAnds(a.more, m, u, c);
    }
  }

  lemma MixOrs(o: Ors, t: Truth, u: Truth) returns (m: Truth)
    requires o.AndsOr? && OnceOrs(o)
    ensures forall c :: ValAnds(o.ands, m, c) == ValAnds(o.ands, t, c) && ValOrs(o.rest, m, c) == ValOrs(o.rest, u, c)
  {
    m := Mix(ItemsAnds(o.ands), t, u);
    forall c
      ensures ValAnds(o.ands, m, c) == ValAnds(o.ands, t, c) && ValOrs(o.rest, m, c) == ValOrs(o.rest, u, c)
    {
      SameAnds(o.ands, m, t, c);
      SameOrs(o.rest, m, u, c);
    }
  }

  // ---- each value can be had ----

  lemma {:induction false} AttainEx(e: Ex, c: bool, b: bool) returns (t: Truth)
    requires OnceEx(e)
    ensures ValEx(e, t, c) == b
    decreases e
  {
    match e
    case Compare(_) => t := _ => b;
    case Group(inner) => t := AttainOrs(inner, c, b);
    case Negation(inner) => t := AttainOrs(inner, c, b == (c && IsNegation(inner)));
  }

  lemma {:induction false} AttainAnds(a: Ands, c: bool, b: bool) returns (t: Truth)
    requires OnceAnds(a)
    ensures ValAnds(a, t, c) == b
    decreases a
  {
    t := AttainEx(a.ex, c, b);
    if a.ExAnd? {
      var u := AttainAnds(a.more, c, b);
      t := MixAnds(a, t, u);
    }
  }

  lemma {:induction false} AttainOrs(o: Ors, c: bool, b: bool) returns (t: Truth)
    requires OnceOrs(o)
    ensures ValOrs(o, t, c) == b
    decreases o
  {
    t := AttainAnds(o.ands, c, b);
    if o.AndsOr? {
      var u := AttainOrs(o.rest, c, b);
      t := MixOrs(o, t, u);
    }
  }

  /** A text that is no negation has rows on which both values are the same. */
  lemma {:induction false} Meet(o: Ors) returns (t: Truth)
    requires OnceOrs(o) && !IsNegation(o)
    ensures ValOrs(o, t, false) == ValOrs(o, t, true)
    decreases o
  {
    if o.AndsOr? {
      t := AttainAnds(o.ands, false, true);
      var u := AttainOrs(o.rest, true, true);
      t := MixOrs(o, t, u);
    } else if o.ands.ExAnd? {
      t := AttainEx(o.ands.ex, false, false);
      var u := AttainAnds(o.ands.more, true, false);
      t := MixAnds(o.ands, t, u);
    } else {
      assert OnceAnds(o.ands) && OnceEx(o.ands.ex);
      if o.ands.ex.Group? {
        t := Meet(o.ands.ex.inner);
      } else {
        t := _ => true;
      }
      assert forall c :: ValAnds(o.ands, t, c) == ValEx(o.ands.ex, t, c);
    }
  }

  // ---- a wrong chain shows ----

  lemma {:induction false} BothEx(e: Ex, same: bool) returns (t: Truth)
    requires OnceEx(e) && !PlainEx(e, true)
    ensures (ValEx(e, t, false) == ValEx(e, t, true)) == same
    decreases e, 0
  {
    if e.Negation? && IsNegation(e.inner) {
      t := BothOrs(e.inner, !same);
    } else {
      t := BothOrs(e.inner, same);
    }
  }

  lemma {:induction false} BothOrs(o: Ors, same: bool) returns (t: Truth)
    requires OnceOrs(o) && !PlainOrs(o, true)
    ensures (ValOrs(o, t, false) == ValOrs(o, t, true)) == same
    decreases o, 2
  {
    if o.LastAnds? && o.ands.LastEx? {
      t := BothEx(o.ands.ex, same);
    } else if same {
      t := Meet(o);
    } else {
      t := DifferOrs(o);
    }
  }

  lemma {:induction false} DifferEx(e: Ex) returns (t: Truth)
    requires OnceEx(e) && !PlainEx(e, false)
    ensures ValEx(e, t, false) != ValEx(e, t, true)
    decreases e, 1
  {
    if PlainEx(e, true) {
      t := _ => true;
      CollapsedValueEx(e, t);
      ValuesEx(e, t);
      if e.Group? {
        PlainOutside(e.inner);
      }
    } else {
      t := BothEx(e, false);
    }
  }

  lemma {:induction false} DifferAnds(a: Ands) returns (t: Truth)
    requires OnceAnds(a) && !PlainAnds(a, false)
    ensures ValAnds(a, t, false) != ValAnds(a, t, true)
    decreases a, 1
  {
    if a.LastEx? {
      t := DifferEx(a.ex);
    } else if !PlainEx(a.ex, false) {
      t := DifferEx(a.ex);
      var u := AttainAnds(a.more, ValEx(a.ex, t, true), true);
      t := MixAnds(a, t, u);
    } else {
      var u := DifferAnds(a.more);
      t := AttainEx(a.ex, ValAnds(a.more, u, true), true);
      t := MixAnds(a, t, u);
    }
  }

  lemma {:induction false} DifferOrs(o: Ors) returns (t: Truth)
    requires OnceOrs(o) && !PlainOrs(o, false)
    ensures ValOrs(o, t, false) != ValOrs(o, t, true)
    decreases o, 1
  {
    if o.LastAnds? {
      t := DifferAnds(o.ands);
    } else if !PlainAnds(o.ands, false) {
      t := DifferAnds(o.ands);
      var u := AttainOrs(o.rest, !ValAnds(o.ands, t, true), false);
      t := MixOrs(o, t, u);
    } else {
      var u := DifferOrs(o.rest);
      t := AttainAnds(o.ands, !ValOrs(o.rest, u, true), false);
      t := MixOrs(o, t, u);
    }
  }

  // ---- the exact condition ----

  /** The text is parsed, and evaluated to its standard value on every row. */
  ghost predicate EvaluatedRightly(o: Ors) {
    ParseSelection(TextOrs(o)).Some? && forall t: Truth :: Eval(ParseSelection(TextOrs(o)).value, t) == ValueOrs(o, t)
  }

  /** A text without repeated comparisons is evaluated rightly on every row if and only
      if every chain of directly nested negations in it has length zero or odd. */
  lemma RightIffPlain(o: Ors)
    requires OnceOrs(o)
    ensures EvaluatedRightly(o) <==> PlainOrs(o, false)
  {
    if PlainOrs(o, false) {
      forall t: Truth
        ensures ParseSelection(TextOrs(o)).Some? && Eval(ParseSelection(TextOrs(o)).value, t) == ValueOrs(o, t)
      {
        PlainMeaning(o, t);
      }
      PlainMeaning(o, _ => true);
    } else {
      var t := DifferOrs(o);
      Values(o, t);
      SelectionMeaning(o, t);
    }
  }
}
