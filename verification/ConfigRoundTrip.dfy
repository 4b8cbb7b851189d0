/** Printing a configuration tree and parsing the text gives the tree back
    (libdm-config.c, with the escaping of libdm-string.c). */
module ConfigRoundTrip {
  import opened CStrings
  import opened ConfigOrder
  import opened ConfigParser
  import opened ConfigPrinter
  import opened ConfigSyntax
  import opened ConfigTokens
  import opened ConfigTree
  import opened Decimal
  import opened Quoting
  import opened Wrappers

  // ---- the trees for which it holds ----

  predicate GoodKey(key: string) {
    key != "" && NoNul(key) && '/' !in key && (NeedsQuotes(key) || BareKey(key))
  }

  predicate GoodValue(v: Value) {
    match v
    case Int(i) => -INT64_MAX - 1 <= i <= INT64_MAX
    case Str(s) => NoNul(s)
    case Float(_) => false
  }

  predicate GoodNode(n: Node)
    decreases n
  {
    GoodKey(n.key) && Good(n.child) && (n.v.Some? ==> n.child == [] && forall v <- n.v.value :: GoodValue(v))
  }

  predicate Good(ns: seq<Node>)
    decreases ns
  {
    Distinct(Keys(ns)) && forall n <- ns :: GoodNode(n)
  }

  /** Any key with `#`, `"` or `!` in it is printed in quotes, so it needs no further care. */
  lemma QuotedKeysAreGood(key: string)
    requires key != "" && NoNul(key) && '/' !in key
    ensures '#' in key || '"' in key || '!' in key ==> GoodKey(key) && KeyText(key) == InQuotes(key)
    ensures GoodKey(key) <==> '#' in key || '"' in key || '!' in key || BareKey(key)
  {
  }

  lemma {:induction false} GoodHasNoFloats(ns: seq<Node>)
    requires Good(ns)
    ensures NoFloatNodes(ns)
    decreases ns
  {
    forall n | n in ns
      ensures (n.v.Some? ==> NoFloats(n.v.value)) && NoFloatNodes(n.child)
    {
      assert GoodNode(n);
      GoodHasNoFloats(n.child);
    }
  }

  // ---- entries ----

  /** What the file says for a tree. */
  function EntryOf(n: Node): (e: Entry)
    ensures IsEntry(e)
    decreases n
  {
    if n.v.Some? then Assign([n.key], n.v.value)
    else
      var body := EntriesOf(n.child);
      assert forall x <- body :: IsEntry(x);
      Section([n.key], body)
  }

  function EntriesOf(ns: seq<Node>): (es: seq<Entry>)
    ensures |es| == |ns| && AreEntries(es)
    ensures forall i :: 0 <= i < |ns| ==> es[i] == EntryOf(ns[i])
    decreases ns
  {
    seq(|ns|, i requires 0 <= i < |ns| => EntryOf(ns[i]))
  }

  lemma SlashFree(key: string)
    requires '/' !in key
    ensures Segments(key) == [key]
  {
    SlashFreeLength(key);
  }

  lemma {:induction false} SlashFreeLength(key: string)
    requires '/' !in key
    ensures SegmentLength(key) == |key|
  {
    if key != "" {
      SlashFreeLength(key[1..]);
    }
  }

  // ---- the printed text as a layout ----

  function NameOf(key: string): Name {
    if NeedsQuotes(key) then DoubleName(key) else PlainName(key)
  }

  lemma KeyIsName(key: string)
    requires GoodKey(key)
    ensures IsName(NameOf(key)) && NameText(NameOf(key)) == KeyText(key)
  {
  }

  function ScalarOf(v: Value): Scalar {
    match v
    case Int(i) =>
      if i == 0 then Octal(NoSign, "") else if i < 0 then Whole(Minus, Natural(-i)) else Whole(NoSign, Natural(i))
    case Str(s) => Double(s)
    case Float(text) => Word(text)
  }

  lemma {:induction false} NaturalPositional(n: nat)
    ensures AllDigits(Natural(n), 10) && Positional(Natural(n), 10) == n
  {
    var ds := Natural(n);
    if n < 10 {
      assert ds[..0] == "";
    } else {
      NaturalPositional(n / 10);
      assert ds[..|ds| - 1] == Natural(n / 10);
    }
  }

  lemma WholeBack(sign: Sign, n: nat)
    requires n > 0
    ensures var v := Whole(sign, Natural(n)); IsScalar(v) && ScalarValue(v) == Int(Clamped(Signed(sign, n)))
  {
    NaturalPositional(n);
    hide Natural, Positional, AllDigits;
  }

  lemma ZeroBack()
    ensures var v := Octal(NoSign, ""); IsScalar(v) && ScalarValue(v) == Int(0) && ScalarText(v) == Natural(0)
  {
    assert "" + "0" + "" == "0";
  }

  /** A printed integer is a spelling of it. */
  lemma IntegerBack(i: int)
    requires -INT64_MAX - 1 <= i <= INT64_MAX
    ensures var v := ScalarOf(Int(i)); IsScalar(v) && ScalarText(v) == Integer(i) && ScalarValue(v) == Int(i)
  {
    hide Natural, IsScalar, ScalarValue;
    if i == 0 {
      ZeroBack();
    } else if i < 0 {
      WholeBack(Minus, -i);
    } else {
      WholeBack(NoSign, i);
      assert "" + Natural(i) == Natural(i);
    }
  }

  lemma ScalarOfBack(v: Value)
    requires GoodValue(v)
    ensures var w := ScalarOf(v); IsScalar(w) && !w.Word? && ScalarText(w) == ValueText(v) && ScalarValue(w) == v
  {
    hide Natural, Integer, NoNul, InQuotes;
    if v.Int? {
      IntegerBack(v.i);
    }
  }

  predicate GoodValues(vs: seq<Value>) {
    forall v <- vs :: GoodValue(v)
  }

  function ElementsOf(vs: seq<Value>): (es: seq<Element>)
    ensures |es| == |vs|
  {
    seq(|vs|, i requires 0 <= i < |vs| =>
      Element(ScalarOf(vs[i]), [], if i + 1 < |vs| then Some([Space(' ')]) else None))
  }

  function SpellingOf(vs: seq<Value>): Spelling {
    if |vs| == 1 then One(ScalarOf(vs[0])) else Many([], ElementsOf(vs))
  }

  lemma ElementsOfBack(vs: seq<Value>)
    requires GoodValues(vs)
    ensures AreElements(ElementsOf(vs)) && ElementValues(ElementsOf(vs)) == vs
  {
    hide ScalarOf, GoodValue, IsScalar, ScalarValue;
    forall i | 0 <= i < |vs|
      ensures var w := ScalarOf(vs[i]); IsScalar(w) && !w.Word? && ScalarValue(w) == vs[i]
    {
      assert vs[i] in vs;
      ScalarOfBack(vs[i]);
    }
    assert IsWhite(' ');
  }

  lemma OneSpace()
    ensures GapText([Space(' ')]) == " " && GapText([Space('\n')]) == "\n" && GapText([]) == ""
  {
    assert GapText([Space(' ')]) == " " + GapText([]);
    assert GapText([Space('\n')]) == "\n" + GapText([]);
  }

  lemma {:induction false} ArrayOf(vs: seq<Value>, i: nat)
    requires GoodValues(vs) && NoFloats(vs) && i <= |vs|
    ensures ArrayText(ElementsOf(vs), i) == ElementsText(vs[i..]) + "]"
    decreases |vs| - i
  {
    hide ScalarText, ValueText, ScalarOf, GapText;
    OneSpace();
    if i < |vs| {
      ArrayOf(vs, i + 1);
      assert vs[i] in vs && vs[i..][1..] == vs[i + 1..];
      ScalarOfBack(vs[i]);
      var text, more := ValueText(vs[i]), ElementsText(vs[i + 1..]);
      if i + 1 < |vs| {
        assert text + "" + ("," + " ") + (more + "]") == text + ", " + more + "]";
      } else {
        assert text + "" + "" + (more + "]") == text + "" + more + "]";
      }
    }
  }

  /** Printed values are a spelling of them. */
  lemma ValuesBack(vs: seq<Value>)
    requires GoodValues(vs) && NoFloats(vs)
    ensures IsSpelling(SpellingOf(vs)) && SpellingText(SpellingOf(vs)) == ValuesText(vs)
    ensures SpelledValues(SpellingOf(vs)) == vs
  {
    hide ScalarText, ScalarValue, IsScalar, ValueText, ScalarOf, ElementsOf, ElementValues, AreElements, GapText;
    OneSpace();
    if |vs| == 1 {
      assert vs[0] in vs && vs == [vs[0]];
      ScalarOfBack(vs[0]);
    } else {
      ElementsOfBack(vs);
      ArrayOf(vs, 0);
      assert vs[0..] == vs;
      assert "[" + "" + (ElementsText(vs) + "]") == "[" + ElementsText(vs) + "]";
    }
  }

  // ---- lines with gaps between them ----

  function GapAt(gaps: seq<Gap>, k: nat): Gap {
    if k < |gaps| then gaps[k] else []
  }

  /** Lines, the first of them the k-th, each behind its gap. */
  function Interleaved(lines: seq<string>, k: nat, gaps: seq<Gap>): string {
    if lines == [] then "" else GapText(GapAt(gaps, k)) + lines[0] + "\n" + Interleaved(lines[1..], k + 1, gaps)
  }

  /** The lines alone. */
  function Joined(lines: seq<string>): string {
    if lines == [] then "" else lines[0] + "\n" + Joined(lines[1..])
  }

  lemma {:induction false} WithoutGaps(lines: seq<string>, k: nat)
    ensures Interleaved(lines, k, []) == Joined(lines)
    decreases |lines|
  {
    if lines != [] {
      WithoutGaps(lines[1..], k + 1);
      assert "" + lines[0] + "\n" == lines[0] + "\n";
    }
  }

  lemma Associative(a: string, b: string, c: string)
    ensures a + (b + c) == a + b + c
  {
  }

  lemma {:induction false} InterleavedJoin(a: seq<string>, b: seq<string>, k: nat, gaps: seq<Gap>)
    ensures Interleaved(a + b, k, gaps) == Interleaved(a, k, gaps) + Interleaved(b, k + |a|, gaps)
    decreases |a|
  {
    hide GapText;
    if a == [] {
      assert a + b == b;
    } else {
      InterleavedJoin(a[1..], b, k + 1, gaps);
      assert (a + b)[1..] == a[1..] + b;
      Associative(GapText(GapAt(gaps, k)) + a[0] + "\n", Interleaved(a[1..], k + 1, gaps),
        Interleaved(b, k + |a|, gaps));
    }
  }

  lemma OneLine(line: string, k: nat, gaps: seq<Gap>)
    ensures Interleaved([line], k, gaps) == GapText(GapAt(gaps, k)) + line + "\n"
  {
    hide GapText;
    assert Interleaved([], k + 1, gaps) == "";
  }

  function IndentGap(level: nat): Gap {
    seq(if level < MAX_INDENT then level else MAX_INDENT, _ => Space('\t'))
  }

  lemma {:induction false} Tabs(g: Gap, n: nat)
    requires |g| == n && forall i :: 0 <= i < n ==> g[i] == Space('\t')
    ensures GapText(g) == seq(n, _ => '\t')
  {
    if n > 0 {
      Tabs(g[1..], n - 1);
    }
  }

  lemma IndentIsGap(level: nat)
    ensures IsGap(IndentGap(level)) && GapText(IndentGap(level)) == Indent(level)
  {
    Tabs(IndentGap(level), |IndentGap(level)|);
    assert IsWhite('\t');
  }

  lemma {:induction false} GapsJoin(a: Gap, b: Gap)
    ensures GapText(a + b) == GapText(a) + GapText(b)
  {
    hide BlankText;
    if a == [] {
      assert a + b == b && "" + GapText(b) == GapText(b);
    } else {
      GapsJoin(a[1..], b);
      assert (a + b)[1..] == a[1..] + b;
      Associative(BlankText(a[0]), GapText(a[1..]), GapText(b));
    }
  }

  predicate AreGaps(gaps: seq<Gap>) {
    forall g <- gaps :: IsGap(g)
  }

  /** The gap before the k-th line and its indentation. */
  function Lead(gaps: seq<Gap>, k: nat, level: nat): Gap {
    GapAt(gaps, k) + IndentGap(level)
  }

  lemma LeadIsGap(gaps: seq<Gap>, k: nat, level: nat)
    requires AreGaps(gaps)
    ensures IsGap(Lead(gaps, k, level))
    ensures GapText(Lead(gaps, k, level)) == GapText(GapAt(gaps, k)) + Indent(level)
  {
    hide GapText, IndentGap, IsBlank;
    IndentIsGap(level);
    GapsJoin(GapAt(gaps, k), IndentGap(level));
    assert k < |gaps| ==> gaps[k] in gaps;
  }

  // ---- the items of a tree ----

  function ItemOf(n: Node, level: nat, k: nat, gaps: seq<Gap>): Item
    requires GoodNode(n)
    decreases n, 0
  {
    GoodHasNoFloats(n.child);
    if n.v.Some? then
      Setting(Lead(gaps, k, level), NameOf(n.key), [], [], SpellingOf(n.v.value), [Space('\n')])
    else
      Block(Lead(gaps, k, level), NameOf(n.key), [Space(' ')], [Space('\n')],
            ItemsOf(n.child, 0, level + 1, k + 1, gaps),
            Lead(gaps, k + 1 + |Lines(n.child, |n.child|, level + 1)|, level), [Space('\n')])
  }

  function NodeLength(n: Node, level: nat): nat
    requires GoodNode(n)
  {
    GoodHasNoFloats(n.child);
    |NodeLines(n, level)|
  }

  /** The siblings from the i-th on, the first line of which is the k-th. */
  function ItemsOf(ns: seq<Node>, i: nat, level: nat, k: nat, gaps: seq<Gap>): (its: seq<Item>)
    requires Good(ns) && i <= |ns|
    ensures |its| == |ns| - i
    decreases ns, |ns| - i
  {
    if i == |ns| then []
    else [ItemOf(ns[i], level, k, gaps)] + ItemsOf(ns, i + 1, level, k + NodeLength(ns[i], level), gaps)
  }

  lemma SmallGaps()
    ensures IsGap([Space(' ')]) && IsGap([Space('\n')]) && IsGap([])
  {
  }

  lemma GoodParts(n: Node)
    requires GoodNode(n)
    ensures GoodKey(n.key) && Good(n.child) && NoFloatNodes(n.child)
  {
    hide GoodKey, Good, NoFloatNodes;
    GoodHasNoFloats(n.child);
  }

  lemma LeafIsItem(n: Node, level: nat, k: nat, gaps: seq<Gap>)
    requires GoodNode(n) && n.v.Some? && AreGaps(gaps)
    ensures IsItem(ItemOf(n, level, k, gaps)) && !Open(ItemOf(n, level, k, gaps))
    ensures Meaning(ItemOf(n, level, k, gaps)) == EntryOf(n)
  {
    hide Lead, NameOf, SpellingOf, IsGap, IsName, IsSpelling, SpelledValues, GoodKey, Segments, AreGaps;
    SmallGaps();
    LeadIsGap(gaps, k, level);
    NameIsKey(n.key);
    GoodIsGood(n);
    ValuesBack(n.v.value);
  }

  lemma SectionItem(n: Node, level: nat, k: nat, gaps: seq<Gap>)
    requires GoodNode(n) && n.v.None?
    ensures NoFloatNodes(n.child)
    ensures ItemOf(n, level, k, gaps)
      == Block(Lead(gaps, k, level), NameOf(n.key), [Space(' ')], [Space('\n')],
               ItemsOf(n.child, 0, level + 1, k + 1, gaps),
               Lead(gaps, k + 1 + |Lines(n.child, |n.child|, level + 1)|, level), [Space('\n')])
    ensures EntryOf(n) == Section([n.key], EntriesOf(n.child))
  {
    hide Lead, NameOf, ItemsOf, Lines, EntriesOf;
    GoodHasNoFloats(n.child);
  }

  lemma BlockIsItem(before: Gap, name: Name, g1: Gap, open: Gap, items: seq<Item>, last: Gap, after: Gap)
    requires IsGap(before) && IsName(name) && IsGap(g1) && IsGap(open) && IsGap(last) && IsGap(after) && AreItems(items)
    ensures var it := Block(before, name, g1, open, items, last, after);
      IsItem(it) && !Open(it) && Meaning(it) == Section(Segments(name.text), Meanings(items))
  {
    hide IsGap, IsName, AreItems, Meanings, Segments;
  }

  lemma SectionIsItem(n: Node, level: nat, k: nat, gaps: seq<Gap>)
    requires GoodNode(n) && n.v.None? && AreGaps(gaps)
    ensures IsItem(ItemOf(n, level, k, gaps)) && !Open(ItemOf(n, level, k, gaps))
    ensures Meaning(ItemOf(n, level, k, gaps)) == EntryOf(n)
    decreases n, 0
  {
    hide *;
    GoodParts(n);
    SectionItem(n, level, k, gaps);
    var first := Lead(gaps, k, level);
    var last := Lead(gaps, k + 1 + |Lines(n.child, |n.child|, level + 1)|, level);
    var items := ItemsOf(n.child, 0, level + 1, k + 1, gaps);
    SmallGaps();
    LeadIsGap(gaps, k, level);
    LeadIsGap(gaps, k + 1 + |Lines(n.child, |n.child|, level + 1)|, level);
    NameIsKey(n.key);
    ItemsAreItems(n.child, 0, level + 1, k + 1, gaps);
    BlockIsItem(first, NameOf(n.key), [Space(' ')], [Space('\n')], items, last, [Space('\n')]);
    assert EntriesOf(n.child)[0..] == EntriesOf(n.child);
  }

  /** The items are well formed and say what the tree says. */
  lemma ItemIsItem(n: Node, level: nat, k: nat, gaps: seq<Gap>)
    requires GoodNode(n) && AreGaps(gaps)
    ensures IsItem(ItemOf(n, level, k, gaps)) && !Open(ItemOf(n, level, k, gaps))
    ensures Meaning(ItemOf(n, level, k, gaps)) == EntryOf(n)
    decreases n, 1
  {
    if n.v.Some? {
      LeafIsItem(n, level, k, gaps);
    } else {
      SectionIsItem(n, level, k, gaps);
    }
  }

  lemma GoodIsGood(n: Node)
    requires GoodNode(n) && n.v.Some?
    ensures GoodValues(n.v.value) && NoFloats(n.v.value)
  {
  }

  lemma NameIsKey(key: string)
    requires GoodKey(key)
    ensures IsName(NameOf(key)) && Segments(NameOf(key).text) == [key]
  {
    hide Segments;
    KeyIsName(key);
    SlashFree(key);
  }

  lemma {:induction false} ItemsAreItems(ns: seq<Node>, i: nat, level: nat, k: nat, gaps: seq<Gap>)
    requires Good(ns) && i <= |ns| && AreGaps(gaps)
    ensures AreItems(ItemsOf(ns, i, level, k, gaps)) && Meanings(ItemsOf(ns, i, level, k, gaps)) == EntriesOf(ns)[i..]
    ensures forall it <- ItemsOf(ns, i, level, k, gaps) :: !Open(it)
    decreases ns, |ns| - i
  {
    hide IsItem, Open, ItemOf, NodeLength, GoodNode, AreGaps, AreItems, Meanings, EntriesOf;
    if i == |ns| {
      NoItems();
      assert EntriesOf(ns)[i..] == [];
    } else {
      var more := ItemsOf(ns, i + 1, level, k + NodeLength(ns[i], level), gaps);
      ItemIsItem(ns[i], level, k, gaps);
      ItemsAreItems(ns, i + 1, level, k + NodeLength(ns[i], level), gaps);
      ItemsPrepend(ItemOf(ns[i], level, k, gaps), more);
      assert EntriesOf(ns)[i..] == [EntryOf(ns[i])] + EntriesOf(ns)[i + 1..];
    }
  }

  lemma NoItems()
    ensures AreItems([]) && Meanings([]) == []
  {
  }

  lemma ItemsPrepend(it: Item, its: seq<Item>)
    requires IsItem(it) && !Open(it) && AreItems(its) && forall x <- its :: !Open(x)
    ensures AreItems([it] + its) && Meanings([it] + its) == [Meaning(it)] + Meanings(its)
  {
    hide Open, IsItem;
    assert forall x <- [it] + its :: !Open(x);
  }

  // ---- the items have the lines' text ----

  lemma LeafText(n: Node, level: nat, k: nat, gaps: seq<Gap>)
    requires GoodNode(n) && n.v.Some? && AreGaps(gaps)
    ensures NoFloatNodes(n.child)
    ensures ItemText(ItemOf(n, level, k, gaps)) == Interleaved(NodeLines(n, level), k, gaps)
  {
    hide Lead, GapText, GapAt, NameOf, NameText, KeyText, SpellingOf, SpellingText, ValuesText, Indent, GoodKey,
      SpelledValues, IsSpelling, AreGaps, Interleaved;
    GoodHasNoFloats(n.child);
    GoodIsGood(n);
    LeadIsGap(gaps, k, level);
    KeyIsName(n.key);
    ValuesBack(n.v.value);
    OneSpace();
    OneLine(Indent(level) + KeyText(n.key) + "=" + ValuesText(n.v.value), k, gaps);
    LeafParts(GapText(GapAt(gaps, k)), Indent(level), KeyText(n.key), ValuesText(n.v.value));
  }

  lemma LeafParts(gap: string, indent: string, key: string, values: string)
    ensures gap + indent + key + "" + ("=" + "" + values + "\n") == gap + (indent + key + "=" + values) + "\n"
  {
  }

  lemma SectionParts(gap: string, indent: string, key: string, body: string, gap': string)
    ensures gap + indent + key + " " + ("{" + "\n" + body + (gap' + indent) + "}" + "\n")
      == gap + (indent + key + " {") + "\n" + (body + (gap' + (indent + "}") + "\n"))
  {
  }

  lemma SectionText(n: Node, level: nat, k: nat, gaps: seq<Gap>)
    requires GoodNode(n) && n.v.None? && AreGaps(gaps)
    ensures NoFloatNodes(n.child)
    ensures ItemText(ItemOf(n, level, k, gaps)) == Interleaved(NodeLines(n, level), k, gaps)
    decreases n, 0
  {
    hide Lead, GapText, GapAt, NameOf, NameText, KeyText, Indent, GoodKey, AreGaps, Interleaved, ItemsOf, ItemsText,
      Lines;
    GoodHasNoFloats(n.child);
    var head, body := Indent(level) + KeyText(n.key) + " {", Lines(n.child, |n.child|, level + 1);
    var close := Indent(level) + "}";
    LeadIsGap(gaps, k, level);
    LeadIsGap(gaps, k + 1 + |body|, level);
    KeyIsName(n.key);
    OneSpace();
    ItemsHaveLines(n.child, level + 1, k + 1, gaps);
    InterleavedJoin([head] + body, [close], k, gaps);
    InterleavedJoin([head], body, k, gaps);
    OneLine(head, k, gaps);
    OneLine(close, k + 1 + |body|, gaps);
    SectionParts(GapText(GapAt(gaps, k)), Indent(level), KeyText(n.key), Interleaved(body, k + 1, gaps),
      GapText(GapAt(gaps, k + 1 + |body|)));
    Associative(GapText(GapAt(gaps, k)) + head + "\n", Interleaved(body, k + 1, gaps),
      GapText(GapAt(gaps, k + 1 + |body|)) + close + "\n");
  }

  lemma NodeHasLines(n: Node, level: nat, k: nat, gaps: seq<Gap>)
    requires GoodNode(n) && AreGaps(gaps)
    ensures NoFloatNodes(n.child)
    ensures ItemText(ItemOf(n, level, k, gaps)) == Interleaved(NodeLines(n, level), k, gaps)
    decreases n, 1
  {
    if n.v.Some? {
      LeafText(n, level, k, gaps);
    } else {
      SectionText(n, level, k, gaps);
    }
  }

  /** The first i siblings' lines, and the items of the rest behind them. */
  lemma {:induction false} LinesThenItems(ns: seq<Node>, i: nat, level: nat, k: nat, gaps: seq<Gap>)
    requires Good(ns) && i <= |ns| && AreGaps(gaps) && NoFloatNodes(ns)
    ensures Interleaved(Lines(ns, i, level), k, gaps)
      + ItemsText(ItemsOf(ns, i, level, k + |Lines(ns, i, level)|, gaps), 0)
        == ItemsText(ItemsOf(ns, 0, level, k, gaps), 0)
    decreases ns, i
  {
    hide ItemOf, ItemText, NodeLines, Interleaved, GoodNode, AreGaps;
    if i == 0 {
      NoLines(k, gaps);
      assert "" + ItemsText(ItemsOf(ns, 0, level, k, gaps), 0) == ItemsText(ItemsOf(ns, 0, level, k, gaps), 0);
    } else {
      var n, before := ns[i - 1], Lines(ns, i - 1, level);
      var at := k + |before|;
      LinesThenItems(ns, i - 1, level, k, gaps);
      NodeHasLines(n, level, at, gaps);
      InterleavedJoin(before, NodeLines(n, level), k, gaps);
      var its := ItemsOf(ns, i, level, at + NodeLength(n, level), gaps);
      FirstItem(ItemOf(n, level, at, gaps), its);
      Associative(Interleaved(before, k, gaps), Interleaved(NodeLines(n, level), at, gaps), ItemsText(its, 0));
    }
  }

  lemma NoLines(k: nat, gaps: seq<Gap>)
    ensures Interleaved([], k, gaps) == ""
  {
  }

  lemma FirstItem(it: Item, its: seq<Item>)
    ensures ItemsText([it] + its, 0) == ItemText(it) + ItemsText(its, 0)
  {
    hide ItemText;
    LaterItems(it, its, 0);
  }

  lemma {:induction false} LaterItems(it: Item, its: seq<Item>, i: nat)
    requires i <= |its|
    ensures ItemsText([it] + its, i + 1) == ItemsText(its, i)
    decreases |its| - i
  {
    hide ItemText;
    var all := [it] + its;
    if i < |its| {
      LaterItems(it, its, i + 1);
      assert all[i + 1] == its[i];
      assert ItemsText(all, i + 1) == ItemText(all[i + 1]) + ItemsText(all, i + 2);
    }
  }

  lemma ItemsHaveLines(ns: seq<Node>, level: nat, k: nat, gaps: seq<Gap>)
    requires Good(ns) && AreGaps(gaps)
    ensures NoFloatNodes(ns)
    ensures ItemsText(ItemsOf(ns, 0, level, k, gaps), 0) == Interleaved(Lines(ns, |ns|, level), k, gaps)
    decreases ns, |ns| + 1
  {
    hide Lines, Interleaved, AreGaps, Good, NoFloatNodes, ItemsOf, ItemsText;
    GoodHasNoFloats(ns);
    LinesThenItems(ns, |ns|, level, k, gaps);
    NoMoreItems(ns, level, k + |Lines(ns, |ns|, level)|, gaps);
    var lines := Interleaved(Lines(ns, |ns|, level), k, gaps);
    assert lines + "" == lines;
  }

  lemma NoMoreItems(ns: seq<Node>, level: nat, k: nat, gaps: seq<Gap>)
    requires Good(ns)
    ensures ItemsText(ItemsOf(ns, |ns|, level, k, gaps), 0) == ""
  {
  }

  // ---- the tree ----

  /** An entry with a new key puts its node in front. */
  lemma AppliedNew(ns: seq<Node>, e: Entry, key: string)
    requires IsEntry(e) && e.segs == [key] && Index(ns, key) == |ns|
    ensures Applied(ns, e)
      == [if e.Assign? then Node(key, Some(e.v), []) else Node(key, None, AppliedAll([], e.body, |e.body|))] + ns
  {
    var made := Made(ns, e.segs);
    assert made == [Node(key, None, [])] + ns && Index(made, key) == 0;
  }

  lemma {:induction false} ReversedSnoc(ns: seq<Node>, n: Node)
    ensures Reversed(ns + [n]) == [n.(child := Reversed(n.child))] + Reversed(ns)
  {
    if ns == [] {
      assert ns + [n] == [n];
    } else {
      ReversedSnoc(ns[1..], n);
      assert (ns + [n])[1..] == ns[1..] + [n];
    }
  }

  lemma {:induction false} ReversedTwice(ns: seq<Node>)
    ensures Reversed(Reversed(ns)) == ns
    decreases ns
  {
    if ns != [] {
      var n := ns[0];
      ReversedTwice(ns[1..]);
      ReversedTwice(n.child);
      ReversedSnoc(Reversed(ns[1..]), n.(child := Reversed(n.child)));
      assert ns == [n] + ns[1..];
    }
  }

  lemma NewKey(ns: seq<Node>, k: nat)
    requires Distinct(Keys(ns)) && k < |ns|
    ensures Index(Reversed(ns[..k]), ns[k].key) == k
  {
    var r := Reversed(ns[..k]);
    var j := Index(r, ns[k].key);
    if j < k {
      ReversedAt(ns[..k], j);
      assert false;
    }
  }

  lemma {:induction false} AppliedBack(ns: seq<Node>, k: nat)
    requires Good(ns) && k <= |ns|
    ensures AppliedAll([], EntriesOf(ns), k) == Reversed(ns[..k])
    decreases ns, k
  {
    hide Applied, Reversed, GoodKey, GoodValue;
    if k == 0 {
      assert Reversed([]) == [] by {
        ReversedNothing();
      }
    } else {
      var n := ns[k - 1];
      AppliedBack(ns, k - 1);
      NewKey(ns, k - 1);
      AppliedNew(Reversed(ns[..k - 1]), EntryOf(n), n.key);
      assert ns[..k] == ns[..k - 1] + [n];
      ReversedSnoc(ns[..k - 1], n);
      assert GoodNode(n);
      AppliedBack(n.child, |n.child|);
      assert n.child[..|n.child|] == n.child;
      ReversedNothing();
    }
  }

  lemma ReversedNothing()
    ensures Reversed([]) == []
  {
  }

  /** The entries of the printed lines, whatever stands between them. */
  lemma EntriesBack(ns: seq<Node>, gaps: seq<Gap>, end: End)
    requires Good(ns) && NoFloatNodes(ns) && AreGaps(gaps) && IsEnd(end)
    ensures
      var lines := Lines(ns, |ns|, 0);
      Entries(Interleaved(lines, 0, gaps) + (GapText(GapAt(gaps, |lines|)) + EndText(end))) == Some(EntriesOf(ns))
  {
    hide Lines, Interleaved, Good, Entries, ItemsOf, Meanings, EntriesOf, AreItems;
    var lines := Lines(ns, |ns|, 0);
    ItemsHaveLines(ns, 0, 0, gaps);
    ItemsAreItems(ns, 0, 0, 0, gaps);
    assert |lines| < |gaps| ==> gaps[|lines|] in gaps;
    LayoutIsFree(ItemsOf(ns, 0, 0, 0, gaps), GapAt(gaps, |lines|), end);
    assert EntriesOf(ns)[0..] == EntriesOf(ns);
  }

  /** Parsing the printed text of a tree gives the tree, with any blank lines, comments
      and other white space inserted before the lines and at the end. */
  lemma CommentedRoundTrip(ns: seq<Node>, gaps: seq<Gap>, end: End)
    requires Good(ns) && ns != [] && AreGaps(gaps) && IsEnd(end)
    ensures NoFloatNodes(ns)
    ensures
      var lines := Lines(ns, |ns|, 0);
      Parsed(Interleaved(lines, 0, gaps) + (GapText(GapAt(gaps, |lines|)) + EndText(end))) == Some(ns)
  {
    hide Lines, Interleaved, Entries, Reversed, AppliedAll, EntriesOf, Good, GapText;
    GoodHasNoFloats(ns);
    EntriesBack(ns, gaps, end);
    AppliedBack(ns, |ns|);
    assert ns[..|ns|] == ns;
    ReversedTwice(ns);
  }

  /** Parsing the printed text of a tree gives the tree. */
  lemma RoundTrip(ns: seq<Node>)
    requires Good(ns) && ns != []
    ensures NoFloatNodes(ns)
    ensures Parsed(Joined(Lines(ns, |ns|, 0))) == Some(ns)
  {
    hide Lines, Interleaved, Joined, Parsed, Good;
    CommentedRoundTrip(ns, [], End(None, None));
    WithoutGaps(Lines(ns, |ns|, 0), 0);
    OneSpace();
    var text := Joined(Lines(ns, |ns|, 0));
    assert text + ("" + "") == text;
  }

  /** dm_config_write_node, its lines joined, and dm_config_from_string. */
  method WriteAndParse(ns: seq<Node>) returns (tree: Option<seq<Node>>)
    requires Good(ns) && ns != []
    requires NoFloatNodes(ns) && Fits(ns, 0)
    ensures tree == Some(ns)
  {
    hide Good, Fits, NoFloatNodes, Lines, Joined, Parsed;
    RoundTrip(ns);
    var out := new Output();
    var ok := out.WriteConfig(ns, 0);
    assert [] + Lines(ns, |ns|, 0) == Lines(ns, |ns|, 0);
    tree := ParseConfig(Joined(out.lines));
  }
}
