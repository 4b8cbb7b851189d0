/** String-list report fields (libdm-report.c): one display string with an index that
    cuts the items out of it in sorted order, and the matchers that use the index. */
module StringList {
  // ---- strcmp ----

  predicate Le(a: string, b: string) {
    a == "" || (b != "" && (a[0] < b[0] || (a[0] == b[0] && Le(a[1..], b[1..]))))
  }

  /** The first difference decides, and a beginning comes first. */
  lemma {:induction false} LeMeans(a: string, b: string)
    ensures Le(a, b) <==> a <= b || exists i :: 0 <= i < |a| && i < |b| && a[..i] == b[..i] && a[i] < b[i]
  {
    if a != "" && b != "" {
      assert a == [a[0]] + a[1..] && b == [b[0]] + b[1..];
      if a[0] == b[0] {
        LeMeans(a[1..], b[1..]);
        assert a <= b <==> a[1..] <= b[1..];
        if i :| 0 <= i < |a[1..]| && i < |b[1..]| && a[1..][..i] == b[1..][..i] && a[1..][i] < b[1..][i] {
          assert a[..i + 1] == [a[0]] + a[1..][..i] && b[..i + 1] == [b[0]] + b[1..][..i];
          assert a[i + 1] < b[i + 1];
        }
        if i :| 0 <= i < |a| && i < |b| && a[..i] == b[..i] && a[i] < b[i] {
          assert i > 0 && a[1..][..i - 1] == a[..i][1..] && b[1..][..i - 1] == b[..i][1..];
          assert a[1..][i - 1] < b[1..][i - 1];
        }
      } else {
        assert a[..0] == b[..0];
        assert forall i :: 0 < i < |a| && i < |b| && a[..i] == b[..i] ==> a[..i][0] == b[..i][0];
      }
    }
  }

  lemma {:induction false} LeTotal(a: string, b: string)
    ensures Le(a, b) || Le(b, a)
  {
    if a != "" && b != "" {
      LeTotal(a[1..], b[1..]);
    }
  }

  lemma {:induction false} LeAntisymmetric(a: string, b: string)
    requires Le(a, b) && Le(b, a)
    ensures a == b
  {
    if a != "" && b != "" {
      LeAntisymmetric(a[1..], b[1..]);
      assert a == [a[0]] + a[1..] && b == [b[0]] + b[1..];
    }
  }

  lemma {:induction false} LeTransitive(a: string, b: string, c: string)
    requires Le(a, b) && Le(b, c)
    ensures Le(a, c)
  {
    if a != "" && a[0] == b[0] && b[0] == c[0] {
      LeTransitive(a[1..], b[1..], c[1..]);
    }
  }

  ghost predicate Sorted(s: seq<string>) {
    forall i, j :: 0 <= i < j < |s| ==> Le(s[i], s[j])
  }

  lemma Tail(s: seq<string>)
    requires s != []
    ensures multiset(s[1..]) == multiset(s) - multiset{s[0]}
  {
    assert s == [s[0]] + s[1..];
  }

  /** There is only one way to sort a list. */
  lemma {:induction false} SortedIsUnique(s: seq<string>, t: seq<string>)
    requires Sorted(s) && Sorted(t) && multiset(s) == multiset(t)
    ensures s == t
  {
    assert |s| == |multiset(s)| && |t| == |multiset(t)|;
    if s != [] {
      FirstIsLeast(s, t);
      FirstIsLeast(t, s);
      LeAntisymmetric(s[0], t[0]);
      Tail(s);
      Tail(t);
      SortedIsUnique(s[1..], t[1..]);
      assert s == [s[0]] + s[1..] && t == [t[0]] + t[1..];
    }
  }

  lemma FirstIsLeast(s: seq<string>, t: seq<string>)
    requires Sorted(s) && multiset(s) == multiset(t) && s != [] && t != []
    ensures Le(s[0], t[0])
  {
    assert t[0] in multiset(t);
    assert t[0] in s;
    LeTotal(s[0], s[0]);
  }

  // ---- the index ----

  datatype Span = Span(pos: nat, len: nat)

  predicate Inside(value: string, span: Span) {
    span.pos + span.len <= |value|
  }

  function Cut(value: string, span: Span): string
    requires Inside(value, span)
  {
    value[span.pos..span.pos + span.len]
  }

  /** items[0] holds the number of items; the others lie inside the value. */
  predicate IsIndex(value: string, items: seq<Span>) {
    |items| > 0 && items[0].len == |items| - 1 && forall i :: 1 <= i < |items| ==> Inside(value, items[i])
  }

  function Cuts(value: string, items: seq<Span>): (s: seq<string>)
    requires IsIndex(value, items)
    ensures |s| == |items| - 1
    ensures forall i :: 0 <= i < |s| ==> s[i] == Cut(value, items[i + 1])
  {
    seq(|items| - 1, i requires 0 <= i < |items| - 1 => Cut(value, items[i + 1]))
  }

  function Join(parts: seq<string>, delimiter: string): string {
    if parts == [] then ""
    else if |parts| == 1 then parts[0]
    else Join(parts[..|parts| - 1], delimiter) + delimiter + parts[|parts| - 1]
  }

  /** Lays the strings out with delimiters between them and notes where each stands. */
  method LayOut(parts: seq<string>, delimiter: string) returns (report: string, spans: seq<Span>)
    requires parts != []
    ensures report == Join(parts, delimiter)
    ensures |spans| == |parts|
    ensures forall k :: 0 <= k < |spans| ==> Inside(report, spans[k]) && Cut(report, spans[k]) == parts[k]
  {
    report, spans := "", [];
    var pos := 0;
    for i := 0 to |parts|
      invariant |spans| == i && pos == |report|
      invariant report == Join(parts[..i], delimiter) + (if 0 < i < |parts| then delimiter else "")
      invariant forall k :: 0 <= k < i ==> Inside(report, spans[k]) && Cut(report, spans[k]) == parts[k]
    {
      var last := i + 1 == |parts|;
      var len := |parts[i]|;
      ghost var before := report;
      report := report + parts[i] + (if last then "" else delimiter);
      Grows(before, report, parts, spans, i);
      spans := spans + [Span(pos, len)];
      pos := if last then pos + len else pos + len + |delimiter|;
      assert Cut(report, spans[i]) == parts[i];
      assert parts[..i + 1][..i] == parts[..i];
    }
    assert parts[..|parts|] == parts;
  }

  lemma Grows(before: string, after: string, parts: seq<string>, spans: seq<Span>, n: nat)
    requires before <= after && n <= |spans| && n <= |parts|
    requires forall k :: 0 <= k < n ==> Inside(before, spans[k]) && Cut(before, spans[k]) == parts[k]
    ensures forall k :: 0 <= k < n ==> Inside(after, spans[k]) && Cut(after, spans[k]) == parts[k]
  {
    forall k | 0 <= k < n
      ensures Inside(after, spans[k]) && Cut(after, spans[k]) == parts[k]
    {
      assert Cut(after, spans[k]) == Cut(before, spans[k]);
    }
  }

  // ---- sorting ----

  datatype SortItem = SortItem(str: string, span: Span)

  function Strings(arr: seq<SortItem>): (s: seq<string>)
    ensures |s| == |arr| && forall i :: 0 <= i < |s| ==> s[i] == arr[i].str
  {
    seq(|arr|, i requires 0 <= i < |arr| => arr[i].str)
  }

  /** Stands for qsort with _str_list_sort_item_cmp: some sorted permutation. */
  method Sort(arr: seq<SortItem>) returns (r: seq<SortItem>)
    ensures Sorted(Strings(r)) && multiset(Strings(r)) == multiset(Strings(arr))
    ensures forall x <- r :: x in arr
  {
    r := [];
    for i := 0 to |arr|
      invariant Sorted(Strings(r)) && multiset(Strings(r)) == multiset(Strings(arr[..i]))
      invariant forall x <- r :: x in arr
    {
      assert Strings(arr[..i + 1]) == Strings(arr[..i]) + [arr[i].str];
      r := Insert(r, arr[i]);
    }
    assert arr[..|arr|] == arr;
  }

  method Insert(r: seq<SortItem>, x: SortItem) returns (s: seq<SortItem>)
    requires Sorted(Strings(r))
    ensures Sorted(Strings(s)) && multiset(Strings(s)) == multiset(Strings(r)) + multiset{x.str}
    ensures forall y <- s :: y == x || y in r
  {
    hide Sorted;
    ghost var t := Strings(r);
    var k := 0;
    while k < |r| && Le(r[k].str, x.str)
      invariant 0 <= k <= |r| && forall i :: 0 <= i < k ==> Le(t[i], x.str)
    {
      k := k + 1;
    }
    s := r[..k] + [x] + r[k..];
    if k < |r| {
      LeTotal(r[k].str, x.str);
    }
    InsertedSorted(t, k, x.str);
    assert Strings(s) == t[..k] + [x.str] + t[k..];
    assert t == t[..k] + t[k..];
  }

  lemma InsertedSorted(t: seq<string>, k: nat, x: string)
    requires Sorted(t) && k <= |t| && (k < |t| ==> Le(x, t[k]))
    requires forall i :: 0 <= i < k ==> Le(t[i], x)
    ensures Sorted(t[..k] + [x] + t[k..])
  {
    var s := t[..k] + [x] + t[k..];
    forall i, j | 0 <= i < j < |s|
      ensures Le(s[i], s[j])
    {
      if i == k && j - 1 > k {
        LeTransitive(x, t[k], t[j - 1]);
      }
    }
  }

  // ---- building the index ----

  /** _report_field_string_list: whatever the display order, the index cuts the sorted
      list out of the report string. */
  method BuildIndex(data: seq<string>, delimiter: string, sort: bool) returns (report: string, items: seq<Span>)
    ensures IsIndex(report, items)
    ensures Sorted(Cuts(report, items)) && multiset(Cuts(report, items)) == multiset(data)
    ensures report == Join(if sort then Cuts(report, items) else data, delimiter)
  {
    if |data| == 0 {
      report, items := "", [Span(0, 0)];
      return;
    }
    if |data| == 1 {
      report, items := data[0], [Span(0, 1), Span(0, |data[0]|)];
      assert Cut(report, items[1]) == data[0];
      assert Cuts(report, items) == data;
      return;
    }
    var spans;
    if !sort {
      report, spans := LayOut(data, delimiter);
      items := SortedSpans(data, report, spans);
    } else {
      var arr := Sort(seq(|data|, i requires 0 <= i < |data| => SortItem(data[i], Span(0, 0))));
      assert Strings(seq(|data|, i requires 0 <= i < |data| => SortItem(data[i], Span(0, 0)))) == data;
      SameSize(Strings(arr), data);
      report, spans := LayOut(Strings(arr), delimiter);
      items := [Span(0, |data|)] + spans;
      assert Cuts(report, items) == Strings(arr);
    }
  }

  lemma SameSize(s: seq<string>, t: seq<string>)
    requires multiset(s) == multiset(t)
    ensures |s| == |t|
  {
    assert |s| == |multiset(s)| && |t| == |multiset(t)|;
  }

  method SortedSpans(data: seq<string>, report: string, spans: seq<Span>) returns (items: seq<Span>)
    requires |spans| == |data|
    requires forall k :: 0 <= k < |spans| ==> Inside(report, spans[k]) && Cut(report, spans[k]) == data[k]
    ensures IsIndex(report, items)
    ensures Sorted(Cuts(report, items)) && multiset(Cuts(report, items)) == multiset(data)
  {
    hide Sorted, Cut, Inside;
    var arr := seq(|data|, i requires 0 <= i < |data| => SortItem(data[i], spans[i]));
    assert Strings(arr) == data;
    assert forall x <- arr :: Inside(report, x.span) && Cut(report, x.span) == x.str;
    var sorted := Sort(arr);
    SameSize(Strings(sorted), data);
    items := [Span(0, |data|)] + Spans(sorted);
    CutsOf(report, sorted);
  }

  function Spans(arr: seq<SortItem>): (s: seq<Span>)
    ensures |s| == |arr| && forall i :: 0 <= i < |s| ==> s[i] == arr[i].span
  {
    seq(|arr|, i requires 0 <= i < |arr| => arr[i].span)
  }

  lemma CutsOf(report: string, arr: seq<SortItem>)
    requires forall x <- arr :: Inside(report, x.span) && Cut(report, x.span) == x.str
    ensures var items := [Span(0, |arr|)] + Spans(arr);
      IsIndex(report, items) && Cuts(report, items) == Strings(arr)
  {
    hide Cut, Inside;
    var items := [Span(0, |arr|)] + Spans(arr);
    forall i | 0 <= i < |arr|
      ensures Inside(report, items[i + 1]) && Cut(report, items[i + 1]) == Strings(arr)[i]
    {
      assert arr[i] in arr;
    }
    assert forall i :: 1 <= i < |items| ==> items[i] == items[(i - 1) + 1];
  }

  // ---- the matchers ----

  /** strlen and strncmp against one entry */
  predicate Matches(s: string, value: string, span: Span)
    requires Inside(value, span)
  {
    |s| == span.len && s == Cut(value, span)
  }

  lemma MultisetsDecide(s: seq<string>, t: seq<string>)
    requires Sorted(s) && Sorted(t)
    ensures multiset(s) == multiset(t) <==> s == t
  {
    if multiset(s) == multiset(t) {
      SortedIsUnique(s, t);
    }
  }

  /** _cmp_field_string_list_strict_all: equal as multisets. */
  method StrictAll(value: string, items: seq<Span>, sel: seq<string>) returns (r: bool)
    requires IsIndex(value, items) && Sorted(Cuts(value, items)) && Sorted(sel)
    ensures r <==> multiset(sel) == multiset(Cuts(value, items))
  {
    hide Sorted;
    ghost var cuts := Cuts(value, items);
    MultisetsDecide(sel, cuts);
    if items[0].len != |sel| {
      return false;
    }
    for i := 0 to |sel|
      invariant forall k :: 0 <= k < i ==> sel[k] == cuts[k]
    {
      if !Matches(sel[i], value, items[i + 1]) {
        return false;
      }
    }
    assert sel == cuts;
    return true;
  }

  /** The occurrence of the next selected string at or after the last one found. */
  lemma FoundLater(cuts: seq<string>, last: nat, s: string, t: string)
    requires Sorted(cuts) && last < |cuts| && cuts[last] == s && Le(s, t) && t in cuts
    ensures t in cuts[last..]
  {
    var k :| 0 <= k < |cuts| && cuts[k] == t;
    if k < last {
      LeAntisymmetric(s, t);
    }
    var at := if k < last then last else k;
    assert cuts[last..][at - last] == t;
  }

  /** _cmp_field_string_list_subset_all, with its cursor that never goes back: every
      selected string occurs. A selection is never empty. */
  method SubsetAll(value: string, items: seq<Span>, sel: seq<string>) returns (r: bool)
    requires IsIndex(value, items) && Sorted(Cuts(value, items)) && Sorted(sel)
    ensures r <==> sel != [] && forall s <- sel :: s in Cuts(value, items)
  {
    ghost var cuts := Cuts(value, items);
    r := false;
    if items[0].len == 0 && |sel| > 0 {
      assert sel[0] in sel && sel[0] !in cuts;
      return;
    }
    var lastFound := 1;
    for n := 0 to |sel|
      invariant 1 <= lastFound < |items| || n == 0
      invariant n == 0 ==> lastFound == 1 && !r
      invariant n > 0 ==> r && cuts[lastFound - 1] == sel[n - 1]
      invariant forall k :: 0 <= k < n ==> sel[k] in cuts
    {
      r, lastFound := FindFrom(value, items, sel[n], lastFound);
      if !r {
        if n > 0 && sel[n] in cuts {
          FoundLater(cuts, lastFound - 1, sel[n - 1], sel[n]);
          assert false;
        }
        assert n == 0 ==> cuts[0..] == cuts;
        assert sel[n] in sel;
        return;
      }
    }
  }

  /** The inner loop: the last match at or after the cursor. */
  method FindFrom(value: string, items: seq<Span>, s: string, from: nat) returns (r: bool, last: nat)
    requires IsIndex(value, items) && 1 <= from <= |items|
    ensures r <==> s in Cuts(value, items)[from - 1..]
    ensures if r then from <= last < |items| && Cuts(value, items)[last - 1] == s else last == from
  {
    ghost var cuts := Cuts(value, items);
    r, last := false, from;
    for i := from to items[0].len + 1
      invariant r <==> s in cuts[from - 1..i - 1]
      invariant if r then from <= last < |items| && Cuts(value, items)[last - 1] == s else last == from
    {
      assert cuts[from - 1..i] == cuts[from - 1..i - 1] + [cuts[i - 1]];
      if Matches(s, value, items[i]) {
        last, r := i, true;
      }
    }
    assert cuts[from - 1..items[0].len] == cuts[from - 1..];
  }

  /** _cmp_field_string_list_any: some selected string occurs. */
  method Any(value: string, items: seq<Span>, sel: seq<string>) returns (r: bool)
    requires IsIndex(value, items)
    ensures r <==> exists s <- sel :: s in Cuts(value, items)
  {
    ghost var cuts := Cuts(value, items);
    if items[0].len == 0 && |sel| > 0 {
      return false;
    }
    for n := 0 to |sel|
      invariant forall k :: 0 <= k < n ==> sel[k] !in cuts
    {
      for i := 1 to |items|
        invariant forall k :: 0 <= k < i - 1 ==> cuts[k] != sel[n]
      {
        if Matches(sel[n], value, items[i]) {
          assert cuts[i - 1] == sel[n] && sel[n] in sel;
          return true;
        }
      }
    }
    return false;
  }

  /** _cmp_field_string_list for the list forms [a,b], {a,b} (AND) and [a||b], {a||b}. */
  method CmpStringList(value: string, items: seq<Span>, sel: seq<string>, subset: bool, all: bool, negated: bool)
    returns (r: bool)
    requires IsIndex(value, items) && Sorted(Cuts(value, items)) && Sorted(sel) && sel != []
    ensures r != negated <==> Satisfies(Cuts(value, items), sel, subset, all)
  {
    if all {
      if subset {
        r := SubsetAll(value, items, sel);
      } else {
        r := StrictAll(value, items, sel);
      }
    } else {
      r := Any(value, items, sel);
    }
    r := if negated then !r else r;
  }

  ghost predicate Satisfies(list: seq<string>, sel: seq<string>, subset: bool, all: bool) {
    if !all then exists s <- sel :: s in list
    else if subset then forall s <- sel :: s in list
    else multiset(sel) == multiset(list)
  }
}
