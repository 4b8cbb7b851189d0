/** Device names `<vg>-<lv>-<layer>` with doubled hyphens: built into a buffer of
    exactly computed size, and split again in place (libdm-string.c). */
module DmName {
  import opened CStrings
  import opened Quoting

  function Hyphened(s: string): string {
    Quoted(s, '-', '-', false)
  }

  /** What follows `<vg>-<lv>`; an absent layer is an empty one. */
  function LayerPart(layer: string): string {
    if layer == "" then "" else (if layer[0] == '_' then "" else "-") + Hyphened(layer)
  }

  function Built(vg: string, lv: string, layer: string): string {
    Hyphened(vg) + "-" + Hyphened(lv) + LayerPart(layer)
  }

  /** How far _unquote reads: up to a hyphen that another character follows. */
  function Used(s: string): (n: nat)
    ensures n <= |s|
  {
    if s == "" then 0
    else if |s| > 1 && s[0] == '-' then if s[1] == '-' then 2 + Used(s[2..]) else 0
    else 1 + Used(s[1..])
  }

  function First(s: string): string {
    if s == "" then ""
    else if |s| > 1 && s[0] == '-' then if s[1] == '-' then "-" + First(s[2..]) else ""
    else [s[0]] + First(s[1..])
  }

  function Rest(s: string): string {
    if Used(s) < |s| then s[Used(s) + 1..] else ""
  }

  /** dm_split_lvm_name */
  function Split(name: string): (string, string, string) {
    (First(name), First(Rest(name)), First(Rest(Rest(name))))
  }

  lemma FirstNext(c: char, w: string)
    ensures var token := if c == '-' then "--" else [c];
      First(token + w) == [c] + First(w) && Used(token + w) == |token| + Used(w)
  {
    var token := if c == '-' then "--" else [c];
    assert (token + w)[|token|..] == w;
  }

  lemma HyphenedNext(s: string, t: string)
    requires s != ""
    ensures var token := if s[0] == '-' then "--" else [s[0]];
      |Hyphened(s)| == |token| + |Hyphened(s[1..])| && Hyphened(s) + t == token + (Hyphened(s[1..]) + t)
  {
    var token := if s[0] == '-' then "--" else [s[0]];
    assert Hyphened(s) == token + Hyphened(s[1..]);
  }

  lemma {:induction false} FirstSkipsQuoted(s: string, t: string)
    ensures First(Hyphened(s) + t) == s + First(t)
    ensures Used(Hyphened(s) + t) == |Hyphened(s)| + Used(t)
  {
    if s == "" {
      assert Hyphened(s) + t == t;
    } else {
      hide First, Used, Quoted;
      FirstSkipsQuoted(s[1..], t);
      FirstNext(s[0], Hyphened(s[1..]) + t);
      HyphenedNext(s, t);
      assert s + First(t) == [s[0]] + (s[1..] + First(t));
    }
  }

  lemma RestAfterQuoted(s: string, t: string)
    ensures Rest(Hyphened(s) + t) == Rest(t)
  {
    FirstSkipsQuoted(s, t);
    var whole, n := Hyphened(s) + t, |Hyphened(s)|;
    if Used(t) < |t| {
      assert whole[n + Used(t) + 1..] == t[Used(t) + 1..];
    }
  }

  /** A separating hyphen ends a component exactly when a character other than a
      hyphen follows it. */
  lemma AtSeparator(t: string)
    ensures First("-" + t) == "" <==> |t| > 0 && t[0] != '-'
    ensures First("-" + t) == "" ==> Rest("-" + t) == t
  {
  }

  lemma HyphenedStart(s: string)
    requires s != ""
    ensures Hyphened(s) != "" && Hyphened(s)[0] == s[0]
  {
  }

  lemma SameStart(s: string, t: string)
    ensures s + t == s <==> t == ""
  {
    if s + t == s {
      assert |t| == 0;
    }
  }

  /** The components that a built name keeps apart. */
  predicate Separable(lv: string, layer: string) {
    lv != "" && lv[0] != '-' && (layer != "" ==> layer[0] != '-' && layer[0] != '_')
  }

  /** Splitting a built name gives the components back exactly when they are separable. */
  lemma SplitUndoesBuild(vg: string, lv: string, layer: string)
    ensures Split(Built(vg, lv, layer)) == (vg, lv, layer) <==> Separable(lv, layer)
  {
    hide First, Used, Rest, Quoted;
    var tail := Hyphened(lv) + LayerPart(layer);
    assert Built(vg, lv, layer) == Hyphened(vg) + ("-" + tail);
    FirstSkipsQuoted(vg, "-" + tail);
    RestAfterQuoted(vg, "-" + tail);
    SameStart(vg, First("-" + tail));
    AtSeparator(tail);
    if lv == "" {
      WithoutLv(layer);
    } else {
      HyphenedStart(lv);
      FirstSkipsQuoted(lv, LayerPart(layer));
      RestAfterQuoted(lv, LayerPart(layer));
      SameStart(lv, First(LayerPart(layer)));
      SplitLayer(layer);
    }
  }

  /** With an empty LV the VG takes the hyphen, or the LV takes the layer. */
  lemma WithoutLv(layer: string)
    ensures var tail := Hyphened("") + LayerPart(layer);
      |tail| == 0 || tail[0] == '-' || First(tail) != ""
  {
    var tail := Hyphened("") + LayerPart(layer);
    if layer != "" && layer[0] == '_' {
      assert tail == Hyphened(layer) + "";
      FirstSkipsQuoted(layer, "");
    }
  }

  lemma SplitLayer(layer: string)
    ensures First(LayerPart(layer)) == "" && First(Rest(LayerPart(layer))) == layer
      <==> (layer != "" ==> layer[0] != '-' && layer[0] != '_')
  {
    hide Quoted;
    if layer != "" {
      HyphenedStart(layer);
      FirstSkipsQuoted(layer, "");
      assert Hyphened(layer) + "" == Hyphened(layer);
      if layer[0] != '_' {
        AtSeparator(Hyphened(layer));
      }
    }
  }

  /** dm_build_dm_name: the buffer is as long as the name and its NUL, and one more for
      a layer that needs no hyphen. */
  method Build(vg: string, lv: string, layer: string) returns (buf: array<char>)
    requires NoNul(vg) && NoNul(lv) && NoNul(layer)
    ensures fresh(buf) && Holds(buf[..], 0, Built(vg, lv, layer))
    ensures buf.Length == |Built(vg, lv, layer)| + (if layer != "" && layer[0] == '_' then 2 else 1)
  {
    hide Quoted, LayerPart;
    var len := BuildLength(vg, lv, layer);
    buf := new char[len];
    var out := QuoteCharacters(buf, 0, vg, '-', '-', false);
    buf[out] := '-';
    out := out + 1;
    assert buf[..out] == Hyphened(vg) + "-";
    out := QuoteCharacters(buf, out, lv, '-', '-', false);
    assert buf[..out] == Hyphened(vg) + "-" + Hyphened(lv);
    out := PutLayer(buf, out, layer);
    assert buf[..out] == Built(vg, lv, layer);
    buf[out] := NUL;
    assert buf[0..out] == Built(vg, lv, layer);
    BuiltNoNul(vg, lv, layer);
  }

  method BuildLength(vg: string, lv: string, layer: string) returns (len: nat)
    requires NoNul(vg) && NoNul(lv) && NoNul(layer)
    ensures len == |Built(vg, lv, layer)| + (if layer != "" && layer[0] == '_' then 2 else 1)
  {
    hide Quoted, Occurrences;
    var hyphens;
    len, hyphens := CountChars(vg, 1, 1, '-', NUL);
    len, hyphens := CountChars(lv, len, hyphens, '-', NUL);
    if layer != "" {
      len, hyphens := CountChars(layer, len, hyphens, '-', NUL);
      hyphens := hyphens + 1;
    }
    len := len + hyphens;
    QuotedLength(vg, '-', '-', false);
    QuotedLength(lv, '-', '-', false);
    QuotedLength(layer, '-', '-', false);
  }

  method PutLayer(buf: array<char>, out0: nat, layer: string) returns (out: nat)
    requires out0 + |LayerPart(layer)| < buf.Length
    modifies buf
    ensures out == out0 + |LayerPart(layer)| && buf[..out] == old(buf[..out0]) + LayerPart(layer)
  {
    hide Quoted;
    out := out0;
    if layer != "" {
      if layer[0] != '_' {
        buf[out] := '-';
        out := out + 1;
      }
      ghost var before := buf[..out];
      out := QuoteCharacters(buf, out, layer, '-', '-', false);
      assert buf[..out] == before + Hyphened(layer);
    }
  }

  lemma BuiltNoNul(vg: string, lv: string, layer: string)
    requires NoNul(vg) && NoNul(lv) && NoNul(layer)
    ensures NoNul(Built(vg, lv, layer))
  {
    hide Quoted;
    QuotedNoNul(vg, '-', '-', false);
    QuotedNoNul(lv, '-', '-', false);
    QuotedNoNul(layer, '-', '-', false);
  }

  // ---- in place ----

  /** The cursors of _unquote: buf[p..p + out] has been written, s[i..] is to be read. */
  ghost predicate Moving(buf: seq<char>, p: nat, s: string, i: nat, out: nat) {
    && out <= i <= |s| && p + |s| < |buf|
    && First(s) == buf[p..p + out] + First(s[i..]) && Used(s) == i + Used(s[i..])
    && buf[p + i..p + |s|] == s[i..] && buf[p + |s|] == NUL
  }

  /** What _unquote reads at the cursor: the end, a separator, a pair, or a character. */
  lemma Reads(buf: seq<char>, p: nat, s: string, i: nat, out: nat)
    requires Moving(buf, p, s, i, out) && NoNul(s)
    ensures buf[p + i] == NUL <==> i == |s|
    ensures i < |s| ==> p + i + 1 < |buf| && buf[p + i] == s[i]
    ensures i < |s| ==> buf[p + i + 1] == (if i + 1 < |s| then s[i + 1] else NUL)
  {
    hide First, Used;
    if i < |s| {
      assert buf[p + i..p + |s|][0] == s[i..][0];
      if i + 1 < |s| {
        assert buf[p + i..p + |s|][1] == s[i..][1];
      }
    }
  }

  lemma FirstStep(t: string)
    requires t != ""
    ensures |t| > 1 && t[0] == '-' && t[1] != '-' ==> First(t) == "" && Used(t) == 0
    ensures |t| > 1 && t[0] == '-' && t[1] == '-' ==> First(t) == "-" + First(t[2..]) && Used(t) == 2 + Used(t[2..])
    ensures |t| == 1 || t[0] != '-' ==> First(t) == [t[0]] + First(t[1..]) && Used(t) == 1 + Used(t[1..])
  {
  }

  lemma Moves(buf: seq<char>, p: nat, s: string, i: nat, out: nat, n: nat)
    requires Moving(buf, p, s, i, out) && i + n <= |s| && 1 <= n <= 2
    requires First(s[i..]) == [s[i + n - 1]] + First(s[i..][n..]) && Used(s[i..]) == n + Used(s[i..][n..])
    ensures Moving(buf[p + out := s[i + n - 1]], p, s, i + n, out + 1)
  {
    hide First, Used;
    var after := buf[p + out := s[i + n - 1]];
    assert s[i..][n..] == s[i + n..];
    assert after[p..p + out + 1] == buf[p..p + out] + [s[i + n - 1]];
    assert after[p + i + n..p + |s|] == buf[p + i..p + |s|][n..];
  }

  lemma {:induction false} FirstNoNul(s: string)
    requires NoNul(s)
    ensures NoNul(First(s)) && |First(s)| <= Used(s)
  {
    if s != "" {
      FirstStep(s);
      if |s| > 1 && s[0] == '-' {
        FirstNoNul(s[2..]);
      } else {
        FirstNoNul(s[1..]);
      }
    }
  }

  /** The component is terminated... */
  lemma Moved(buf: seq<char>, p: nat, s: string, i: nat, out: nat)
    requires Moving(buf, p, s, i, out) && NoNul(s) && First(s[i..]) == "" && Used(s[i..]) == 0
    ensures Holds(buf[p + out := NUL], p, First(s)) && |First(s)| == out
  {
    hide First, Used;
    FirstNoNul(s);
    var after := buf[p + out := NUL];
    assert after[p..p + out] == buf[p..p + out] == First(s);
  }

  /** ... and the next one stands untouched behind it. */
  lemma NextOne(buf: seq<char>, p: nat, s: string, i: nat, out: nat, r: nat)
    requires Moving(buf, p, s, i, out) && NoNul(s) && Used(s[i..]) == 0
    requires r == if i < |s| then p + i + 1 else p + i
    ensures Holds(buf[p + out := NUL], r, Rest(s)) && |Rest(s)| == p + |s| - r
  {
    hide First, Used;
    var after := buf[p + out := NUL];
    assert Used(s) == i;
    if i < |s| {
      var rest := s[i + 1..];
      assert Rest(s) == rest;
      assert buf[p + i..p + |s|][1..] == s[i..][1..];
      assert s[i..][1..] == rest;
      assert after[r..r + |rest|] == buf[p + i..p + |s|][1..];
    }
  }

  lemma NotMoved(buf: seq<char>, p: nat, s: string)
    requires Holds(buf, p, s)
    ensures NoNul(s) && p + |s| < |buf| && Moving(buf, p, s, 0, 0)
  {
    assert s[0..] == s;
  }

  lemma AtEnd(s: string)
    ensures First(s[|s|..]) == "" && Used(s[|s|..]) == 0
  {
  }

  /** _unquote: the first component stays at p, the next one begins at r. */
  method Unquote(buf: array<char>, p: nat, ghost s: string) returns (r: nat)
    requires Holds(buf[..], p, s)
    modifies buf
    ensures Holds(buf[..], p, First(s)) && Holds(buf[..], r, Rest(s))
    ensures p + |First(s)| < r || (r == p + |s| && Rest(s) == "")
    ensures buf[..p] == old(buf[..p])
    ensures s == "" ==> buf[..] == old(buf[..])
  {
    hide First, Used, Rest, Moving, Holds;
    var c, o := 0, 0;
    NotMoved(buf[..], p, s);
    Reads(buf[..], p, s, c, o);
    while buf[p + c] != NUL
      invariant 0 <= o <= c <= |s| && Moving(buf[..], p, s, c, o) && p + |s| < buf.Length
      invariant buf[p + c] == NUL <==> c == |s|
      invariant buf[..p] == old(buf[..p]) && (s == "" ==> buf[..] == old(buf[..]))
      decreases |s| - c
    {
      Reads(buf[..], p, s, c, o);
      FirstStep(s[c..]);
      ghost var before, i := buf[..], c;
      if buf[p + c + 1] != NUL && buf[p + c] == '-' {
        if buf[p + c + 1] == '-' {
          c := c + 1;
        } else {
          break;
        }
      }
      Moves(before, p, s, i, o, c + 1 - i);
      buf[p + o] := buf[p + c];
      assert buf[..] == before[p + o := s[c]];
      o, c := o + 1, c + 1;
      Reads(buf[..], p, s, c, o);
    }
    AtEnd(s);
    Moved(buf[..], p, s, c, o);
    r := if buf[p + c] != NUL then p + c + 1 else p + c;
    NextOne(buf[..], p, s, c, o, r);
    ghost var before := buf[..];
    buf[p + o] := NUL;
    assert buf[..] == before[p + o := NUL];
  }

  /** dm_split_lvm_name on a copy of the name, in place. */
  method SplitName(buf: array<char>, ghost name: string) returns (lv: nat, layer: nat)
    requires Holds(buf[..], 0, name)
    modifies buf
    ensures Holds(buf[..], 0, Split(name).0) && Holds(buf[..], lv, Split(name).1)
      && Holds(buf[..], layer, Split(name).2)
  {
    hide First, Used, Rest;
    lv := Unquote(buf, 0, name);
    ghost var one := buf[..];
    layer := Unquote(buf, lv, Rest(name));
    KeepsBefore(one, buf[..], 0, First(name), lv, Rest(name));
    ghost var two := buf[..];
    var end := Unquote(buf, layer, Rest(Rest(name)));
    KeepsBefore(two, buf[..], 0, First(name), layer, Rest(Rest(name)));
    KeepsBefore(two, buf[..], lv, First(Rest(name)), layer, Rest(Rest(name)));
  }

  /** Unquoting a later component leaves an earlier one alone. */
  lemma KeepsBefore(was: seq<char>, now: seq<char>, p: nat, s: string, r: nat, rest: string)
    requires Holds(was, p, s) && |was| == |now| && r <= |was|
    requires now[..r] == was[..r] && (rest == "" ==> now == was)
    requires p + |s| < r || rest == ""
    ensures Holds(now, p, s)
  {
    if rest != "" {
      assert now[p..p + |s|] == now[..r][p..p + |s|] == was[p..p + |s|];
      assert now[p + |s|] == now[..r][p + |s|];
    }
  }
}
