/** The recursive-descent parser of the configuration language (libdm-config.c): which
    entries a text contains, and the methods that read them and build the tree. */
module ConfigParser {
  import opened ConfigTokens
  import opened ConfigTree
  import opened ConfigOrder
  import opened Quoting
  import opened Wrappers

  /** Where the parser stands: what is left of the text, with the current token. */
  function Left(p: Token): nat {
    |p.lexeme| + |p.rest|
  }

  predicate IsToken(p: Token) {
    p.t == TokEof <==> p.lexeme == ""
  }

  /** _dup_string_tok: without its quotes; the closing one may be missing. */
  function Inner(lexeme: string): Option<string> {
    if |lexeme| < 2 then None else Some(lexeme[1..|lexeme| - 1])
  }

  // ---- values ----

  /** _type */
  function ParseType(p: Token): (r: Option<(Value, Token)>)
    requires IsToken(p)
    ensures r.Some? ==> Left(r.value.1) < Left(p) && IsToken(r.value.1)
  {
    match p.t
    case TokInt => Some((Int(Strtoll(p.lexeme + p.rest)), NextToken(p.rest, TokInt)))
    case TokFloat => Some((Float(p.lexeme), NextToken(p.rest, TokFloat)))
    case TokString =>
      var s := Inner(p.lexeme);
      if s.None? then None else Some((Str(s.value), NextToken(p.rest, TokString)))
    case TokBare => Some((Str(p.lexeme), NextToken(p.rest, TokBare)))
    case TokEscaped =>
      var s := Inner(p.lexeme);
      if s.None? then None else Some((Str(Unquoted(s.value, '"', '\\')), NextToken(p.rest, TokEscaped)))
    case _ => None
  }

  function SkipComma(p: Token): (r: Token)
    requires IsToken(p)
    ensures Left(r) <= Left(p) && IsToken(r)
  {
    if p.t == TokComma then NextToken(p.rest, TokComma) else p
  }

  /** The elements up to the closing bracket. */
  function ParseElements(p: Token): (r: Option<(seq<Value>, Token)>)
    requires IsToken(p)
    ensures r.Some? ==> Left(r.value.1) <= Left(p) && IsToken(r.value.1) && r.value.1.t == TokArrayE
    decreases Left(p)
  {
    if p.t == TokArrayE then Some(([], p))
    else
      var v := ParseType(p);
      if v.None? then None
      else
        var more := ParseElements(SkipComma(v.value.1));
        if more.None? then None else Some(([v.value.0] + more.value.0, more.value.1))
  }

  /** _value */
  function ParseValue(p: Token): (r: Option<(seq<Value>, Token)>)
    requires IsToken(p)
    ensures r.Some? ==> Left(r.value.1) < Left(p) && IsToken(r.value.1)
  {
    if p.t == TokArrayB then
      var vs := ParseElements(NextToken(p.rest, TokArrayB));
      if vs.None? then None else Some((vs.value.0, NextToken(vs.value.1.rest, TokArrayE)))
    else
      var v := ParseType(p);
      if v.None? then None else Some(([v.value.0], v.value.1))
  }

  // ---- entries ----

  /** The key or path that begins an entry. */
  function ParseHead(p: Token): (r: Option<(string, Token)>)
    requires IsToken(p)
    ensures r.Some? ==> r.value.0 != "" && Left(r.value.1) < Left(p) && IsToken(r.value.1)
  {
    var key :=
      match p.t
      case TokEscaped => var s := Inner(p.lexeme); if s.None? then None else Some(Unquoted(s.value, '"', '\\'))
      case TokString => Inner(p.lexeme)
      case TokIdentifier => Some(p.lexeme)
      case _ => None;
    if key.None? || key.value == "" then None else Some((key.value, NextToken(p.rest, p.t)))
  }

  /** _section */
  function ParseEntry(p: Token): (r: Option<(Entry, Token)>)
    requires IsToken(p)
    ensures r.Some? ==> Left(r.value.1) < Left(p) && IsToken(r.value.1) && IsEntry(r.value.0)
    decreases Left(p), 0
  {
    var head := ParseHead(p);
    if head.None? then None
    else
      var segs, p1 := Segments(head.value.0), head.value.1;
      if p1.t == TokSectionB then
        var body := ParseBody(NextToken(p1.rest, TokSectionB));
        if body.None? then None
        else Some((Section(segs, body.value.0), NextToken(body.value.1.rest, TokSectionE)))
      else if p1.t == TokEq then
        var v := ParseValue(NextToken(p1.rest, TokEq));
        if v.None? then None else Some((Assign(segs, v.value.0), v.value.1))
      else None
  }

  /** The entries up to the closing brace. */
  function ParseBody(p: Token): (r: Option<(seq<Entry>, Token)>)
    requires IsToken(p)
    ensures r.Some? ==> Left(r.value.1) <= Left(p) && IsToken(r.value.1)
    ensures r.Some? ==> r.value.1.t == TokSectionE && AreEntries(r.value.0)
    decreases Left(p), 1
  {
    if p.t == TokSectionE then Some(([], p))
    else
      var e := ParseEntry(p);
      if e.None? then None
      else
        var more := ParseBody(e.value.1);
        if more.None? then None else Some(([e.value.0] + more.value.0, more.value.1))
  }

  /** _file: the entries up to the end. */
  function ParseFile(p: Token): (r: Option<seq<Entry>>)
    requires IsToken(p)
    ensures r.Some? ==> AreEntries(r.value)
    decreases Left(p)
  {
    if p.t == TokEof then Some([])
    else
      var e := ParseEntry(p);
      if e.None? then None
      else
        var more := ParseFile(e.value.1);
        if more.None? then None else Some([e.value.0] + more.value)
  }

  /** The entries of a whole text. */
  function Entries(text: string): (r: Option<seq<Entry>>)
    ensures r.Some? ==> AreEntries(r.value)
  {
    ParseFile(NextToken(text, TokSectionE))
  }

  /** dm_config_parse; a text without entries is refused. */
  function Parsed(text: string): Option<seq<Node>> {
    var es := Entries(text);
    if es.None? || es.value == [] then None else Some(Reversed(AppliedAll([], es.value, |es.value|)))
  }

  // ---- the reader ----

  ghost predicate Ready(c: Cursor)
    reads c
  {
    c.Valid() && IsToken(c.Current())
  }

  /** match */
  method Match(c: Cursor, t: TokenType) returns (ok: bool)
    requires c.Valid()
    modifies c
    ensures ok <==> old(c.t) == t
    ensures ok ==> Ready(c) && c.Current() == NextToken(old(c.text[c.te..]), t)
  {
    ok := c.t == t;
    if ok {
      c.GetToken(t);
    }
  }

  /** _dup_string_tok narrows the token to what its quotes enclose. */
  method DupStringTok(c: Cursor) returns (s: Option<string>)
    requires Ready(c) && c.t != TokEof
    modifies c
    ensures s == Inner(old(c.Current()).lexeme)
    ensures s.Some? ==> c.Valid() && c.t == old(c.t) && c.te == old(c.te)
  {
    ghost var lexeme := c.Current().lexeme;
    c.tb := c.tb + 1;
    var te := c.te - 1;
    if te < c.tb {
      return None;
    }
    s := Some(c.text[c.tb..te]);
    assert s.value == lexeme[1..|lexeme| - 1];
  }

  method ReadType(c: Cursor) returns (v: Option<Value>)
    requires Ready(c)
    modifies c
    ensures v.Some? <==> ParseType(old(c.Current())).Some?
    ensures v.Some? ==> Ready(c) && (v.value, c.Current()) == ParseType(old(c.Current())).value
  {
    hide NextToken, Strtoll, Unquoted;
    var t := c.t;
    assert c.text[c.tb..] == c.Current().lexeme + c.Current().rest;
    match t {
      case TokInt => v := Some(Int(Strtoll(c.text[c.tb..])));
      case TokFloat => v := Some(Float(c.text[c.tb..c.te]));
      case TokBare => v := Some(Str(c.text[c.tb..c.te]));
      case TokString =>
        var s := DupStringTok(c);
        if s.None? {
          return None;
        }
        v := Some(Str(s.value));
      case TokEscaped =>
        var s := DupStringTok(c);
        if s.None? {
          return None;
        }
        v := Some(Str(Unquoted(s.value, '"', '\\')));
      case _ => return None;
    }
    var ok := Match(c, t);
  }

  /** _value, with the loop over the elements of an array. */
  method ReadValue(c: Cursor) returns (vs: Option<seq<Value>>)
    requires Ready(c)
    modifies c
    ensures vs.Some? <==> ParseValue(old(c.Current())).Some?
    ensures vs.Some? ==> Ready(c) && (vs.value, c.Current()) == ParseValue(old(c.Current())).value
  {
    hide NextToken, ParseType;
    if c.t != TokArrayB {
      var v := ReadType(c);
      return if v.None? then None else Some([v.value]);
    }
    var ok := Match(c, TokArrayB);
    ghost var start := c.Current();
    var read: seq<Value> := [];
    PrefixedNothing(ParseElements(start));
    while c.t != TokArrayE
      invariant Ready(c)
      invariant ParseElements(start) == Prefixed(read, ParseElements(c.Current()))
      decreases Left(c.Current())
    {
      ghost var p := c.Current();
      var v := ReadType(c);
      if v.None? {
        return None;
      }
      if c.t == TokComma {
        ok := Match(c, TokComma);
      }
      PrefixedNext(read, p, v.value);
      read := read + [v.value];
    }
    assert read + [] == read;
    ok := Match(c, TokArrayE);
    vs := Some(read);
  }

  function Prefixed<T>(read: seq<T>, more: Option<(seq<T>, Token)>): Option<(seq<T>, Token)> {
    if more.None? then None else Some((read + more.value.0, more.value.1))
  }

  lemma PrefixedNothing<T>(more: Option<(seq<T>, Token)>)
    ensures Prefixed([], more) == more
  {
    if more.Some? {
      assert [] + more.value.0 == more.value.0;
    }
  }

  lemma PrefixedNext(read: seq<Value>, p: Token, v: Value)
    requires IsToken(p) && p.t != TokArrayE && ParseType(p).Some? && ParseType(p).value.0 == v
    ensures Prefixed(read, ParseElements(p)) == Prefixed(read + [v], ParseElements(SkipComma(ParseType(p).value.1)))
  {
    var more := ParseElements(SkipComma(ParseType(p).value.1));
    if more.Some? {
      assert read + ([v] + more.value.0) == read + [v] + more.value.0;
    }
  }

  /** The first part of _section: the key or path. */
  method ReadHead(c: Cursor) returns (key: Option<string>)
    requires Ready(c)
    modifies c
    ensures key.Some? <==> ParseHead(old(c.Current())).Some?
    ensures key.Some? ==> Ready(c) && (key.value, c.Current()) == ParseHead(old(c.Current())).value
  {
    hide NextToken, Unquoted;
    var t := c.t;
    var ok;
    if t == TokEscaped || t == TokString {
      key := DupStringTok(c);
      if key.None? {
        return;
      }
      if t == TokEscaped {
        key := Some(Unquoted(key.value, '"', '\\'));
      }
      ok := Match(c, t);
    } else {
      key := Some(c.text[c.tb..c.te]);
      ok := Match(c, TokIdentifier);
      if !ok {
        return None;
      }
    }
    if key.value == "" {
      return None;
    }
  }

  // ---- building the tree ----

  lemma {:induction false} AppliedPrefix(ns: seq<Node>, a: seq<Entry>, b: seq<Entry>, n: nat)
    requires n <= |a| && n <= |b| && a[..n] == b[..n] && AreEntries(a) && AreEntries(b)
    ensures AppliedAll(ns, a, n) == AppliedAll(ns, b, n)
    decreases n
  {
    if n > 0 {
      hide Applied;
      assert a[n - 1] == a[..n][n - 1] == b[..n][n - 1] == b[n - 1];
      AppliedPrefix(ns, a, b, n - 1);
    }
  }

  lemma AppliedNext(ns: seq<Node>, done: seq<Entry>, e: Entry)
    requires AreEntries(done) && IsEntry(e)
    ensures AppliedAll(ns, done + [e], |done| + 1) == Applied(AppliedAll(ns, done, |done|), e)
  {
    hide Applied;
    AppliedPrefix(ns, done + [e], done, |done|);
  }

  lemma BodyNext(done: seq<Entry>, p: Token)
    requires IsToken(p) && p.t != TokSectionE && ParseEntry(p).Some?
    ensures Prefixed(done, ParseBody(p)) == Prefixed(done + [ParseEntry(p).value.0], ParseBody(ParseEntry(p).value.1))
  {
    hide ParseEntry;
    var (e, q) := ParseEntry(p).value;
    var more := ParseBody(q);
    if more.Some? {
      assert done + ([e] + more.value.0) == done + [e] + more.value.0;
    }
  }

  /** _section: reads one entry and applies it below the parent. */
  method ReadSection(c: Cursor, ns: seq<Node>) returns (r: Option<seq<Node>>)
    requires Ready(c)
    modifies c
    ensures r.Some? <==> ParseEntry(old(c.Current())).Some?
    ensures r.Some? ==> Ready(c) && c.Current() == ParseEntry(old(c.Current())).value.1
    ensures r.Some? ==> r.value == Applied(ns, ParseEntry(old(c.Current())).value.0)
    decreases Left(c.Current()), 0
  {
    hide NextToken, ParseHead, ParseValue, Segments, Made, Find, Put;
    var key := ReadHead(c);
    if key.None? {
      return None;
    }
    var segs := Segments(key.value);
    var made := Made(ns, segs);
    MadeFinds(ns, segs);
    var n := Find(made, segs).value;
    if c.t == TokSectionB {
      var ok := Match(c, TokSectionB);
      var child := ReadBody(c, n.child);
      if child.None? {
        return None;
      }
      ok := Match(c, TokSectionE);
      r := Some(Put(made, segs, n.(child := child.value)));
    } else {
      var ok := Match(c, TokEq);
      if !ok {
        return None;
      }
      var v := ReadValue(c);
      if v.None? {
        return None;
      }
      r := Some(Put(made, segs, n.(v := Some(v.value))));
    }
  }

  /** The loop of _section over the entries in braces. */
  method ReadBody(c: Cursor, ns: seq<Node>) returns (r: Option<seq<Node>>)
    requires Ready(c)
    modifies c
    ensures r.Some? <==> ParseBody(old(c.Current())).Some?
    ensures r.Some? ==> Ready(c) && c.Current() == ParseBody(old(c.Current())).value.1
    ensures r.Some? ==> var es := ParseBody(old(c.Current())).value.0; r.value == AppliedAll(ns, es, |es|)
    decreases Left(c.Current()), 1
  {
    hide NextToken, ParseEntry, Applied;
    ghost var start := c.Current();
    ghost var done: seq<Entry> := [];
    var now := ns;
    PrefixedNothing(ParseBody(start));
    while c.t != TokSectionE
      invariant Ready(c) && Left(c.Current()) <= Left(start)
      invariant AreEntries(done) && now == AppliedAll(ns, done, |done|)
      invariant ParseBody(start) == Prefixed(done, ParseBody(c.Current()))
      decreases Left(c.Current())
    {
      ghost var p := c.Current();
      var next := ReadSection(c, now);
      if next.None? {
        return None;
      }
      BodyNext(done, p);
      AppliedNext(ns, done, ParseEntry(p).value.0);
      done, now := done + [ParseEntry(p).value.0], next.value;
    }
    assert done + [] == done;
    r := Some(now);
  }

  function WithFirst(done: seq<Entry>, more: Option<seq<Entry>>): Option<seq<Entry>> {
    if more.None? then None else Some(done + more.value)
  }

  lemma FileNext(done: seq<Entry>, p: Token)
    requires IsToken(p) && p.t != TokEof && ParseEntry(p).Some?
    ensures WithFirst(done, ParseFile(p)) == WithFirst(done + [ParseEntry(p).value.0], ParseFile(ParseEntry(p).value.1))
  {
    hide ParseEntry;
    var (e, q) := ParseEntry(p).value;
    var more := ParseFile(q);
    if more.Some? {
      assert done + ([e] + more.value) == done + [e] + more.value;
    }
  }

  /** dm_config_parse: on any text the reader ends, stays inside the text, and builds
      the tree that the entries of the text describe. */
  method ParseConfig(text: string) returns (r: Option<seq<Node>>)
    ensures r == Parsed(text)
  {
    hide NextToken, ParseEntry, Applied;
    var c := new Cursor(text);
    assert text[c.te..] == text;
    c.GetToken(TokSectionE);
    ghost var start := c.Current();
    ghost var done: seq<Entry> := [];
    var now: seq<Node> := [];
    assert forall es: seq<Entry> :: [] + es == es;
    while c.t != TokEof
      invariant Ready(c)
      invariant AreEntries(done) && now == AppliedAll([], done, |done|)
      invariant ParseFile(start) == WithFirst(done, ParseFile(c.Current()))
      decreases Left(c.Current())
    {
      ghost var p := c.Current();
      var next := ReadSection(c, now);
      if next.None? {
        return None;
      }
      FileNext(done, p);
      AppliedNext([], done, ParseEntry(p).value.0);
      done, now := done + [ParseEntry(p).value.0], next.value;
    }
    assert done + [] == done;
    if now == [] {
      NonEmptyTree(done);
      return None;
    }
    var tree := ConfigReverse(now);
    r := Some(tree);
  }

  lemma AppliedIsSome(ns: seq<Node>, e: Entry)
    requires IsEntry(e)
    ensures Applied(ns, e) != []
  {
    hide Made, Find;
    var made := Made(ns, e.segs);
    MadeFinds(ns, e.segs);
    FoundIsSome(made, e.segs);
  }

  lemma FoundIsSome(ns: seq<Node>, segs: seq<string>)
    requires segs != [] && Find(ns, segs).Some?
    ensures ns != []
  {
  }

  /** A file with entries has nodes. */
  lemma NonEmptyTree(es: seq<Entry>)
    requires AreEntries(es)
    ensures es == [] <==> AppliedAll([], es, |es|) == []
  {
    hide Applied, IsEntry;
    if es != [] {
      AppliedIsSome(AppliedAll([], es, |es| - 1), es[|es| - 1]);
    }
  }

  /** Any text that is accepted: siblings never share a key, and at every place they
      stand in the order in which the text first mentions them. */
  lemma ParsedInOrder(text: string, q: seq<string>)
    requires Parsed(text).Some?
    ensures Unique(Parsed(text).value)
    ensures KeysAt(Parsed(text).value, q)
      == FirstAppearances(Under(MentionsOf(Entries(text).value, |Entries(text).value|), q))
  {
    hide Entries, KeysAt, Reversed, Unique;
    var es := Entries(text).value;
    UniqueNothing();
    UniqueAppliedAll([], es, |es|);
    UniqueReversed(AppliedAll([], es, |es|));
    OrderOfFirstAppearance(es, q);
  }

  lemma UniqueNothing()
    ensures Unique([])
  {
  }
}
