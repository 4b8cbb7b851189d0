/** The configuration language as it may be written: any spelling of keys and values,
    with white space and comments between any two tokens, and what the text means. */
module ConfigSyntax {
  import opened CStrings
  import opened ConfigParser
  import opened ConfigPrinter
  import opened ConfigTokens
  import opened ConfigTree
  import opened Decimal
  import opened Quoting
  import opened Wrappers

  // ---- what is skipped ----

  /** A white-space character, or a comment up to the end of its line. */
  datatype Blank = Space(c: char) | Comment(text: string)

  type Gap = seq<Blank>

  /** Tab, newline, vertical tab, form feed, return and space. */
  predicate IsWhite(c: char) {
    c as int in {9, 10, 11, 12, 13, 32}
  }

  predicate IsBlank(b: Blank) {
    if b.Space? then IsWhite(b.c) else '\n' !in b.text && NUL !in b.text
  }

  predicate IsGap(g: Gap) {
    forall b <- g :: IsBlank(b)
  }

  function BlankText(b: Blank): string {
    if b.Space? then [b.c] else "#" + b.text + "\n"
  }

  function GapText(g: Gap): string {
    if g == [] then "" else BlankText(g[0]) + GapText(g[1..])
  }

  lemma {:induction false} LineSkipped(c: string, end: string)
    requires '\n' !in c && NUL !in c && (end == "" || end[0] == '\n' || end[0] == NUL)
    ensures SkipLine(c + end) == end
  {
    if c == "" {
      assert c + end == end;
    } else {
      LineSkipped(c[1..], end);
      assert (c + end)[1..] == c[1..] + end;
    }
  }

  /** A comment ends with its line, and what follows is read as without it. */
  lemma CommentSkipped(c: string, s: string, prev: TokenType)
    requires '\n' !in c && NUL !in c
    ensures NextToken("#" + c + "\n" + s, prev) == NextToken(s, prev)
  {
    var text, line := "#" + c + "\n" + s, "\n" + s;
    LineSkipped(c, line);
    assert text[1..] == c + line && line[1..] == s;
    assert EatSpace(text) == EatSpace(line) == EatSpace(s);
  }

  lemma SpaceSkipped(c: char, s: string, prev: TokenType)
    requires IsWhite(c)
    ensures NextToken([c] + s, prev) == NextToken(s, prev)
  {
    assert ([c] + s)[1..] == s;
  }

  /** So is any gap. */
  lemma {:induction false} GapSkipped(g: Gap, s: string, prev: TokenType)
    requires IsGap(g)
    ensures NextToken(GapText(g) + s, prev) == NextToken(s, prev)
  {
    hide NextToken, IsWhite;
    if g == [] {
      assert GapText(g) + s == s;
    } else {
      var rest := GapText(g[1..]) + s;
      assert IsBlank(g[0]) by {
        assert g[0] in g;
      }
      GapSkipped(g[1..], s, prev);
      assert GapText(g) + s == BlankText(g[0]) + rest;
      if g[0].Space? {
        SpaceSkipped(g[0].c, rest, prev);
      } else {
        CommentSkipped(g[0].text, rest, prev);
      }
    }
  }

  lemma GapStarts(g: Gap)
    requires IsGap(g) && g != []
    ensures GapText(g) != "" && (IsSpace(GapText(g)[0]) || GapText(g)[0] == '#')
  {
    assert g[0] in g;
  }

  /** How a text ends: nothing, a NUL with anything behind it, or a last comment that
      ends in one of these ways. */
  datatype End = End(comment: Option<string>, junk: Option<string>)

  predicate IsEnd(e: End) {
    e.comment.Some? ==> '\n' !in e.comment.value && NUL !in e.comment.value
  }

  function EndText(e: End): string {
    (if e.comment.Some? then "#" + e.comment.value else "") + if e.junk.Some? then [NUL] + e.junk.value else ""
  }

  lemma EndIsEof(e: End, prev: TokenType)
    requires IsEnd(e)
    ensures NextToken(EndText(e), prev).t == TokEof
  {
    var junk := if e.junk.Some? then [NUL] + e.junk.value else "";
    if e.comment.Some? {
      LineSkipped(e.comment.value, junk);
      assert EndText(e)[1..] == e.comment.value + junk;
      assert EatSpace(EndText(e)) == EatSpace(junk);
    } else {
      assert EndText(e) == junk;
    }
  }

  // ---- scalars ----

  datatype Sign = NoSign | Plus | Minus

  function SignText(s: Sign): string {
    match s
    case NoSign => ""
    case Plus => "+"
    case Minus => "-"
  }

  datatype Scalar =
    | Whole(sign: Sign, digits: string)               // 12, from the first digit, which is not 0
    | Octal(sign: Sign, digits: string)               // 014, the digits behind the 0; alone, zero
    | Point(sign: Sign, whole: string, part: string)  // 1.5
    | Double(s: string)                               // "..." with quotes and backslashes escaped
    | Single(s: string)                               // '...'
    | Word(s: string)                                 // ...

  predicate AllDigits(s: string, base: nat) {
    forall i :: 0 <= i < |s| ==> IsDigit(s[i]) && DigitValue(s[i]) < base
  }

  predicate IsWordText(s: string) {
    s != "" && (forall i :: 0 <= i < |s| ==> InIdentifier(s[i])) && s[0] !in "[],'\"" && !StartsNumber(s[0])
  }

  predicate IsScalar(v: Scalar) {
    match v
    case Whole(_, ds) => ds != "" && ds[0] != '0' && AllDigits(ds, 10)
    case Octal(_, ds) => AllDigits(ds, 8)
    case Point(_, a, b) => AllDigits(a, 10) && AllDigits(b, 10)
    case Double(s) => NoNul(s)
    case Single(s) => NoNul(s) && '\'' !in s
    case Word(s) => IsWordText(s)
  }

  function ScalarText(v: Scalar): string {
    match v
    case Whole(sign, ds) => SignText(sign) + ds
    case Octal(sign, ds) => SignText(sign) + "0" + ds
    case Point(sign, a, b) => SignText(sign) + a + "." + b
    case Double(s) => InQuotes(s)
    case Single(s) => "'" + s + "'"
    case Word(s) => s
  }

  /** The number that digits stand for. */
  function Positional(ds: string, base: nat): nat
    requires AllDigits(ds, 10)
  {
    if ds == "" then 0 else Positional(ds[..|ds| - 1], base) * base + DigitValue(ds[|ds| - 1])
  }

  /** The nearest 64-bit integer. */
  function Clamped(i: int): int {
    if i > INT64_MAX then INT64_MAX else if i < -INT64_MAX - 1 then -INT64_MAX - 1 else i
  }

  function Signed(sign: Sign, n: nat): int {
    if sign.Minus? then 0 - n else n
  }

  function ScalarValue(v: Scalar): Value
    requires IsScalar(v)
  {
    match v
    case Whole(sign, ds) => Int(Clamped(Signed(sign, Positional(ds, 10))))
    case Octal(sign, ds) => Int(Clamped(Signed(sign, Positional(ds, 8))))
    case Point(_, _, _) => Float(ScalarText(v))
    case Double(s) => Str(s)
    case Single(s) => Str(s)
    case Word(s) => Str(s)
  }

  predicate InQuotation(v: Scalar) {
    v.Double? || v.Single?
  }

  /** What ends a number, and what ends any value. */
  predicate EndsNumber(rest: string) {
    rest == "" || (!IsDigit(rest[0]) && rest[0] != '.' && AnyDigit(rest[0]) == 36)
  }

  predicate EndsWord(rest: string) {
    rest == "" || !InIdentifier(rest[0])
  }

  predicate Stops(v: Scalar, rest: string) {
    if InQuotation(v) then true else if v.Word? then EndsWord(rest) else EndsNumber(rest)
  }

  // ---- tokens ----

  /** Reads as one identifier where no value is allowed. */
  predicate BareKey(key: string) {
    key != "" && (forall i :: 0 <= i < |key| ==> InIdentifier(key[i])) && key[0] !in "[],'\""
  }

  /** The next token where no value is allowed. */
  function Start(s: string): Token {
    NextToken(s, TokSectionE)
  }

  lemma NoValueNext(s: string, prev: TokenType)
    requires !ValuesAllowed(prev)
    ensures NextToken(s, prev) == Start(s)
  {
  }

  lemma Punctuation(c: char, t: TokenType, rest: string, prev: TokenType)
    requires (c, t) in {('{', TokSectionB), ('}', TokSectionE), ('[', TokArrayB), (']', TokArrayE),
      (',', TokComma), ('=', TokEq)}
    ensures NextToken([c] + rest, prev) == Token(t, [c], rest)
  {
    assert ([c] + rest)[1..] == rest;
  }

  lemma {:induction false} IdentifierExtent(key: string, rest: string)
    requires (forall i :: 0 <= i < |key| ==> InIdentifier(key[i])) && EndsWord(rest)
    ensures IdentifierLength(key + rest) == |key|
  {
    if key == "" {
      assert key + rest == rest;
    } else {
      IdentifierExtent(key[1..], rest);
      assert (key + rest)[1..] == key[1..] + rest;
    }
  }

  lemma BareToken(key: string, rest: string)
    requires BareKey(key) && EndsWord(rest)
    ensures Start(key + rest) == Token(TokIdentifier, key, rest)
  {
    var s := key + rest;
    IdentifierExtent(key, rest);
    assert s[0] == key[0] && InIdentifier(key[0]);
    assert EatSpace(s) == s;
    assert s[..|key|] == key && s[|key|..] == rest;
  }

  lemma {:induction false} QuotedExtent(s: string, rest: string)
    requires NoNul(s)
    ensures EscapedLength(Quoted(s, '"', '\\', true) + "\"" + rest) == |Quoted(s, '"', '\\', true)| + 1
  {
    var q := Quoted(s, '"', '\\', true);
    var t := q + "\"" + rest;
    if s == "" {
      assert t[0] == '"';
    } else {
      QuotedExtent(s[1..], rest);
      var c, more := QuotedChar(s[0], '"', '\\', true), Quoted(s[1..], '"', '\\', true) + "\"" + rest;
      assert t == c + more && t[|c|..] == more;
    }
  }

  /** A string in quotes is one token, and its text comes back. */
  lemma QuotedToken(s: string, rest: string, prev: TokenType)
    requires NoNul(s)
    ensures NextToken(InQuotes(s) + rest, prev) == Token(TokEscaped, InQuotes(s), rest)
    ensures Inner(InQuotes(s)).Some? && Unquoted(Inner(InQuotes(s)).value, '"', '\\') == s
  {
    hide Quoted, Unquoted, EscapedLength;
    var q := Quoted(s, '"', '\\', true);
    var t := InQuotes(s) + rest;
    QuotedExtent(s, rest);
    assert t[1..] == q + "\"" + rest;
    assert t[..|q| + 2] == InQuotes(s) && t[|q| + 2..] == rest;
    assert InQuotes(s)[1..|q| + 1] == q;
    UnquoteUndoesQuote(s, '"', '\\');
  }

  // ---- numbers ----

  lemma {:induction false} NumberExtent(ds: string, rest: string, float: bool)
    requires AllDigits(ds, 10)
    ensures Number(ds + rest, float) == (|ds| + Number(rest, float).0, Number(rest, float).1)
  {
    if ds == "" {
      assert ds + rest == rest;
    } else {
      NumberExtent(ds[1..], rest, float);
      assert (ds + rest)[1..] == ds[1..] + rest;
    }
  }

  predicate IsNumber(v: Scalar) {
    v.Whole? || v.Octal? || v.Point?
  }

  /** A number without its sign. */
  function Body(v: Scalar): string
    requires IsNumber(v)
  {
    match v
    case Whole(_, ds) => ds
    case Octal(_, ds) => "0" + ds
    case Point(_, a, b) => a + "." + b
  }

  lemma NumberIsSigned(v: Scalar)
    requires IsNumber(v) && IsScalar(v)
    ensures Body(v) != "" && (IsDigit(Body(v)[0]) || (Body(v)[0] == '.' && v.Point?))
    ensures ScalarText(v) == SignText(v.sign) + Body(v)
  {
  }

  lemma PointExtent(a: string, b: string, rest: string)
    requires AllDigits(a, 10) && AllDigits(b, 10) && Number(rest, true) == (0, true)
    ensures Number(a + "." + b + rest, false) == (|a| + 1 + |b|, true)
  {
    hide Number, AllDigits;
    NumberExtent(b, rest, true);
    PointScan(b + rest);
    NumberExtent(a, "." + (b + rest), false);
    assert a + "." + b + rest == a + ("." + (b + rest));
  }

  lemma PointScan(s: string)
    ensures Number("." + s, false) == (1 + Number(s, true).0, Number(s, true).1)
  {
    assert ("." + s)[1..] == s;
  }

  lemma NumberEnds(rest: string, float: bool)
    requires EndsNumber(rest)
    ensures Number(rest, float) == (0, float)
  {
  }

  lemma BodyExtent(v: Scalar, rest: string)
    requires IsNumber(v) && IsScalar(v) && EndsNumber(rest)
    ensures Number(Body(v) + rest, false) == (|Body(v)|, v.Point?)
  {
    hide AnyDigit, Number, EndsNumber;
    NumberEnds(rest, false);
    NumberEnds(rest, true);
    match v
    case Whole(_, ds) => NumberExtent(ds, rest, false);
    case Octal(_, ds) =>
      assert AllDigits("0" + ds, 10);
      NumberExtent("0" + ds, rest, false);
    case Point(_, a, b) => PointExtent(a, b, rest);
  }

  /** A number's first character, and how far the scan goes from there. */
  lemma NumberScan(v: Scalar, rest: string)
    requires IsNumber(v) && IsScalar(v) && EndsNumber(rest)
    ensures ScalarText(v) != "" && StartsNumber(ScalarText(v)[0])
    ensures Number((ScalarText(v) + rest)[1..], ScalarText(v)[0] == '.') == (|ScalarText(v)| - 1, v.Point?)
  {
    BodyExtent(v, rest);
    NumberIsSigned(v);
    hide IsScalar, Body, ScalarText, EndsNumber;
    var s, body := ScalarText(v) + rest, Body(v) + rest;
    if v.sign.NoSign? {
      assert ScalarText(v) == Body(v) && s == body;
      assert body[0] == Body(v)[0];
    } else {
      assert s[1..] == body;
    }
  }

  lemma NumberToken(v: Scalar, rest: string, prev: TokenType)
    requires IsNumber(v) && IsScalar(v) && EndsNumber(rest) && ValuesAllowed(prev)
    ensures NextToken(ScalarText(v) + rest, prev) == Token(if v.Point? then TokFloat else TokInt, ScalarText(v), rest)
  {
    NumberScan(v, rest);
    hide IsScalar, ScalarText, EndsNumber, Number;
    var text := ScalarText(v);
    var s := text + rest;
    assert s[0] == text[0];
    assert EatSpace(s) == s;
    assert s[..|text|] == text && s[|text|..] == rest;
  }

  lemma {:induction false} DigitsSplit(a: string, b: string, base: nat, sum: nat)
    requires AllDigits(a, base)
    ensures DigitsFrom(a + b, base, sum) == DigitsFrom(b, base, DigitsFrom(a, base, sum))
  {
    if a == "" {
      assert a + b == b;
    } else {
      DigitsSplit(a[1..], b, base, sum * base + AnyDigit(a[0]));
      assert (a + b)[1..] == a[1..] + b;
    }
  }

  lemma {:induction false} DigitsAre(ds: string, base: nat)
    requires base <= 10 && AllDigits(ds, base)
    ensures DigitsFrom(ds, base, 0) == Positional(ds, base)
  {
    if ds != "" {
      var init, last := ds[..|ds| - 1], ds[|ds| - 1];
      DigitsAre(init, base);
      DigitsSplit(init, [last], base, 0);
      assert init + [last] == ds && [last][1..] == "";
      assert DigitsFrom([last], base, DigitsFrom(init, base, 0)) == DigitsFrom(init, base, 0) * base + AnyDigit(last);
    }
  }

  lemma DigitsRead(ds: string, base: nat, rest: string)
    requires base <= 10 && AllDigits(ds, base) && EndsNumber(rest)
    ensures DigitsFrom(ds + rest, base, 0) == Positional(ds, base)
  {
    DigitsSplit(ds, rest, base, 0);
    DigitsAre(ds, base);
  }

  lemma DecimalMagnitude(ds: string, rest: string)
    requires ds != "" && ds[0] != '0' && AllDigits(ds, 10) && EndsNumber(rest)
    ensures Magnitude(ds + rest) == Positional(ds, 10)
  {
    hide DigitsFrom, Positional, AnyDigit;
    DigitsRead(ds, 10, rest);
    assert (ds + rest)[0] == ds[0];
  }

  lemma OctalMagnitude(ds: string, rest: string)
    requires AllDigits(ds, 8) && EndsNumber(rest)
    ensures Magnitude("0" + ds + rest) == Positional(ds, 8)
  {
    hide Positional;
    DigitsRead(ds, 8, rest);
    var s := "0" + ds + rest;
    assert s[0] == '0' && s[1..] == ds + rest;
    NotHex(ds, rest);
    assert DigitsFrom(s, 8, 0) == DigitsFrom(s[1..], 8, 0);
  }

  lemma NotHex(ds: string, rest: string)
    requires AllDigits(ds, 8) && EndsNumber(rest)
    ensures ds + rest == "" || ((ds + rest)[0] != 'x' && (ds + rest)[0] != 'X')
  {
    if ds != "" {
      assert (ds + rest)[0] == ds[0];
    } else {
      assert ds + rest == rest;
    }
  }

  lemma MagnitudeRead(v: Scalar, rest: string)
    requires (v.Whole? || v.Octal?) && IsScalar(v) && EndsNumber(rest)
    ensures Magnitude(Body(v) + rest) == Positional(v.digits, if v.Whole? then 10 else 8)
  {
    hide Magnitude, Positional, AnyDigit;
    if v.Whole? {
      DecimalMagnitude(v.digits, rest);
    } else {
      OctalMagnitude(v.digits, rest);
    }
  }

  /** strtoll with a sign before the magnitude. */
  lemma StrtollSigned(sign: Sign, body: string, n: nat)
    requires body != "" && (IsDigit(body[0]) || body[0] == '.') && Magnitude(body) == n
    ensures Strtoll(SignText(sign) + body) == Clamped(Signed(sign, n))
  {
    hide Magnitude;
    var s := SignText(sign) + body;
    if sign.NoSign? {
      assert s == body;
    } else {
      assert s[1..] == body;
    }
  }

  /** strtoll gives the number as it is written, or the nearest it can. */
  lemma StrtollRead(v: Scalar, rest: string)
    requires (v.Whole? || v.Octal?) && IsScalar(v) && EndsNumber(rest)
    ensures Int(Strtoll(ScalarText(v) + rest)) == ScalarValue(v)
  {
    NumberIsSigned(v);
    hide Magnitude, Body, Positional, Strtoll, AnyDigit, ScalarText, AllDigits, Clamped, Signed;
    MagnitudeRead(v, rest);
    var body := Body(v) + rest;
    StrtollSigned(v.sign, body, Positional(v.digits, if v.Whole? then 10 else 8));
    assert ScalarText(v) + rest == SignText(v.sign) + body;
  }

  lemma {:induction false} SingleExtent(s: string, rest: string)
    requires NoNul(s) && '\'' !in s
    ensures StringLength(s + "'" + rest) == |s| + 1
  {
    if s != "" {
      SingleExtent(s[1..], rest);
      assert (s + "'" + rest)[1..] == s[1..] + "'" + rest;
    }
  }

  lemma SingleToken(s: string, rest: string, prev: TokenType)
    requires NoNul(s) && '\'' !in s
    ensures NextToken("'" + s + "'" + rest, prev) == Token(TokString, "'" + s + "'", rest)
    ensures Inner("'" + s + "'") == Some(s)
  {
    var text := "'" + s + "'";
    var t := text + rest;
    SingleExtent(s, rest);
    assert t[1..] == s + "'" + rest;
    assert t[..|text|] == text && t[|text|..] == rest;
    assert text[1..|s| + 1] == s;
  }

  lemma WordToken(w: string, rest: string, prev: TokenType)
    requires IsWordText(w) && EndsWord(rest) && ValuesAllowed(prev)
    ensures NextToken(w + rest, prev) == Token(TokBare, w, rest)
  {
    var s := w + rest;
    IdentifierExtent(w, rest);
    assert s[0] == w[0] && InIdentifier(w[0]);
    assert EatSpace(s) == s;
    assert s[..|w|] == w && s[|w|..] == rest;
  }

  lemma NumberRead(v: Scalar, rest: string, prev: TokenType)
    requires IsNumber(v) && IsScalar(v) && EndsNumber(rest) && ValuesAllowed(prev)
    ensures ParseType(NextToken(ScalarText(v) + rest, prev)) == Some((ScalarValue(v), Start(rest)))
  {
    hide NextToken, Strtoll, Positional, AnyDigit, AllDigits, EndsNumber, Clamped, Signed, ScalarText;
    NumberToken(v, rest, prev);
    NoValueNext(rest, TokInt);
    NoValueNext(rest, TokFloat);
    if !v.Point? {
      StrtollRead(v, rest);
    }
  }

  lemma TextRead(v: Scalar, rest: string, prev: TokenType)
    requires !IsNumber(v) && IsScalar(v) && Stops(v, rest) && (ValuesAllowed(prev) || InQuotation(v))
    ensures ParseType(NextToken(ScalarText(v) + rest, prev)) == Some((ScalarValue(v), Start(rest)))
  {
    hide NextToken, InQuotes, Unquoted, NoNul, IsWordText, EndsWord;
    match v
    case Double(s) =>
      QuotedToken(s, rest, prev);
      NoValueNext(rest, TokEscaped);
    case Single(s) =>
      SingleToken(s, rest, prev);
      NoValueNext(rest, TokString);
    case Word(s) =>
      WordToken(s, rest, prev);
      NoValueNext(rest, TokBare);
  }

  /** Every spelling of a scalar is read as the value it stands for. */
  lemma ScalarBack(v: Scalar, rest: string, prev: TokenType)
    requires IsScalar(v) && Stops(v, rest) && (ValuesAllowed(prev) || InQuotation(v))
    ensures ParseType(NextToken(ScalarText(v) + rest, prev)) == Some((ScalarValue(v), Start(rest)))
  {
    hide NextToken, ParseType, IsScalar, ScalarText, ScalarValue, EndsNumber, EndsWord;
    if IsNumber(v) {
      NumberRead(v, rest, prev);
    } else {
      TextRead(v, rest, prev);
    }
  }

  // ---- values ----

  /** An element of an array; the comma behind it may be missing before a quotation or
      the closing bracket, and may stand before the bracket. */
  datatype Element = Element(v: Scalar, after: Gap, comma: Option<Gap>)

  datatype Spelling = One(v: Scalar) | Many(open: Gap, elements: seq<Element>)

  predicate IsElement(e: Element) {
    && IsScalar(e.v) && IsGap(e.after) && (e.comma.Some? ==> IsGap(e.comma.value))
    && (e.v.Word? ==> e.after != [])
  }

  predicate AreElements(es: seq<Element>) {
    && (forall i :: 0 <= i < |es| ==> IsElement(es[i]))
    && (forall i :: 0 < i < |es| && es[i - 1].comma.None? ==> InQuotation(es[i].v))
  }

  predicate IsSpelling(v: Spelling) {
    if v.One? then IsScalar(v.v) else IsGap(v.open) && AreElements(v.elements)
  }

  function ElementText(e: Element): string {
    ScalarText(e.v) + GapText(e.after) + if e.comma.Some? then "," + GapText(e.comma.value) else ""
  }

  function ArrayText(es: seq<Element>, i: nat): string
    requires i <= |es|
    decreases |es| - i
  {
    if i == |es| then "]" else ElementText(es[i]) + ArrayText(es, i + 1)
  }

  function SpellingText(v: Spelling): string {
    if v.One? then ScalarText(v.v) else "[" + GapText(v.open) + ArrayText(v.elements, 0)
  }

  function ElementValues(es: seq<Element>): (vs: seq<Value>)
    requires AreElements(es)
    ensures |vs| == |es|
  {
    seq(|es|, i requires 0 <= i < |es| => ScalarValue(es[i].v))
  }

  function SpelledValues(v: Spelling): seq<Value>
    requires IsSpelling(v)
  {
    if v.One? then [ScalarValue(v.v)] else ElementValues(v.elements)
  }

  /** A scalar that is not the end of an array. */
  lemma ScalarIsNoEnd(v: Scalar, rest: string, prev: TokenType)
    requires IsScalar(v) && Stops(v, rest) && (ValuesAllowed(prev) || InQuotation(v))
    ensures NextToken(ScalarText(v) + rest, prev).t !in {TokArrayB, TokArrayE}
  {
    hide NextToken, ScalarValue, ScalarText, Stops, IsScalar;
    ScalarBack(v, rest, prev);
  }

  /** What follows the scalar of an element. */
  function Behind(e: Element, more: string): string {
    GapText(e.after) + ((if e.comma.Some? then "," + GapText(e.comma.value) else "") + more)
  }

  lemma ElementStops(e: Element, more: string)
    requires IsElement(e) && (e.comma.Some? || StartsElement(more))
    ensures Stops(e.v, Behind(e, more))
  {
    var tail := (if e.comma.Some? then "," + GapText(e.comma.value) else "") + more;
    if e.after != [] {
      GapStarts(e.after);
      assert (GapText(e.after) + tail)[0] == GapText(e.after)[0];
    } else {
      assert GapText(e.after) + tail == tail;
    }
  }

  /** What may follow an element without a comma. */
  predicate StartsElement(s: string) {
    s != "" && (s[0] == ']' || s[0] == '"' || s[0] == '\'')
  }

  lemma ArrayStarts(es: seq<Element>, i: nat, rest: string)
    requires AreElements(es) && i <= |es| && (i < |es| ==> InQuotation(es[i].v))
    ensures StartsElement(ArrayText(es, i) + rest)
  {
    if i < |es| {
      assert (ArrayText(es, i) + rest)[0] == ScalarText(es[i].v)[0];
    }
  }

  /** The comma, if there is one, and the gap behind it. */
  lemma CommaSkipped(comma: Option<Gap>, rest: string)
    requires if comma.Some? then IsGap(comma.value) else StartsElement(rest)
    ensures SkipComma(Start((if comma.Some? then "," + GapText(comma.value) else "") + rest))
      == NextToken(rest, if comma.Some? then TokComma else TokSectionE)
  {
    hide NextToken, GapText, IsGap;
    if comma.Some? {
      var more := GapText(comma.value) + rest;
      assert "," + GapText(comma.value) + rest == "," + more;
      Punctuation(',', TokComma, more, TokSectionE);
      GapSkipped(comma.value, rest, TokComma);
    } else {
      assert "" + rest == rest;
      NoComma(rest);
    }
  }

  lemma NoComma(rest: string)
    requires StartsElement(rest)
    ensures Start(rest).t != TokComma
  {
  }

  /** One element: its value, and the parser behind its comma. */
  lemma ElementBack(e: Element, more: string, prev: TokenType)
    requires IsElement(e) && (e.comma.Some? || StartsElement(more))
    requires ValuesAllowed(prev) || InQuotation(e.v)
    ensures var p := NextToken(ElementText(e) + more, prev);
      && p.t != TokArrayE && ParseType(p).Some? && ParseType(p).value.0 == ScalarValue(e.v)
      && SkipComma(ParseType(p).value.1) == NextToken(more, if e.comma.Some? then TokComma else TokSectionE)
  {
    hide NextToken, ParseType, ScalarText, ScalarValue, Stops, SkipComma;
    var comma := if e.comma.Some? then "," + GapText(e.comma.value) else "";
    assert ElementText(e) + more == ScalarText(e.v) + Behind(e, more);
    ElementStops(e, more);
    ScalarBack(e.v, Behind(e, more), prev);
    ScalarIsNoEnd(e.v, Behind(e, more), prev);
    GapSkipped(e.after, comma + more, TokSectionE);
    CommaSkipped(e.comma, more);
  }

  lemma ElementsNext(p: Token, vs: seq<Value>, end: Token)
    requires IsToken(p) && p.t != TokArrayE && ParseType(p).Some?
    requires ParseElements(SkipComma(ParseType(p).value.1)) == Some((vs, end))
    ensures ParseElements(p) == Some(([ParseType(p).value.0] + vs, end))
  {
    hide ParseType, SkipComma;
  }

  lemma ValuesFrom(es: seq<Element>, i: nat)
    requires AreElements(es) && i < |es|
    ensures IsScalar(es[i].v) && ElementValues(es)[i..] == [ScalarValue(es[i].v)] + ElementValues(es)[i + 1..]
  {
  }

  lemma {:induction false} ElementsBack(es: seq<Element>, i: nat, rest: string, prev: TokenType)
    requires AreElements(es) && i <= |es| && (i < |es| ==> ValuesAllowed(prev) || InQuotation(es[i].v))
    ensures ParseElements(NextToken(ArrayText(es, i) + rest, prev))
      == Some((ElementValues(es)[i..], Token(TokArrayE, "]", rest)))
    decreases |es| - i
  {
    hide NextToken, ParseType, ParseElements, ScalarValue, IsElement, ElementText, SkipComma, ElementValues;
    if i == |es| {
      Punctuation(']', TokArrayE, rest, prev);
      NoElements(rest);
      assert ElementValues(es)[i..] == [];
    } else {
      var e, more := es[i], ArrayText(es, i + 1) + rest;
      assert ArrayText(es, i) + rest == ElementText(e) + more;
      if e.comma.None? {
        ArrayStarts(es, i + 1, rest);
      }
      ElementBack(e, more, prev);
      ElementsBack(es, i + 1, rest, if e.comma.Some? then TokComma else TokSectionE);
      ElementsNext(NextToken(ElementText(e) + more, prev), ElementValues(es)[i + 1..], Token(TokArrayE, "]", rest));
      ValuesFrom(es, i);
    }
  }

  lemma NoElements(rest: string)
    ensures ParseElements(Token(TokArrayE, "]", rest)) == Some(([], Token(TokArrayE, "]", rest)))
  {
  }

  /** Every spelling of a value is read as what it stands for. */
  lemma SpellingBack(v: Spelling, rest: string)
    requires IsSpelling(v) && (v.One? ==> Stops(v.v, rest))
    ensures ParseValue(NextToken(SpellingText(v) + rest, TokEq)) == Some((SpelledValues(v), Start(rest)))
  {
    hide NextToken, ParseType, ParseElements, ScalarText, ScalarValue, Stops, IsScalar, ArrayText, AreElements;
    if v.One? {
      ScalarBack(v.v, rest, TokEq);
      ScalarIsNoEnd(v.v, rest, TokEq);
    } else {
      var list := ArrayText(v.elements, 0) + rest;
      var text := GapText(v.open) + list;
      assert SpellingText(v) + rest == "[" + text;
      Punctuation('[', TokArrayB, text, TokEq);
      GapSkipped(v.open, list, TokArrayB);
      ElementsBack(v.elements, 0, rest, TokArrayB);
      NoValueNext(rest, TokArrayE);
      assert ElementValues(v.elements)[0..] == ElementValues(v.elements);
    }
  }

  // ---- entries ----

  datatype Name = PlainName(text: string) | DoubleName(text: string) | SingleName(text: string)

  predicate IsName(n: Name) {
    match n
    case PlainName(text) => BareKey(text)
    case DoubleName(text) => text != "" && NoNul(text)
    case SingleName(text) => text != "" && NoNul(text) && '\'' !in text
  }

  function NameText(n: Name): string {
    match n
    case PlainName(text) => text
    case DoubleName(text) => InQuotes(text)
    case SingleName(text) => "'" + text + "'"
  }

  /** An entry, with the gaps between its tokens. */
  datatype Item =
    | Setting(before: Gap, name: Name, g1: Gap, g2: Gap, v: Spelling, after: Gap)
    | Block(before: Gap, name: Name, g1: Gap, open: Gap, items: seq<Item>, last: Gap, after: Gap)

  /** It ends with a number or a word. */
  predicate Open(it: Item) {
    it.Setting? && it.v.One? && !InQuotation(it.v.v) && it.after == []
  }

  predicate IsItem(it: Item)
    decreases it
  {
    && IsGap(it.before) && IsName(it.name) && IsGap(it.g1) && IsGap(it.after)
    && (if it.Setting? then IsGap(it.g2) && IsSpelling(it.v)
      else IsGap(it.open) && IsGap(it.last) && AreItems(it.items))
  }

  predicate AreItems(its: seq<Item>)
    decreases its
  {
    && (forall it <- its :: IsItem(it))
    && (forall i :: 0 < i < |its| && Open(its[i - 1]) ==> its[i].before != [])
  }

  function ItemText(it: Item): string
    decreases it, 1
  {
    GapText(it.before) + NameText(it.name) + GapText(it.g1)
    + if it.Setting? then "=" + GapText(it.g2) + SpellingText(it.v) + GapText(it.after)
      else "{" + GapText(it.open) + ItemsText(it.items, 0) + GapText(it.last) + "}" + GapText(it.after)
  }

  function ItemsText(its: seq<Item>, i: nat): string
    requires i <= |its|
    decreases its, |its| - i, 0
  {
    if i == |its| then "" else ItemText(its[i]) + ItemsText(its, i + 1)
  }

  /** What an entry says. */
  function Meaning(it: Item): (e: Entry)
    requires IsItem(it)
    ensures IsEntry(e)
    decreases it
  {
    if it.Setting? then Assign(Segments(it.name.text), SpelledValues(it.v))
    else
      var body := Meanings(it.items);
      assert forall x <- body :: IsEntry(x);
      Section(Segments(it.name.text), body)
  }

  function Meanings(its: seq<Item>): (es: seq<Entry>)
    requires AreItems(its)
    ensures |es| == |its| && AreEntries(es)
    ensures forall i :: 0 <= i < |its| ==> es[i] == Meaning(its[i])
    decreases its
  {
    seq(|its|, i requires 0 <= i < |its| => Meaning(its[i]))
  }

  lemma HeadBack(n: Name, after: string)
    requires IsName(n) && EndsWord(after)
    ensures ParseHead(Start(NameText(n) + after)) == Some((n.text, Start(after)))
  {
    hide NextToken, InQuotes, Unquoted, NoNul, EndsWord;
    match n
    case PlainName(text) =>
      BareToken(text, after);
      NoValueNext(after, TokIdentifier);
    case DoubleName(text) =>
      QuotedToken(text, after, TokSectionE);
      NoValueNext(after, TokEscaped);
    case SingleName(text) =>
      SingleToken(text, after, TokSectionE);
      NoValueNext(after, TokString);
  }

  lemma GapEnds(g: Gap, rest: string)
    requires IsGap(g) && (g == [] ==> EndsWord(rest) && EndsNumber(rest))
    ensures EndsWord(GapText(g) + rest) && EndsNumber(GapText(g) + rest)
  {
    if g == [] {
      assert GapText(g) + rest == rest;
    } else {
      GapStarts(g);
      assert (GapText(g) + rest)[0] == GapText(g)[0];
    }
  }

  /** Where an entry begins: its gap, its name and the gap behind that. */
  lemma EntryHead(before: Gap, n: Name, g1: Gap, c: char, rest: string)
    requires IsGap(before) && IsName(n) && IsGap(g1) && (c == '=' || c == '{')
    ensures ParseHead(Start(GapText(before) + NameText(n) + GapText(g1) + ([c] + rest)))
      == Some((n.text, Start([c] + rest)))
  {
    hide NextToken, NameText, GapText, ParseHead;
    var after := GapText(g1) + ([c] + rest);
    assert GapText(before) + NameText(n) + GapText(g1) + ([c] + rest) == GapText(before) + (NameText(n) + after);
    GapSkipped(before, NameText(n) + after, TokSectionE);
    GapEnds(g1, [c] + rest);
    HeadBack(n, after);
    GapSkipped(g1, [c] + rest, TokSectionE);
  }

  /** What may follow an item. */
  predicate Follows(it: Item, rest: string) {
    Open(it) ==> EndsWord(rest) && EndsNumber(rest)
  }

  lemma SpellingStops(it: Item, rest: string)
    requires it.Setting? && IsItem(it) && Follows(it, rest) && it.v.One?
    ensures Stops(it.v.v, GapText(it.after) + rest)
  {
    hide GapText, EndsNumber, EndsWord, IsScalar;
    if !InQuotation(it.v.v) {
      GapEnds(it.after, rest);
    }
  }

  lemma SettingBack(it: Item, rest: string)
    requires it.Setting? && IsItem(it) && Follows(it, rest)
    ensures ParseEntry(Start(ItemText(it) + rest)) == Some((Meaning(it), Start(rest)))
  {
    hide NextToken, ParseHead, ParseValue, GapText, NameText, SpellingText, Segments, EndsNumber, EndsWord, IsScalar,
      ScalarValue, ElementValues, SpelledValues, AreElements;
    var end := GapText(it.after) + rest;
    var value := SpellingText(it.v) + end;
    var values := GapText(it.g2) + value;
    SettingText(it, rest);
    EntryHead(it.before, it.name, it.g1, '=', values);
    Punctuation('=', TokEq, values, TokSectionE);
    GapSkipped(it.g2, value, TokEq);
    if it.v.One? {
      SpellingStops(it, rest);
    }
    SpellingBack(it.v, end);
    GapSkipped(it.after, rest, TokSectionE);
  }

  lemma SettingText(it: Item, rest: string)
    requires it.Setting?
    ensures ItemText(it) + rest == GapText(it.before) + NameText(it.name) + GapText(it.g1)
      + ("=" + (GapText(it.g2) + (SpellingText(it.v) + (GapText(it.after) + rest))))
  {
    hide GapText, NameText, SpellingText;
  }

  lemma BlockText(it: Item, rest: string)
    requires it.Block?
    ensures ItemText(it) + rest == GapText(it.before) + NameText(it.name) + GapText(it.g1)
      + ("{" + (GapText(it.open) + (ItemsText(it.items, 0) + (GapText(it.last) + ("}" + (GapText(it.after) + rest))))))
  {
    hide GapText, NameText, ItemsText;
    Regroup(GapText(it.before) + NameText(it.name) + GapText(it.g1), GapText(it.open), ItemsText(it.items, 0),
      GapText(it.last), GapText(it.after), rest);
  }

  lemma Regroup(a: string, b: string, c: string, d: string, e: string, rest: string)
    ensures a + ("{" + b + c + d + "}" + e) + rest == a + ("{" + (b + (c + (d + ("}" + (e + rest))))))
  {
  }

  lemma BlockBack(it: Item, rest: string)
    requires it.Block? && IsItem(it)
    ensures ParseEntry(Start(ItemText(it) + rest)) == Some((Meaning(it), Start(rest)))
    decreases it, 0
  {
    hide NextToken, ParseHead, GapText, NameText, ItemText, ItemsText, Segments, AreItems;
    var end := "}" + (GapText(it.after) + rest);
    var close := GapText(it.last) + end;
    var body := ItemsText(it.items, 0) + close;
    var inner := GapText(it.open) + body;
    BlockText(it, rest);
    EntryHead(it.before, it.name, it.g1, '{', inner);
    Punctuation('{', TokSectionB, inner, TokSectionE);
    GapSkipped(it.open, body, TokSectionB);
    NoValueNext(body, TokSectionB);
    GapSkipped(it.last, end, TokSectionE);
    Punctuation('}', TokSectionE, GapText(it.after) + rest, TokSectionE);
    GapSkipped(it.after, rest, TokSectionE);
    GapEnds(it.last, end);
    BodyBack(it.items, 0, close);
    assert Meanings(it.items)[0..] == Meanings(it.items);
  }

  lemma EntryIsNoEnd(p: Token)
    requires IsToken(p)
    ensures ParseEntry(p).Some? ==> p.t != TokSectionE && p.t != TokEof
  {
  }

  /** Every spelling of an entry is read as what it says. */
  lemma ItemBack(it: Item, rest: string)
    requires IsItem(it) && Follows(it, rest)
    ensures ParseEntry(Start(ItemText(it) + rest)) == Some((Meaning(it), Start(rest)))
    decreases it, 1
  {
    if it.Setting? {
      SettingBack(it, rest);
    } else {
      BlockBack(it, rest);
    }
  }

  lemma ItemsNext(its: seq<Item>, i: nat, close: string)
    requires i < |its|
    ensures ItemsText(its, i) + close == ItemText(its[i]) + (ItemsText(its, i + 1) + close)
  {
    hide ItemText;
  }

  lemma NextIsApart(its: seq<Item>, i: nat)
    requires AreItems(its) && i + 1 < |its| && Open(its[i])
    ensures IsItem(its[i + 1]) && its[i + 1].before != []
  {
  }

  /** What follows the i-th of some items. */
  lemma NextFollows(its: seq<Item>, i: nat, close: string)
    requires AreItems(its) && i < |its| && EndsWord(close) && EndsNumber(close)
    ensures Follows(its[i], ItemsText(its, i + 1) + close)
  {
    hide IsItem, AreItems, EndsWord, EndsNumber, ItemText, Open;
    if i + 1 == |its| {
      assert ItemsText(its, i + 1) + close == close;
    } else if Open(its[i]) {
      hide ItemsText;
      NextIsApart(its, i);
      ItemsNext(its, i + 1, close);
      GapStartsItem(its[i + 1], ItemsText(its, i + 2) + close);
    }
  }

  lemma GapStartsItem(it: Item, rest: string)
    requires IsItem(it) && it.before != []
    ensures EndsWord(ItemText(it) + rest) && EndsNumber(ItemText(it) + rest)
  {
    GapStarts(it.before);
    assert (ItemText(it) + rest)[0] == GapText(it.before)[0];
  }

  lemma OneOf(its: seq<Item>, i: nat)
    requires AreItems(its) && i < |its|
    ensures IsItem(its[i]) && Meanings(its)[i..] == [Meaning(its[i])] + Meanings(its)[i + 1..]
  {
  }

  lemma BodyEnds(p: Token)
    requires IsToken(p) && p.t == TokSectionE
    ensures ParseBody(p) == Some(([], p))
  {
  }

  lemma BodyNext(p: Token, e: Entry, q: Token, es: seq<Entry>, end: Token)
    requires IsToken(p) && IsToken(q) && ParseEntry(p) == Some((e, q)) && ParseBody(q) == Some((es, end))
    ensures ParseBody(p) == Some(([e] + es, end))
  {
    hide ParseEntry;
    EntryIsNoEnd(p);
  }

  lemma FileEnds(p: Token)
    requires IsToken(p) && p.t == TokEof
    ensures ParseFile(p) == Some([])
  {
  }

  lemma FileNext(p: Token, e: Entry, q: Token, es: seq<Entry>)
    requires IsToken(p) && IsToken(q) && ParseEntry(p) == Some((e, q)) && ParseFile(q) == Some(es)
    ensures ParseFile(p) == Some([e] + es)
  {
    hide ParseEntry;
    EntryIsNoEnd(p);
  }

  lemma {:induction false} BodyBack(its: seq<Item>, i: nat, close: string)
    requires i <= |its| && AreItems(its) && Start(close).t == TokSectionE && EndsWord(close) && EndsNumber(close)
    ensures ParseBody(Start(ItemsText(its, i) + close)) == Some((Meanings(its)[i..], Start(close)))
    decreases its, |its| - i
  {
    hide NextToken, ParseEntry, ParseBody, ItemText, IsItem, EndsWord, EndsNumber, Follows, Meaning, Meanings, AreItems;
    if i == |its| {
      assert ItemsText(its, i) + close == close && Meanings(its)[i..] == [];
      BodyEnds(Start(close));
    } else {
      hide ItemsText;
      OneOf(its, i);
      var rest := ItemsText(its, i + 1) + close;
      ItemsNext(its, i, close);
      NextFollows(its, i, close);
      ItemBack(its[i], rest);
      BodyBack(its, i + 1, close);
      BodyNext(Start(ItemText(its[i]) + rest), Meaning(its[i]), Start(rest), Meanings(its)[i + 1..], Start(close));
    }
  }

  lemma {:induction false} FileBack(its: seq<Item>, i: nat, close: string)
    requires i <= |its| && AreItems(its) && Start(close).t == TokEof && EndsWord(close) && EndsNumber(close)
    ensures ParseFile(Start(ItemsText(its, i) + close)) == Some(Meanings(its)[i..])
    decreases |its| - i
  {
    hide NextToken, ParseEntry, ParseFile, ItemText, IsItem, EndsWord, EndsNumber, Follows, Meaning, Meanings, AreItems;
    if i == |its| {
      assert ItemsText(its, i) + close == close && Meanings(its)[i..] == [];
      FileEnds(Start(close));
    } else {
      hide ItemsText;
      OneOf(its, i);
      var rest := ItemsText(its, i + 1) + close;
      ItemsNext(its, i, close);
      NextFollows(its, i, close);
      ItemBack(its[i], rest);
      FileBack(its, i + 1, close);
      FileNext(Start(ItemText(its[i]) + rest), Meaning(its[i]), Start(rest), Meanings(its)[i + 1..]);
    }
  }

  function FileText(its: seq<Item>, last: Gap, end: End): string {
    ItemsText(its, 0) + (GapText(last) + EndText(end))
  }

  /** However a file is laid out, with comments and white space between any two tokens and
      at its end, the parser finds the entries it says. */
  lemma LayoutIsFree(its: seq<Item>, last: Gap, end: End)
    requires AreItems(its) && IsGap(last) && IsEnd(end)
    ensures Entries(FileText(its, last, end)) == Some(Meanings(its))
  {
    hide NextToken, ItemsText, GapText, AreItems, ParseFile;
    GapSkipped(last, EndText(end), TokSectionE);
    EndIsEof(end, TokSectionE);
    GapEnds(last, EndText(end));
    FileBack(its, 0, GapText(last) + EndText(end));
    assert Meanings(its)[0..] == Meanings(its);
  }

  // ---- hexadecimal numbers ----

  const HEX := "0123456789abcdef"

  function Hexadecimal(n: nat): (h: string)
    ensures h != ""
  {
    if n < 16 then [HEX[n]] else Hexadecimal(n / 16) + [HEX[n % 16]]
  }

  lemma HexDigit(d: nat)
    requires d < 16
    ensures AnyDigit(HEX[d]) == d && InIdentifier(HEX[d])
  {
  }

  lemma {:induction false} HexDigits(n: nat, rest: string)
    ensures DigitsFrom(Hexadecimal(n) + rest, 16, 0) == DigitsFrom(rest, 16, n)
    decreases n
  {
    hide AnyDigit, InIdentifier;
    if n < 16 {
      HexDigit(n);
      assert (Hexadecimal(n) + rest)[1..] == rest;
    } else {
      var d := [HEX[n % 16]];
      HexDigit(n % 16);
      HexDigits(n / 16, d + rest);
      assert Hexadecimal(n) + rest == Hexadecimal(n / 16) + (d + rest);
      assert (d + rest)[1..] == rest;
      assert n / 16 * 16 + n % 16 == n;
    }
  }

  lemma {:induction false} HexIsIdentifier(n: nat)
    ensures forall i :: 0 <= i < |Hexadecimal(n)| ==> InIdentifier(Hexadecimal(n)[i])
    ensures AnyDigit(Hexadecimal(n)[0]) < 16
  {
    if n < 16 {
      HexDigit(n);
    } else {
      HexIsIdentifier(n / 16);
      HexDigit(n % 16);
    }
  }

  lemma HexMagnitude(n: nat, rest: string)
    requires EndsWord(rest)
    ensures Strtoll("0x" + Hexadecimal(n) + rest) == Clamped(n)
  {
    hide Hexadecimal, AnyDigit;
    var s := "0x" + Hexadecimal(n) + rest;
    HexIsIdentifier(n);
    HexDigits(n, rest);
    WordEndsDigits(rest);
    assert s[2..] == Hexadecimal(n) + rest && s[2] == Hexadecimal(n)[0];
  }

  lemma WordEndsDigits(rest: string)
    requires EndsWord(rest)
    ensures rest == "" || AnyDigit(rest[0]) == 36
  {
  }

  /** The token of a hexadecimal number ends behind its zero. */
  lemma HexToken(n: nat, rest: string)
    requires EndsWord(rest)
    ensures NextToken("0x" + Hexadecimal(n) + rest, TokEq) == Token(TokInt, "0", "x" + Hexadecimal(n) + rest)
    ensures Start("x" + Hexadecimal(n) + rest) == Token(TokIdentifier, "x" + Hexadecimal(n), rest)
  {
    hide Hexadecimal, EndsWord;
    var x := "x" + Hexadecimal(n);
    var s := "0x" + Hexadecimal(n) + rest;
    assert s[1..] == x + rest && s[0] == '0' && s[..1] == "0";
    HexIsIdentifier(n);
    BareToken(x, rest);
  }

  /** An assignment whose value is a token as given. */
  lemma AssignmentRead(name: Name, value: string, v: Value, next: Token)
    requires IsName(name) && ParseValue(NextToken(value, TokEq)) == Some(([v], next))
    ensures ParseEntry(Start(NameText(name) + ("=" + value))) == Some((Assign(Segments(name.text), [v]), next))
  {
    hide NextToken, NameText, GapText, Segments, ParseValue, ParseHead;
    NoGap();
    EntryHead([], name, [], '=', value);
    assert "" + NameText(name) + "" + (['='] + value) == NameText(name) + ("=" + value);
    Punctuation('=', TokEq, value, TokSectionE);
  }

  lemma HexValue(n: nat, rest: string)
    requires EndsWord(rest)
    ensures ParseValue(NextToken("0x" + Hexadecimal(n) + rest, TokEq))
      == Some(([Int(Clamped(n))], Token(TokIdentifier, "x" + Hexadecimal(n), rest)))
  {
    hide NextToken, Hexadecimal, Strtoll, EndsWord, Clamped;
    HexToken(n, rest);
    HexMagnitude(n, rest);
    assert "0" + ("x" + Hexadecimal(n) + rest) == "0x" + Hexadecimal(n) + rest;
    NoValueNext("x" + Hexadecimal(n) + rest, TokInt);
  }

  /** A name with neither `=` nor `{` behind it. */
  lemma LoneName(x: string, rest: string)
    requires x != "" && Start(rest).t !in {TokEq, TokSectionB}
    ensures ParseEntry(Token(TokIdentifier, x, rest)) == None
  {
    hide NextToken, Segments;
    NoValueNext(rest, TokIdentifier);
  }

  lemma SecondRefused(p: Token, e: Entry, q: Token)
    requires IsToken(p) && ParseEntry(p) == Some((e, q)) && q.t != TokEof && ParseEntry(q) == None
    ensures ParseFile(p) == None
  {
    hide ParseEntry;
    EntryIsNoEnd(p);
  }

  /** So its value is read, and what follows the zero is taken for the next name: the file
      is refused unless `=` or `{` stands there. */
  lemma HexRefused(name: Name, n: nat, rest: string)
    requires IsName(name) && EndsWord(rest)
    ensures ParseEntry(Start(NameText(name) + ("=" + ("0x" + Hexadecimal(n) + rest))))
      == Some((Assign(Segments(name.text), [Int(Clamped(n))]), Token(TokIdentifier, "x" + Hexadecimal(n), rest)))
    ensures Start(rest).t !in {TokEq, TokSectionB} ==>
      Entries(NameText(name) + ("=" + ("0x" + Hexadecimal(n) + rest))) == None
  {
    hide NextToken, Hexadecimal, NameText, Segments, EndsWord, ParseEntry, ParseFile, ParseValue, Clamped;
    var value := "0x" + Hexadecimal(n) + rest;
    var next := Token(TokIdentifier, "x" + Hexadecimal(n), rest);
    HexValue(n, rest);
    AssignmentRead(name, value, Int(Clamped(n)), next);
    if Start(rest).t !in {TokEq, TokSectionB} {
      LoneName("x" + Hexadecimal(n), rest);
      SecondRefused(Start(NameText(name) + ("=" + value)), Assign(Segments(name.text), [Int(Clamped(n))]), next);
    }
  }

  lemma NoGap()
    ensures GapText([]) == ""
  {
  }
}
