/** The tokeniser of the configuration language (libdm-config.c): what the next token
    of a remaining text is, depending on the token before it. */
module ConfigTokens {
  import opened CStrings
  import opened Decimal

  datatype TokenType =
    | TokInt | TokFloat | TokString | TokEscaped | TokBare | TokEq
    | TokSectionB | TokSectionE | TokArrayB | TokArrayE | TokIdentifier | TokComma | TokEof

  /** A token, its text, and the text that follows it. */
  datatype Token = Token(t: TokenType, lexeme: string, rest: string)

  predicate IsSpace(c: char) {
    c == ' ' || 9 <= c as int <= 13
  }

  // ---- white space and comments ----

  /** A comment ends before a newline or a NUL. */
  function SkipLine(s: string): (r: string)
    ensures |r| <= |s|
  {
    if s == "" || s[0] == '\n' || s[0] == NUL then s else SkipLine(s[1..])
  }

  function EatSpace(s: string): (r: string)
    ensures |r| <= |s|
    ensures r != "" ==> !IsSpace(r[0]) && r[0] != '#'
    decreases |s|
  {
    if s == "" then s
    else if s[0] == '#' then EatSpace(SkipLine(s[1..]))
    else if IsSpace(s[0]) then EatSpace(s[1..])
    else s
  }

  // ---- how long a token is ----

  /** After an opening double quote; a backslash hides the next character. */
  function EscapedLength(s: string): (n: nat)
    ensures n <= |s|
  {
    if s == "" || s[0] == NUL then 0
    else if s[0] == '"' then 1
    else if s[0] == '\\' && |s| > 1 && s[1] != NUL then 2 + EscapedLength(s[2..])
    else 1 + EscapedLength(s[1..])
  }

  /** After an opening single quote. */
  function StringLength(s: string): (n: nat)
    ensures n <= |s|
  {
    if s == "" || s[0] == NUL then 0
    else if s[0] == '\'' then 1
    else 1 + StringLength(s[1..])
  }

  /** Digits with at most one point; the type says whether a point was met. */
  function Number(s: string, float: bool): (r: (nat, bool))
    ensures r.0 <= |s|
  {
    if s == "" then (0, float)
    else if IsDigit(s[0]) || (s[0] == '.' && !float) then
      var (n, f) := Number(s[1..], float || s[0] == '.');
      (1 + n, f)
    else (0, float)
  }

  predicate InIdentifier(c: char) {
    c != NUL && !IsSpace(c) && c != '#' && c != '=' && c != '{' && c != '}'
  }

  function IdentifierLength(s: string): (n: nat)
    ensures n <= |s|
  {
    if s == "" || !InIdentifier(s[0]) then 0 else 1 + IdentifierLength(s[1..])
  }

  /** Whether a value, not an identifier, may follow the token. */
  predicate ValuesAllowed(prev: TokenType) {
    prev == TokEq || prev == TokArrayB || prev == TokComma
  }

  predicate StartsNumber(c: char) {
    IsDigit(c) || c == '.' || c == '+' || c == '-'
  }

  /** The type and the length of the token at the start of s. */
  function Classify(s: string, prev: TokenType): (r: (TokenType, nat))
    requires s != "" && s[0] != NUL && !IsSpace(s[0]) && s[0] != '#'
    ensures 0 < r.1 <= |s| && r.0 != TokEof
  {
    if s[0] == '{' then (TokSectionB, 1)
    else if s[0] == '}' then (TokSectionE, 1)
    else if s[0] == '[' then (TokArrayB, 1)
    else if s[0] == ']' then (TokArrayE, 1)
    else if s[0] == ',' then (TokComma, 1)
    else if s[0] == '=' then (TokEq, 1)
    else if s[0] == '"' then (TokEscaped, 1 + EscapedLength(s[1..]))
    else if s[0] == '\'' then (TokString, 1 + StringLength(s[1..]))
    else if StartsNumber(s[0]) && ValuesAllowed(prev) then
      var (n, float) := Number(s[1..], s[0] == '.');
      (if float then TokFloat else TokInt, 1 + n)
    else
      (if ValuesAllowed(prev) then TokBare else TokIdentifier, IdentifierLength(s))
  }

  /** _get_token: every token but the last takes at least one character. */
  function NextToken(s: string, prev: TokenType): (r: Token)
    ensures r.t == TokEof <==> r.lexeme == ""
    ensures |r.lexeme| + |r.rest| <= |s|
  {
    var u := EatSpace(s);
    if u == "" || u[0] == NUL then Token(TokEof, "", u)
    else
      var (t, n) := Classify(u, prev);
      Token(t, u[..n], u[n..])
  }

  // ---- strtoll with base 0 ----

  const INT64_MAX: int := 0x7FFF_FFFF_FFFF_FFFF

  function AnyDigit(c: char): nat {
    if IsDigit(c) then DigitValue(c)
    else if 'a' <= c <= 'z' then c as int - 'a' as int + 10
    else if 'A' <= c <= 'Z' then c as int - 'A' as int + 10
    else 36
  }

  function DigitsFrom(s: string, base: nat, sum: nat): nat {
    if s == "" || AnyDigit(s[0]) >= base then sum
    else DigitsFrom(s[1..], base, sum * base + AnyDigit(s[0]))
  }

  function Magnitude(s: string): nat {
    if |s| > 2 && s[0] == '0' && (s[1] == 'x' || s[1] == 'X') && AnyDigit(s[2]) < 16 then DigitsFrom(s[2..], 16, 0)
    else if |s| > 0 && s[0] == '0' then DigitsFrom(s, 8, 0)
    else DigitsFrom(s, 10, 0)
  }

  function Strtoll(s: string): int {
    if |s| > 0 && s[0] == '-' then
      if Magnitude(s[1..]) > INT64_MAX + 1 then -INT64_MAX - 1 else 0 - Magnitude(s[1..])
    else
      var n := if |s| > 0 && s[0] == '+' then Magnitude(s[1..]) else Magnitude(s);
      if n > INT64_MAX then INT64_MAX else n
  }

  // ---- the cursor ----

  /** struct parser: the current token is text[tb..te]. */
  class Cursor {
    const text: string
    var t: TokenType
    var tb: nat
    var te: nat

    ghost predicate Valid()
      reads this
    {
      tb <= te <= |text|
    }

    function Current(): Token
      requires Valid()
      reads this
    {
      Token(t, text[tb..te], text[te..])
    }

    constructor (text: string)
      ensures this.text == text && Valid() && te == 0
    {
      this.text := text;
      t, tb, te := TokEof, 0, 0;
    }

    /** _eat_space */
    method SkipSpace()
      requires Valid() && tb == te
      modifies this`tb, this`te
      ensures Valid() && tb == te && text[te..] == EatSpace(old(text[te..]))
    {
      while tb != |text|
        invariant Valid() && tb == te
        invariant EatSpace(text[te..]) == EatSpace(old(text[te..]))
        decreases |text| - te
      {
        ghost var before := te;
        if text[te] == '#' {
          SkipComment();
        } else if !IsSpace(text[te]) {
          break;
        }
        while te != |text| && IsSpace(text[te])
          invariant before <= te <= |text| && (te == before ==> IsSpace(text[te]))
          invariant EatSpace(text[te..]) == EatSpace(old(text[te..]))
        {
          te := te + 1;
        }
        tb := te;
      }
    }

    method SkipComment()
      requires te < |text| && text[te] == '#'
      modifies this`te
      ensures old(te) < te <= |text| && EatSpace(text[te..]) == EatSpace(old(text[te..]))
    {
      ghost var from := te;
      while te != |text| && text[te] != '\n' && text[te] != NUL
        invariant from <= te <= |text| && (te == from ==> text[te] == '#')
        invariant SkipLine(text[te..]) == SkipLine(text[from..])
      {
        te := te + 1;
      }
      assert SkipLine(text[from..]) == SkipLine(text[from + 1..]);
    }

    /** The loop over an escaped string, from behind its opening quote. */
    method ScanEscaped(from: nat) returns (end: nat)
      requires from <= |text|
      ensures end == from + EscapedLength(text[from..])
    {
      end := from;
      while end != |text| && text[end] != NUL && text[end] != '"'
        invariant from <= end <= |text|
        invariant end + EscapedLength(text[end..]) == from + EscapedLength(text[from..])
      {
        if text[end] == '\\' && end + 1 != |text| && text[end + 1] != NUL {
          end := end + 1;
        }
        end := end + 1;
      }
      if end != |text| && text[end] != NUL {
        end := end + 1;
      }
    }

    method ScanString(from: nat) returns (end: nat)
      requires from <= |text|
      ensures end == from + StringLength(text[from..])
    {
      end := from;
      while end != |text| && text[end] != NUL && text[end] != '\''
        invariant from <= end <= |text|
        invariant end + StringLength(text[end..]) == from + StringLength(text[from..])
      {
        end := end + 1;
      }
      if end != |text| && text[end] != NUL {
        end := end + 1;
      }
    }

    method ScanNumber(from: nat, point: bool) returns (end: nat, float: bool)
      requires from <= |text|
      ensures (end - from, float) == Number(text[from..], point)
    {
      end, float := from, point;
      while end != |text| && (IsDigit(text[end]) || (text[end] == '.' && !float))
        invariant from <= end <= |text|
        invariant Number(text[from..], point).1 == Number(text[end..], float).1
        invariant from + Number(text[from..], point).0 == end + Number(text[end..], float).0
      {
        if !IsDigit(text[end]) {
          float := true;
        }
        end := end + 1;
      }
    }

    method ScanIdentifier(from: nat) returns (end: nat)
      requires from <= |text|
      ensures end == from + IdentifierLength(text[from..])
    {
      end := from;
      while end != |text| && InIdentifier(text[end])
        invariant from <= end <= |text|
        invariant end + IdentifierLength(text[end..]) == from + IdentifierLength(text[from..])
      {
        end := end + 1;
      }
    }

    /** _get_token: the cursor stays inside the text and stands on the next token. */
    method GetToken(prev: TokenType)
      requires Valid()
      modifies this
      ensures Valid() && Current() == NextToken(old(text[te..]), prev)
      ensures old(te) <= tb && (t != TokEof ==> tb < te)
    {
      hide EatSpace, Classify, EscapedLength, StringLength, Number, IdentifierLength;
      tb := te;
      SkipSpace();
      if tb == |text| || text[tb] == NUL {
        t := TokEof;
        return;
      }
      t, te := ScanToken(tb, prev);
      assert text[tb..][..te - tb] == text[tb..te] && text[tb..][te - tb..] == text[te..];
    }

    method ScanToken(from: nat, prev: TokenType) returns (kind: TokenType, end: nat)
      requires from < |text| && text[from] != NUL && !IsSpace(text[from]) && text[from] != '#'
      ensures from < end <= |text| && (kind, end - from) == Classify(text[from..], prev)
    {
      hide EscapedLength, StringLength, Number;
      ghost var s := text[from..];
      assert s[0] == text[from] && s[1..] == text[from + 1..];
      match text[from]
      case '{' => kind, end := TokSectionB, from + 1;
      case '}' => kind, end := TokSectionE, from + 1;
      case '[' => kind, end := TokArrayB, from + 1;
      case ']' => kind, end := TokArrayE, from + 1;
      case ',' => kind, end := TokComma, from + 1;
      case '=' => kind, end := TokEq, from + 1;
      case '"' =>
        kind := TokEscaped;
        end := ScanEscaped(from + 1);
      case '\'' =>
        kind := TokString;
        end := ScanString(from + 1);
      case c =>
        if StartsNumber(c) && ValuesAllowed(prev) {
          var float;
          end, float := ScanNumber(from + 1, c == '.');
          kind := if float then TokFloat else TokInt;
        } else {
          end := ScanIdentifier(from);
          kind := if ValuesAllowed(prev) then TokBare else TokIdentifier;
        }
    }
  }
}
