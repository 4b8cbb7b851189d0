/** NUL-terminated strings in a character buffer. */
module CStrings {
  const NUL: char := 0 as char

  predicate NoNul(s: string) {
    forall i :: 0 <= i < |s| ==> s[i] != NUL
  }

  /** The buffer holds s, terminated, from position p on. */
  predicate Holds(buf: seq<char>, p: nat, s: string) {
    p + |s| < |buf| && buf[p..p + |s|] == s && buf[p + |s|] == NUL && NoNul(s)
  }
}

/** Quoting one character with another, and the in-place inverse (libdm-string.c). */
module Quoting {
  import opened CStrings

  /** What _quote_characters writes. */
  function Quoted(s: string, orig: char, quote: char, both: bool): string {
    if s == "" then ""
    else QuotedChar(s[0], orig, quote, both) + Quoted(s[1..], orig, quote, both)
  }

  function QuotedChar(c: char, orig: char, quote: char, both: bool): string {
    if c == orig || (c == quote && both) then [quote, c] else [c]
  }

  predicate AtQuoted(s: string, orig: char, quote: char) {
    |s| > 1 && s[0] == quote && (s[1] == orig || s[1] == quote)
  }

  /** What _unquote_one_character leaves. */
  function Unquoted(s: string, orig: char, quote: char): string {
    if s == "" then ""
    else if AtQuoted(s, orig, quote) then [s[1]] + Unquoted(s[2..], orig, quote)
    else [s[0]] + Unquoted(s[1..], orig, quote)
  }

  /** Unquoting undoes quoting, for every string and every pair of characters. */
  lemma {:induction false} UnquoteUndoesQuote(s: string, orig: char, quote: char)
    ensures Unquoted(Quoted(s, orig, quote, true), orig, quote) == s
  {
    if s != "" {
      var q, rest := Quoted(s, orig, quote, true), Quoted(s[1..], orig, quote, true);
      UnquoteUndoesQuote(s[1..], orig, quote);
      assert s == [s[0]] + s[1..];
      if s[0] == orig || s[0] == quote {
        assert q[2..] == rest;
      } else {
        assert q[1..] == rest;
      }
    }
  }

  lemma {:induction false} QuotedJoins(a: string, b: string, orig: char, quote: char, both: bool)
    ensures Quoted(a + b, orig, quote, both) == Quoted(a, orig, quote, both) + Quoted(b, orig, quote, both)
  {
    if a == "" {
      assert a + b == b;
    } else {
      QuotedJoins(a[1..], b, orig, quote, both);
      assert (a + b)[1..] == a[1..] + b;
    }
  }

  lemma QuotedNext(s: string, i: nat, orig: char, quote: char, both: bool)
    requires i < |s|
    ensures Quoted(s[..i + 1], orig, quote, both)
      == Quoted(s[..i], orig, quote, both) + QuotedChar(s[i], orig, quote, both)
  {
    assert s[..i + 1] == s[..i] + [s[i]];
    QuotedJoins(s[..i], [s[i]], orig, quote, both);
    assert Quoted([s[i]], orig, quote, both) == QuotedChar(s[i], orig, quote, both) + "";
  }

  lemma QuotedGrows(s: string, i: nat, orig: char, quote: char, both: bool)
    requires i <= |s|
    ensures |Quoted(s[..i], orig, quote, both)| <= |Quoted(s, orig, quote, both)|
  {
    assert s == s[..i] + s[i..];
    QuotedJoins(s[..i], s[i..], orig, quote, both);
  }

  lemma {:induction false} QuotedNoNul(s: string, orig: char, quote: char, both: bool)
    requires NoNul(s) && quote != NUL
    ensures NoNul(Quoted(s, orig, quote, both))
  {
    if s != "" {
      QuotedNoNul(s[1..], orig, quote, both);
    }
  }

  /** How many characters of s are one of the two. */
  function Occurrences(s: string, c1: char, c2: char): nat {
    if s == "" then 0 else (if s[0] == c1 || s[0] == c2 then 1 else 0) + Occurrences(s[1..], c1, c2)
  }

  lemma {:induction false} OccurrencesNext(s: string, i: nat, c1: char, c2: char)
    requires i < |s|
    ensures Occurrences(s[..i + 1], c1, c2) == Occurrences(s[..i], c1, c2) + (if s[i] == c1 || s[i] == c2 then 1 else 0)
  {
    if i > 0 {
      OccurrencesNext(s[1..], i - 1, c1, c2);
      assert s[..i + 1][1..] == s[1..][..i] && s[..i][1..] == s[1..][..i - 1];
    }
  }

  /** Quoting adds one character for each character it quotes. */
  lemma {:induction false} QuotedLength(s: string, orig: char, quote: char, both: bool)
    requires NoNul(s)
    ensures |Quoted(s, orig, quote, both)| == |s| + Occurrences(s, orig, if both then quote else NUL)
  {
    if s != "" {
      QuotedLength(s[1..], orig, quote, both);
    }
  }

  /** _count_chars: adds to both counters. */
  method CountChars(str: string, len0: nat, count0: nat, c1: char, c2: char) returns (len: nat, count: nat)
    ensures len == len0 + |str| && count == count0 + Occurrences(str, c1, c2)
  {
    len, count := len0, count0;
    for i := 0 to |str|
      invariant len == len0 + i && count == count0 + Occurrences(str[..i], c1, c2)
    {
      OccurrencesNext(str, i, c1, c2);
      if str[i] == c1 || str[i] == c2 {
        count := count + 1;
      }
      len := len + 1;
    }
    assert str[..|str|] == str;
  }

  /** dm_escaped_len is exactly the room that dm_escape_double_quotes fills. */
  method EscapedLen(str: string) returns (r: nat)
    requires NoNul(str)
    ensures r == |Quoted(str, '"', '\\', true)| + 1
  {
    var len, count := CountChars(str, 1, 0, '"', '\\');
    QuotedLength(str, '"', '\\', true);
    return count + len;
  }

  method PutQuoted(buf: array<char>, out0: nat, c: char, orig: char, quote: char, both: bool) returns (out: nat)
    requires out0 + |QuotedChar(c, orig, quote, both)| <= buf.Length
    modifies buf
    ensures out == out0 + |QuotedChar(c, orig, quote, both)|
    ensures buf[..] == old(buf[..out0]) + QuotedChar(c, orig, quote, both) + old(buf[out..])
  {
    out := out0;
    if c == orig || (c == quote && both) {
      buf[out] := quote;
      out := out + 1;
    }
    buf[out] := c;
    out := out + 1;
  }

  /** _quote_characters into a buffer with room; everything else stays. */
  method QuoteCharacters(buf: array<char>, out0: nat, src: string, orig: char, quote: char, both: bool)
    returns (out: nat)
    requires out0 + |Quoted(src, orig, quote, both)| <= buf.Length
    modifies buf
    ensures out == out0 + |Quoted(src, orig, quote, both)|
    ensures buf[..] == old(buf[..out0]) + Quoted(src, orig, quote, both) + old(buf[out..])
  {
    hide Quoted, QuotedChar;
    out := out0;
    QuotedNothing(orig, quote, both);
    assert src[..0] == "";
    for i := 0 to |src|
      invariant out == out0 + |Quoted(src[..i], orig, quote, both)| && out <= buf.Length
      invariant buf[..out0] == old(buf[..out0]) && buf[out..] == old(buf[out..])
      invariant buf[out0..out] == Quoted(src[..i], orig, quote, both)
    {
      QuotedNext(src, i, orig, quote, both);
      QuotedGrows(src, i + 1, orig, quote, both);
      ghost var before, at := buf[..], out;
      out := PutQuoted(buf, out, src[i], orig, quote, both);
      assert buf[..out0] == before[..out0] && buf[out..] == before[out..];
      assert buf[out0..out] == before[out0..at] + QuotedChar(src[i], orig, quote, both);
    }
    assert src[..|src|] == src;
  }

  lemma QuotedNothing(orig: char, quote: char, both: bool)
    ensures Quoted("", orig, quote, both) == ""
  {
  }

  /** dm_escape_double_quotes */
  method EscapeDoubleQuotes(buf: array<char>, src: string)
    requires NoNul(src) && |Quoted(src, '"', '\\', true)| < buf.Length
    modifies buf
    ensures Holds(buf[..], 0, Quoted(src, '"', '\\', true))
  {
    hide Quoted;
    var out := QuoteCharacters(buf, 0, src, '"', '\\', true);
    buf[out] := NUL;
    QuotedNoNul(src, '"', '\\', true);
    assert buf[0..out] == Quoted(src, '"', '\\', true);
  }

  // ---- in place ----

  lemma UnquotedStep(s: string, i: nat, orig: char, quote: char, done: string)
    requires i < |s| && Unquoted(s, orig, quote) == done + Unquoted(s[i..], orig, quote)
    ensures AtQuoted(s[i..], orig, quote) ==>
      Unquoted(s, orig, quote) == done + [s[i + 1]] + Unquoted(s[i + 2..], orig, quote)
    ensures !AtQuoted(s[i..], orig, quote) ==>
      Unquoted(s, orig, quote) == done + [s[i]] + Unquoted(s[i + 1..], orig, quote)
  {
    if AtQuoted(s[i..], orig, quote) {
      assert s[i..][2..] == s[i + 2..];
    } else {
      assert s[i..][1..] == s[i + 1..];
    }
  }

  lemma {:induction false} UnquotedNoNul(s: string, orig: char, quote: char)
    requires NoNul(s)
    ensures NoNul(Unquoted(s, orig, quote)) && |Unquoted(s, orig, quote)| <= |s|
  {
    if AtQuoted(s, orig, quote) {
      UnquotedNoNul(s[2..], orig, quote);
    } else if s != "" {
      UnquotedNoNul(s[1..], orig, quote);
    }
  }

  /** The buffer at p: the unquoted part, a gap, and the rest still to be read. */
  ghost predicate Moving(buf: seq<char>, p: nat, s: string, i: nat, out: nat, orig: char, quote: char) {
    && out <= i <= |s| && p + |s| < |buf|
    && Unquoted(s, orig, quote) == buf[p..p + out] + Unquoted(s[i..], orig, quote)
    && buf[p + i..p + |s|] == s[i..] && buf[p + |s|] == NUL
  }

  /** What the read cursor sees. */
  lemma Reads(buf: seq<char>, p: nat, s: string, i: nat, out: nat, orig: char, quote: char)
    requires Moving(buf, p, s, i, out, orig, quote) && NoNul(s) && orig != NUL && quote != NUL
    ensures i < |s| ==> p + i + 1 < |buf| && buf[p + i] == s[i]
    ensures buf[p + i] == NUL <==> i == |s|
    ensures i < |s| ==> (AtQuoted(s[i..], orig, quote) <==> IsQuoted(buf, p + i, orig, quote))
    ensures i < |s| && AtQuoted(s[i..], orig, quote) ==> i + 1 < |s| && buf[p + i + 1] == s[i + 1]
  {
    hide Unquoted;
    if i < |s| {
      assert buf[p + i..p + |s|][0] == s[i..][0];
      if i + 1 < |s| {
        assert buf[p + i..p + |s|][1] == s[i..][1];
      }
    }
  }

  predicate IsQuoted(buf: seq<char>, k: nat, orig: char, quote: char)
    requires k + 1 < |buf|
  {
    buf[k] == quote && (buf[k + 1] == orig || buf[k + 1] == quote)
  }

  /** Writing one unquoted character behind the read cursor. */
  lemma Moves(buf: seq<char>, p: nat, s: string, i: nat, out: nat, orig: char, quote: char)
    requires Moving(buf, p, s, i, out, orig, quote) && i < |s|
    ensures AtQuoted(s[i..], orig, quote) ==> Moving(buf[p + out := s[i + 1]], p, s, i + 2, out + 1, orig, quote)
    ensures !AtQuoted(s[i..], orig, quote) ==> Moving(buf[p + out := s[i]], p, s, i + 1, out + 1, orig, quote)
  {
    hide Unquoted;
    UnquotedStep(s, i, orig, quote, buf[p..p + out]);
    var n := if AtQuoted(s[i..], orig, quote) then 2 else 1;
    var after := buf[p + out := s[i + n - 1]];
    assert after[p..p + out + 1] == buf[p..p + out] + [s[i + n - 1]];
    assert after[p + i + n..p + |s|] == buf[p + i..p + |s|][n..] && s[i..][n..] == s[i + n..];
  }

  lemma Moved(buf: seq<char>, p: nat, s: string, out: nat, orig: char, quote: char)
    requires Moving(buf, p, s, |s|, out, orig, quote) && NoNul(s)
    ensures Holds(buf[p + out := NUL], p, Unquoted(s, orig, quote))
  {
    hide Unquoted;
    UnquotedNoNul(s, orig, quote);
    UnquotedNothing(s, orig, quote);
    var after := buf[p + out := NUL];
    assert after[p..p + out] == buf[p..p + out];
  }

  lemma UnquotedNothing(s: string, orig: char, quote: char)
    ensures Unquoted(s[|s|..], orig, quote) == ""
  {
  }

  /** Where the first loop stands: nothing has been changed. */
  lemma NotMoved(buf: seq<char>, p: nat, s: string, orig: char, quote: char)
    requires Holds(buf, p, s)
    ensures Moving(buf, p, s, 0, 0, orig, quote)
  {
    assert s[0..] == s;
  }

  /** _unquote_one_character: in place, with a read cursor ahead of the write cursor. */
  method UnquoteOneCharacter(buf: array<char>, p: nat, orig: char, quote: char, ghost s: string)
    requires Holds(buf[..], p, s) && orig != NUL && quote != NUL
    modifies buf
    ensures Holds(buf[..], p, Unquoted(s, orig, quote))
    ensures buf[..p] == old(buf[..p]) && buf[p + |s| + 1..] == old(buf[p + |s| + 1..])
  {
    hide Moving, Unquoted, AtQuoted;
    var i := 0;
    NotMoved(buf[..], p, s, orig, quote);
    Reads(buf[..], p, s, i, i, orig, quote);
    while buf[p + i] != NUL && !IsQuoted(buf[..], p + i, orig, quote)
      invariant i <= |s| && Moving(buf[..], p, s, i, i, orig, quote)
      invariant i < |s| ==> p + i + 1 < buf.Length
      invariant buf[p + i] == NUL <==> i == |s|
      invariant buf[..] == old(buf[..])
      decreases |s| - i
    {
      Reads(buf[..], p, s, i, i, orig, quote);
      Moves(buf[..], p, s, i, i, orig, quote);
      assert buf[..][p + i := s[i]] == buf[..];
      i := i + 1;
      Reads(buf[..], p, s, i, i, orig, quote);
    }
    if buf[p + i] != NUL {
      Compact(buf, p, i, orig, quote, s);
    } else {
      Moved(buf[..], p, s, i, orig, quote);
      assert buf[..][p + i := NUL] == buf[..];
    }
  }

  /** The second loop of _unquote_one_character, from the first quoted character on. */
  method Compact(buf: array<char>, p: nat, first: nat, orig: char, quote: char, ghost s: string)
    requires NoNul(s) && orig != NUL && quote != NUL && Moving(buf[..], p, s, first, first, orig, quote)
    requires p + first < p + |s| < buf.Length
    modifies buf
    ensures Holds(buf[..], p, Unquoted(s, orig, quote))
    ensures buf[..p] == old(buf[..p]) && buf[p + |s| + 1..] == old(buf[p + |s| + 1..])
  {
    hide Moving, Unquoted, AtQuoted;
    var i, out := first, first;
    Reads(buf[..], p, s, i, out, orig, quote);
    while buf[p + i] != NUL
      invariant 0 <= out <= i <= |s| && Moving(buf[..], p, s, i, out, orig, quote)
      invariant buf[p + i] == NUL <==> i == |s|
      invariant buf[..p] == old(buf[..p]) && buf[p + |s| + 1..] == old(buf[p + |s| + 1..])
      decreases |s| - i
    {
      Reads(buf[..], p, s, i, out, orig, quote);
      Moves(buf[..], p, s, i, out, orig, quote);
      var quoted := IsQuoted(buf[..], p + i, orig, quote);
      ghost var before := buf[..];
      if quoted {
        i := i + 1;
      }
      buf[p + out] := buf[p + i];
      assert buf[..] == before[p + out := s[i]];
      i, out := i + 1, out + 1;
      Reads(buf[..], p, s, i, out, orig, quote);
    }
    Moved(buf[..], p, s, out, orig, quote);
    ghost var before := buf[..];
    buf[p + out] := NUL;
    assert buf[..] == before[p + out := NUL];
  }

  /** Escaping into exactly the announced room, and unescaping there. */
  method EscapeAndBack(src: string) returns (buf: array<char>)
    requires NoNul(src)
    ensures fresh(buf) && buf.Length == |Quoted(src, '"', '\\', true)| + 1 && Holds(buf[..], 0, src)
  {
    var len := EscapedLen(src);
    buf := new char[len];
    EscapeDoubleQuotes(buf, src);
    UnquoteUndoesQuote(src, '"', '\\');
    UnquoteOneCharacter(buf, 0, '"', '\\', Quoted(src, '"', '\\', true));
  }
}
