/** Names and uuids made safe for udev (libdm-common.c): every character outside a
    whitelist becomes `\xNN`, and back. Strings are C strings; the length that the
    callers pass is the length of the string. */
module Mangle {
  import opened CStrings
  import opened Wrappers

  datatype Mode = NoMangling | Auto | Hex

  const DM_NAME_LEN: nat := 128

  predicate CString(s: string) {
    forall i :: 0 <= i < |s| ==> 0 < s[i] as int < 256
  }

  predicate Whitelisted(c: char) {
    '0' <= c <= '9' || 'A' <= c <= 'Z' || 'a' <= c <= 'z' || c in "#+-.:=@_"
  }

  function HexDigit(d: nat): char
    requires d < 16
  {
    "0123456789abcdef"[d]
  }

  predicate IsHexDigit(c: char) {
    '0' <= c <= '9' || 'a' <= c <= 'f' || 'A' <= c <= 'F'
  }

  function HexValue(c: char): nat
    requires IsHexDigit(c)
  {
    if '0' <= c <= '9' then c as int - '0' as int
    else if 'a' <= c <= 'f' then c as int - 'a' as int + 10
    else c as int - 'A' as int + 10
  }

  /** `\xNN` */
  function Escape(c: char): string
    requires c as int < 256
  {
    ['\\', 'x', HexDigit(c as int / 16), HexDigit(c as int % 16)]
  }

  predicate AtEscape(s: string) {
    |s| >= 2 && s[0] == '\\' && s[1] == 'x'
  }

  // ---- mangling ----

  /** The mangled form of a suffix and the final verdict, from the verdict so far
      (-1 nothing known, 0 already mangled, 1 needs mangling); none on a mixture. */
  function Mangled(s: string, need: int, mode: Mode): Option<(string, int)>
    requires CString(s)
  {
    if s == [] then Some(("", if need == -1 then 0 else need))
    else if mode != Hex && AtEscape(s) then
      if |s| < 4 || need == 1 then None else Prepended(s[..4], Mangled(s[4..], 0, mode))
    else if Whitelisted(s[0]) then Prepended([s[0]], Mangled(s[1..], need, mode))
    else if mode != Hex && need == 0 then None
    else Prepended(Escape(s[0]), Mangled(s[1..], 1, mode))
  }

  function Prepended(head: string, tail: Option<(string, int)>): Option<(string, int)> {
    if tail.None? then None else Some((head + tail.value.0, tail.value.1))
  }

  /** Each character on its own: what hex mode is for. */
  function HexMangled(s: string): string
    requires CString(s)
  {
    if s == [] then "" else (if Whitelisted(s[0]) then [s[0]] else Escape(s[0])) + HexMangled(s[1..])
  }

  /** The bytes that udev takes in names: # + - . 0 to 9 : = @ A to Z _ a to z. */
  predicate UdevByte(b: nat) {
    b in {35, 43, 45, 46, 61, 95} || 48 <= b <= 58 || 64 <= b <= 90 || 97 <= b <= 122
  }

  /** Every byte on its own: kept, or written as its two hexadecimal digits. */
  lemma MangledByte(c: char)
    requires 0 < c as int < 256
    ensures UdevByte(c as int) ==> HexMangled([c]) == [c]
    ensures !UdevByte(c as int) ==>
      HexMangled([c]) == "\\x" + ["0123456789abcdef"[c as int / 16], "0123456789abcdef"[c as int % 16]]
  {
    assert HexMangled([c][1..]) == "";
    assert Whitelisted(c) <==> UdevByte(c as int);
    assert Escape(c) + "" == Escape(c);
  }

  lemma {:induction false} HexMangledJoin(a: string, b: string)
    requires CString(a) && CString(b)
    ensures CString(a + b) && HexMangled(a + b) == HexMangled(a) + HexMangled(b)
  {
    hide Escape, Whitelisted;
    if a == "" {
      assert a + b == b;
    } else {
      HexMangledJoin(a[1..], b);
      assert (a + b)[1..] == a[1..] + b;
      var x, y, z := if Whitelisted(a[0]) then [a[0]] else Escape(a[0]), HexMangled(a[1..]), HexMangled(b);
      assert x + (y + z) == x + y + z;
    }
  }

  predicate AllWhitelisted(s: string) {
    forall i :: 0 <= i < |s| ==> Whitelisted(s[i])
  }

  /** Hex mode accepts every string and mangles it character by character. */
  lemma {:induction false} HexMangles(s: string, need: int)
    requires CString(s) && need in {-1, 1}
    ensures Mangled(s, need, Hex) == Some((HexMangled(s), if need == 1 || !AllWhitelisted(s) then 1 else 0))
  {
    if s != [] {
      var white := Whitelisted(s[0]);
      HexMangles(s[1..], if white then need else 1);
      assert s == [s[0]] + s[1..];
      assert AllWhitelisted(s) <==> white && AllWhitelisted(s[1..]);
    }
  }

  lemma EscapeIsCString(c: char)
    requires 0 < c as int < 256
    ensures CString(Escape(c))
  {
  }

  lemma {:induction false} HexMangledIsCString(s: string)
    requires CString(s)
    ensures CString(HexMangled(s))
  {
    if s != [] {
      HexMangledIsCString(s[1..]);
      EscapeIsCString(s[0]);
    }
  }

  /** Auto mode leaves every hex-mangled string as it is. */
  lemma {:induction false} AutoKeepsHexMangled(s: string, need: int)
    requires CString(s) && CString(HexMangled(s)) && need in {-1, 0}
    ensures Mangled(HexMangled(s), need, Auto) == Some((HexMangled(s), 0))
  {
    if s != [] {
      HexMangledIsCString(s[1..]);
      var rest := HexMangled(s[1..]);
      if Whitelisted(s[0]) {
        AutoKeepsHexMangled(s[1..], need);
        assert HexMangled(s)[1..] == rest;
      } else {
        AutoKeepsHexMangled(s[1..], 0);
        assert HexMangled(s)[4..] == rest;
        assert HexMangled(s)[..4] == Escape(s[0]);
      }
    }
  }

  /** What auto mode does to any string it accepts: nothing, or all of it. */
  lemma {:induction false} AutoIsAllOrNothing(s: string, need: int)
    requires CString(s) && need in {-1, 0, 1} && Mangled(s, need, Auto).Some?
    ensures var (text, verdict) := Mangled(s, need, Auto).value;
      verdict in {0, 1} && text == (if verdict == 0 then s else HexMangled(s))
      && (need != -1 ==> verdict == need)
  {
    if s != [] {
      if AtEscape(s) {
        AutoIsAllOrNothing(s[4..], 0);
        assert s == s[..4] + s[4..];
      } else {
        AutoIsAllOrNothing(s[1..], if Whitelisted(s[0]) then need else 1);
        assert s == [s[0]] + s[1..];
      }
    }
  }

  // ---- which strings auto mode takes ----

  predicate HasEscape(s: string) {
    s != "" && (AtEscape(s) || HasEscape(s[1..]))
  }

  /** It occurs somewhere. */
  lemma {:induction false} EscapeOccurs(s: string)
    ensures HasEscape(s) <==> exists i :: 0 <= i < |s| && AtEscape(s[i..])
  {
    if s != "" {
      EscapeOccurs(s[1..]);
      assert s[0..] == s;
      assert forall i :: 0 <= i < |s| - 1 ==> s[1..][i..] == s[i + 1..];
      if i :| 0 <= i < |s| && AtEscape(s[i..]) && i > 0 {
        assert AtEscape(s[1..][i - 1..]);
      }
    }
  }

  /** Nothing but `\\xNN` and characters of the whitelist. */
  predicate WellMangled(s: string) {
    if s == "" then true
    else if AtEscape(s) then |s| >= 4 && WellMangled(s[4..])
    else Whitelisted(s[0]) && WellMangled(s[1..])
  }

  lemma {:induction false} AutoOfMangled(s: string)
    requires CString(s)
    ensures Mangled(s, 0, Auto) == if WellMangled(s) then Some((s, 0)) else None
  {
    hide Whitelisted, Escape;
    if s != "" {
      var n := if AtEscape(s) then 4 else 1;
      if n <= |s| {
        AutoOfMangled(s[n..]);
        assert s[..n] + s[n..] == s && s[..1] == [s[0]];
      }
    }
  }

  lemma {:induction false} AutoOfPlain(s: string, need: int)
    requires CString(s) && !HasEscape(s) && need in {-1, 1}
    ensures Mangled(s, need, Auto) == Some((HexMangled(s), if need == 1 || !AllWhitelisted(s) then 1 else 0))
  {
    hide Whitelisted, Escape;
    if s != "" {
      AutoOfPlain(s[1..], if Whitelisted(s[0]) then need else 1);
      assert AllWhitelisted(s) <==> Whitelisted(s[0]) && AllWhitelisted(s[1..]) by {
        assert s == [s[0]] + s[1..];
      }
    }
  }

  lemma {:induction false} AutoOfEscaped(s: string, need: int)
    requires CString(s) && HasEscape(s) && need in {-1, 1}
    ensures Mangled(s, need, Auto) == if need == -1 && WellMangled(s) then Some((s, 0)) else None
  {
    hide Whitelisted, Escape;
    if AtEscape(s) {
      if |s| >= 4 && need == -1 {
        AutoOfMangled(s[4..]);
        assert s[..4] + s[4..] == s;
      }
    } else {
      AutoOfEscaped(s[1..], if Whitelisted(s[0]) then need else 1);
      assert [s[0]] + s[1..] == s;
    }
  }

  /** Auto mode takes exactly the strings without `\\x`, which it mangles, and those that are
      well mangled, which it keeps. */
  lemma AutoExactly(s: string)
    requires CString(s)
    ensures Mangled(s, -1, Auto)
      == if !HasEscape(s) then Some((HexMangled(s), if AllWhitelisted(s) then 0 else 1))
         else if WellMangled(s) then Some((s, 0))
         else None
  {
    if HasEscape(s) {
      AutoOfEscaped(s, -1);
    } else {
      AutoOfPlain(s, -1);
    }
  }

  // ---- unmangling ----

  /** Leading blanks do not count for `%2x`. */
  function SkipBlanks(s: string): (r: string)
    ensures |r| <= |s|
  {
    if s != "" && (s[0] == ' ' || 9 <= s[0] as int <= 13) then SkipBlanks(s[1..]) else s
  }

  /** `%2x` on what follows `\x`, cut to a byte: two digits, one digit, or a sign and a
      digit; none when no number begins there. */
  function Scan(s: string): (r: Option<nat>)
    requires Scannable(s)
    ensures r.Some? ==> r.value < 256 && |s| >= 2
  {
    var t := SkipBlanks(s);
    if IsHexDigit(t[0]) then
      if |t| > 1 && IsHexDigit(t[1]) then Some(16 * HexValue(t[0]) + HexValue(t[1])) else Some(HexValue(t[0]))
    else if t[0] in "+-" && |t| > 1 && IsHexDigit(t[1]) then
      Some(if t[0] == '+' then HexValue(t[1]) else (256 - HexValue(t[1])) % 256)
    else None
  }

  /** The escapes that `sscanf` and the fixed step of four characters read inside the
      string. Others leave it: nothing but blanks follows, or a single digit ends the
      string. What `0x` alone stands for is up to the C library. */
  predicate Scannable(s: string) {
    var t := SkipBlanks(s);
    t != "" && (IsHexDigit(t[0]) ==> |s| >= 2 && !(t[0] == '0' && |t| > 1 && (t[1] == 'x' || t[1] == 'X')))
  }

  /** Every escape that is reached is one of those. */
  predicate Clean(s: string) {
    if s == [] then true
    else if AtEscape(s) then Scannable(s[2..]) && (Scan(s[2..]).Some? ==> Clean(s[4..]))
    else Clean(s[1..])
  }

  datatype Unmangling = Text(text: string, verdict: int) | Blacklisted

  function Unmangled(s: string, verdict: int, strict: bool): Unmangling
    requires Clean(s)
  {
    if s == [] then Text("", verdict)
    else if strict && !(Whitelisted(s[0]) || s[0] == '\\') then Blacklisted
    else if AtEscape(s) then
      if Scan(s[2..]).None? then Text("", verdict)
      else Before(Scan(s[2..]).value as char, Unmangled(s[4..], 1, strict))
    else Before(s[0], Unmangled(s[1..], verdict, strict))
  }

  function Before(c: char, rest: Unmangling): Unmangling {
    if rest.Blacklisted? then rest else rest.(text := [c] + rest.text)
  }

  /** A string without `\\x` is left alone; the strict modes refuse it for a single character
      that should have been mangled. */
  lemma {:induction false} UnmangleKeepsPlain(s: string, verdict: int, strict: bool)
    requires Clean(s) && !HasEscape(s)
    ensures Unmangled(s, verdict, strict)
      == if strict && exists i :: 0 <= i < |s| && !(Whitelisted(s[i]) || s[i] == '\\') then Blacklisted
         else Text(s, verdict)
  {
    hide Whitelisted, Scan, Scannable;
    if s != "" {
      assert s == [s[0]] + s[1..];
      UnmangleKeepsPlain(s[1..], verdict, strict);
    }
  }

  lemma DigitsRoundTrip(c: char)
    requires c as int < 256
    ensures IsHexDigit(HexDigit(c as int / 16)) && IsHexDigit(HexDigit(c as int % 16))
    ensures 16 * HexValue(HexDigit(c as int / 16)) + HexValue(HexDigit(c as int % 16)) == c as int
  {
    DigitRoundTrip(c as int / 16);
    DigitRoundTrip(c as int % 16);
  }

  lemma DigitRoundTrip(d: nat)
    requires d < 16
    ensures IsHexDigit(HexDigit(d)) && HexValue(HexDigit(d)) == d && HexDigit(d) != '\\'
  {
  }

  lemma EscapeScans(c: char, rest: string)
    requires 0 < c as int < 256
    ensures var s := Escape(c) + rest;
      AtEscape(s) && s[4..] == rest && Scannable(s[2..]) && Scan(s[2..]) == Some(c as int)
  {
    DigitsRoundTrip(c);
    DigitRoundTrip(c as int % 16);
    var s := Escape(c) + rest;
    assert s[2..][0] == HexDigit(c as int / 16) && s[2..][1] == HexDigit(c as int % 16);
  }

  /** Unmangling undoes hex mangling, in every mode. */
  lemma {:induction false} UnmangleUndoesHex(s: string, verdict: int, strict: bool)
    requires CString(s) && verdict in {0, 1}
    ensures Clean(HexMangled(s))
    ensures Unmangled(HexMangled(s), verdict, strict) == Text(s, if verdict == 1 || !AllWhitelisted(s) then 1 else 0)
  {
    hide Scan, Scannable, Escape;
    if s != [] {
      var m, rest := HexMangled(s), HexMangled(s[1..]);
      var white := Whitelisted(s[0]);
      UnmangleUndoesHex(s[1..], if white then verdict else 1, strict);
      assert s == [s[0]] + s[1..];
      assert AllWhitelisted(s) <==> white && AllWhitelisted(s[1..]);
      if white {
        assert m[1..] == rest;
      } else {
        EscapeScans(s[0], rest);
      }
    }
  }

  // ---- the check for double mangling ----

  ghost predicate Contains(s: string, part: string) {
    exists i :: 0 <= i <= |s| - |part| && At(s, part, i)
  }

  predicate At(s: string, part: string, i: int)
    requires 0 <= i <= |s| - |part|
  {
    s[i..][..|part|] == part
  }

  lemma ContainsTail(s: string, part: string, n: nat)
    requires n <= |s| && Contains(s[n..], part)
    ensures Contains(s, part)
  {
    var i :| 0 <= i <= |s[n..]| - |part| && At(s[n..], part, i);
    assert s[n..][i..] == s[n + i..];
    assert At(s, part, n + i);
  }

  lemma ContainsHere(s: string, part: string)
    requires |part| <= |s| && s[..|part|] == part
    ensures Contains(s, part)
  {
    assert s[0..] == s;
    assert At(s, part, 0);
  }

  lemma ContainsSplit(s: string, part: string, n: nat)
    requires n <= |s| && Contains(s, part)
    ensures Contains(s[n..], part) || exists i :: 0 <= i < n && i <= |s| - |part| && At(s, part, i)
  {
    var i :| 0 <= i <= |s| - |part| && At(s, part, i);
    if i >= n {
      assert s[n..][i - n..] == s[i..];
      assert At(s[n..], part, i - n);
    }
  }

  /** A hex-mangled string begins with `x` exactly when the string does. */
  lemma BeginsWithX(s: string)
    requires CString(s)
    ensures (|HexMangled(s)| > 0 && HexMangled(s)[0] == 'x') <==> (|s| > 0 && s[0] == 'x')
  {
  }

  lemma {:induction false} DoublyMangled(s: string)
    requires CString(s) && Contains(s, "\\x")
    ensures Contains(HexMangled(s), "\\x5cx")
  {
    hide HexDigit, Escape;
    var m, rest := HexMangled(s), HexMangled(s[1..]);
    if AtEscape(s) {
      FiveC();
      BeginsWithX(s[1..]);
      assert m == "\\x5c" + rest;
      assert m[..5] == "\\x5cx";
      ContainsHere(m, "\\x5cx");
    } else {
      ContainsSplit(s, "\\x", 1);
      assert s[0..] == s;
      DoublyMangled(s[1..]);
      var n := |m| - |rest|;
      assert m[n..] == rest;
      ContainsTail(m, "\\x5cx", n);
    }
  }

  /** No mangled pattern begins inside a token, but at the start of an escape. */
  lemma OnlyAtStart(c: char, rest: string, i: nat)
    requires 0 < c as int < 256 && i < 4 && i <= |rest| - 1 && At(Escape(c) + rest, "\\x5cx", i)
    ensures i == 0 && c == '\\' && rest[0] == 'x'
  {
    hide HexDigit, HexValue, IsHexDigit;
    var m := Escape(c) + rest;
    assert m[i..][..5][0] == m[i];
    DigitRoundTrip(c as int / 16);
    DigitRoundTrip(c as int % 16);
    assert i == 0;
    var five := m[0..][..5];
    assert five[2] == m[2] && five[3] == m[3] && five[4] == m[4];
    DigitsRoundTrip(c);
    FiveC();
  }

  lemma FiveC()
    ensures Escape('\\') == "\\x5c"
    ensures IsHexDigit('5') && IsHexDigit('c') && 16 * HexValue('5') + HexValue('c') == '\\' as int
  {
  }

  lemma FirstToken(s: string, i: nat)
    requires CString(s) && s != [] && i <= |HexMangled(s)| - 5
    requires i < (if Whitelisted(s[0]) then 1 else 4) && At(HexMangled(s), "\\x5cx", i)
    ensures i == 0 && |s| > 1 && s[0] == '\\' && s[1] == 'x'
  {
    hide HexDigit, IsHexDigit, HexValue;
    var m, rest := HexMangled(s), HexMangled(s[1..]);
    assert m[i..][..5][0] == m[i];
    if Whitelisted(s[0]) {
      assert false;
    }
    OnlyAtStart(s[0], rest, i);
    BeginsWithX(s[1..]);
  }

  lemma {:induction false} OnceMangled(s: string)
    requires CString(s) && Contains(HexMangled(s), "\\x5cx")
    ensures Contains(s, "\\x")
  {
    if s == [] {
      assert false;
    }
    var m, rest := HexMangled(s), HexMangled(s[1..]);
    var n := if Whitelisted(s[0]) then 1 else 4;
    assert m[n..] == rest;
    ContainsSplit(m, "\\x5cx", n);
    if Contains(rest, "\\x5cx") {
      OnceMangled(s[1..]);
      ContainsTail(s, "\\x", 1);
    } else {
      var i :| 0 <= i < n && i <= |m| - 5 && At(m, "\\x5cx", i);
      FirstToken(s, i);
      assert s[..2] == "\\x";
      ContainsHere(s, "\\x");
    }
  }

  /** check_multiple_mangled_string_allowed */
  ghost predicate Allowed(s: string, mode: Mode) {
    !(mode == Auto && Contains(s, "\\x5cx"))
  }

  /** Auto mode refuses a hex-mangled string exactly when the original had `\x` in it. */
  lemma RefusedIffOriginalEscaped(s: string)
    requires CString(s)
    ensures Allowed(HexMangled(s), Auto) <==> !Contains(s, "\\x")
  {
    if Contains(s, "\\x") {
      DoublyMangled(s);
    } else if Contains(HexMangled(s), "\\x5cx") {
      OnceMangled(s);
    }
  }

  // ---- the loops over the buffers ----

  /** The loop has written `done` and stands at str[i..] with verdict `need`. */
  ghost predicate Written(str: string, i: nat, need: int, mode: Mode, done: string)
    requires CString(str)
  {
    i <= |str| && Mangled(str, -1, mode) == Prepended(done, Mangled(str[i..], need, mode))
  }

  lemma NothingWritten(str: string, mode: Mode)
    requires CString(str)
    ensures Written(str, 0, -1, mode, "")
  {
    hide Mangled;
    assert str[0..] == str;
    assert forall m: Option<(string, int)> :: m.Some? ==> "" + m.value.0 == m.value.0;
  }

  lemma OneMore(str: string, i: nat, need: int, mode: Mode, done: string, n: nat, token: string, verdict: int)
    requires CString(str) && Written(str, i, need, mode, done) && i + n <= |str|
    requires Mangled(str[i..], need, mode) == Prepended(token, Mangled(str[i..][n..], verdict, mode))
    ensures Written(str, i + n, verdict, mode, done + token)
  {
    hide Mangled;
    var rest := Mangled(str[i + n..], verdict, mode);
    assert str[i..][n..] == str[i + n..];
    if rest.Some? {
      assert done + (token + rest.value.0) == done + token + rest.value.0;
    }
  }

  /** What has been written is never longer than the mangled form. */
  lemma NoLonger(str: string, i: nat, need: int, mode: Mode, done: string)
    requires CString(str) && Written(str, i, need, mode, done)
    ensures Mangled(str, -1, mode).Some? ==> done <= Mangled(str, -1, mode).value.0
  {
    hide Mangled;
  }

  lemma AllWritten(str: string, need: int, mode: Mode, done: string)
    requires CString(str) && Written(str, |str|, need, mode, done)
    ensures Mangled(str, -1, mode) == Some((done, if need == -1 then 0 else need))
  {
    assert str[|str|..] == "";
    assert done + "" == done;
  }

  /** The mangled form and its NUL, or -1 on a mixture or when they do not fit. */
  ghost predicate IsMangling(str: string, mode: Mode, buf: string, r: int)
    requires CString(str)
  {
    var m := Mangled(str, -1, mode);
    if m.None? || |m.value.0| >= |buf| then r == -1
    else r == m.value.1 && m.value.0 + [NUL] <= buf
  }

  /** mangle_string */
  method MangleString(str: string, buf: array<char>, mode: Mode) returns (r: int)
    requires CString(str)
    modifies buf
    ensures str == "" ==> r == 0 && buf[..] == old(buf[..])
    ensures str != "" && buf.Length < DM_NAME_LEN ==> r == -1
    ensures str != "" && buf.Length >= DM_NAME_LEN ==> IsMangling(str, mode, buf[..], r)
  {
    hide Mangled, Written, Whitelisted;
    if str == "" {
      return 0;
    }
    if buf.Length < DM_NAME_LEN {
      return -1;
    }
    var need := -1;
    var i, j := 0, 0;
    NothingWritten(str, mode);
    while i < |str|
      invariant 0 <= i <= |str| && 0 <= j <= buf.Length && need in {-1, 0, 1}
      invariant Written(str, i, need, mode, buf[..j])
    {
      var more;
      more, i, j, need := MangleNext(str, buf, mode, i, j, need);
      if !more {
        return -1;
      }
    }
    AllWritten(str, need, mode, buf[..j]);
    if buf.Length - j < 1 {
      return -1;
    }
    buf[j] := NUL;
    r := if need == -1 then 0 else need;
  }

  /** One round of the loop of mangle_string. */
  method MangleNext(str: string, buf: array<char>, mode: Mode, i0: nat, j0: nat, need0: int)
    returns (more: bool, i: nat, j: nat, need: int)
    requires CString(str) && i0 < |str| && j0 <= buf.Length && need0 in {-1, 0, 1}
    requires Written(str, i0, need0, mode, buf[..j0])
    modifies buf
    ensures more ==> i0 < i <= |str| && j <= buf.Length && need in {-1, 0, 1} && Written(str, i, need, mode, buf[..j])
    ensures !more ==> IsMangling(str, mode, buf[..], -1)
  {
    hide Written, Whitelisted, Escape;
    i, j, need := i0, j0, need0;
    ghost var rest, done := str[i..], buf[..j];
    var token, n, verdict := [str[i]], 1, need;
    if mode != Hex && AtEscape(str[i..]) {
      if |str| - i < 4 || need == 1 {
        NoMixture(str, i, need, mode, done);
        return false, i, j, need;
      }
      token, n, verdict := str[i..i + 4], 4, 0;
      assert token == rest[..4];
    } else if !Whitelisted(str[i]) {
      if mode != Hex && need == 0 {
        NoMixture(str, i, need, mode, done);
        return false, i, j, need;
      }
      token, verdict := Escape(str[i]), 1;
    }
    OneMore(str, i, need, mode, done, n, token, verdict);
    NoLonger(str, i + n, verdict, mode, done + token);
    if buf.Length - j < |token| {
      return false, i, j, need;
    }
    Copy(token, buf, j);
    assert buf[..j + |token|] == done + token;
    more, i, j, need := true, i + n, j + |token|, verdict;
  }

  lemma NoMixture(str: string, i: nat, need: int, mode: Mode, done: string)
    requires CString(str) && Written(str, i, need, mode, done) && Mangled(str[i..], need, mode).None?
    ensures Mangled(str, -1, mode).None?
  {
    hide Mangled;
  }

  method Copy(token: string, buf: array<char>, j: nat)
    requires j + |token| <= buf.Length
    modifies buf
    ensures buf[..] == old(buf[..j]) + token + old(buf[j + |token|..])
  {
    forall k | 0 <= k < |token| {
      buf[j + k] := token[k];
    }
  }

  // ---- and back ----

  ghost predicate IsUnmangling(u: Unmangling, buf: string, r: int) {
    match u
    case Text(text, verdict) => r == verdict && text + [NUL] <= buf
    case Blacklisted => r == -1 && [NUL] <= buf
  }

  function After(done: string, rest: Unmangling): Unmangling {
    if rest.Blacklisted? then rest else rest.(text := done + rest.text)
  }

  /** The loop has decoded str[..i] to `done`, with verdict r. */
  ghost predicate Read(str: string, i: nat, r: int, strict: bool, done: string)
    requires Clean(str)
  {
    i <= |str| && Clean(str[i..]) && Unmangled(str, 0, strict) == After(done, Unmangled(str[i..], r, strict))
  }

  lemma NothingRead(str: string, strict: bool)
    requires Clean(str)
    ensures Read(str, 0, 0, strict, "")
  {
    hide Unmangled;
    assert str[0..] == str;
  }

  lemma RefusedHere(str: string, i: nat, r: int, done: string)
    requires Clean(str) && i < |str| && Read(str, i, r, true, done)
    requires !(Whitelisted(str[i]) || str[i] == '\\')
    ensures Unmangled(str, 0, true).Blacklisted?
  {
  }

  lemma OneMoreRead(str: string, i: nat, r: int, strict: bool, done: string, n: nat, c: char, verdict: int)
    requires Clean(str) && Read(str, i, r, strict, done) && i + n <= |str| && Clean(str[i..][n..])
    requires Unmangled(str[i..], r, strict) == Before(c, Unmangled(str[i..][n..], verdict, strict))
    ensures Read(str, i + n, verdict, strict, done + [c])
  {
    hide Unmangled;
    var rest := Unmangled(str[i + n..], verdict, strict);
    assert str[i..][n..] == str[i + n..];
    if rest.Text? {
      assert done + ([c] + rest.text) == done + [c] + rest.text;
    }
  }

  /** What the branch for an escape does. */
  lemma EscapeRead(str: string, i: nat, r: int, strict: bool, done: string)
    requires Clean(str) && i < |str| && Read(str, i, r, strict, done) && AtEscape(str[i..])
    ensures Scannable(str[i..][2..])
    ensures var code := Scan(str[i..][2..]);
      if code.None? then Unmangled(str, 0, strict) == Text(done, r)
      else i + 4 <= |str| && code.value < 256 && Read(str, i + 4, 1, strict, done + [code.value as char])
  {
    hide Whitelisted;
    var code := Scan(str[i..][2..]);
    if code.Some? {
      OneMoreRead(str, i, r, strict, done, 4, code.value as char, 1);
    } else {
      assert done + "" == done;
    }
  }

  lemma CharRead(str: string, i: nat, r: int, strict: bool, done: string)
    requires Clean(str) && i < |str| && Read(str, i, r, strict, done) && !AtEscape(str[i..])
    requires strict ==> Whitelisted(str[i]) || str[i] == '\\'
    ensures Read(str, i + 1, r, strict, done + [str[i]])
  {
    hide Whitelisted;
    OneMoreRead(str, i, r, strict, done, 1, str[i], r);
  }

  lemma AllRead(str: string, r: int, strict: bool, done: string)
    requires Clean(str) && Read(str, |str|, r, strict, done)
    ensures Unmangled(str, 0, strict) == Text(done, r)
  {
    assert str[|str|..] == "" && done + "" == done;
  }

  /** unmangle_string; a string that a strict mode refuses leaves an empty buffer. */
  method UnmangleString(str: string, buf: array<char>, mode: Mode) returns (r: int)
    requires CString(str) && Clean(str) && |str| < buf.Length
    modifies buf
    ensures str == "" ==> r == 0 && buf[..] == old(buf[..])
    ensures str != "" && buf.Length < DM_NAME_LEN ==> r == -1
    ensures str != "" && buf.Length >= DM_NAME_LEN ==> IsUnmangling(Unmangled(str, 0, mode != NoMangling), buf[..], r)
  {
    hide CString, Clean, Unmangled, Read, Whitelisted, Scan, Scannable;
    if str == "" {
      return 0;
    }
    if buf.Length < DM_NAME_LEN {
      return -1;
    }
    var strict := mode != NoMangling;
    var i, j := 0, 0;
    r := 0;
    NothingRead(str, strict);
    while i < |str|
      invariant 0 <= j <= i <= |str|
      invariant Read(str, i, r, strict, buf[..j])
    {
      ghost var done := buf[..j];
      if strict && !(Whitelisted(str[i]) || str[i] == '\\') {
        RefusedHere(str, i, r, done);
        buf[0] := NUL;
        return -1;
      }
      if AtEscape(str[i..]) {
        EscapeRead(str, i, r, strict, done);
        var code := Scan(str[i..][2..]);
        if code.None? {
          buf[j] := NUL;
          return;
        }
        buf[j] := code.value as char;
        i, r := i + 4, 1;
      } else {
        CharRead(str, i, r, strict, done);
        buf[j] := str[i];
        i := i + 1;
      }
      j := j + 1;
      assert buf[..j] == done + [buf[j - 1]];
    }
    AllRead(str, r, strict, buf[..j]);
    buf[j] := NUL;
  }
}
