/** A text as the kernel takes it apart: words between spaces, and numerals. */
module KernelWords {
  import opened Decimal
  import opened Wrappers

  /** The words of a text, between single spaces. */
  function Words(s: string): seq<string> {
    var n := WordLength(s);
    if n == |s| then [s] else [s[..n]] + Words(s[n + 1..])
  }

  function WordLength(s: string): (n: nat)
    ensures n <= |s| && (n < |s| ==> s[n] == ' ')
  {
    if s == "" || s[0] == ' ' then 0 else 1 + WordLength(s[1..])
  }

  predicate IsWord(w: string) {
    forall i :: 0 <= i < |w| ==> w[i] != ' '
  }

  lemma {:induction false} FirstWord(w: string, rest: string)
    requires IsWord(w) && (rest == "" || rest[0] == ' ')
    ensures WordLength(w + rest) == |w|
  {
    if w == "" {
      assert w + rest == rest;
    } else {
      FirstWord(w[1..], rest);
      assert (w + rest)[1..] == w[1..] + rest;
    }
  }

  lemma WordsNext(w: string, rest: string)
    requires IsWord(w)
    ensures Words(w + (" " + rest)) == [w] + Words(rest)
  {
    var s := w + (" " + rest);
    FirstWord(w, " " + rest);
    assert s[..|w|] == w && s[|w| + 1..] == rest;
  }

  lemma OneWord(w: string)
    requires IsWord(w)
    ensures Words(w) == [w]
  {
    assert w + "" == w;
    FirstWord(w, "");
  }

  lemma NumeralIsWord(n: nat)
    ensures IsWord(Natural(n))
  {
  }

  /** The number a word stands for, from its last digit on. */
  function Number(w: string): Option<nat> {
    if w == "" || !IsDigit(w[|w| - 1]) then None
    else
      var last := DigitValue(w[|w| - 1]);
      if |w| == 1 then Some(last)
      else
        var high := Number(w[..|w| - 1]);
        if high.None? then None else Some(10 * high.value + last)
  }

  lemma {:induction false} NumberBack(n: nat)
    ensures Number(Natural(n)) == Some(n)
  {
    var w := Natural(n);
    if n >= 10 {
      NumberBack(n / 10);
      assert w[..|w| - 1] == Natural(n / 10);
    }
  }

  /** How long numerals get. */
  lemma {:induction false} NumeralLength(n: nat, k: nat)
    requires k > 0 && n < Tens(k)
    ensures |Natural(n)| <= k
  {
    if n >= 10 {
      NumeralLength(n / 10, k - 1);
    }
  }

  function Tens(k: nat): nat {
    if k == 0 then 1 else 10 * Tens(k - 1)
  }
}
