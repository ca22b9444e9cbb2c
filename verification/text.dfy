/** The string operations the serializer relies on: `string.Join`, its
    inverse reading, and `int.ToString()` for the frame count, which is never negative
    by the time it is written. */
module Text {

  /** The combined length of `xs`. */
  function TotalLength(xs: seq<string>): nat
  {
    if |xs| == 0 then 0 else |xs[0]| + TotalLength(xs[1..])
  }

  /** `string.Join(sep, xs)`. */
  function Join(sep: string, xs: seq<string>): string
    decreases |xs|
  {
    if |xs| == 0 then "" else if |xs| == 1 then xs[0] else xs[0] + sep + Join(sep, xs[1..])
  }

  /** A join is the parts in order with one separator between neighbours and
      none at the ends: its length, its first part and the separator after it. */
  lemma {:induction false} JoinShape(sep: string, xs: seq<string>)
    ensures |xs| == 0 ==> Join(sep, xs) == ""
    ensures |xs| >= 1 ==> |Join(sep, xs)| == TotalLength(xs) + (|xs| - 1) * |sep|
    ensures |xs| >= 1 ==> Join(sep, xs)[..|xs[0]|] == xs[0]
    ensures |xs| >= 2 ==> Join(sep, xs)[|xs[0]| .. |xs[0]| + |sep|] == sep
    decreases |xs|
  {
    if |xs| >= 2 {
      JoinShape(sep, xs[1..]);
      var rest := Join(sep, xs[1..]);
      assert Join(sep, xs) == xs[0] + sep + rest;
      assert TotalLength(xs) == |xs[0]| + TotalLength(xs[1..]);
      assert (|xs| - 1) * |sep| == (|xs| - 2) * |sep| + |sep|;
    }
  }

  /** Cuts `s` at every occurrence of `c`: the reading that undoes a join. */
  function Split(s: string, c: char): (parts: seq<string>)
    ensures |parts| >= 1
    decreases |s|
  {
    if |s| == 0 then [""]
    else
      var rest := Split(s[1..], c);
      if s[0] == c then [""] + rest else [[s[0]] + rest[0]] + rest[1..]
  }

  lemma {:induction false} SplitWord(w: string, c: char)
    requires c !in w
    ensures Split(w, c) == [w]
    decreases |w|
  {
    if |w| > 0 {
      SplitWord(w[1..], c);
      assert [w[0]] + w[1..] == w;
    }
  }

  lemma {:induction false} SplitAfterWord(w: string, t: string, c: char)
    requires c !in w
    ensures Split(w + [c] + t, c) == [w] + Split(t, c)
    decreases |w|
  {
    var s := w + [c] + t;
    if |w| == 0 {
      assert s[0] == c && s[1..] == t;
    } else {
      SplitAfterWord(w[1..], t, c);
      assert s[0] == w[0];
      assert s[1..] == w[1..] + [c] + t;
      assert [w[0]] + w[1..] == w;
    }
  }

  /** Joining words that do not contain the separator character and splitting
      the result at that character gives the words back. */
  lemma {:induction false} SplitJoin(xs: seq<string>, c: char)
    requires |xs| >= 1
    requires forall i | 0 <= i < |xs| :: c !in xs[i]
    ensures Split(Join([c], xs), c) == xs
    decreases |xs|
  {
    if |xs| == 1 {
      SplitWord(xs[0], c);
    } else {
      SplitJoin(xs[1..], c);
      SplitAfterWord(xs[0], Join([c], xs[1..]), c);
      assert [xs[0]] + xs[1..] == xs;
    }
  }

  predicate IsDigit(ch: char)
  {
    '0' <= ch <= '9'
  }

  predicate AllDigits(s: string)
  {
    forall i | 0 <= i < |s| :: IsDigit(s[i])
  }

  function DigitChar(d: int): char
    requires 0 <= d < 10
  {
    "0123456789"[d]
  }

  function DigitValue(ch: char): int
  {
    ch as int - '0' as int
  }

  /** Decimal digits of a natural number, most significant first, with no
      leading zero except for zero itself. */
  function NatToString(n: nat): (s: string)
    ensures |s| >= 1 && AllDigits(s)
    ensures s[0] == '0' <==> n == 0
    decreases n
  {
    if n < 10 then [DigitChar(n)]
    else
      var high := NatToString(n / 10);
      assert (high + [DigitChar(n % 10)])[0] == high[0];
      high + [DigitChar(n % 10)]
  }

  /** The value of a string of decimal digits. */
  function ParseDigits(s: string): nat
    requires AllDigits(s)
    decreases |s|
  {
    if |s| == 0 then 0 else ParseDigits(s[..|s| - 1]) * 10 + DigitValue(s[|s| - 1])
  }

  /** The frame count written into the header reads back as itself. */
  lemma {:induction false} ParseNatToString(n: nat)
    ensures ParseDigits(NatToString(n)) == n
    decreases n
  {
    var s := NatToString(n);
    if n >= 10 {
      ParseNatToString(n / 10);
      assert s[..|s| - 1] == NatToString(n / 10);
    }
  }
}
