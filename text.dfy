/**
 * The string handling the configuration tool relies on: Python's
 * `str.split()`, `' '.join`, `int()` on decimal text, `str.format` of
 * non-negative integers, and a read-only `ttk.Combobox` looking its text up
 * among its values.
 */
module Text {

  datatype Option<T> = None | Some(value: T)

  /** The characters Python's `str.isspace()` accepts, which is what `str.split()` splits on. */
  predicate IsSpace(c: char) {
    var n := c as int;
    || 9 <= n <= 13          // tab, line feed, vertical tab, form feed, carriage return
    || 0x1c <= n <= 0x20     // the four information separators, space
    || n == 0x85 || n == 0xa0 || n == 0x1680
    || 0x2000 <= n <= 0x200a
    || n == 0x2028 || n == 0x2029 || n == 0x202f || n == 0x205f || n == 0x3000
  }

  predicate IsDigit(c: char) {
    '0' <= c <= '9'
  }

  predicate NoSpace(t: string) {
    forall i :: 0 <= i < |t| ==> !IsSpace(t[i])
  }

  /** A token `str.split()` can produce: non-empty, without whitespace. */
  predicate IsToken(t: string) {
    t != [] && NoSpace(t)
  }

  /** The length of the longest whitespace-free prefix. */
  function WordLength(s: string): (n: nat)
    ensures n <= |s|
    ensures NoSpace(s[..n])
    ensures n < |s| ==> IsSpace(s[n])
  {
    if s == [] || IsSpace(s[0]) then 0
    else
      var n := 1 + WordLength(s[1..]);
      assert s[..n] == [s[0]] + s[1..][..n - 1];
      n
  }

  /** `s.split()`: the maximal runs of non-whitespace characters, in order. */
  function Split(s: string): (ts: seq<string>)
    ensures forall i :: 0 <= i < |ts| ==> IsToken(ts[i])
    decreases |s|
  {
    if s == [] then []
    else if IsSpace(s[0]) then Split(s[1..])
    else
      var n := WordLength(s);
      [s[..n]] + Split(s[n..])
  }

  /** `' '.join(ts)`. */
  function JoinSpace(ts: seq<string>): (r: string)
    ensures ts != [] ==> ts[0] <= r
    ensures |ts| >= 2 ==> |r| > |ts[0]| && r[|ts[0]|] == ' '
  {
    if ts == [] then []
    else if |ts| == 1 then ts[0]
    else ts[0] + " " + JoinSpace(ts[1..])
  }

  /** `''.join(ts)`. */
  function Concat(ts: seq<string>): string
  {
    if ts == [] then [] else ts[0] + Concat(ts[1..])
  }

  lemma WordLengthOfToken(t: string, rest: string)
    requires IsToken(t)
    requires rest == [] || IsSpace(rest[0])
    ensures WordLength(t + rest) == |t|
    decreases |t|
  {
    if |t| > 1 {
      assert (t + rest)[1..] == t[1..] + rest;
      WordLengthOfToken(t[1..], rest);
    }
  }

  lemma SplitSpace(s: string)
    ensures Split(" " + s) == Split(s)
  {
    assert (" " + s)[1..] == s;
  }

  /** Splitting a token followed by the rest of a line. */
  lemma SplitToken(t: string, rest: string)
    requires IsToken(t)
    requires rest == [] || IsSpace(rest[0])
    ensures Split(t + rest) == [t] + Split(rest)
  {
    WordLengthOfToken(t, rest);
    var s := t + rest;
    assert s[..|t|] == t && s[|t|..] == rest;
  }

  /** Joining tokens with single spaces and splitting again gives back the tokens. */
  lemma {:induction false} SplitJoin(ts: seq<string>)
    requires forall i :: 0 <= i < |ts| ==> IsToken(ts[i])
    ensures Split(JoinSpace(ts)) == ts
  {
    if |ts| == 1 {
      SplitToken(ts[0], []);
      assert ts[0] + [] == ts[0];
    } else if |ts| > 1 {
      var rest := " " + JoinSpace(ts[1..]);
      assert JoinSpace(ts) == ts[0] + rest;
      SplitToken(ts[0], rest);
      SplitSpace(JoinSpace(ts[1..]));
      SplitJoin(ts[1..]);
    }
  }

  /** A trailing newline does not change the tokens of a line. */
  lemma {:induction false} SplitTrailingNewline(s: string)
    ensures Split(s + "\n") == Split(s)
    decreases |s|
  {
    if s == [] {
      assert Split("\n") == Split([]);
    } else if IsSpace(s[0]) {
      assert (s + "\n")[1..] == s[1..] + "\n";
      SplitTrailingNewline(s[1..]);
    } else {
      var n := WordLength(s);
      WordLengthOfToken(s[..n], s[n..]);
      assert s[..n] + s[n..] == s;
      WordLengthOfToken(s[..n], s[n..] + "\n");
      assert s + "\n" == s[..n] + (s[n..] + "\n");
      assert (s + "\n")[..n] == s[..n] && (s + "\n")[n..] == s[n..] + "\n";
      SplitTrailingNewline(s[n..]);
    }
  }

  // ---------------------------------------------------------------------
  // Decimal numbers
  // ---------------------------------------------------------------------

  function DigitChar(d: int): (c: char)
    requires 0 <= d < 10
    ensures IsDigit(c)
  {
    (48 + d) as char
  }

  function DigitValue(c: char): (d: int)
    requires IsDigit(c)
    ensures 0 <= d < 10
    ensures DigitChar(d) == c
  {
    (c as int) - 48
  }

  predicate AllDigits(s: string) {
    forall i :: 0 <= i < |s| ==> IsDigit(s[i])
  }

  /** `'{}'.format(n)` for a non-negative integer: its decimal digits without leading zeros. */
  function FormatNat(n: nat): (s: string)
    ensures s != [] && AllDigits(s)
    ensures n >= 1 ==> s[0] != '0'
  {
    if n < 10 then [DigitChar(n)] else FormatNat(n / 10) + [DigitChar(n % 10)]
  }

  /** The value of a string of decimal digits, most significant first. */
  function DigitsValue(s: string): (n: nat)
    requires AllDigits(s)
    ensures s != [] && s[0] != '0' ==> n > 0
  {
    if s == [] then 0
    else 10 * DigitsValue(s[..|s| - 1]) + DigitValue(s[|s| - 1])
  }

  /** Reading back what `FormatNat` wrote gives the number. */
  lemma {:induction false} DigitsValueFormat(n: nat)
    ensures DigitsValue(FormatNat(n)) == n
  {
    var s := FormatNat(n);
    if n >= 10 {
      DigitsValueFormat(n / 10);
      assert s[..|s| - 1] == FormatNat(n / 10);
    }
  }

  /** `FormatNat` is injective: different numbers have different spellings. */
  lemma FormatNatInjective(m: nat, n: nat)
    requires FormatNat(m) == FormatNat(n)
    ensures m == n
  {
    DigitsValueFormat(m);
    DigitsValueFormat(n);
  }

  /**
   * Python's `int(s)` on a token: an optional sign and at least one ASCII
   * digit; leading zeros are accepted. `None` stands for the `ValueError`.
   */
  function ParseInt(s: string): (r: Option<int>)
    ensures r.Some? ==> s != []
    ensures AllDigits(s) && s != [] ==> r == Some(DigitsValue(s))
    ensures |s| >= 2 && s[0] == '+' && AllDigits(s[1..]) ==> r == Some(DigitsValue(s[1..]))
    ensures |s| >= 2 && s[0] == '-' && AllDigits(s[1..]) ==> r == Some(0 - DigitsValue(s[1..]) as int)
    ensures r.None? <==> s == [] || (if s[0] == '+' || s[0] == '-' then |s| < 2 || !AllDigits(s[1..]) else !AllDigits(s))
  {
    if s == [] then None
    else if s[0] == '+' || s[0] == '-' then
      var t := s[1..];
      if t != [] && AllDigits(t) then
        var v: int := DigitsValue(t);
        Some(if s[0] == '-' then -v else v)
      else None
    else if AllDigits(s) then Some(DigitsValue(s))
    else None
  }

  /** `int()` reads back what `'{}'.format` wrote. */
  lemma ParseFormat(n: nat)
    ensures ParseInt(FormatNat(n)) == Some(n)
  {
    DigitsValueFormat(n);
  }

  // ---------------------------------------------------------------------
  // Read-only combobox
  // ---------------------------------------------------------------------

  /** `combobox.current()`: the position of the shown text among the values, or -1. */
  function FindLabel(labels: seq<string>, t: string): (i: int)
    ensures -1 <= i < |labels|
    ensures i >= 0 ==> labels[i] == t && forall j :: 0 <= j < i ==> labels[j] != t
    ensures i == -1 ==> t !in labels
  {
    if labels == [] then -1
    else if labels[0] == t then 0
    else
      var k := FindLabel(labels[1..], t);
      if k == -1 then -1 else k + 1
  }
}
