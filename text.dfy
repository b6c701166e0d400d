/** The text operations the queries rely on, with Python's meaning:
    str.split on a one-character separator and its inverse join, decimal
    digit strings (int(s) on ASCII digits and str(n)), and the ordering
    Python uses when it compares two str values with '>'. */
module Text {

  // ---------------------------------------------------------------------
  // split and join on one separator character
  // ---------------------------------------------------------------------

  /** Joins at least one part with the separator between consecutive parts. */
  function Join(parts: seq<string>, sep: char): string
    requires |parts| >= 1
  {
    if |parts| == 1 then parts[0] else parts[0] + [sep] + Join(parts[1..], sep)
  }

  /** Position of the first occurrence of `c` in `s`. */
  function IndexOf(s: string, c: char): (i: nat)
    requires c in s
    ensures i < |s| && s[i] == c && c !in s[..i]
  {
    if s[0] == c then 0
    else
      var j := IndexOf(s[1..], c);
      assert s[..j + 1] == [s[0]] + s[1..][..j];
      1 + j
  }

  /** str.split(sep): the pieces between separators, so always at least one
      piece, none of which holds the separator, and joining them gives the
      text back. */
  function Split(s: string, sep: char): (parts: seq<string>)
    ensures |parts| >= 1
    ensures forall k :: 0 <= k < |parts| ==> sep !in parts[k]
    ensures Join(parts, sep) == s
    decreases |s|
  {
    if sep !in s then [s]
    else
      var i := IndexOf(s, sep);
      var rest := Split(s[i + 1..], sep);
      assert s == s[..i] + [sep] + s[i + 1..];
      [s[..i]] + rest
  }

  /** Splitting undoes joining when no part holds the separator. */
  lemma {:induction false} SplitJoin(parts: seq<string>, sep: char)
    requires |parts| >= 1
    requires forall k :: 0 <= k < |parts| ==> sep !in parts[k]
    ensures Split(Join(parts, sep), sep) == parts
  {
    if |parts| > 1 {
      var s := Join(parts, sep);
      var n := |parts[0]|;
      var tail := Join(parts[1..], sep);
      assert s == parts[0] + [sep] + tail;
      assert s[n] == sep;
      assert sep in s;
      var i := IndexOf(s, sep);
      assert s[..i] == parts[0];
      assert s[i + 1..] == tail;
      SplitJoin(parts[1..], sep);
      assert Split(s, sep) == [parts[0]] + parts[1..];
    }
  }

  /** Text appended to a join lands in the last part. */
  lemma {:induction false} JoinAppendLast(parts: seq<string>, t: string, sep: char)
    requires |parts| >= 1
    ensures Join(parts[..|parts| - 1] + [parts[|parts| - 1] + t], sep) == Join(parts, sep) + t
    decreases |parts|
  {
    if |parts| > 1 {
      var tail := parts[1..];
      var q := parts[..|parts| - 1] + [parts[|parts| - 1] + t];
      assert q[0] == parts[0];
      assert q[1..] == tail[..|tail| - 1] + [tail[|tail| - 1] + t];
      JoinAppendLast(tail, t, sep);
    }
  }

  /** Appending text without the separator extends the last piece. */
  lemma SplitAppend(s: string, t: string, sep: char)
    requires sep !in t
    ensures var parts := Split(s, sep);
      Split(s + t, sep) == parts[..|parts| - 1] + [parts[|parts| - 1] + t]
  {
    var parts := Split(s, sep);
    var q := parts[..|parts| - 1] + [parts[|parts| - 1] + t];
    JoinAppendLast(parts, t, sep);
    forall k | 0 <= k < |q| ensures sep !in q[k] {
      if k == |q| - 1 {
        var last := parts[|parts| - 1];
        assert q[k] == last + t;
        assert forall i :: 0 <= i < |q[k]| ==> q[k][i] == if i < |last| then last[i] else t[i - |last|];
      } else {
        assert q[k] == parts[k];
      }
    }
    SplitJoin(q, sep);
  }

  // ---------------------------------------------------------------------
  // decimal digit strings
  // ---------------------------------------------------------------------

  predicate IsDigit(ch: char) { '0' <= ch <= '9' }

  /** str.isascii() and str.isdigit() together; true of "" as well. */
  predicate AllDigits(s: string) { forall k :: 0 <= k < |s| ==> IsDigit(s[k]) }

  /** A non-empty digit string without a superfluous leading zero. */
  predicate Canonical(s: string) {
    |s| >= 1 && AllDigits(s) && (s[0] == '0' ==> |s| == 1)
  }

  function DigitValue(ch: char): nat
    requires IsDigit(ch)
  {
    ch as int - '0' as int
  }

  function DigitChar(d: nat): (ch: char)
    requires d < 10
    ensures IsDigit(ch) && DigitValue(ch) == d
  {
    ('0' as int + d) as char
  }

  /** int(s, 10) for a string of ASCII digits. */
  function DecimalValue(s: string): nat
    requires AllDigits(s)
    decreases |s|
  {
    if s == [] then 0 else 10 * DecimalValue(s[..|s| - 1]) + DigitValue(s[|s| - 1])
  }

  /** str(n) for a natural number: canonical digits that read back as n. */
  function NatToDecimal(n: nat): (r: string)
    ensures Canonical(r)
    ensures DecimalValue(r) == n
    decreases n
  {
    if n < 10 then [DigitChar(n)]
    else
      var front := NatToDecimal(n / 10);
      var r := front + [DigitChar(n % 10)];
      assert r[..|r| - 1] == front;
      r
  }

  /** str(i) for any integer, with a leading '-' when negative. */
  function IntToDecimal(i: int): (r: string)
    ensures |r| >= 1
    ensures i < 0 <==> r[0] == '-'
    ensures i < 0 ==> Canonical(r[1..]) && DecimalValue(r[1..]) == -i
    ensures i >= 0 ==> Canonical(r) && DecimalValue(r) == i
  {
    if i < 0 then
      var r := "-" + NatToDecimal(-i);
      assert r[1..] == NatToDecimal(-i);
      r
    else NatToDecimal(i)
  }

  /** A number below 1000 is written with at most three digits. */
  lemma {:induction false} SmallDecimalLength(n: nat)
    requires n < 1000
    ensures |NatToDecimal(n)| <= 3
  {
    if n >= 10 {
      if n / 10 >= 10 {
        assert n / 10 / 10 < 10;
        assert |NatToDecimal(n / 10 / 10)| == 1;
        assert |NatToDecimal(n / 10)| == 2;
      }
    }
  }

  /** A canonical digit string that does not start with '0' is at least 1. */
  lemma {:induction false} LeadingDigitPositive(s: string)
    requires Canonical(s) && s[0] != '0'
    ensures DecimalValue(s) >= 1
  {
    if |s| > 1 {
      var front := s[..|s| - 1];
      assert front[0] == s[0];
      LeadingDigitPositive(front);
    }
  }

  /** Reading a canonical digit string and writing the number back gives the
      same string: str(int(s)) == s. */
  lemma {:induction false} DecimalCanonical(s: string)
    requires Canonical(s)
    ensures NatToDecimal(DecimalValue(s)) == s
  {
    var n := DecimalValue(s);
    if |s| == 1 {
      assert s[..0] == [];
      assert DecimalValue(s[..0]) == 0;
      assert n == DigitValue(s[0]);
      assert DigitChar(n) == s[0];
      assert NatToDecimal(n) == [s[0]];
    } else {
      var front := s[..|s| - 1];
      assert front[0] == s[0];
      assert Canonical(front);
      LeadingDigitPositive(front);
      var d := DigitValue(s[|s| - 1]);
      assert n == 10 * DecimalValue(front) + d;
      assert n >= 10;
      assert n / 10 == DecimalValue(front);
      assert n % 10 == d;
      DecimalCanonical(front);
      assert DigitChar(d) == s[|s| - 1];
      assert s == front + [s[|s| - 1]];
    }
  }

  // ---------------------------------------------------------------------
  // Python's ordering of str values
  // ---------------------------------------------------------------------

  /** a < b for Python strings: code point by code point, and a proper
      prefix is smaller. */
  predicate LexLess(a: string, b: string)
    decreases |a|
  {
    if b == [] then false
    else if a == [] then true
    else if a[0] != b[0] then a[0] < b[0]
    else LexLess(a[1..], b[1..])
  }

  lemma {:induction false} LexIrreflexive(a: string)
    ensures !LexLess(a, a)
    decreases |a|
  {
    if a != [] {
      LexIrreflexive(a[1..]);
    }
  }

  lemma {:induction false} LexTransitive(a: string, b: string, c: string)
    requires LexLess(a, b) && LexLess(b, c)
    ensures LexLess(a, c)
    decreases |a|
  {
    if a != [] && a[0] == b[0] && b[0] == c[0] {
      LexTransitive(a[1..], b[1..], c[1..]);
    }
  }

  lemma {:induction false} LexTotal(a: string, b: string)
    requires a != b
    ensures LexLess(a, b) || LexLess(b, a)
    decreases |a|
  {
    if a != [] && b != [] && a[0] == b[0] {
      assert a == [a[0]] + a[1..] && b == [b[0]] + b[1..];
      LexTotal(a[1..], b[1..]);
    }
  }

  lemma LexAsymmetric(a: string, b: string)
    requires LexLess(a, b)
    ensures !LexLess(b, a)
  {
    if LexLess(b, a) {
      LexTransitive(a, b, a);
      LexIrreflexive(a);
    }
  }
}
