/** The string operations the core relies on: Python's `str.split(sep)`,
    `sep.join(parts)` and the decimal rendering and reading of integers. */
module Text {
  import opened Results

  predicate IsDigit(c: char) {
    '0' <= c <= '9'
  }

  predicate AllDigits(s: string) {
    forall i :: 0 <= i < |s| ==> IsDigit(s[i])
  }

  function DigitValue(c: char): (d: nat)
    requires IsDigit(c)
    ensures d < 10
  {
    (c as int) - ('0' as int)
  }

  function DigitChar(d: nat): (c: char)
    requires d < 10
    ensures IsDigit(c) && DigitValue(c) == d
  {
    (('0' as int) + d) as char
  }

  /** The value of a string of decimal digits, as Python's `int(s, 10)`. */
  function DecimalValue(s: string): nat
    requires AllDigits(s)
  {
    if |s| == 0 then 0 else DecimalValue(s[..|s| - 1]) * 10 + DigitValue(s[|s| - 1])
  }

  /** The shortest decimal rendering of `n`, as Python's `str(n)`. */
  function NatToDecimal(n: nat): (s: string)
    ensures |s| >= 1 && AllDigits(s)
  {
    if n < 10 then [DigitChar(n)] else NatToDecimal(n / 10) + [DigitChar(n % 10)]
  }

  /** Python's `str(i)` for an integer of either sign. */
  function IntToDecimal(i: int): string {
    if i < 0 then "-" + NatToDecimal(-i) else NatToDecimal(i)
  }

  lemma {:induction false} DecimalRoundTrip(n: nat)
    ensures DecimalValue(NatToDecimal(n)) == n
  {
    if n >= 10 {
      var s := NatToDecimal(n);
      assert s[..|s| - 1] == NatToDecimal(n / 10);
      DecimalRoundTrip(n / 10);
    }
  }

  /** Only zero is rendered with a leading '0'. */
  lemma {:induction false} NoLeadingZero(n: nat)
    ensures NatToDecimal(n)[0] == '0' ==> n == 0
  {
    if n >= 10 {
      NoLeadingZero(n / 10);
    }
  }

  lemma DecimalLengthBelowThousand(n: nat)
    requires n < 1000
    ensures |NatToDecimal(n)| <= 3
  {
    if n >= 10 {
      var m := n / 10;
      assert m < 100;
      if m >= 10 {
        assert m / 10 < 10;
        assert |NatToDecimal(m / 10)| == 1;
        assert |NatToDecimal(m)| == 2;
      } else {
        assert |NatToDecimal(m)| == 1;
      }
      assert NatToDecimal(n) == NatToDecimal(m) + [DigitChar(n % 10)];
    }
  }

  /** Python's `s.split(sep)`: the pieces between occurrences of `sep`,
      always at least one, empty pieces included. */
  function Split(s: string, sep: char): (parts: seq<string>)
    ensures |parts| >= 1
  {
    if |s| == 0 then [""]
    else
      var rest := Split(s[1..], sep);
      if s[0] == sep then [""] + rest else [[s[0]] + rest[0]] + rest[1..]
  }

  /** Python's `sep.join(parts)`. */
  function Join(parts: seq<string>, sep: char): string {
    if |parts| == 0 then ""
    else if |parts| == 1 then parts[0]
    else parts[0] + [sep] + Join(parts[1..], sep)
  }

  lemma {:induction false} SplitWithoutSeparator(s: string, sep: char)
    requires sep !in s
    ensures Split(s, sep) == [s]
  {
    if |s| > 0 {
      assert s[0] != sep;
      SplitWithoutSeparator(s[1..], sep);
      assert [s[0]] + s[1..] == s;
    }
  }

  lemma {:induction false} SplitWithSeparator(s: string, sep: char)
    requires sep in s
    ensures |Split(s, sep)| >= 2
  {
    if s[0] != sep {
      SplitWithSeparator(s[1..], sep);
    }
  }

  /** Splitting at a separator splits the two sides independently. */
  lemma {:induction false} SplitAppend(x: string, sep: char, y: string)
    ensures Split(x + [sep] + y, sep) == Split(x, sep) + Split(y, sep)
  {
    if |x| == 0 {
      assert x + [sep] + y == [sep] + y;
      assert ([sep] + y)[1..] == y;
    } else {
      assert (x + [sep] + y)[1..] == x[1..] + [sep] + y;
      SplitAppend(x[1..], sep, y);
    }
  }

  /** `sep.join` followed by `split(sep)` gives the pieces back, when no piece
      holds the separator. */
  lemma {:induction false} SplitJoin(parts: seq<string>, sep: char)
    requires |parts| >= 1
    requires forall i :: 0 <= i < |parts| ==> sep !in parts[i]
    ensures Split(Join(parts, sep), sep) == parts
  {
    if |parts| == 1 {
      SplitWithoutSeparator(parts[0], sep);
    } else {
      SplitJoin(parts[1..], sep);
      SplitAppend(parts[0], sep, Join(parts[1..], sep));
      SplitWithoutSeparator(parts[0], sep);
    }
  }

  /** Three separators between four separator-free pieces split back into them. */
  lemma SplitFour(s1: string, s2: string, s3: string, s4: string, sep: char)
    requires sep !in s1 && sep !in s2 && sep !in s3 && sep !in s4
    ensures Split(s1 + [sep] + s2 + [sep] + s3 + [sep] + s4, sep) == [s1, s2, s3, s4]
  {
    var t3 := s3 + [sep] + s4;
    var t2 := s2 + [sep] + t3;
    assert s1 + [sep] + s2 + [sep] + s3 + [sep] + s4 == s1 + [sep] + t2;
    assert Split(t3, sep) == [s3, s4] by {
      SplitWithoutSeparator(s4, sep);
      SplitPrepend(s3, s4, [s4], sep);
    }
    assert Split(t2, sep) == [s2, s3, s4] by {
      SplitPrepend(s2, t3, [s3, s4], sep);
    }
    assert Split(s1 + [sep] + t2, sep) == [s1, s2, s3, s4] by {
      SplitPrepend(s1, t2, [s2, s3, s4], sep);
    }
  }

  /** One separator-free piece in front of a split. */
  lemma SplitPrepend(x: string, y: string, parts: seq<string>, sep: char)
    requires sep !in x && Split(y, sep) == parts
    ensures Split(x + [sep] + y, sep) == [x] + parts
  {
    SplitWithoutSeparator(x, sep);
    SplitAppend(x, sep, y);
  }

  /** Python's `s.index(c)`, with `None` where it raises `ValueError`. */
  function IndexOf(s: string, c: char): (r: Option<nat>)
    ensures r.None? <==> c !in s
    ensures r.Some? ==> r.value < |s| && s[r.value] == c && c !in s[..r.value]
  {
    if |s| == 0 then None
    else if s[0] == c then Some(0)
    else match IndexOf(s[1..], c)
      case None => None
      case Some(i) => Some(i + 1)
  }
}
