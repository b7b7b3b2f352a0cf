/**
  The few functions of Go's standard library that the rational type calls:
  `strconv.FormatInt(x, 10)`, `strconv.Atoi` / `strconv.ParseInt(s, 10, 0)` and
  `strings.Split` with a one-character separator. Integers are unbounded, so the
  range errors of the 64-bit parsers do not arise here.
*/
module GoStd {
  import opened Wrappers

  /** The error `strconv` reports for text that is not a base-10 integer. */
  datatype NumError = ErrSyntax

  predicate IsDigit(c: char) {
    '0' <= c <= '9'
  }

  predicate AllDigits(s: string) {
    forall k :: 0 <= k < |s| ==> IsDigit(s[k])
  }

  function DigitChar(v: int): (c: char)
    requires 0 <= v < 10
    ensures IsDigit(c) && c as int - '0' as int == v
  {
    "0123456789"[v]
  }

  function DigitValue(c: char): (v: nat)
    requires IsDigit(c)
    ensures v < 10 && DigitChar(v) == c
  {
    c as int - '0' as int
  }

  /** The number a string of decimal digits denotes (most significant digit first). */
  function DigitsValue(s: string): nat
    requires AllDigits(s)
  {
    if |s| == 0 then 0 else DigitsValue(s[..|s| - 1]) * 10 + DigitValue(s[|s| - 1])
  }

  /** The decimal digits of `x`, without leading zeros ("0" for zero). */
  function Digits(x: nat): string
  {
    if x < 10 then [DigitChar(x)] else Digits(x / 10) + [DigitChar(x % 10)]
  }

  /** `strconv.FormatInt(x, 10)`: an optional minus sign, then the digits of |x|. */
  function FormatInt(x: int): string
  {
    if x < 0 then "-" + Digits(-x) else Digits(x)
  }

  /**
    `strconv.Atoi(s)`, which for base 10 is also `strconv.ParseInt(s, 10, 0)`:
    an optional `+` or `-`, then at least one decimal digit, and nothing else.
  */
  function Atoi(s: string): (r: Result<int, NumError>)
    ensures r.Ok? ==> |s| > 0
  {
    if |s| > 0 && (s[0] == '+' || s[0] == '-') then
      var body := s[1..];
      if |body| > 0 && AllDigits(body) then
        var v: int := if s[0] == '-' then -(DigitsValue(body) as int) else DigitsValue(body);
        Ok(v)
      else
        Err(ErrSyntax)
    else if |s| > 0 && AllDigits(s) then
      Ok(DigitsValue(s))
    else
      Err(ErrSyntax)
  }

  lemma {:induction false} DigitsRoundTrip(x: nat)
    ensures |Digits(x)| > 0 && AllDigits(Digits(x))
    ensures DigitsValue(Digits(x)) == x
  {
    if x >= 10 {
      DigitsRoundTrip(x / 10);
      var s := Digits(x);
      assert s[..|s| - 1] == Digits(x / 10);
    }
  }

  /** What `FormatInt` prints, `Atoi` reads back. */
  lemma FormatIntRoundTrip(x: int)
    ensures Atoi(FormatInt(x)) == Ok(x)
  {
    var ds := Digits(if x < 0 then -x else x);
    DigitsRoundTrip(if x < 0 then -x else x);
    if x < 0 {
      var t := FormatInt(x);
      assert t[0] == '-' && t[1..] == ds;
      AtoiOfNegated(t);
    } else {
      AtoiOfDigits(ds);
    }
  }

  /** A digit string reads back as its value. */
  lemma AtoiOfDigits(ds: string)
    requires |ds| > 0 && AllDigits(ds)
    ensures Atoi(ds) == Ok(DigitsValue(ds))
  {
    assert IsDigit(ds[0]);
  }

  /** A minus sign followed by a digit string reads back as the negated value. */
  lemma AtoiOfNegated(t: string)
    requires |t| > 1 && t[0] == '-' && AllDigits(t[1..])
    ensures Atoi(t) == Ok(-(DigitsValue(t[1..]) as int))
  {
  }

  /** `FormatInt` never prints the slash or the plus sign that `String` uses as separators. */
  lemma FormatIntAlphabet(x: int)
    ensures |FormatInt(x)| > 0
    ensures forall k :: 0 <= k < |FormatInt(x)| ==> FormatInt(x)[k] == '-' || IsDigit(FormatInt(x)[k])
    ensures FormatInt(x) == "0" <==> x == 0
  {
    DigitsRoundTrip(if x < 0 then -x else x);
    if FormatInt(x) == "0" {
      assert x >= 0 && DigitsValue("0") == 0;
    }
  }

  /** `strings.Split(s, string(sep))`: the pieces of `s` between occurrences of `sep`. */
  function Split(s: string, sep: char): (parts: seq<string>)
    ensures |parts| > 0
    ensures forall k :: 0 <= k < |parts| ==> sep !in parts[k]
  {
    if |s| == 0 then [""]
    else if s[0] == sep then [""] + Split(s[1..], sep)
    else
      var rest := Split(s[1..], sep);
      [[s[0]] + rest[0]] + rest[1..]
  }

  /** `strings.Join(parts, string(sep))`, the inverse of `Split`. */
  function Join(parts: seq<string>, sep: char): string
    requires |parts| > 0
  {
    if |parts| == 1 then parts[0] else parts[0] + [sep] + Join(parts[1..], sep)
  }

  lemma {:induction false} SplitJoin(s: string, sep: char)
    ensures Join(Split(s, sep), sep) == s
  {
    if |s| > 0 {
      SplitJoin(s[1..], sep);
      if s[0] != sep {
        var rest := Split(s[1..], sep);
        if |rest| > 1 {
          assert rest == [rest[0]] + rest[1..];
          assert Join(rest, sep) == rest[0] + [sep] + Join(rest[1..], sep);
        }
      }
    }
  }

  /** Splitting on a separator that occurs exactly once gives the text before and after it. */
  lemma {:induction false} SplitOnce(s: string, sep: char, p: nat)
    requires p < |s| && s[p] == sep && sep !in s[..p] && sep !in s[p + 1..]
    ensures Split(s, sep) == [s[..p], s[p + 1..]]
  {
    if p == 0 {
      SplitNone(s[1..], sep);
    } else {
      assert s[1..][..p - 1] == s[1..p];
      assert s[1..][p..] == s[p + 1..];
      SplitOnce(s[1..], sep, p - 1);
      assert [s[0]] + s[1..p] == s[..p];
    }
  }

  lemma {:induction false} SplitNone(s: string, sep: char)
    requires sep !in s
    ensures Split(s, sep) == [s]
  {
    if |s| > 0 {
      assert s[0] != sep && sep !in s[1..];
      SplitNone(s[1..], sep);
      assert [s[0]] + s[1..] == s;
    }
  }

  /** A leading piece free of the separator splits off by itself. */
  lemma {:induction false} SplitAfter(a: string, sep: char, b: string)
    requires sep !in a
    ensures Split(a + [sep] + b, sep) == [a] + Split(b, sep)
  {
    if |a| > 0 {
      assert (a + [sep] + b)[1..] == a[1..] + [sep] + b;
      SplitAfter(a[1..], sep, b);
      assert [a[0]] + a[1..] == a;
    } else {
      assert (a + [sep] + b)[1..] == b;
    }
  }
}
