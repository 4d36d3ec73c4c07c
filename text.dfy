/** Decimal text as the Python built-ins used by both components write and read it:
    `str()` of an int, `f"{n:02}"` / `str(n).zfill(2)` zero padding, `int()` of a
    digit string, and `str.split` on one separator character. */
module Text {
  import opened Common

  predicate IsDigit(c: char) { '0' <= c <= '9' }

  /** Every character of `s` is a decimal digit (checked from the last one back). */
  predicate AllDigits(s: string)
    decreases |s|
  {
    s == [] || (AllDigits(s[..|s| - 1]) && IsDigit(s[|s| - 1]))
  }

  function DigitValue(c: char): (d: nat)
    requires IsDigit(c)
    ensures d < 10
  {
    c as int - '0' as int
  }

  function DigitChar(d: nat): (c: char)
    requires d < 10
    ensures IsDigit(c) && DigitValue(c) == d
  {
    ('0' as int + d) as char
  }

  /** The number a string of decimal digits denotes, most significant digit first. */
  function DigitsValue(s: string): nat
    requires AllDigits(s)
  {
    if s == [] then 0 else DigitsValue(s[..|s| - 1]) * 10 + DigitValue(s[|s| - 1])
  }

  function Pow10(k: nat): (p: nat)
    ensures p >= 1
  {
    if k == 0 then 1 else 10 * Pow10(k - 1)
  }

  /** `str(n)` for a non-negative int: the shortest decimal digit string denoting n. */
  function NatToString(n: nat): (s: string)
    ensures s != []
  {
    if n < 10 then [DigitChar(n)] else NatToString(n / 10) + [DigitChar(n % 10)]
  }

  /** `str(n)` is a digit string denoting n, with no leading zero unless n is 0. */
  lemma {:induction false} NatToStringDigits(n: nat)
    ensures AllDigits(NatToString(n)) && DigitsValue(NatToString(n)) == n
    ensures NatToString(n)[0] == '0' ==> n == 0
  {
    if n >= 10 {
      var prefix := NatToString(n / 10);
      NatToStringDigits(n / 10);
      assert (prefix + [DigitChar(n % 10)])[..|prefix|] == prefix;
      assert (prefix + [DigitChar(n % 10)])[0] == prefix[0];
    }
  }

  /** A number below 10^k takes at most k digits. */
  lemma {:induction false} NatToStringLength(n: nat, k: nat)
    requires 1 <= k && n < Pow10(k)
    ensures |NatToString(n)| <= k
  {
    if n >= 10 {
      NatToStringLength(n / 10, k - 1);
    }
  }

  /** `str(i)` for any int: a minus sign before the digits of a negative number. */
  function IntToString(i: int): string
  {
    if i < 0 then "-" + NatToString(-i) else NatToString(i)
  }

  /** `int(str(i)) == i`, and the text holds no colon. */
  lemma IntToStringParses(i: int)
    ensures ':' !in IntToString(i)
    ensures ParseInt(IntToString(i)) == Some(i)
  {
    if i < 0 {
      var digits := NatToString(-i);
      NatToStringDigits(-i);
      DigitsHaveNoColon(digits);
      assert ("-" + digits)[1..] == digits;
    } else {
      NatToStringDigits(i);
      DigitsHaveNoColon(NatToString(i));
      DigitAt(NatToString(i), 0);
    }
  }

  /** `int(s)` restricted to an optional sign followed by ASCII digits; `None` where
      Python raises ValueError. */
  function ParseInt(s: string): Option<int>
  {
    if |s| > 0 && (s[0] == '-' || s[0] == '+') then
      if |s| > 1 && AllDigits(s[1..]) then
        var magnitude: int := DigitsValue(s[1..]);
        Some(if s[0] == '-' then -magnitude else magnitude)
      else None
    else if |s| > 0 && AllDigits(s) then Some(DigitsValue(s))
    else None
  }

  /** Leading zeros do not change the number a digit string denotes. */
  lemma {:induction false} LeadingZeroValue(s: string)
    requires AllDigits(s)
    ensures AllDigits("0" + s) && DigitsValue("0" + s) == DigitsValue(s)
  {
    if s != [] {
      var init := s[..|s| - 1];
      LeadingZeroValue(init);
      assert ("0" + s)[..|s|] == "0" + init;
    }
  }

  /** `s.zfill(width)` for a string without a sign: zeros prepended until it is `width`
      long. */
  function ZeroFill(s: string, width: nat): (padded: string)
    ensures |padded| == if |s| >= width then |s| else width
    decreases width - |s|
  {
    if |s| >= width then s else ZeroFill("0" + s, width)
  }

  /** Zero-filling a digit string keeps it a digit string denoting the same number. */
  lemma {:induction false} ZeroFillValue(s: string, width: nat)
    requires AllDigits(s)
    ensures AllDigits(ZeroFill(s, width)) && DigitsValue(ZeroFill(s, width)) == DigitsValue(s)
    decreases width - |s|
  {
    if |s| < width {
      LeadingZeroValue(s);
      ZeroFillValue("0" + s, width);
    }
  }

  /** `f"{n:0w}"` for a non-negative int: `str(n)` left-padded with zeros to width w. */
  function ZeroPad(n: nat, width: nat): string
  {
    ZeroFill(NatToString(n), width)
  }

  /** `f"{n:0w}"` is a digit string of at least w characters denoting n, exactly w when
      `str(n)` fits, and `str(n)` itself when it does not. */
  lemma ZeroPadDigits(n: nat, width: nat)
    ensures |ZeroPad(n, width)| >= width && AllDigits(ZeroPad(n, width)) && DigitsValue(ZeroPad(n, width)) == n
    ensures |NatToString(n)| <= width ==> |ZeroPad(n, width)| == width
    ensures |NatToString(n)| >= width ==> ZeroPad(n, width) == NatToString(n)
  {
    NatToStringDigits(n);
    ZeroFillValue(NatToString(n), width);
  }

  /** `f"{n:02}"`, and equally `str(n).zfill(2)` for a non-negative n. */
  function Pad2(n: nat): string
  {
    ZeroPad(n, 2)
  }

  /** `f"{n:02}"` is at least two digits denoting n, and exactly two below 100. */
  lemma Pad2Digits(n: nat)
    ensures |Pad2(n)| >= 2 && AllDigits(Pad2(n)) && DigitsValue(Pad2(n)) == n
    ensures n < 100 ==> |Pad2(n)| == 2
  {
    ZeroPadDigits(n, 2);
    if n < 100 {
      NatToStringLength(n, 2);
    }
  }

  /** Below 100, `f"{n:02}"` is the tens digit then the units digit, so a number below
      ten gets a leading zero. */
  lemma Pad2Small(n: nat)
    requires n < 100
    ensures Pad2(n) == [DigitChar(n / 10), DigitChar(n % 10)]
  {
    if n < 10 {
      assert NatToString(n) == [DigitChar(n)];
      assert ZeroFill([DigitChar(n)], 2) == ZeroFill("0" + [DigitChar(n)], 2);
      assert DigitChar(0) == '0';
    } else {
      assert NatToString(n / 10) == [DigitChar(n / 10)];
    }
  }

  /** `int(f"{n:02}") == n`, and the text holds no colon. */
  lemma Pad2Parses(n: nat)
    ensures ':' !in Pad2(n)
    ensures ParseInt(Pad2(n)) == Some(n)
  {
    Pad2Digits(n);
    DigitAt(Pad2(n), 0);
    DigitsHaveNoColon(Pad2(n));
  }

  /** `f"{a:02}:{b:02}"`: the `MM:SS` form both components write. */
  function PaddedPair(a: nat, b: nat): string
  {
    Pad2(a) + ":" + Pad2(b)
  }

  /** Both fields of an `MM:SS` text come back from splitting it at the colon, and each
      reads back as the number written. */
  lemma PaddedPairSplits(a: nat, b: nat)
    ensures Split(PaddedPair(a, b), ':') == [Pad2(a), Pad2(b)]
    ensures ParseInt(Pad2(a)) == Some(a) && ParseInt(Pad2(b)) == Some(b)
  {
    Pad2Parses(a);
    Pad2Parses(b);
    SplitAtSeparator(Pad2(a), ':', Pad2(b));
  }

  /** Each character of a digit string is a digit. */
  lemma {:induction false} DigitAt(s: string, i: nat)
    requires AllDigits(s) && i < |s|
    ensures IsDigit(s[i])
    decreases |s|
  {
    if i < |s| - 1 {
      DigitAt(s[..|s| - 1], i);
    }
  }

  /** The separator never occurs in a digit string. */
  lemma {:induction false} DigitsHaveNoColon(s: string)
    requires AllDigits(s)
    ensures ':' !in s
    decreases |s|
  {
    if s != [] {
      var init := s[..|s| - 1];
      DigitsHaveNoColon(init);
      assert s == init + [s[|s| - 1]];
    }
  }

  /** `sep.join(parts)`. */
  function Join(parts: seq<string>, sep: char): string
  {
    if parts == [] then ""
    else if |parts| == 1 then parts[0]
    else parts[0] + [sep] + Join(parts[1..], sep)
  }

  /** `s.split(sep)` for a one-character separator: the maximal runs between separators,
      always at least one (possibly empty) part. */
  function Split(s: string, sep: char): (parts: seq<string>)
    ensures |parts| >= 1
    decreases |s|
  {
    if s == [] then [""]
    else
      var rest := Split(s[1..], sep);
      if s[0] == sep then [""] + rest
      else [[s[0]] + rest[0]] + rest[1..]
  }

  /** Splitting and joining again gives back the original text. */
  lemma {:induction false} SplitJoin(s: string, sep: char)
    ensures Join(Split(s, sep), sep) == s
    decreases |s|
  {
    if s != [] {
      var rest := Split(s[1..], sep);
      SplitJoin(s[1..], sep);
      assert s == [s[0]] + s[1..];
      if s[0] == sep {
        assert ([""] + rest)[1..] == rest;
        assert Join([""] + rest, sep) == [sep] + Join(rest, sep);
      } else if |rest| == 1 {
        assert Join(Split(s, sep), sep) == [s[0]] + rest[0];
      } else {
        var parts := [[s[0]] + rest[0]] + rest[1..];
        assert parts[1..] == rest[1..];
        assert Join(rest, sep) == rest[0] + [sep] + Join(rest[1..], sep);
        assert Join(parts, sep) == [s[0]] + rest[0] + [sep] + Join(rest[1..], sep);
      }
    }
  }

  /** There is one more part than there are separators, and no part holds one, so a
      text splits into exactly two parts exactly when it holds a single separator. */
  lemma {:induction false} SplitParts(s: string, sep: char)
    ensures |Split(s, sep)| == multiset(s)[sep] + 1
    ensures forall p :: p in Split(s, sep) ==> sep !in p
    decreases |s|
  {
    if s != [] {
      var rest := Split(s[1..], sep);
      SplitParts(s[1..], sep);
      assert s == [s[0]] + s[1..];
      assert multiset(s) == multiset([s[0]]) + multiset(s[1..]);
      if s[0] != sep {
        var parts := Split(s, sep);
        forall p | p in parts ensures sep !in p {
          if p != parts[0] {
            assert p in rest[1..];
          }
        }
      }
    }
  }

  /** A string without the separator splits into itself alone. */
  lemma {:induction false} SplitWithoutSeparator(s: string, sep: char)
    requires sep !in s
    ensures Split(s, sep) == [s]
    decreases |s|
  {
    if s != [] {
      assert sep !in s[1..];
      SplitWithoutSeparator(s[1..], sep);
      assert s == [s[0]] + s[1..];
    }
  }

  /** A separator-free prefix joins the first part of what follows it. */
  lemma {:induction false} SplitAfterPrefix(a: string, sep: char, t: string)
    requires sep !in a
    ensures Split(a + t, sep) == [a + Split(t, sep)[0]] + Split(t, sep)[1..]
    decreases |a|
  {
    if a == [] {
      assert a + t == t;
      var parts := Split(t, sep);
      assert a + parts[0] == parts[0];
      assert parts == [parts[0]] + parts[1..];
    } else {
      assert (a + t)[1..] == a[1..] + t;
      assert sep !in a[1..];
      SplitAfterPrefix(a[1..], sep, t);
      assert [a[0]] + (a[1..] + Split(t, sep)[0]) == a + Split(t, sep)[0];
    }
  }

  /** `(a + sep + b).split(sep) == [a, b]` when neither side holds the separator. */
  lemma SplitAtSeparator(a: string, sep: char, b: string)
    requires sep !in a && sep !in b
    ensures Split(a + [sep] + b, sep) == [a, b]
  {
    SplitWithoutSeparator(b, sep);
    assert ([sep] + b)[1..] == b;
    assert Split([sep] + b, sep) == ["", b];
    SplitAfterPrefix(a, sep, [sep] + b);
    assert a + [sep] + b == a + ([sep] + b);
    assert a + "" == a;
    assert [a + ""] + ["", b][1..] == [a, b];
  }
}
