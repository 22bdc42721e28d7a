/** The string primitives of Python that the audit and diagnostic modules rely on:
    str.split / str.join on a one-character separator, str(n) for naturals and its
    inverse int(s), str.replace, str.strip, and the character classes isalnum and
    isspace. Strings are sequences of characters. */
module Text {

  predicate IsDigit(c: char) { '0' <= c <= '9' }

  predicate IsAsciiLetter(c: char) { 'a' <= c <= 'z' || 'A' <= c <= 'Z' }

  /** str.isalnum restricted to ASCII letters and digits. */
  predicate IsAlnum(c: char) { IsDigit(c) || IsAsciiLetter(c) }

  /** str.isspace: the characters Python's str.strip() removes when given no argument. */
  predicate IsSpace(c: char) {
    || '\t' <= c <= '\r'            // \t \n \v \f \r
    || '\U{1C}' <= c <= '\U{1F}'    // file, group, record and unit separators
    || c == ' ' || c == '\U{85}' || c == '\U{A0}' || c == '\U{1680}'
    || '\U{2000}' <= c <= '\U{200A}'
    || c == '\U{2028}' || c == '\U{2029}' || c == '\U{202F}' || c == '\U{205F}' || c == '\U{3000}'
  }

  predicate AllDigits(s: string) {
    forall k :: 0 <= k < |s| ==> IsDigit(s[k])
  }

  /** Number of occurrences of c in s. */
  function Count(s: string, c: char): (n: nat)
    ensures n <= |s|
    ensures n == 0 <==> c !in s
  {
    if |s| == 0 then 0 else (if s[0] == c then 1 else 0) + Count(s[1..], c)
  }

  // ---------------------------------------------------------------------------
  // str.split(sep) and sep.join(fields)

  /** s.split(sep) for a one-character separator: the maximal separator-free
      pieces between occurrences of sep, empty pieces included. */
  function Split(s: string, sep: char): seq<string>
  {
    if |s| == 0 then [""]
    else
      var rest := Split(s[1..], sep);
      if s[0] == sep then [""] + rest
      else [[s[0]] + (if |rest| > 0 then rest[0] else "")] + (if |rest| > 0 then rest[1..] else [])
  }

  /** There is one more piece than separators, and no piece holds a separator. */
  lemma {:induction false} SplitShape(s: string, sep: char)
    ensures |Split(s, sep)| == Count(s, sep) + 1
    ensures forall k :: 0 <= k < |Split(s, sep)| ==> sep !in Split(s, sep)[k]
  {
    if |s| > 0 {
      SplitShape(s[1..], sep);
    }
  }

  /** sep.join(fields). */
  function Join(fields: seq<string>, sep: char): string
  {
    if |fields| == 0 then ""
    else if |fields| == 1 then fields[0]
    else fields[0] + [sep] + Join(fields[1..], sep)
  }

  /** Joining the pieces of a split gives back the original string. */
  lemma {:induction false} JoinSplit(s: string, sep: char)
    ensures Join(Split(s, sep), sep) == s
  {
    if |s| == 0 {
    } else {
      var rest := Split(s[1..], sep);
      JoinSplit(s[1..], sep);
      if s[0] == sep {
        assert Split(s, sep) == [""] + rest;
        assert ([""] + rest)[1..] == rest;
      } else {
        var fields := [[s[0]] + rest[0]] + rest[1..];
        assert Split(s, sep) == fields;
        if |rest| == 1 {
          assert Join(rest, sep) == rest[0];
        } else {
          assert fields[1..] == rest[1..];
          assert Join(rest, sep) == rest[0] + [sep] + Join(rest[1..], sep);
        }
      }
    }
  }

  /** Splitting a join of separator-free pieces gives back the pieces. */
  lemma {:induction false} SplitJoin(fields: seq<string>, sep: char)
    requires |fields| >= 1
    requires forall k :: 0 <= k < |fields| ==> sep !in fields[k]
    ensures Split(Join(fields, sep), sep) == fields
  {
    if |fields| == 1 {
      SplitFree(fields[0], sep);
    } else {
      SplitJoin(fields[1..], sep);
      SplitAfterFree(fields[0], Join(fields[1..], sep), sep);
      assert Join(fields, sep) == fields[0] + [sep] + Join(fields[1..], sep);
      assert [fields[0]] + fields[1..] == fields;
    }
  }

  lemma {:induction false} SplitFree(s: string, sep: char)
    requires sep !in s
    ensures Split(s, sep) == [s]
  {
    if |s| > 0 {
      assert sep !in s[1..] by {
        forall k | 0 <= k < |s[1..]| ensures s[1..][k] != sep { assert s[1..][k] == s[k + 1]; }
      }
      SplitFree(s[1..], sep);
      assert [s[0]] + s[1..] == s;
    }
  }

  lemma {:induction false} SplitAfterFree(a: string, b: string, sep: char)
    requires sep !in a
    ensures Split(a + [sep] + b, sep) == [a] + Split(b, sep)
  {
    if |a| == 0 {
      assert a + [sep] + b == [sep] + b;
      assert ([sep] + b)[1..] == b;
    } else {
      assert sep !in a[1..] by {
        forall k | 0 <= k < |a[1..]| ensures a[1..][k] != sep { assert a[1..][k] == a[k + 1]; }
      }
      SplitAfterFree(a[1..], b, sep);
      assert (a + [sep] + b)[1..] == a[1..] + [sep] + b;
      assert [a[0]] + a[1..] == a;
    }
  }

  /** Joining the first k pieces yields a prefix of the full join; what follows it is
      empty or starts with the separator. */
  lemma {:induction false} JoinPrefix(fields: seq<string>, k: nat, sep: char)
    requires 1 <= k <= |fields|
    ensures k < |fields| ==> Join(fields, sep) == Join(fields[..k], sep) + [sep] + Join(fields[k..], sep)
    ensures k == |fields| ==> Join(fields[..k], sep) == Join(fields, sep)
  {
    if k == |fields| {
      assert fields[..k] == fields;
    } else if k == 1 {
      assert fields[..1] == [fields[0]];
    } else {
      JoinPrefix(fields[1..], k - 1, sep);
      assert fields[..k][1..] == fields[1..][..k - 1];
      assert fields[1..][k - 1..] == fields[k..];
    }
  }

  /** Each separator-free piece contributes no separator; the join adds |fields| - 1. */
  lemma {:induction false} CountJoin(fields: seq<string>, sep: char)
    requires |fields| >= 1
    requires forall k :: 0 <= k < |fields| ==> sep !in fields[k]
    ensures Count(Join(fields, sep), sep) == |fields| - 1
  {
    if |fields| > 1 {
      CountJoin(fields[1..], sep);
      CountConcat(fields[0] + [sep], Join(fields[1..], sep), sep);
      CountConcat(fields[0], [sep], sep);
    }
  }

  lemma {:induction false} CountConcat(a: string, b: string, c: char)
    ensures Count(a + b, c) == Count(a, c) + Count(b, c)
  {
    if |a| > 0 {
      CountConcat(a[1..], b, c);
      assert (a + b)[1..] == a[1..] + b;
    } else {
      assert a + b == b;
    }
  }

  // ---------------------------------------------------------------------------
  // str(n) and int(s)

  function DigitChar(d: nat): (c: char)
    requires d < 10
    ensures IsDigit(c)
  {
    ['0', '1', '2', '3', '4', '5', '6', '7', '8', '9'][d]
  }

  function DigitValue(c: char): (d: nat)
    requires IsDigit(c)
    ensures d < 10
  {
    (c as int - '0' as int) as nat
  }

  lemma DigitRoundTrip(d: nat)
    requires d < 10
    ensures DigitValue(DigitChar(d)) == d
  {
  }

  /** str(n): the decimal spelling of n without leading zeros. */
  function Decimal(n: nat): (s: string)
    ensures |s| >= 1 && AllDigits(s)
    ensures |s| > 1 ==> s[0] != '0'
  {
    if n < 10 then [DigitChar(n)] else Decimal(n / 10) + [DigitChar(n % 10)]
  }

  /** int(s) for a string of decimal digits. */
  function DecimalValue(s: string): nat
    requires AllDigits(s)
  {
    if |s| == 0 then 0 else 10 * DecimalValue(s[..|s| - 1]) + DigitValue(s[|s| - 1])
  }

  /** int(str(n)) == n. */
  lemma {:induction false} DecimalRoundTrip(n: nat)
    ensures DecimalValue(Decimal(n)) == n
  {
    if n >= 10 {
      var s := Decimal(n);
      assert s[..|s| - 1] == Decimal(n / 10);
      DecimalRoundTrip(n / 10);
    }
  }

  /** Distinct naturals have distinct spellings. */
  lemma DecimalInjective(m: nat, n: nat)
    requires Decimal(m) == Decimal(n)
    ensures m == n
  {
    DecimalRoundTrip(m);
    DecimalRoundTrip(n);
  }

  /** When neither tail contains the separator, a + [sep] + b determines a and b:
      the separator inserted is the last one of the string. */
  lemma LastSeparator(a: string, b: string, c: string, d: string, sep: char)
    requires sep !in b && sep !in d
    requires a + [sep] + b == c + [sep] + d
    ensures a == c && b == d
  {
    var s := a + [sep] + b;
    if |b| < |d| {
      SameAt(s, c + [sep] + d, |a|);
      assert false;
    } else if |d| < |b| {
      SameAt(s, c + [sep] + d, |c|);
      assert false;
    } else {
      assert a == s[..|a|] == c;
      assert b == s[|a| + 1..] == d;
    }
  }

  /** Equal sequences agree at every index. */
  lemma SameAt(x: string, y: string, i: int)
    requires x == y && 0 <= i < |x|
    ensures x[i] == y[i]
  {
  }

  function Pow10(k: nat): (p: nat)
    ensures p >= 1
  {
    if k == 0 then 1 else 10 * Pow10(k - 1)
  }

  /** A string of k digits denotes a number below 10^k. */
  lemma {:induction false} DecimalBound(s: string)
    requires AllDigits(s)
    ensures DecimalValue(s) < Pow10(|s|)
  {
    if |s| > 0 {
      DecimalBound(s[..|s| - 1]);
    }
  }

  /** n written in exactly `width` digits, with leading zeros (the %04d / %02d of printf). */
  function Pad(n: nat, width: nat): (s: string)
    ensures |s| == width && AllDigits(s)
  {
    if width == 0 then [] else Pad(n / 10, width - 1) + [DigitChar(n % 10)]
  }

  /** One digit written with width 1. */
  lemma PadOfDigit(d: nat)
    requires d < 10
    ensures Pad(d, 1) == [DigitChar(d)]
  {
    assert d / 10 == 0 && d % 10 == d;
  }

  /** Width 2 is the tens digit at width 1 followed by the units digit. */
  lemma PadTens(hi: nat, lo: nat)
    requires hi < 10 && lo < 10
    ensures Pad(10 * hi + lo, 2) == Pad(hi, 1) + [DigitChar(lo)]
  {
    var n := 10 * hi + lo;
    assert n / 10 == hi && n % 10 == lo;
  }

  /** Two digits written with width 2. */
  lemma PadOfDigits(hi: nat, lo: nat)
    requires hi < 10 && lo < 10
    ensures Pad(10 * hi + lo, 2) == [DigitChar(hi), DigitChar(lo)]
  {
    PadTens(hi, lo);
    PadOfDigit(hi);
  }

  /** Reading a digit and writing it again gives the digit back. */
  lemma DigitCharOf(c: char)
    requires IsDigit(c)
    ensures DigitChar(DigitValue(c)) == c
  {
  }

  /** Two digits are the width-2 padding of their value. */
  lemma TwoDigitPad(t: string)
    requires |t| == 2 && IsDigit(t[0]) && IsDigit(t[1])
    ensures Pad(10 * DigitValue(t[0]) + DigitValue(t[1]), 2) == t
  {
    PadOfChars(t[0], t[1]);
    assert t == [t[0], t[1]];
  }

  /** Two digit characters are the width-2 padding of the number they spell. */
  lemma PadOfChars(a: char, b: char)
    requires IsDigit(a) && IsDigit(b)
    ensures Pad(10 * DigitValue(a) + DigitValue(b), 2) == [a, b]
  {
    DigitCharOf(a);
    DigitCharOf(b);
    PadOfDigitChars(DigitValue(a), DigitValue(b), a, b);
  }

  /** PadOfDigits with the digit characters named. */
  lemma PadOfDigitChars(hi: nat, lo: nat, a: char, b: char)
    requires hi < 10 && lo < 10 && DigitChar(hi) == a && DigitChar(lo) == b
    ensures Pad(10 * hi + lo, 2) == [a, b]
  {
    PadOfDigits(hi, lo);
  }



  /** Reading a padded number back gives the number, when it fits the width. */
  lemma {:induction false} DecimalPadValue(n: nat, width: nat)
    requires n < Pow10(width)
    ensures DecimalValue(Pad(n, width)) == n
  {
    if width > 0 {
      var s := Pad(n, width);
      assert s[..|s| - 1] == Pad(n / 10, width - 1);
      DecimalPadValue(n / 10, width - 1);
    }
  }

  /** Padding a digit string's value to its own length gives the string back. */
  lemma {:induction false} PadDecimalValue(s: string)
    requires AllDigits(s)
    ensures Pad(DecimalValue(s), |s|) == s
  {
    if |s| > 0 {
      var init := s[..|s| - 1];
      var n := DecimalValue(s);
      assert n / 10 == DecimalValue(init) && n % 10 == DigitValue(s[|s| - 1]);
      PadDecimalValue(init);
      assert s == init + [s[|s| - 1]];
    }
  }

  // ---------------------------------------------------------------------------
  // str.replace(pat, rep)

  /** pat occurs somewhere in s. */
  predicate Occurs(pat: string, s: string)
    decreases |s|
  {
    |s| >= |pat| && (s[..|pat|] == pat || (|s| > 0 && Occurs(pat, s[1..])))
  }

  /** s.replace(pat, rep) for a non-empty pattern: occurrences are found from the
      left, and scanning resumes after each replaced occurrence. */
  function Replace(s: string, pat: string, rep: string): string
    requires |pat| > 0
    decreases |s|
  {
    if |s| < |pat| then s
    else if s[..|pat|] == pat then rep + Replace(s[|pat|..], pat, rep)
    else [s[0]] + Replace(s[1..], pat, rep)
  }

  /** Replacing a pattern that does not occur changes nothing. */
  lemma {:induction false} ReplaceAbsent(s: string, pat: string, rep: string)
    requires |pat| > 0
    requires !Occurs(pat, s)
    ensures Replace(s, pat, rep) == s
  {
    if |s| >= |pat| {
      ReplaceAbsent(s[1..], pat, rep);
      assert [s[0]] + s[1..] == s;
    }
  }

  /** Replacing a one-character pattern by text without that character leaves
      no occurrence of it. */
  lemma {:induction false} ReplaceCharRemoves(s: string, c: char, rep: string)
    requires c !in rep
    ensures c !in Replace(s, [c], rep)
  {
    if |s| >= 1 {
      ReplaceCharRemoves(s[1..], c, rep);
      assert s[1..] == s[|[c]|..];
    }
  }

  /** Appending a character that the pattern does not contain creates no occurrence. */
  lemma {:induction false} OccursAppend(pat: string, s: string, c: char)
    requires |pat| > 0 && c !in pat
    requires Occurs(pat, s + [c])
    ensures Occurs(pat, s)
  {
    var t := s + [c];
    if t[..|pat|] == pat {
      if |s| < |pat| {
        SameAt(t[..|pat|], pat, |s|);
        assert false;
      } else {
        assert s[..|pat|] == t[..|pat|];
      }
    } else {
      assert t[1..] == s[1..] + [c];
      OccursAppend(pat, s[1..], c);
    }
  }

  // ---------------------------------------------------------------------------
  // str.strip()

  /** s.lstrip(): drop the leading whitespace. */
  function StripLeft(s: string): (r: string)
    ensures |r| <= |s| && r == s[|s| - |r|..]
    ensures forall k :: 0 <= k < |s| - |r| ==> IsSpace(s[k])
    ensures |r| == 0 || !IsSpace(r[0])
  {
    if |s| > 0 && IsSpace(s[0]) then StripLeft(s[1..]) else s
  }

  /** s.rstrip(): drop the trailing whitespace. */
  function StripRight(s: string): (r: string)
    ensures |r| <= |s| && r == s[..|r|]
    ensures forall k :: |r| <= k < |s| ==> IsSpace(s[k])
    ensures |r| == 0 || !IsSpace(r[|r| - 1])
  {
    if |s| > 0 && IsSpace(s[|s| - 1]) then StripRight(s[..|s| - 1]) else s
  }

  /** s.strip(). */
  function Strip(s: string): string
  {
    StripRight(StripLeft(s))
  }
}
