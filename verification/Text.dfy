/** Character-level text helpers shared by the model: decimal rendering of
    natural numbers (as Go's formatting of unsigned integers produces it),
    the inverse digit-string value, and splitting / joining on a separator. */
module Text {

  predicate IsDigit(c: char) {
    '0' <= c <= '9'
  }

  predicate AllDigits(s: string) {
    forall i :: 0 <= i < |s| ==> IsDigit(s[i])
  }

  function DigitChar(d: nat): (c: char)
    requires d < 10
    ensures IsDigit(c)
  {
    ['0', '1', '2', '3', '4', '5', '6', '7', '8', '9'][d]
  }

  function DigitValue(c: char): (d: nat)
    requires IsDigit(c)
    ensures d < 10
    ensures DigitChar(d) == c
  {
    (c as int) - ('0' as int)
  }

  /** A decimal numeral as Go prints an unsigned integer: at least one digit
      and no leading zero unless the number itself is zero. */
  predicate IsCanonicalDecimal(s: string) {
    && 1 <= |s|
    && AllDigits(s)
    && (s[0] == '0' ==> |s| == 1)
  }

  /** The number a digit string denotes, read most significant digit first. */
  function DigitsValue(s: string): nat
    requires AllDigits(s)
  {
    if |s| == 0 then 0
    else DigitsValue(s[..|s| - 1]) * 10 + DigitValue(s[|s| - 1])
  }

  /** The decimal rendering of `n`. */
  function Decimal(n: nat): (s: string)
    ensures IsCanonicalDecimal(s)
    ensures DigitsValue(s) == n
  {
    if n < 10 then [DigitChar(n)]
    else
      var p := Decimal(n / 10);
      var s := p + [DigitChar(n % 10)];
      assert s[..|s| - 1] == p;
      s
  }

  /** The rendering has one digit per power of ten up to `n`. */
  lemma {:induction false} DecimalLength(n: nat)
    ensures n < 10 <==> |Decimal(n)| == 1
    ensures n < 100 <==> |Decimal(n)| <= 2
    ensures n < 1000 <==> |Decimal(n)| <= 3
  {
    if n >= 10 {
      DecimalLength(n / 10);
    }
  }

  lemma {:induction false} LeadingDigitPositive(s: string)
    requires AllDigits(s) && 1 <= |s| && s[0] != '0'
    ensures DigitsValue(s) >= 1
  {
    if |s| > 1 {
      LeadingDigitPositive(s[..|s| - 1]);
    }
  }

  /** Every canonical numeral is the rendering of the number it denotes, so
      `Decimal` and `DigitsValue` are inverse bijections between naturals and
      canonical numerals. */
  lemma {:induction false} DecimalOfDigitsValue(s: string)
    requires IsCanonicalDecimal(s)
    ensures Decimal(DigitsValue(s)) == s
  {
    if |s| > 1 {
      var p := s[..|s| - 1];
      LeadingDigitPositive(p);
      DecimalOfDigitsValue(p);
      var n := DigitsValue(s);
      var d := DigitValue(s[|s| - 1]);
      assert n == DigitsValue(p) * 10 + d;
      assert n / 10 == DigitsValue(p) && n % 10 == d;
      assert s == p + [s[|s| - 1]];
    }
  }

  /** Splits `s` at every occurrence of `sep`, like Go's `strings.Split`:
      there is always at least one field, and k separators give k + 1 fields. */
  function Split(s: string, sep: char): (fields: seq<string>)
    ensures 1 <= |fields|
    ensures forall i :: 0 <= i < |fields| ==> sep !in fields[i]
  {
    if |s| == 0 then [""]
    else
      var rest := Split(s[1..], sep);
      if s[0] == sep then [""] + rest
      else [[s[0]] + rest[0]] + rest[1..]
  }

  /** Concatenates `fields` with `sep` between neighbours. */
  function Join(fields: seq<string>, sep: char): string
  {
    if |fields| == 0 then ""
    else if |fields| == 1 then fields[0]
    else fields[0] + [sep] + Join(fields[1..], sep)
  }

  function Count(s: string, c: char): (n: nat)
    ensures n <= |s|
    ensures n == 0 <==> c !in s
  {
    if |s| == 0 then 0
    else (if s[0] == c then 1 else 0) + Count(s[1..], c)
  }

  lemma {:induction false} CountAppend(a: string, b: string, c: char)
    ensures Count(a + b, c) == Count(a, c) + Count(b, c)
  {
    if |a| > 0 {
      assert (a + b)[1..] == a[1..] + b;
      CountAppend(a[1..], b, c);
    } else {
      assert a + b == b;
    }
  }

  lemma {:induction false} SplitFieldPrefix(f: string, t: string, sep: char)
    requires sep !in f
    ensures Split(f + t, sep) == [f + Split(t, sep)[0]] + Split(t, sep)[1..]
  {
    if |f| > 0 {
      assert (f + t)[1..] == f[1..] + t;
      SplitFieldPrefix(f[1..], t, sep);
      assert [f[0]] + (f[1..] + Split(t, sep)[0]) == f + Split(t, sep)[0];
    } else {
      var r := Split(t, sep);
      assert f + t == t;
      assert f + r[0] == r[0];
      assert r == [r[0]] + r[1..];
    }
  }

  /** Splitting undoes joining when no field contains the separator. */
  lemma {:induction false} SplitJoin(fields: seq<string>, sep: char)
    requires 1 <= |fields|
    requires forall i :: 0 <= i < |fields| ==> sep !in fields[i]
    ensures Split(Join(fields, sep), sep) == fields
  {
    if |fields| == 1 {
      SplitFieldPrefix(fields[0], "", sep);
      assert fields[0] + "" == fields[0];
    } else {
      var rest := Join(fields[1..], sep);
      SplitJoin(fields[1..], sep);
      assert ([sep] + rest)[1..] == rest;
      assert Split([sep] + rest, sep) == [""] + fields[1..];
      assert fields[0] + [sep] + rest == fields[0] + ([sep] + rest);
      SplitFieldPrefix(fields[0], [sep] + rest, sep);
      assert fields[0] + "" == fields[0];
      assert fields == [fields[0]] + fields[1..];
    }
  }

  /** Joining undoes splitting, for every string. */
  lemma {:induction false} JoinSplit(s: string, sep: char)
    ensures Join(Split(s, sep), sep) == s
  {
    if |s| > 0 {
      var rest := Split(s[1..], sep);
      JoinSplit(s[1..], sep);
      if s[0] == sep {
        assert ([""] + rest)[1..] == rest;
        assert s == [s[0]] + s[1..];
      } else {
        var fields := [[s[0]] + rest[0]] + rest[1..];
        if |rest| == 1 {
          assert s == [s[0]] + s[1..];
        } else {
          assert fields[1..] == rest[1..];
          assert Join(rest, sep) == rest[0] + [sep] + Join(rest[1..], sep);
          assert s == [s[0]] + s[1..];
        }
      }
    }
  }

  /** A join of k fields free of the separator holds exactly k - 1 separators. */
  lemma {:induction false} CountJoin(fields: seq<string>, sep: char)
    requires 1 <= |fields|
    requires forall i :: 0 <= i < |fields| ==> sep !in fields[i]
    ensures Count(Join(fields, sep), sep) == |fields| - 1
  {
    if |fields| > 1 {
      CountJoin(fields[1..], sep);
      CountAppend(fields[0], [sep], sep);
      CountAppend(fields[0] + [sep], Join(fields[1..], sep), sep);
      assert Count([sep], sep) == 1;
    }
  }

  /** A four-field join written out. */
  lemma JoinFour(fields: seq<string>, sep: char)
    requires |fields| == 4
    ensures Join(fields, sep) == fields[0] + [sep] + fields[1] + [sep] + fields[2] + [sep] + fields[3]
  {
    var last := Join(fields[2..], sep);
    assert fields[2..][1..] == [fields[3]];
    assert Join([fields[3]], sep) == fields[3];
    assert last == fields[2] + [sep] + fields[3];
    assert fields[1..][1..] == fields[2..];
    var middle := Join(fields[1..], sep);
    assert middle == fields[1] + [sep] + last;
  }
}
