/** Character classes, numerals in base 2..16, and splitting a text into
    separator-delimited fields: the lexical layer under both address families. */
module Text {

  import opened Arith

  predicate IsDecDigit(c: char) {
    '0' <= c <= '9'
  }

  /** Hexadecimal digits are accepted in either case. */
  predicate IsHexDigit(c: char) {
    '0' <= c <= '9' || 'a' <= c <= 'f' || 'A' <= c <= 'F'
  }

  function DigitValue(c: char): (d: nat)
    requires IsHexDigit(c)
    ensures d < 16
    ensures d < 10 <==> IsDecDigit(c)
  {
    if '0' <= c <= '9' then c as int - '0' as int
    else if 'a' <= c <= 'f' then c as int - 'a' as int + 10
    else c as int - 'A' as int + 10
  }

  /** A digit of the given base (8, 10 or 16 in this library). */
  predicate IsDigit(c: char, base: nat) {
    IsHexDigit(c) && DigitValue(c) < base
  }

  predicate AllDigits(s: string, base: nat) {
    forall i :: 0 <= i < |s| ==> IsDigit(s[i], base)
  }

  /** The value of a digit string, most significant digit first. */
  function DigitsValue(s: string, base: nat): nat
    requires AllDigits(s, base)
  {
    if s == [] then 0 else DigitsValue(s[..|s| - 1], base) * base + DigitValue(s[|s| - 1])
  }

  /** Digits are rendered in lower case. */
  function DigitChar(d: nat): (c: char)
    requires d < 16
    ensures IsHexDigit(c) && DigitValue(c) == d
    ensures !('A' <= c <= 'F')
  {
    if d < 10 then ('0' as int + d) as char else ('a' as int + d - 10) as char
  }

  /** The shortest numeral of n in the given base: no leading zero, "0" for zero. */
  function ToDigits(n: nat, base: nat): (s: string)
    requires 2 <= base <= 16
    ensures |s| >= 1 && AllDigits(s, base)
    ensures DigitsValue(s, base) == n
    ensures s[0] == '0' <==> n == 0
    ensures n == 0 ==> s == "0"
    ensures forall i :: 0 <= i < |s| ==> !('A' <= s[i] <= 'F')
    decreases n
  {
    if n < base then [DigitChar(n)]
    else
      DivStep(n, base);
      var q, d := n / base, n % base;
      var t := ToDigits(q, base);
      var s := t + [DigitChar(d)];
      assert s[..|s| - 1] == t;
      assert DigitsValue(s, base) == q * base + d;
      s
  }

  /** The fields of s between occurrences of sep; a text without sep is one field. */
  function Split(s: string, sep: char): (r: seq<string>)
    ensures |r| >= 1
    ensures forall i :: 0 <= i < |r| ==> sep !in r[i]
    ensures Join(r, sep) == s
  {
    if s == [] then [""]
    else
      var rest := Split(s[1..], sep);
      if s[0] == sep then
        assert ([""] + rest)[1..] == rest;
        [""] + rest
      else
        var r := [[s[0]] + rest[0]] + rest[1..];
        assert r[1..] == rest[1..];
        assert s == [s[0]] + s[1..];
        r
  }

  /** The fields separated by sep; no fields give the empty text. */
  function Join(fields: seq<string>, sep: char): string
  {
    if |fields| == 0 then ""
    else if |fields| == 1 then fields[0]
    else fields[0] + [sep] + Join(fields[1..], sep)
  }

  lemma {:induction false} SplitWithoutSep(x: string, sep: char)
    requires sep !in x
    ensures Split(x, sep) == [x]
  {
    if x != [] {
      SplitWithoutSep(x[1..], sep);
    }
  }

  lemma {:induction false} SplitAfterField(x: string, sep: char, t: string)
    requires sep !in x
    ensures Split(x + [sep] + t, sep) == [x] + Split(t, sep)
  {
    var s := x + [sep] + t;
    if x == [] {
      assert s[1..] == t;
    } else {
      assert s[1..] == x[1..] + [sep] + t;
      SplitAfterField(x[1..], sep, t);
      assert [x[0]] + x[1..] == x;
    }
  }

  /** One step of Split: the first character either ends the first field or
      joins it. */
  lemma SplitStep(s: string, sep: char)
    requires s != []
    ensures Split(s, sep) == if s[0] == sep then [""] + Split(s[1..], sep)
      else [[s[0]] + Split(s[1..], sep)[0]] + Split(s[1..], sep)[1..]
  {
  }

  /** A separator between two texts splits the whole into the fields of each. */
  lemma {:induction false} SplitAround(x: string, sep: char, y: string)
    ensures Split(x + [sep] + y, sep) == Split(x, sep) + Split(y, sep)
  {
    if x == [] {
      SplitAfterField(x, sep, y);
    } else {
      var s := x + [sep] + y;
      TailAround(x, sep, y);
      SplitAround(x[1..], sep, y);
      SplitStep(s, sep);
      SplitStep(x, sep);
      FieldsAround(x[0] == sep, x[0], Split(x[1..], sep), Split(y, sep));
    }
  }

  lemma TailAround(x: string, sep: char, y: string)
    requires x != []
    ensures (x + [sep] + y)[0] == x[0] && (x + [sep] + y)[1..] == x[1..] + [sep] + y
  {
  }

  /** The step of Split on the first character commutes with appending fields. */
  lemma FieldsAround(isSep: bool, c: char, fx: seq<string>, fy: seq<string>)
    requires |fx| >= 1
    ensures isSep ==> [""] + (fx + fy) == ([""] + fx) + fy
    ensures !isSep ==> [[c] + (fx + fy)[0]] + (fx + fy)[1..] == ([[c] + fx[0]] + fx[1..]) + fy
  {
    assert (fx + fy)[0] == fx[0] && (fx + fy)[1..] == fx[1..] + fy;
  }

  /** Splitting undoes joining, as long as no field contains the separator. */
  lemma {:induction false} SplitJoin(fields: seq<string>, sep: char)
    requires |fields| >= 1
    requires forall i :: 0 <= i < |fields| ==> sep !in fields[i]
    ensures Split(Join(fields, sep), sep) == fields
  {
    if |fields| == 1 {
      SplitWithoutSep(fields[0], sep);
    } else {
      SplitJoin(fields[1..], sep);
      SplitAfterField(fields[0], sep, Join(fields[1..], sep));
      assert [fields[0]] + fields[1..] == fields;
    }
  }

  /** Joining non-empty, separator-free fields never puts two separators side by
      side, nor a separator at either end. */
  lemma {:induction false} JoinNoDoubleSep(fields: seq<string>, sep: char)
    requires forall i :: 0 <= i < |fields| ==> |fields[i]| >= 1 && sep !in fields[i]
    ensures |fields| >= 1 <==> |Join(fields, sep)| >= 1
    ensures |Join(fields, sep)| >= 1 ==>
      Join(fields, sep)[0] != sep && Join(fields, sep)[|Join(fields, sep)| - 1] != sep
    ensures forall i :: 0 <= i < |Join(fields, sep)| - 1 ==>
      !(Join(fields, sep)[i] == sep && Join(fields, sep)[i + 1] == sep)
  {
    if |fields| >= 2 {
      JoinNoDoubleSep(fields[1..], sep);
      var f, j := fields[0], Join(fields[1..], sep);
      var s := Join(fields, sep);
      assert s == f + [sep] + j;
      forall i | 0 <= i < |s| - 1
        ensures !(s[i] == sep && s[i + 1] == sep)
      {
        if i < |f| - 1 {
          assert s[i] == f[i];
        } else if i == |f| - 1 {
          assert s[i] == f[i];
        } else if i == |f| {
          assert s[i + 1] == j[0];
        } else {
          assert s[i] == j[i - |f| - 1] && s[i + 1] == j[i - |f|];
        }
      }
    }
  }

  /** The position of the last occurrence of c in s, if any. */
  function LastIndexOf(s: string, c: char): (r: nat)
    requires c in s
    ensures r < |s| && s[r] == c && c !in s[r + 1..]
  {
    if s[|s| - 1] == c then |s| - 1
    else
      assert c in s[..|s| - 1] by {
        var k :| 0 <= k < |s| && s[k] == c;
        assert s[..|s| - 1][k] == c;
      }
      var r := LastIndexOf(s[..|s| - 1], c);
      assert s[r + 1..] == s[..|s| - 1][r + 1..] + [s[|s| - 1]];
      r
  }

  lemma DigitCharOfValue(c: char)
    requires IsHexDigit(c) && !('A' <= c <= 'F')
    ensures DigitChar(DigitValue(c)) == c
  {
  }

  /** A numeral is worth at least its leading digit. */
  lemma {:induction false} LeadingDigitBound(s: string, base: nat)
    requires base >= 1 && |s| >= 1 && AllDigits(s, base)
    ensures DigitsValue(s, base) >= DigitValue(s[0])
  {
    if |s| > 1 {
      var t := s[..|s| - 1];
      LeadingDigitBound(t, base);
      MulMono(DigitsValue(t, base), base, 1);
    }
  }

  /** Leading zeros do not change the value of a numeral. */
  lemma {:induction false} LeadingZero(s: string, base: nat)
    requires base >= 1 && AllDigits(s, base)
    ensures AllDigits("0" + s, base) && DigitsValue("0" + s, base) == DigitsValue(s, base)
  {
    var z := "0" + s;
    if s != [] {
      assert z[..|z| - 1] == "0" + s[..|s| - 1];
      LeadingZero(s[..|s| - 1], base);
    }
  }

  /** A lower-case numeral without leading zeros is the one ToDigits renders. */
  lemma {:induction false} ToDigitsOfValue(s: string, base: nat)
    requires 2 <= base <= 16 && |s| >= 1 && AllDigits(s, base)
    requires s[0] == '0' ==> |s| == 1
    requires forall i :: 0 <= i < |s| ==> !('A' <= s[i] <= 'F')
    ensures ToDigits(DigitsValue(s, base), base) == s
  {
    var c := s[|s| - 1];
    DigitCharOfValue(c);
    if |s| > 1 {
      var t := s[..|s| - 1];
      ToDigitsOfValue(t, base);
      LeadingDigitBound(t, base);
      var v, v', d := DigitsValue(s, base), DigitsValue(t, base), DigitValue(c);
      assert v == v' * base + d;
      MulMono(base, v', 1);
      assert v >= base;
      DivUnique(v, base, v', d);
      assert ToDigits(v, base) == ToDigits(v', base) + [DigitChar(d)];
      assert s == t + [c];
    } else {
      assert ToDigits(DigitValue(c), base) == [DigitChar(DigitValue(c))];
    }
  }

  /** A number below 2^(4k) has at most k hexadecimal digits. */
  lemma {:induction false} HexWidth(n: nat, k: nat)
    requires k >= 1 && n < Pow2(4 * k)
    ensures |ToDigits(n, 16)| <= k
  {
    if n >= 16 {
      Pow2Values();
      Pow2Add(4 * (k - 1), 4);
      assert k >= 2;
      DivStep(n, 16);
      DivBound(n, Pow2(4 * (k - 1)), 16);
      HexWidth(n / 16, k - 1);
    }
  }

  /** Joining two non-empty runs of fields is joining each and putting one
      separator between them. */
  lemma {:induction false} JoinAppend(a: seq<string>, b: seq<string>, sep: char)
    requires |a| >= 1 && |b| >= 1
    ensures Join(a + b, sep) == Join(a, sep) + [sep] + Join(b, sep)
  {
    if |a| >= 2 {
      assert (a + b)[1..] == a[1..] + b;
      JoinAppend(a[1..], b, sep);
    } else {
      assert (a + b)[1..] == b;
    }
  }

  /** Every character of a joined text is the separator or comes from a field. */
  lemma {:induction false} JoinChars(fields: seq<string>, sep: char, k: nat)
    requires k < |Join(fields, sep)|
    ensures Join(fields, sep)[k] == sep ||
      exists i, j :: 0 <= i < |fields| && 0 <= j < |fields[i]| && fields[i][j] == Join(fields, sep)[k]
  {
    if |fields| >= 2 {
      var f, rest := fields[0], Join(fields[1..], sep);
      if k > |f| {
        JoinChars(fields[1..], sep, k - |f| - 1);
        assert Join(fields, sep)[k] == rest[k - |f| - 1];
        if rest[k - |f| - 1] != sep {
          var i, j :| 0 <= i < |fields[1..]| && 0 <= j < |fields[1..][i]|
            && fields[1..][i][j] == rest[k - |f| - 1];
          assert fields[i + 1][j] == Join(fields, sep)[k];
        }
      } else if k < |f| {
        assert fields[0][k] == Join(fields, sep)[k];
      }
    } else {
      assert fields[0][k] == Join(fields, sep)[k];
    }
  }
}
