/** Text helpers: Rust's `str::split` on a single character and its inverse,
    decimal printing and parsing of integers, ASCII lower-casing. */
module Text {
  import opened Wrappers

  /** Concatenation of `fields` with `sep` between neighbours. */
  function Join(fields: seq<string>, sep: char): string
  {
    if |fields| == 0 then ""
    else if |fields| == 1 then fields[0]
    else fields[0] + [sep] + Join(fields[1..], sep)
  }

  lemma JoinCons(x: string, fields: seq<string>, sep: char)
    requires |fields| >= 1
    ensures Join([x + fields[0]] + fields[1..], sep) == x + Join(fields, sep)
  {
    var l := [x + fields[0]] + fields[1..];
    assert l[1..] == fields[1..];
  }

  /** `str::split(sep)`: the pieces between separators; always at least one
      piece (the empty string splits into `[""]`). */
  function Split(s: string, sep: char): (fields: seq<string>)
    ensures |fields| >= 1
    ensures Join(fields, sep) == s
    ensures forall i :: 0 <= i < |fields| ==> sep !in fields[i]
  {
    if |s| == 0 then [""]
    else
      var rest := Split(s[1..], sep);
      if s[0] == sep then
        assert ([""] + rest)[1..] == rest;
        [""] + rest
      else
        JoinCons([s[0]], rest, sep);
        [[s[0]] + rest[0]] + rest[1..]
  }

  lemma JoinFirstField(f: seq<string>, sep: char)
    requires |f| > 1
    ensures Join(f, sep) == f[0] + [sep] + Join(f[1..], sep)
  {
  }

  lemma {:induction false} JoinInjective(a: seq<string>, b: seq<string>, sep: char)
    requires |a| >= 1 && |b| >= 1
    requires forall i :: 0 <= i < |a| ==> sep !in a[i]
    requires forall i :: 0 <= i < |b| ==> sep !in b[i]
    requires Join(a, sep) == Join(b, sep)
    ensures a == b
  {
    var j := Join(a, sep);
    if |a| > 1 && |b| > 1 {
      JoinFirstField(a, sep);
      JoinFirstField(b, sep);
      assert j[|a[0]|] == sep && j[|b[0]|] == sep;
      assert forall k :: 0 <= k < |a[0]| ==> j[k] == a[0][k];
      assert forall k :: 0 <= k < |b[0]| ==> j[k] == b[0][k];
      assert |a[0]| == |b[0]|;
      assert a[0] == j[..|a[0]|] == b[0];
      assert Join(a[1..], sep) == j[|a[0]| + 1..] == Join(b[1..], sep);
      JoinInjective(a[1..], b[1..], sep);
      assert a == [a[0]] + a[1..];
      assert b == [b[0]] + b[1..];
    }
  }

  /** Splitting undoes joining when no field contains the separator. */
  lemma SplitJoin(fields: seq<string>, sep: char)
    requires |fields| >= 1
    requires forall i :: 0 <= i < |fields| ==> sep !in fields[i]
    ensures Split(Join(fields, sep), sep) == fields
  {
    JoinInjective(Split(Join(fields, sep), sep), fields, sep);
  }

  /** The first field is everything before the first separator. */
  lemma SplitFirstField(x: string, y: string, sep: char)
    requires sep !in x
    ensures Split(x + [sep] + y, sep)[0] == x
  {
    var rest := Split(y, sep);
    var fields := [x] + rest;
    assert fields[1..] == rest;
    if |rest| > 1 {
      JoinFirstField(fields, sep);
    }
    assert Join(fields, sep) == x + [sep] + y;
    SplitJoin(fields, sep);
  }

  /** A string splits into a single field exactly when it has no separator. */
  lemma SplitSingle(s: string, sep: char)
    ensures |Split(s, sep)| == 1 <==> sep !in s
  {
    var fs := Split(s, sep);
    if |fs| > 1 {
      JoinFirstField(fs, sep);
      assert s[|fs[0]|] == sep;
    }
  }

  // ---------------------------------------------------------------------
  // Decimal numbers

  predicate IsDigit(c: char)
  {
    '0' <= c <= '9'
  }

  predicate AllDigits(s: string)
  {
    forall i :: 0 <= i < |s| ==> IsDigit(s[i])
  }

  function DigitChar(d: nat): (c: char)
    requires d < 10
    ensures IsDigit(c) && c as int - '0' as int == d
  {
    ('0' as int + d) as char
  }

  /** The value of a string of decimal digits (the empty string is 0). */
  function DigitsValue(s: string): nat
    requires AllDigits(s)
  {
    if |s| == 0 then 0
    else DigitsValue(s[..|s| - 1]) * 10 + (s[|s| - 1] as int - '0' as int)
  }

  /** `n.to_string()` for a non-negative integer. */
  function NatToString(n: nat): (s: string)
    ensures |s| >= 1 && AllDigits(s)
    ensures DigitsValue(s) == n
  {
    if n < 10 then [DigitChar(n)]
    else
      var s := NatToString(n / 10) + [DigitChar(n % 10)];
      assert s[..|s| - 1] == NatToString(n / 10);
      s
  }

  /** `i.to_string()` for any integer. */
  function IntToString(i: int): (s: string)
    ensures |s| >= 1
    ensures forall k :: 0 <= k < |s| ==> s[k] == '-' || IsDigit(s[k])
  {
    if i < 0 then "-" + NatToString(-i) else NatToString(i)
  }

  /** Reads an optionally negative decimal integer; anything else is `None`. */
  function ParseInt(s: string): Option<int>
  {
    if |s| >= 2 && s[0] == '-' && AllDigits(s[1..]) then Some(0 - DigitsValue(s[1..]))
    else if |s| >= 1 && AllDigits(s) then Some(DigitsValue(s))
    else None
  }

  lemma ParseIntToString(i: int)
    ensures ParseInt(IntToString(i)) == Some(i)
  {
    if i < 0 {
      assert IntToString(i)[1..] == NatToString(-i);
    }
  }

  /** `format!("{:02}", n)`: at least two digits, zero-padded on the left. */
  function PadTwo(n: nat): (s: string)
    ensures |s| >= 2 && AllDigits(s) && DigitsValue(s) == n
    ensures n < 100 ==> |s| == 2
  {
    if n < 10 then
      var s := "0" + NatToString(n);
      assert s[..1] == "0";
      s
    else
      assert n < 100 ==> NatToString(n) == NatToString(n / 10) + [DigitChar(n % 10)];
      NatToString(n)
  }

  // ---------------------------------------------------------------------
  // Letters

  predicate IsAsciiAlpha(c: char)
  {
    'a' <= c <= 'z' || 'A' <= c <= 'Z'
  }

  /** `to_lowercase` on one character, as far as it can yield an ASCII
      letter: `A` to `Z`, and the Kelvin sign, which lower-cases to `k`.
      Other characters are kept (none of them lower-cases to ASCII). */
  function LowerChar(c: char): char
  {
    if 'A' <= c <= 'Z' then (c as int + 32) as char
    else if c == '\U{212A}' then 'k'
    else c
  }

  /** Lower-casing, character by character. */
  function Lower(s: string): (r: string)
    ensures |r| == |s|
    ensures forall i :: 0 <= i < |s| ==> r[i] == LowerChar(s[i])
  {
    if s == [] then [] else [LowerChar(s[0])] + Lower(s[1..])
  }

  // ---------------------------------------------------------------------
  // Order

  /** `str::cmp`: lexicographic by character (UTF-8 byte order and code
      point order agree). */
  predicate StrLeq(a: string, b: string)
  {
    if a == [] then true
    else if b == [] then false
    else if a[0] != b[0] then a[0] < b[0]
    else StrLeq(a[1..], b[1..])
  }

  lemma {:induction false} StrLeqTotal(a: string, b: string)
    ensures StrLeq(a, b) || StrLeq(b, a)
  {
    if a != [] && b != [] && a[0] == b[0] {
      StrLeqTotal(a[1..], b[1..]);
    }
  }

  lemma {:induction false} StrLeqAntisymmetric(a: string, b: string)
    requires StrLeq(a, b) && StrLeq(b, a)
    ensures a == b
  {
    if a != [] && b != [] {
      StrLeqAntisymmetric(a[1..], b[1..]);
      assert a == [a[0]] + a[1..] && b == [b[0]] + b[1..];
    }
  }

  lemma {:induction false} StrLeqTransitive(a: string, b: string, c: string)
    requires StrLeq(a, b) && StrLeq(b, c)
    ensures StrLeq(a, c)
  {
    if a != [] && b != [] && c != [] && a[0] == b[0] && b[0] == c[0] {
      StrLeqTransitive(a[1..], b[1..], c[1..]);
    }
  }

  /** A least element of a finite set of strings, found by taking one
      element out and comparing it with the least of the rest. */
  ghost function LeastWitness(s: set<string>): (m: string)
    requires s != {}
    ensures m in s && forall x :: x in s ==> StrLeq(m, x)
    decreases |s|
  {
    var x :| x in s;
    StrLeqTotal(x, x);
    if s == {x} then x
    else
      var m' := LeastWitness(s - {x});
      StrLeqTotal(x, m');
      if StrLeq(x, m') then
        LeastTransitive(x, m', s - {x});
        x
      else m'
  }

  lemma LeastTransitive(x: string, m: string, s: set<string>)
    requires StrLeq(x, m) && forall y :: y in s ==> StrLeq(m, y)
    ensures forall y :: y in s ==> StrLeq(x, y)
  {
    forall y | y in s
      ensures StrLeq(x, y)
    {
      StrLeqTransitive(x, m, y);
    }
  }

  /** The least string of a non-empty finite set. */
  function Least(s: set<string>): (m: string)
    requires s != {}
    ensures m in s && forall x :: x in s ==> StrLeq(m, x)
  {
    assert LeastWitness(s) in s && forall x :: x in s ==> StrLeq(LeastWitness(s), x);
    assert forall a, b :: a in s && b in s && StrLeq(a, b) && StrLeq(b, a) ==> a == b by {
      forall a, b | a in s && b in s && StrLeq(a, b) && StrLeq(b, a)
        ensures a == b
      {
        StrLeqAntisymmetric(a, b);
      }
    }
    var m :| m in s && forall x :: x in s ==> StrLeq(m, x);
    m
  }

  lemma SortedCons(m: string, rest: seq<string>, s: set<string>)
    requires m in s && forall x :: x in s ==> StrLeq(m, x)
    requires forall x :: x in rest <==> x in s - {m}
    requires forall i, j :: 0 <= i < j < |rest| ==> StrLeq(rest[i], rest[j]) && rest[i] != rest[j]
    ensures forall x :: x in [m] + rest <==> x in s
    ensures forall i, j :: 0 <= i < j < |[m] + rest| ==> StrLeq(([m] + rest)[i], ([m] + rest)[j]) && ([m] + rest)[i] != ([m] + rest)[j]
  {
    var r := [m] + rest;
    forall i, j | 0 <= i < j < |r|
      ensures StrLeq(r[i], r[j]) && r[i] != r[j]
    {
      assert r[j] == rest[j - 1] && r[j] in rest;
      if i > 0 {
        assert r[i] == rest[i - 1];
      }
    }
  }

  /** The strings of a finite set in ascending order. */
  function SortedStrings(s: set<string>): (r: seq<string>)
    ensures |r| == |s|
    ensures forall x :: x in r <==> x in s
    ensures forall i, j :: 0 <= i < j < |r| ==> StrLeq(r[i], r[j]) && r[i] != r[j]
    decreases |s|
  {
    if s == {} then []
    else
      var m := Least(s);
      var rest := SortedStrings(s - {m});
      SortedCons(m, rest, s);
      [m] + rest
  }
}
