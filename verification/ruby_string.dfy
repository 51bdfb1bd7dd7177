/**
 The two pieces of Ruby's String behaviour the call-limit parser relies on:
 `String#to_i` in base 10 and `String#split` with a one-character separator.
 */
module RubyString {

  predicate IsDigit(c: char) {
    '0' <= c <= '9'
  }

  /** Ruby's `isspace`: space, tab, line feed, vertical tab, form feed, carriage return. */
  predicate IsSpace(c: char) {
    c == ' ' || 9 <= c as int <= 13
  }

  function DigitValue(c: char): nat
    requires IsDigit(c)
  {
    c as int - '0' as int
  }

  function DigitChar(d: nat): (c: char)
    requires d < 10
    ensures IsDigit(c) && DigitValue(c) == d
  {
    ('0' as int + d) as char
  }

  predicate AllDigits(s: string) {
    forall i | 0 <= i < |s| :: IsDigit(s[i])
  }

  /** The value of a string of decimal digits, most significant digit first. */
  function DigitsValue(s: string): (v: nat)
    requires AllDigits(s)
  {
    if s == [] then 0 else 10 * DigitsValue(s[..|s| - 1]) + DigitValue(s[|s| - 1])
  }

  /** The length of the longest prefix of `s` made of decimal digits. */
  function DigitRun(s: string): (n: nat)
    ensures n <= |s|
    ensures AllDigits(s[..n])
    ensures n == |s| || !IsDigit(s[n])
  {
    if s == [] || !IsDigit(s[0]) then 0
    else
      var m := DigitRun(s[1..]);
      assert s[..1 + m] == [s[0]] + s[1..][..m];
      1 + m
  }

  /** `s` without its leading white space. */
  function SkipSpace(s: string): (t: string)
    ensures t == [] || !IsSpace(t[0])
  {
    if s != [] && IsSpace(s[0]) then SkipSpace(s[1..]) else s
  }

  /** The value of the longest digit prefix of `s`, 0 when there is none. */
  function Leading(s: string): (v: nat) {
    DigitsValue(s[..DigitRun(s)])
  }

  /** Whether `t` starts with the base-10 radix prefix `0d` or `0D`. */
  predicate RadixPrefixed(t: string) {
    |t| >= 2 && t[0] == '0' && (t[1] == 'd' || t[1] == 'D')
  }

  /** The unsigned part of a number: an optional radix prefix, then digits. */
  function Magnitude(t: string): (v: nat) {
    if RadixPrefixed(t) then Leading(t[2..]) else Leading(t)
  }

  /**
   Ruby's `String#to_i`: leading white space is skipped, then an optional
   sign, an optional `0d` or `0D` prefix and the longest run of decimal
   digits are read; anything that is not a number reads as 0, and nothing
   ever raises.
   */
  function ToI(s: string): (i: int)
    ensures i < 0 ==> SkipSpace(s) != [] && SkipSpace(s)[0] == '-'
    ensures i != 0 ==> SkipSpace(s) != [] && (IsDigit(SkipSpace(s)[0]) || SkipSpace(s)[0] in "+-")
  {
    var t := SkipSpace(s);
    if t != [] && t[0] == '-' then -(Magnitude(t[1..]) as int)
    else if t != [] && t[0] == '+' then Magnitude(t[1..])
    else Magnitude(t)
  }

  /** The decimal digits of `n` (Ruby's `Integer#to_s` for a natural number). */
  function Decimal(n: nat): (s: string)
    ensures s != [] && AllDigits(s)
    ensures DigitsValue(s) == n
  {
    if n < 10 then [DigitChar(n)]
    else
      var h := Decimal(n / 10);
      var s := h + [DigitChar(n % 10)];
      assert s[..|s| - 1] == h;
      s
  }

  /** Ruby's `Integer#to_s`: a minus sign before the digits of a negative number. */
  function Show(i: int): (s: string)
    ensures ToI(s) == i
  {
    if i < 0 then
      var d := Decimal(-i);
      ToIOfNegativeDigitPrefix(d, []);
      assert "-" + d + [] == "-" + d;
      "-" + d
    else
      var d := Decimal(i);
      ToIOfDigitPrefix(d, []);
      assert d + [] == d;
      d
  }

  lemma {:induction false} DigitRunOfDigits(d: string, rest: string)
    requires AllDigits(d)
    requires rest == [] || !IsDigit(rest[0])
    ensures DigitRun(d + rest) == |d|
    decreases |d|
  {
    if d != [] {
      assert (d + rest)[1..] == d[1..] + rest;
      DigitRunOfDigits(d[1..], rest);
    }
  }

  /**
   A digit string followed by a non-digit reads as exactly those digits,
   unless it is the `0` of a `0d` radix prefix.
   */
  lemma LeadingOfDigits(d: string, rest: string)
    requires AllDigits(d) && d != []
    requires rest == [] || !IsDigit(rest[0])
    requires d == "0" ==> rest == [] || (rest[0] != 'd' && rest[0] != 'D')
    ensures SkipSpace(d + rest) == d + rest
    ensures Magnitude(d + rest) == DigitsValue(d)
  {
    DigitRunOfDigits(d, rest);
    var e := d + rest;
    assert e[..|d|] == d;
    assert e[0] == d[0];
    if |d| >= 2 {
      assert e[1] == d[1];
    } else if rest != [] {
      assert d == [d[0]];
      assert e[1] == rest[0];
    }
    assert !RadixPrefixed(e);
  }

  /** `to_i` reads the longest digit prefix and ignores what follows it. */
  lemma ToIOfDigitPrefix(d: string, rest: string)
    requires AllDigits(d) && d != []
    requires rest == [] || !IsDigit(rest[0])
    requires d == "0" ==> rest == [] || (rest[0] != 'd' && rest[0] != 'D')
    ensures ToI(d + rest) == DigitsValue(d)
  {
    LeadingOfDigits(d, rest);
  }

  /** A string of digits reads as its decimal value. */
  lemma ToIOfDigits(d: string)
    requires AllDigits(d) && d != []
    ensures ToI(d) == DigitsValue(d)
  {
    ToIOfDigitPrefix(d, []);
    assert d + [] == d;
  }

  /** The same after a minus sign, which negates the value. */
  lemma ToIOfNegativeDigitPrefix(d: string, rest: string)
    requires AllDigits(d) && d != []
    requires rest == [] || !IsDigit(rest[0])
    requires d == "0" ==> rest == [] || (rest[0] != 'd' && rest[0] != 'D')
    ensures ToI("-" + d + rest) == -(DigitsValue(d) as int)
  {
    LeadingOfDigits(d, rest);
    var e := d + rest;
    var m := ['-'] + e;
    assert "-" + d + rest == m;
    assert m[0] == '-' && !IsSpace(m[0]);
    assert SkipSpace(m) == m;
    assert m[1..] == e;
  }

  /** A plus sign leaves the value of the digits after it unchanged. */
  lemma ToIOfPositiveDigitPrefix(d: string, rest: string)
    requires AllDigits(d) && d != []
    requires rest == [] || !IsDigit(rest[0])
    requires d == "0" ==> rest == [] || (rest[0] != 'd' && rest[0] != 'D')
    ensures ToI("+" + d + rest) == DigitsValue(d)
  {
    LeadingOfDigits(d, rest);
    var e := d + rest;
    var m := ['+'] + e;
    assert "+" + d + rest == m;
    assert m[0] == '+' && !IsSpace(m[0]);
    assert SkipSpace(m) == m;
    assert m[1..] == e;
  }

  /** A sign that no digit follows reads as 0. */
  lemma ToISignWithoutDigits(sign: char, t: string)
    requires sign == '+' || sign == '-'
    requires t == [] || !IsDigit(t[0])
    ensures ToI([sign] + t) == 0
  {
  }

  /** The `0d` or `0D` radix prefix is skipped: the digits after it are read. */
  lemma ToIOfRadixPrefix(x: char, d: string, rest: string)
    requires x == 'd' || x == 'D'
    requires AllDigits(d) && d != []
    requires rest == [] || !IsDigit(rest[0])
    ensures ToI(['0', x] + d + rest) == DigitsValue(d)
  {
    var e := d + rest;
    var m := ['0', x] + e;
    assert ['0', x] + d + rest == m;
    assert m[0] == '0' && !IsSpace(m[0]);
    assert SkipSpace(m) == m;
    assert RadixPrefixed(m);
    assert m[2..] == e;
    DigitRunOfDigits(d, rest);
    assert e[..|d|] == d;
  }

  /** `to_i` skips leading white space. */
  lemma {:induction false} ToISkipsSpace(ws: string, s: string)
    requires forall i | 0 <= i < |ws| :: IsSpace(ws[i])
    ensures SkipSpace(ws + s) == SkipSpace(s)
    ensures ToI(ws + s) == ToI(s)
    decreases |ws|
  {
    if ws != [] {
      assert (ws + s)[0] == ws[0];
      assert (ws + s)[1..] == ws[1..] + s;
      ToISkipsSpace(ws[1..], s);
    } else {
      assert ws + s == s;
    }
  }

  /** A string that starts with neither white space, a sign nor a digit reads as 0. */
  lemma ToINonNumeric(s: string)
    requires s == [] || (!IsSpace(s[0]) && !IsDigit(s[0]) && s[0] != '-' && s[0] != '+')
    ensures ToI(s) == 0
  {
  }

  /** Every field between separators, empty fields included. */
  function Fields(s: string, sep: char): (r: seq<string>)
    ensures |r| >= 1
    decreases |s|
  {
    if s == [] then [[]]
    else
      var rest := Fields(s[1..], sep);
      if s[0] == sep then [[]] + rest
      else [[s[0]] + rest[0]] + rest[1..]
  }

  /** There is one field more than there are separators. */
  lemma {:induction false} FieldsCount(s: string, sep: char)
    ensures |Fields(s, sep)| == multiset(s)[sep] + 1
    decreases |s|
  {
    if s != [] {
      FieldsCount(s[1..], sep);
      assert s == [s[0]] + s[1..];
    }
  }

  /** The fields of `parts` written out with `sep` between them. */
  function Join(parts: seq<string>, sep: char): string
    requires |parts| >= 1
  {
    if |parts| == 1 then parts[0] else parts[0] + [sep] + Join(parts[1..], sep)
  }

  /** No field holds the separator, and writing the fields back out gives the string. */
  lemma {:induction false} JoinOfFields(s: string, sep: char)
    ensures forall i | 0 <= i < |Fields(s, sep)| :: sep !in Fields(s, sep)[i]
    ensures Join(Fields(s, sep), sep) == s
    decreases |s|
  {
    if s != [] {
      var rest := Fields(s[1..], sep);
      JoinOfFields(s[1..], sep);
      var r := Fields(s, sep);
      if s[0] == sep {
        assert r == [[]] + rest;
        assert r[1..] == rest;
        assert s == [sep] + s[1..];
      } else {
        assert r == [[s[0]] + rest[0]] + rest[1..];
        assert r[1..] == rest[1..];
        if |rest| == 1 {
          assert s == [s[0]] + s[1..];
        } else {
          assert Join(rest, sep) == rest[0] + [sep] + Join(rest[1..], sep);
          assert s == [s[0]] + s[1..];
        }
        forall i | 0 <= i < |r|
          ensures sep !in r[i]
        {
          if i > 0 {
            assert r[i] == rest[i];
          }
        }
      }
    }
  }

  /** Fields after a separator-free prefix: the prefix is glued onto the first field. */
  lemma {:induction false} FieldsOfPrefix(a: string, s: string, sep: char)
    requires sep !in a
    ensures Fields(a + s, sep) == [a + Fields(s, sep)[0]] + Fields(s, sep)[1..]
    decreases |a|
  {
    if a != [] {
      assert (a + s)[1..] == a[1..] + s;
      assert (a + s)[0] == a[0];
      FieldsOfPrefix(a[1..], s, sep);
      assert [a[0]] + (a[1..] + Fields(s, sep)[0]) == a + Fields(s, sep)[0];
    } else {
      assert a + s == s;
      assert a + Fields(s, sep)[0] == Fields(s, sep)[0];
      assert [Fields(s, sep)[0]] + Fields(s, sep)[1..] == Fields(s, sep);
    }
  }

  /** A separator-free `a` followed by the separator is exactly the first field. */
  lemma FieldsAtSeparator(a: string, b: string, sep: char)
    requires sep !in a
    ensures Fields(a + [sep] + b, sep) == [a] + Fields(b, sep)
    ensures Fields(a, sep) == [a]
  {
    FieldsOfPrefix(a, [sep] + b, sep);
    assert a + [sep] + b == a + ([sep] + b);
    assert ([sep] + b)[1..] == b;
    FieldsOfPrefix(a, [], sep);
    assert a + [] == a;
  }

  /** Splitting what `Join` wrote gives back the fields, when none holds the separator. */
  lemma {:induction false} FieldsOfJoin(parts: seq<string>, sep: char)
    requires |parts| >= 1
    requires forall i | 0 <= i < |parts| :: sep !in parts[i]
    ensures Fields(Join(parts, sep), sep) == parts
    decreases |parts|
  {
    if |parts| == 1 {
      FieldsAtSeparator(parts[0], [], sep);
    } else {
      FieldsOfJoin(parts[1..], sep);
      FieldsAtSeparator(parts[0], Join(parts[1..], sep), sep);
      assert [parts[0]] + parts[1..] == parts;
    }
  }

  /** `r` without its trailing empty fields. */
  function DropTrailingEmpty(r: seq<string>): (q: seq<string>)
    ensures |q| <= |r| && q == r[..|q|]
    ensures q == [] || q[|q| - 1] != []
    ensures forall i | |q| <= i < |r| :: r[i] == []
  {
    if r == [] || r[|r| - 1] != [] then r else DropTrailingEmpty(r[..|r| - 1])
  }

  /**
   Ruby's `String#split(sep)`: the fields, with trailing empty ones removed.
   No part holds the separator, the last part is not empty, and only empty
   fields are dropped.
   */
  function Split(s: string, sep: char): (r: seq<string>)
    ensures forall i | 0 <= i < |r| :: sep !in r[i]
    ensures r == [] || r[|r| - 1] != []
    ensures |r| <= |Fields(s, sep)| && r == Fields(s, sep)[..|r|]
    ensures forall i | |r| <= i < |Fields(s, sep)| :: Fields(s, sep)[i] == []
  {
    JoinOfFields(s, sep);
    DropTrailingEmpty(Fields(s, sep))
  }
}
