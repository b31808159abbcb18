/** The pieces of Python's string handling that the application relies on:
    str.split with a one-character separator, the last element of a list
    (`xs[-1]`), and the decimal rendering of a counter in an f-string. */
module Strings {

  /** s.split(sep): the maximal runs of s between occurrences of sep, in
      order. There is always at least one piece ("".split(sep) == [""]),
      and there are at least two exactly when sep occurs in s. */
  function Split(s: string, sep: char): (parts: seq<string>)
    ensures |parts| >= 1
    ensures forall i :: 0 <= i < |parts| ==> sep !in parts[i]
    ensures |parts| >= 2 <==> sep in s
    ensures sep !in s ==> parts == [s]
    decreases |s|
  {
    if s == [] then [[]]
    else
      var rest := Split(s[1..], sep);
      if s[0] == sep then [[]] + rest
      else
        assert sep !in s ==> s == [s[0]] + s[1..];
        [[s[0]] + rest[0]] + rest[1..]
  }

  /** sep.join(parts): the inverse of Split. */
  function Join(parts: seq<string>, sep: char): string
    requires |parts| >= 1
    decreases |parts|
  {
    if |parts| == 1 then parts[0] else parts[0] + [sep] + Join(parts[1..], sep)
  }

  /** xs[-1] */
  function Last<T>(xs: seq<T>): T
    requires |xs| >= 1
  {
    xs[|xs| - 1]
  }

  /** Joining the pieces of a split with the same separator gives back the string. */
  lemma {:induction false} JoinSplit(s: string, sep: char)
    ensures Join(Split(s, sep), sep) == s
    decreases |s|
  {
    if s != [] {
      var rest := Split(s[1..], sep);
      JoinSplit(s[1..], sep);
      if s[0] == sep {
        assert Split(s, sep)[1..] == rest;
      } else if |rest| >= 2 {
        var parts := Split(s, sep);
        assert parts[1..] == rest[1..];
        assert Join(rest, sep) == rest[0] + [sep] + Join(rest[1..], sep);
        assert s == [s[0]] + s[1..];
      }
    }
  }

  /** The first piece of a split is the prefix of s up to its first
      separator; when there is one, the remaining pieces are the split of
      what follows it. */
  lemma {:induction false} SplitHead(s: string, sep: char)
    ensures var head := Split(s, sep)[0];
      |head| <= |s| && s[..|head|] == head
    ensures sep in s ==>
      var k := |Split(s, sep)[0]|;
      k < |s| && s[k] == sep && Split(s, sep)[1..] == Split(s[k + 1..], sep)
    decreases |s|
  {
    if s != [] && s[0] != sep {
      SplitHead(s[1..], sep);
      var rest := Split(s[1..], sep);
      var k := |rest[0]|;
      assert s[1..][..k] == rest[0];
      assert s[..k + 1] == [s[0]] + s[1..][..k];
      if sep in s {
        assert sep in s[1..];
        assert s[1..][k + 1..] == s[k + 2..];
      }
    }
  }

  /** The last piece of a split is the suffix of s after its last separator,
      or all of s when there is no separator. */
  lemma {:induction false} SplitLast(s: string, sep: char)
    ensures var tail := Last(Split(s, sep));
      |tail| <= |s| && s[|s| - |tail|..] == tail &&
      (sep in s ==> |tail| < |s| && s[|s| - |tail| - 1] == sep)
    decreases |s|
  {
    if s != [] {
      SplitLast(s[1..], sep);
      var rest := Split(s[1..], sep);
      var parts := Split(s, sep);
      var tail := Last(parts);
      if s[0] != sep && |rest| == 1 {
        assert parts == [[s[0]] + rest[0]];
        assert rest[0] == s[1..];
        assert tail == s;
      } else {
        assert tail == Last(rest) by {
          if s[0] == sep {
            assert parts == [[]] + rest;
          } else {
            assert parts == [[s[0]] + rest[0]] + rest[1..];
          }
        }
        assert s[1..][|s| - 1 - |tail|..] == s[|s| - |tail|..];
        if sep !in s[1..] {
          assert s[0] == sep && tail == s[1..];
        }
      }
    }
  }

  /** The character of a decimal digit. */
  function Digit(d: nat): (c: char)
    requires d < 10
    ensures '0' <= c <= '9'
  {
    (48 + d) as char
  }

  /** f"{n}" for a non-negative integer: its decimal digits, without leading zeros. */
  function Decimal(n: nat): (r: string)
    ensures 1 <= |r|
    ensures forall i :: 0 <= i < |r| ==> '0' <= r[i] <= '9'
    ensures n >= 10 <==> |r| >= 2
    ensures r[0] == '0' <==> n == 0
  {
    if n < 10 then [Digit(n)] else Decimal(n / 10) + [Digit(n % 10)]
  }

  /** The number a string of decimal digits stands for. */
  function DigitsValue(ds: string): nat
    requires forall i :: 0 <= i < |ds| ==> '0' <= ds[i] <= '9'
  {
    if ds == [] then 0 else 10 * DigitsValue(ds[..|ds| - 1]) + (ds[|ds| - 1] as int - '0' as int)
  }

  /** The digits of f"{n}" stand for n. */
  lemma {:induction false} DecimalValue(n: nat)
    ensures DigitsValue(Decimal(n)) == n
  {
    if n >= 10 {
      DecimalValue(n / 10);
      assert Decimal(n)[..|Decimal(n)| - 1] == Decimal(n / 10);
    }
  }

  /** Different counters are rendered differently. */
  lemma {:induction false} DecimalInjective(a: nat, b: nat)
    requires Decimal(a) == Decimal(b)
    ensures a == b
  {
    if a >= 10 && b >= 10 {
      var da, db := Decimal(a), Decimal(b);
      assert da[|da| - 1] == Digit(a % 10) && db[|db| - 1] == Digit(b % 10);
      assert da[..|da| - 1] == Decimal(a / 10);
      assert db[..|db| - 1] == Decimal(b / 10);
      DecimalInjective(a / 10, b / 10);
    } else if a < 10 && b < 10 {
      assert Decimal(a)[0] == Digit(a);
    }
  }
}
