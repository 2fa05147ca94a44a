/**
 The string operations the server relies on: `String.Split(' ')` and
 `String.Join(" ", ...)` as the command dispatcher uses them, the `StartsWith`
 test of the router, and the decimal rendering of an `int` that builds the
 default user name `"User" + id`.
 */
module Text {

  const Space: char := ' '

  /** `s.StartsWith(p)` for an ordinal comparison. */
  predicate StartsWith(s: string, p: string) {
    |p| <= |s| && s[..|p|] == p
  }

  /** True iff `s` contains no separator. */
  predicate NoSpace(s: string) {
    forall k :: 0 <= k < |s| ==> s[k] != Space
  }

  /** `s.Split(' ')`: every separator ends one part, empty parts are kept,
      and the result is never empty (`"".Split(' ')` is `[""]`). */
  function Split(s: string): (parts: seq<string>)
    ensures |parts| >= 1
    decreases |s|
  {
    if |s| == 0 then [""]
    else
      var rest := Split(s[1..]);
      if s[0] == Space then [""] + rest
      else [[s[0]] + rest[0]] + rest[1..]
  }

  /** `String.Join(" ", parts)`. */
  function Join(parts: seq<string>): (s: string)
    ensures |parts| == 0 ==> s == ""
    decreases |parts|
  {
    if |parts| == 0 then ""
    else if |parts| == 1 then parts[0]
    else parts[0] + [Space] + Join(parts[1..])
  }

  /** The first token of `s`, that is `s.Split(' ')[0]`. */
  function FirstToken(s: string): (t: string)
  {
    Split(s)[0]
  }

  /** No part produced by Split contains the separator. */
  lemma {:induction false} SplitPartsHaveNoSpace(s: string)
    ensures forall k :: 0 <= k < |Split(s)| ==> NoSpace(Split(s)[k])
    decreases |s|
  {
    if |s| > 0 {
      SplitPartsHaveNoSpace(s[1..]);
    }
  }

  /** Joining the parts of a split with the same separator gives back the
      original string: `String.Join(" ", s.Split(' ')) == s`. */
  lemma {:induction false} JoinSplit(s: string)
    ensures Join(Split(s)) == s
    decreases |s|
  {
    if |s| > 0 {
      var rest := Split(s[1..]);
      JoinSplit(s[1..]);
      if s[0] == Space {
        assert Split(s) == [""] + rest;
        assert Join(Split(s)) == "" + [Space] + Join(rest);
      } else {
        var head := [s[0]] + rest[0];
        assert Split(s) == [head] + rest[1..];
        if |rest| == 1 {
          assert Join(Split(s)) == head;
        } else {
          assert Join(rest) == rest[0] + [Space] + Join(rest[1..]);
          assert Join(Split(s)) == head + [Space] + Join(rest[1..]);
        }
      }
      assert s == [s[0]] + s[1..];
    }
  }

  /** Split unfolded once on a leading character. */
  lemma SplitCons(x: char, s: string)
    ensures Split([x] + s)
         == if x == Space then [""] + Split(s) else [[x] + Split(s)[0]] + Split(s)[1..]
  {
    assert ([x] + s)[1..] == s;
  }

  /** A separator splits a string into the parts on either side of it. */
  lemma {:induction false} SplitAtSpace(a: string, b: string)
    ensures Split(a + [Space] + b) == Split(a) + Split(b)
    decreases |a|
  {
    if |a| == 0 {
      assert a + [Space] + b == [Space] + b;
      SplitCons(Space, b);
    } else {
      var tail := a[1..] + [Space] + b;
      assert a + [Space] + b == [a[0]] + tail;
      assert a == [a[0]] + a[1..];
      SplitAtSpace(a[1..], b);
      SplitCons(a[0], tail);
      SplitCons(a[0], a[1..]);
      if a[0] != Space {
        ExtendFirstPart([a[0]], Split(a[1..]), Split(b));
      }
    }
  }

  /** Prefixing the first part of a sequence of parts commutes with appending
      more parts. */
  lemma ExtendFirstPart(x: string, left: seq<string>, right: seq<string>)
    requires |left| >= 1
    ensures [x + (left + right)[0]] + (left + right)[1..] == ([x + left[0]] + left[1..]) + right
  {
    assert (left + right)[0] == left[0];
    assert (left + right)[1..] == left[1..] + right;
  }

  /** A string without separator splits into itself alone. */
  lemma {:induction false} SplitNoSpace(a: string)
    requires NoSpace(a)
    ensures Split(a) == [a]
    decreases |a|
  {
    if |a| > 0 {
      SplitNoSpace(a[1..]);
      assert a == [a[0]] + a[1..];
    }
  }

  /** The converse round trip: splitting a join of separator-free parts gives
      the parts back. Together with JoinSplit, Split and Join are inverse
      bijections between strings and non-empty sequences of separator-free
      parts. */
  lemma {:induction false} SplitJoin(parts: seq<string>)
    requires |parts| >= 1
    requires forall k :: 0 <= k < |parts| ==> NoSpace(parts[k])
    ensures Split(Join(parts)) == parts
    decreases |parts|
  {
    if |parts| == 1 {
      SplitNoSpace(parts[0]);
    } else {
      SplitJoin(parts[1..]);
      SplitNoSpace(parts[0]);
      SplitAtSpace(parts[0], Join(parts[1..]));
      assert parts == [parts[0]] + parts[1..];
    }
  }

  /** The first token is the longest separator-free prefix: it is a prefix of
      `s`, it holds no separator, and it ends either at the end of `s` or just
      before a separator. */
  lemma {:induction false} FirstTokenIsLongestPrefix(s: string)
    ensures StartsWith(s, FirstToken(s))
    ensures NoSpace(FirstToken(s))
    ensures FirstToken(s) == s || s[|FirstToken(s)|] == Space
    decreases |s|
  {
    if |s| > 0 {
      FirstTokenIsLongestPrefix(s[1..]);
    }
  }

  /** The command word is `t` exactly when the payload is `t` alone or `t`
      followed by a separator: `"!ping 12.5"` and `"!ping"` both select
      `"!ping"`, while `"!pingx"` does not. */
  lemma FirstTokenIs(s: string, t: string)
    requires NoSpace(t)
    ensures FirstToken(s) == t <==> (s == t || StartsWith(s, t + [Space]))
  {
    FirstTokenIsLongestPrefix(s);
    if s == t {
      SplitNoSpace(t);
    } else if StartsWith(s, t + [Space]) {
      SplitAtSpace(t, s[|t| + 1..]);
      SplitNoSpace(t);
      assert s == t + [Space] + s[|t| + 1..];
    }
  }

  // ----- Decimal rendering of integers (`int.ToString()`) -----

  function DigitChar(d: nat): char
    requires d < 10
  {
    "0123456789"[d]
  }

  predicate IsDigit(c: char) {
    '0' <= c <= '9'
  }

  function DigitValue(c: char): (d: nat)
    requires IsDigit(c)
    ensures d < 10
  {
    (c - '0') as nat
  }

  predicate AllDigits(s: string) {
    forall k :: 0 <= k < |s| ==> IsDigit(s[k])
  }

  /** The decimal digits of `n`, most significant first, with no leading zero. */
  function Digits(n: nat): (s: string)
    ensures |s| >= 1 && AllDigits(s)
    ensures s[0] == '0' ==> n == 0
    decreases n
  {
    if n < 10 then [DigitChar(n)] else Digits(n / 10) + [DigitChar(n % 10)]
  }

  /** `n.ToString()` for an integer, with `-` as the negative sign. .NET
      takes the sign from the current culture; for the non-negative ids the
      invariant keeps, every culture renders the same digits. */
  function Decimal(n: int): (s: string)
    ensures |s| >= 1
    ensures n >= 0 <==> s[0] != '-'
  {
    if n < 0 then "-" + Digits(-n) else Digits(n)
  }

  function ParseDigits(s: string): nat
    requires AllDigits(s)
    decreases |s|
  {
    if |s| == 0 then 0 else 10 * ParseDigits(s[..|s| - 1]) + DigitValue(s[|s| - 1])
  }

  function ParseDecimal(s: string): int
    requires |s| >= 1
    requires s[0] == '-' ==> AllDigits(s[1..])
    requires s[0] != '-' ==> AllDigits(s)
  {
    if s[0] == '-' then -(ParseDigits(s[1..]) as int) else ParseDigits(s)
  }

  lemma {:induction false} ParseDigitsOfDigits(n: nat)
    ensures ParseDigits(Digits(n)) == n
    decreases n
  {
    if n >= 10 {
      ParseDigitsOfDigits(n / 10);
      var s := Digits(n);
      assert s[..|s| - 1] == Digits(n / 10);
    }
  }

  /** Parsing a rendered integer gives it back, so rendering is injective. */
  lemma DecimalRoundTrip(n: int)
    ensures Decimal(n)[0] == '-' ==> AllDigits(Decimal(n)[1..])
    ensures Decimal(n)[0] != '-' ==> AllDigits(Decimal(n))
    ensures ParseDecimal(Decimal(n)) == n
  {
    var s := Decimal(n);
    if n < 0 {
      var d := Digits(-n);
      assert s == "-" + d;
      assert s[1..] == d;
      assert s[0] == '-';
      ParseDigitsOfDigits(-n);
    } else {
      var d := Digits(n);
      assert s == d;
      assert d[0] != '-';
      ParseDigitsOfDigits(n);
    }
  }
}
