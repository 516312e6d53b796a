/** The few string operations of Python that the planner relies on:
    str() of a non-negative int, slicing s[n:], and splitting at a separator. */
module Text {

  /** The character of the decimal digit d. */
  function DigitChar(d: nat): (c: char)
    requires d < 10
    ensures '0' <= c <= '9'
    ensures c as int - '0' as int == d
  {
    (48 + d) as char
  }

  predicate IsDigits(s: string)
  {
    forall k :: 0 <= k < |s| ==> '0' <= s[k] <= '9'
  }

  /** Python's str(n) for n >= 0: decimal digits, no leading zero. */
  function Decimal(n: nat): (r: string)
    ensures 1 <= |r| && IsDigits(r)
    decreases n
  {
    if n < 10 then [DigitChar(n)] else Decimal(n / 10) + [DigitChar(n % 10)]
  }

  /** Python's int(s) for a string of decimal digits. */
  function DecimalValue(s: string): (v: nat)
    requires IsDigits(s)
    decreases |s|
  {
    if s == [] then 0
    else 10 * DecimalValue(s[..|s| - 1]) + (s[|s| - 1] as int - '0' as int)
  }

  /** int(str(n)) == n. */
  lemma {:induction false} DecimalRoundTrip(n: nat)
    ensures DecimalValue(Decimal(n)) == n
    decreases n
  {
    if n >= 10 {
      var r := Decimal(n);
      assert r[..|r| - 1] == Decimal(n / 10);
      DecimalRoundTrip(n / 10);
    }
  }

  /** Distinct numbers print differently. */
  lemma DecimalInjective(a: nat, b: nat)
    requires Decimal(a) == Decimal(b)
    ensures a == b
  {
    DecimalRoundTrip(a);
    DecimalRoundTrip(b);
  }

  /** Python's s[n:]: empty when n is past the end. */
  function Drop(s: string, n: nat): (r: string)
    ensures |s| <= n ==> r == []
    ensures n < |s| ==> |r| == |s| - n && forall k :: 0 <= k < |r| ==> r[k] == s[n + k]
  {
    if n <= |s| then s[n..] else []
  }

  /** Two strings that each start with a separator-free part followed by the
      separator agree on both the part and the rest, or differ. */
  lemma SplitAtSeparator(x: string, y: string, x': string, y': string, sep: char)
    requires sep !in x && sep !in x'
    requires x + [sep] + y == x' + [sep] + y'
    ensures x == x' && y == y'
  {
    var s := x + [sep] + y;
    if |x| < |x'| {
      SeparatorPosition(x, y, x', y', sep);
      assert false;
    } else if |x'| < |x| {
      SeparatorPosition(x', y', x, y, sep);
      assert false;
    }
    assert x == s[..|x|] == x';
    assert y == s[|x| + 1..] == y';
  }

  lemma SeparatorPosition(x: string, y: string, x': string, y': string, sep: char)
    requires x + [sep] + y == x' + [sep] + y' && |x| < |x'|
    ensures x'[|x|] == sep
  {
    calc {
      x'[|x|];
      (x' + [sep] + y')[|x|];
      (x + [sep] + y)[|x|];
      sep;
    }
  }

  lemma DigitsHaveNo(s: string, c: char)
    requires IsDigits(s) && !('0' <= c <= '9')
    ensures c !in s
  {
  }

  /** Python's s.split(sep) for a one-character separator: the parts between
      separators, including empty ones; never an empty list. */
  function Split(s: string, sep: char): (r: seq<string>)
    ensures |r| >= 1
    ensures forall k :: 0 <= k < |r| ==> sep !in r[k]
    decreases |s|
  {
    if s == [] then [""]
    else
      var rest := Split(s[1..], sep);
      if s[0] == sep then [""] + rest else [[s[0]] + rest[0]] + rest[1..]
  }

  /** Python's sep.join(parts). */
  function Join(parts: seq<string>, sep: char): string
    decreases |parts|
  {
    if parts == [] then ""
    else if |parts| == 1 then parts[0]
    else parts[0] + [sep] + Join(parts[1..], sep)
  }

  /** Joining the parts of a split gives back the string. */
  lemma {:induction false} SplitJoin(s: string, sep: char)
    ensures Join(Split(s, sep), sep) == s
    decreases |s|
  {
    if s != [] {
      var rest := Split(s[1..], sep);
      SplitJoin(s[1..], sep);
      if s[0] == sep {
        assert Split(s, sep)[1..] == rest;
      } else if |rest| == 1 {
        assert Split(s, sep) == [[s[0]] + rest[0]];
      } else {
        assert Split(s, sep)[1..] == rest[1..];
        assert Join(rest, sep) == rest[0] + [sep] + Join(rest[1..], sep);
      }
    }
  }

  /** A separator-free head stays glued to the first part. */
  lemma {:induction false} SplitPrefix(x: string, y: string, sep: char)
    requires sep !in x
    ensures Split(x + y, sep) == [x + Split(y, sep)[0]] + Split(y, sep)[1..]
    decreases |x|
  {
    if x != [] {
      var t := Split(y, sep);
      assert (x + y)[1..] == x[1..] + y;
      SplitPrefix(x[1..], y, sep);
      var r := Split(x[1..] + y, sep);
      assert r[0] == x[1..] + t[0] && r[1..] == t[1..];
      assert x[0] != sep && (x + y)[0] == x[0];
      assert Split(x + y, sep) == [[x[0]] + r[0]] + r[1..];
      assert [x[0]] + (x[1..] + t[0]) == x + t[0];
    } else {
      var t := Split(y, sep);
      assert x + y == y && x + t[0] == t[0];
      assert t == [t[0]] + t[1..];
    }
  }

  /** Splitting a join of separator-free parts gives back the parts. */
  lemma {:induction false} JoinSplit(parts: seq<string>, sep: char)
    requires |parts| >= 1
    requires forall k :: 0 <= k < |parts| ==> sep !in parts[k]
    ensures Split(Join(parts, sep), sep) == parts
    decreases |parts|
  {
    if |parts| == 1 {
      SplitPrefix(parts[0], "", sep);
      assert parts[0] + "" == parts[0];
    } else {
      var tail := Join(parts[1..], sep);
      JoinSplit(parts[1..], sep);
      SplitPrefix(parts[0], [sep] + tail, sep);
      assert parts[0] + [sep] + tail == parts[0] + ([sep] + tail);
      assert ([sep] + tail)[1..] == tail;
      assert Split([sep] + tail, sep) == [""] + parts[1..];
      assert parts[0] + "" == parts[0];
      assert parts == [parts[0]] + parts[1..];
    }
  }

  /** A common prefix cancels. */
  lemma PrefixCancel(p: string, x: string, y: string)
    requires p + x == p + y
    ensures x == y
  {
    assert x == (p + x)[|p|..];
    assert y == (p + y)[|p|..];
  }
}
