/** Byte strings, their lexicographic order, and decimal numerals over code units.
    A Go string is a byte string; a numeral is a sequence of the codes 48..57. */
module Bytes {
  import opened Wrappers

  type byte = x: int | 0 <= x < 256
  type Bytes = seq<byte>

  const LF: byte := 10
  const CR: byte := 13
  const TAB: byte := 9
  const SPACE: byte := 32
  const PLUS: byte := 43
  const MINUS: byte := 45
  const ZERO: byte := 48

  const INT64_MIN := -0x8000_0000_0000_0000
  const INT64_MAX := 0x7fff_ffff_ffff_ffff

  /** Go's int64, whose arithmetic is checked never to leave it. */
  newtype int64 = n: int | INT64_MIN <= n <= INT64_MAX

  predicate IsInt64(n: int) {
    INT64_MIN <= n <= INT64_MAX
  }

  /** The code points of a text. */
  function Codes(text: string): seq<int> {
    seq(|text|, i requires 0 <= i < |text| => text[i] as int)
  }

  // ---------------------------------------------------------------- numerals

  predicate IsDigit(c: int) {
    48 <= c <= 57
  }

  predicate AllDigits(s: seq<int>) {
    forall i :: 0 <= i < |s| ==> IsDigit(s[i])
  }

  /** The number a run of digits denotes; the empty run denotes zero. */
  function Value(s: seq<int>): nat
    requires AllDigits(s)
  {
    if s == [] then 0 else Value(s[..|s| - 1]) * 10 + (s[|s| - 1] - 48)
  }

  /** The decimal numeral of `n`, without leading zeros. */
  function Digits(n: nat): Bytes {
    if n < 10 then [48 + n] else Digits(n / 10) + [48 + n % 10]
  }

  /** A numeral with exactly one spelling: no sign, no padding, not empty. */
  predicate Canonical(s: seq<int>) {
    s != [] && AllDigits(s) && (s[0] == 48 ==> |s| == 1)
  }

  lemma {:induction false} DigitsDenote(n: nat)
    ensures Canonical(Digits(n)) && Value(Digits(n)) == n
    ensures n > 0 ==> Digits(n)[0] != 48
  {
    if n >= 10 {
      DigitsDenote(n / 10);
      var front := Digits(n / 10);
      assert Digits(n)[..|front|] == front;
    }
  }

  lemma {:induction false} CanonicalIsUnique(s: seq<int>)
    requires Canonical(s)
    ensures Digits(Value(s)) == s
    ensures |s| > 1 ==> Value(s) >= 10
  {
    if |s| > 1 {
      var front := s[..|s| - 1];
      assert Value(s) == Value(front) * 10 + (s[|s| - 1] - 48);
      CanonicalIsUnique(front);
      CanonicalNonzero(front);
      assert Value(s) / 10 == Value(front) && Value(s) % 10 == s[|s| - 1] - 48;
      assert s == front + [s[|s| - 1]];
    } else {
      assert s[..0] == [];
      assert s == [s[0]];
    }
  }

  lemma {:induction false} CanonicalNonzero(s: seq<int>)
    requires Canonical(s) && s[0] != 48
    ensures Value(s) > 0
  {
    if |s| > 1 {
      CanonicalNonzero(s[..|s| - 1]);
    } else {
      assert s[..0] == [];
    }
  }

  lemma {:induction false} ValueGrows(s: seq<int>, k: nat)
    requires AllDigits(s) && k <= |s|
    ensures Value(s[..k]) <= Value(s)
  {
    if k < |s| {
      assert s[..|s| - 1][..k] == s[..k];
      ValueGrows(s[..|s| - 1], k);
    } else {
      assert s[..k] == s;
    }
  }

  function Pow10(n: nat): (p: nat)
    ensures p > 0
  {
    if n == 0 then 1 else 10 * Pow10(n - 1)
  }

  /** A numeral is no longer than `width` digits exactly when its value is below that power of ten. */
  lemma {:induction false} DigitsWithin(n: nat, width: nat)
    requires width >= 1
    ensures |Digits(n)| <= width <==> n < Pow10(width)
    decreases width
  {
    if width == 1 {
      assert Pow10(1) == 10;
    } else if n >= 10 {
      DigitsWithin(n / 10, width - 1);
    } else {
      assert Pow10(width) == 10 * Pow10(width - 1);
    }
  }

  /** `%d` of a signed number. */
  function FormatInt(n: int): Bytes {
    if n < 0 then [MINUS] + Digits(-n) else Digits(n)
  }

  /** strconv.ParseInt(text, 10, 64): an optional sign, then digits, in range. */
  function ParseInt64(text: Bytes): Option<int> {
    var signed := text != [] && (text[0] == PLUS || text[0] == MINUS);
    var body := if signed then text[1..] else text;
    if body == [] || !AllDigits(body) then None
    else
      var n := if signed && text[0] == MINUS then 0 - Value(body) else Value(body);
      if IsInt64(n) then Some(n) else None
  }

  lemma {:induction false} ParseInt64Format(n: int)
    requires IsInt64(n)
    ensures ParseInt64(FormatInt(n)) == Some(n)
  {
    DigitsDenote(if n < 0 then -n else n);
  }

  // ------------------------------------------------------ lexicographic order

  /** Byte-wise order, shorter prefix first: what sort.Strings compares by. */
  predicate Less(a: seq<int>, b: seq<int>) {
    if b == [] then false
    else if a == [] then true
    else a[0] < b[0] || (a[0] == b[0] && Less(a[1..], b[1..]))
  }

  lemma {:induction false} LessTrichotomy(a: seq<int>, b: seq<int>)
    ensures a == b || Less(a, b) || Less(b, a)
    ensures !(Less(a, b) && Less(b, a))
    ensures !Less(a, a)
  {
    if a != [] {
      LessTrichotomy(a[1..], a[1..]);
    }
    if a != [] && b != [] {
      LessTrichotomy(a[1..], b[1..]);
      assert a == [a[0]] + a[1..] && b == [b[0]] + b[1..];
    }
  }

  lemma {:induction false} LessTransitive(a: seq<int>, b: seq<int>, c: seq<int>)
    requires Less(a, b) && Less(b, c)
    ensures Less(a, c)
  {
    if a != [] && a[0] == b[0] && b[0] == c[0] {
      LessTransitive(a[1..], b[1..], c[1..]);
    }
  }

  /** Strictly ascending, hence free of repetitions. */
  predicate Ascending(s: seq<seq<int>>) {
    forall i, j :: 0 <= i < j < |s| ==> Less(s[i], s[j])
  }

  /** A set of byte strings has at most one ascending listing. */
  lemma {:induction false} AscendingUnique(s: seq<seq<int>>, t: seq<seq<int>>)
    requires Ascending(s) && Ascending(t)
    requires forall x :: x in s <==> x in t
    ensures s == t
  {
    if t != [] {
      assert t[0] in s;
    }
    if s != [] {
      assert s[0] in t;
      var j :| 0 <= j < |t| && t[j] == s[0];
      var i :| 0 <= i < |s| && s[i] == t[0];
      LessTrichotomy(s[0], t[0]);
      assert s[0] == t[0];
      forall x ensures x in s[1..] <==> x in t[1..] {
        LessTrichotomy(s[0], s[0]);
        if x in s[1..] {
          var k :| 1 <= k < |s| && s[k] == x;
          assert x in s && Less(s[0], x);
          assert x in t;
          var m :| 0 <= m < |t| && t[m] == x;
          assert m != 0;
        }
        if x in t[1..] {
          var k :| 1 <= k < |t| && t[k] == x;
          assert x in t && Less(t[0], x);
          assert x in s;
          var m :| 0 <= m < |s| && s[m] == x;
          assert m != 0;
        }
      }
      AscendingUnique(s[1..], t[1..]);
      assert s == [s[0]] + s[1..] && t == [t[0]] + t[1..];
    }
  }
}
