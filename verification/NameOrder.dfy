/** The two orders argument names are sorted by, and exactly which names they order differently. */
module NameOrder {
  import opened Bytes
  import opened Utf

  /** Array.prototype.sort with no comparator: by UTF-16 code unit. */
  predicate UnitsLess(a: string, b: string) {
    Less(Units(a), Units(b))
  }

  /** sort.Strings: by byte. */
  predicate BytesLess(a: string, b: string) {
    Less(Utf8(a), Utf8(b))
  }

  /** One scalar past the surrogates, the other past the basic plane: the pair that code units swap. */
  predicate Swapped(x: char, y: char) {
    0xE000 <= x as int < 0x1_0000 <= y as int
  }

  /** The first scalars at which the names differ are such a pair. */
  predicate Straddles(a: string, b: string) {
    a != "" && b != "" &&
    if a[0] == b[0] then Straddles(a[1..], b[1..]) else Swapped(a[0], b[0]) || Swapped(b[0], a[0])
  }

  // ------------------------------------------------------------- one character

  lemma {:induction false} LessAfter(p: seq<int>, a: seq<int>, b: seq<int>)
    ensures Less(p + a, p + b) <==> Less(a, b)
  {
    if p == [] {
      assert p + a == a && p + b == b;
    } else {
      assert (p + a)[1..] == p[1..] + a && (p + b)[1..] == p[1..] + b;
      LessAfter(p[1..], a, b);
    }
  }

  /** A smaller element after a common prefix decides. */
  lemma LessAt(p: seq<int>, x: int, s: seq<int>, y: int, t: seq<int>)
    requires x < y
    ensures Less(p + ([x] + s), p + ([y] + t))
  {
    LessAfter(p, [x] + s, [y] + t);
  }

  lemma UnitsDecide(x: char, y: char, s: seq<int>, t: seq<int>)
    requires x < y
    ensures if Swapped(x, y) then Less(UnitsOf(y) + t, UnitsOf(x) + s) else Less(UnitsOf(x) + s, UnitsOf(y) + t)
  {
    var m, n := x as int, y as int;
    if n < 0x1_0000 {
      LessAt([], m, s, n, t);
      assert [] + ([m] + s) == [m] + s && [] + ([n] + t) == [n] + t;
    } else if m >= 0x1_0000 {
      var a, b := (m - 0x1_0000) / 1024, (n - 0x1_0000) / 1024;
      var c, d := (m - 0x1_0000) % 1024, (n - 0x1_0000) % 1024;
      assert a < b || (a == b && c < d);
      assert UnitsOf(x) + s == [0xD800 + a] + ([0xDC00 + c] + s);
      assert UnitsOf(y) + t == [0xD800 + b] + ([0xDC00 + d] + t);
    }
  }

  /** Base-64 digits compare like the numbers they make. */
  lemma DigitsDecide(m: nat, n: nat)
    requires m < n
    ensures m / 64 < n / 64 || (m / 64 == n / 64 && m % 64 < n % 64)
  {
  }

  lemma BytesDecide(x: char, y: char, s: seq<int>, t: seq<int>)
    requires x < y
    ensures Less(EncodeScalar(x) + s, EncodeScalar(y) + t)
  {
    hide Less;
    var m, n := x as int, y as int;
    DigitsDecide(m, n);
    if |EncodeScalar(x)| != |EncodeScalar(y)| || m / 64 == n / 64 || n < 0x800 {
      ShortDecide(x, y, s, t);
    } else {
      DigitsDecide(m / 64, n / 64);
      if m / 64 / 64 < n / 64 / 64 {
        TopDecides(x, y, s, t);
      } else {
        LessFrom(EncodeScalar(x), EncodeScalar(y), |EncodeScalar(x)| - 2, s, t);
      }
    }
  }

  /** The leading bytes differ, or only the last ones do. */
  lemma ShortDecide(x: char, y: char, s: seq<int>, t: seq<int>)
    requires x < y
    requires |EncodeScalar(x)| != |EncodeScalar(y)| || x as int / 64 == y as int / 64 || y as int < 0x800
    ensures Less(EncodeScalar(x) + s, EncodeScalar(y) + t)
  {
    hide Less;
    var a, b := EncodeScalar(x), EncodeScalar(y);
    LastsDiffer(x, y);
    if a[0] < b[0] {
      LessFrom(a, b, 0, s, t);
    } else {
      LessFrom(a, b, |a| - 1, s, t);
    }
  }

  lemma LastsDiffer(x: char, y: char)
    requires x < y
    requires |EncodeScalar(x)| != |EncodeScalar(y)| || x as int / 64 == y as int / 64 || y as int < 0x800
    ensures var a, b := EncodeScalar(x), EncodeScalar(y);
            && |a| >= 1 && |b| >= 1
            && (a[0] < b[0] || (|a| == |b| && a[..|a| - 1] == b[..|a| - 1] && a[|a| - 1] < b[|a| - 1]))
  {
  }

  /** The first place where they differ decides between two texts. */
  lemma LessFrom(a: seq<int>, b: seq<int>, k: nat, s: seq<int>, t: seq<int>)
    requires k < |a| && k < |b| && a[..k] == b[..k] && a[k] < b[k]
    ensures Less(a + s, b + t)
  {
    hide Less;
    assert a + s == a[..k] + ([a[k]] + (a[k + 1..] + s));
    assert b + t == a[..k] + ([b[k]] + (b[k + 1..] + t));
    LessAt(a[..k], a[k], a[k + 1..] + s, b[k], b[k + 1..] + t);
  }

  /** Three or four bytes that differ before the last two. */
  lemma TopDecides(x: char, y: char, s: seq<int>, t: seq<int>)
    requires |EncodeScalar(x)| == |EncodeScalar(y)| >= 3 && x as int / 64 / 64 < y as int / 64 / 64
    ensures Less(EncodeScalar(x) + s, EncodeScalar(y) + t)
  {
    hide Less;
    var a, b := EncodeScalar(x), EncodeScalar(y);
    if a[0] < b[0] {
      LessFrom(a, b, 0, s, t);
    } else {
      DigitsDecide(x as int / 64 / 64, y as int / 64 / 64);
      assert |a| == 4 && a[0] == b[0] && a[1] < b[1];
      LessFrom(a, b, 1, s, t);
    }
  }

  // ------------------------------------------------------------------- results

  lemma {:induction false} Decided(a: string, b: string, x: char, y: char)
    requires a != "" && b != "" && a[0] == x && b[0] == y && x < y
    ensures BytesLess(a, b) && (UnitsLess(a, b) <==> !Swapped(x, y)) && (UnitsLess(b, a) <==> Swapped(x, y))
    ensures !BytesLess(b, a)
  {
    hide EncodeScalar, UnitsOf;
    BytesDecide(x, y, Utf8(a[1..]), Utf8(b[1..]));
    UnitsDecide(x, y, Units(a[1..]), Units(b[1..]));
    LessTrichotomy(Units(a), Units(b));
    LessTrichotomy(Utf8(a), Utf8(b));
  }

  lemma AfterSame(a: string, b: string)
    requires a != "" && b != "" && a[0] == b[0]
    ensures UnitsLess(a, b) <==> UnitsLess(a[1..], b[1..])
    ensures BytesLess(a, b) <==> BytesLess(a[1..], b[1..])
  {
    hide EncodeScalar, UnitsOf, Less;
    LessAfter(UnitsOf(a[0]), Units(a[1..]), Units(b[1..]));
    LessAfter(EncodeScalar(a[0]), Utf8(a[1..]), Utf8(b[1..]));
  }

  lemma EmptyIsLeast(a: string)
    requires a != ""
    ensures UnitsLess("", a) && BytesLess("", a) && !UnitsLess(a, "") && !BytesLess(a, "")
  {
    assert |EncodeScalar(a[0])| >= 1;
  }

  /** Two names are ordered alike by code unit and by byte, unless they straddle; then they are ordered oppositely. */
  lemma {:induction false} OrdersAgreeIff(a: string, b: string)
    requires a != b
    ensures (UnitsLess(a, b) <==> BytesLess(a, b)) <==> !Straddles(a, b)
    decreases |a|
  {
    hide UnitsLess, BytesLess;
    if a == "" {
      EmptyIsLeast(b);
    } else if b == "" {
      EmptyIsLeast(a);
    } else if a[0] == b[0] {
      AfterSame(a, b);
      assert a == [a[0]] + a[1..] && b == [b[0]] + b[1..];
      OrdersAgreeIff(a[1..], b[1..]);
    } else if a[0] < b[0] {
      Decided(a, b, a[0], b[0]);
    } else {
      Decided(b, a, b[0], a[0]);
    }
  }

  /** Every two names of the catalogue's alphabet are ordered alike. */
  lemma {:induction false} AsciiNeverStraddles(a: string, b: string)
    requires Ascii(a) && Ascii(b)
    ensures !Straddles(a, b)
  {
    if a != "" && b != "" && a[0] == b[0] {
      AsciiNeverStraddles(a[1..], b[1..]);
    }
  }

  lemma {:induction false} UnitsTotal(a: string, b: string)
    requires a != b
    ensures UnitsLess(a, b) || UnitsLess(b, a)
    decreases |a|
  {
    hide UnitsLess, BytesLess;
    if a == "" {
      EmptyIsLeast(b);
    } else if b == "" {
      EmptyIsLeast(a);
    } else if a[0] == b[0] {
      AfterSame(a, b);
      AfterSame(b, a);
      assert a == [a[0]] + a[1..] && b == [b[0]] + b[1..];
      UnitsTotal(a[1..], b[1..]);
    } else if a[0] < b[0] {
      Decided(a, b, a[0], b[0]);
    } else {
      Decided(b, a, b[0], a[0]);
    }
  }

  lemma {:induction false} StraddlesBothWays(a: string, b: string)
    requires Straddles(a, b)
    ensures Straddles(b, a) && a != b
    decreases |a|
  {
    if a[0] == b[0] {
      StraddlesBothWays(a[1..], b[1..]);
    }
  }
}
