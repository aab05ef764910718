/** Well-formed text, as the bytes Go sees and the code units JavaScript sorts by. */
module Utf {
  import opened Bytes

  /** RFC 3629 section 3. A `char` is a Unicode scalar value. */
  function EncodeScalar(c: char): Bytes {
    var n := c as int;
    if n < 0x80 then [n]
    else if n < 0x800 then [0xC0 + n / 64, 0x80 + n % 64]
    else
      var high := n / 64;
      var top := high / 64;
      if n < 0x1_0000 then [0xE0 + top, 0x80 + high % 64, 0x80 + n % 64]
      else [0xF0 + top / 64, 0x80 + top % 64, 0x80 + high % 64, 0x80 + n % 64]
  }

  function Utf8(text: string): Bytes {
    if text == [] then [] else EncodeScalar(text[0]) + Utf8(text[1..])
  }

  /** UTF-16 code units: a surrogate pair for a scalar past the basic plane. */
  function UnitsOf(c: char): seq<int> {
    var n := c as int;
    if n < 0x1_0000 then [n] else [0xD800 + (n - 0x1_0000) / 1024, 0xDC00 + (n - 0x1_0000) % 1024]
  }

  /** Section 3.9 of the Unicode Standard: one unit, or a high and a low surrogate that hold ten bits each. */
  lemma UnitsMean(c: char)
    ensures var n, u := c as int, UnitsOf(c);
            if n < 0x1_0000 then u == [n]
            else |u| == 2 && 0xD800 <= u[0] < 0xDC00 <= u[1] < 0xE000
                 && n == 0x1_0000 + (u[0] - 0xD800) * 0x400 + (u[1] - 0xDC00)
  {
  }

  function Units(text: string): seq<int> {
    if text == [] then [] else UnitsOf(text[0]) + Units(text[1..])
  }

  predicate Ascii(text: string) {
    forall i :: 0 <= i < |text| ==> text[i] as int < 0x80
  }

  /** The scalar an encoding's bytes spell. */
  function Scalar(b: seq<int>): int
    requires 1 <= |b| <= 4
  {
    match |b|
    case 1 => b[0]
    case 2 => (b[0] - 0xC0) * 64 + (b[1] - 0x80)
    case 3 => ((b[0] - 0xE0) * 64 + (b[1] - 0x80)) * 64 + (b[2] - 0x80)
    case _ => (((b[0] - 0xF0) * 64 + (b[1] - 0x80)) * 64 + (b[2] - 0x80)) * 64 + (b[3] - 0x80)
  }

  function LengthByLead(lead: byte): nat {
    if lead < 0x80 then 1 else if lead < 0xE0 then 2 else if lead < 0xF0 then 3 else 4
  }

  lemma ScalarSpelled(c: char)
    ensures Scalar(EncodeScalar(c)) == c as int
    ensures |EncodeScalar(c)| == LengthByLead(EncodeScalar(c)[0])
  {
  }

  lemma {:induction false} Utf8Injective(a: string, b: string)
    requires Utf8(a) == Utf8(b)
    ensures a == b
  {
    assert a != [] ==> |EncodeScalar(a[0])| > 0;
    assert b != [] ==> |EncodeScalar(b[0])| > 0;
    if a != [] && b != [] {
      ScalarSpelled(a[0]);
      ScalarSpelled(b[0]);
      var x, y := EncodeScalar(a[0]), EncodeScalar(b[0]);
      assert x[0] == Utf8(a)[0] == Utf8(b)[0] == y[0];
      assert x == Utf8(a)[..|x|] == Utf8(b)[..|y|] == y;
      assert Utf8(a[1..]) == Utf8(a)[|x|..] == Utf8(b)[|y|..] == Utf8(b[1..]);
      Utf8Injective(a[1..], b[1..]);
      assert a == [a[0]] + a[1..] && b == [b[0]] + b[1..];
    }
  }
}
