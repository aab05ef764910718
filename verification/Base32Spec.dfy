/** Base 32 as section 6 of RFC 4648 defines it: a string of bits cut into fives. */
module Base32Spec {
  import opened Wrappers
  import Bytes

  type Bit = b: int | 0 <= b < 2
  type Octet = Bytes.byte

  function Pow2(n: nat): (p: nat)
    ensures p > 0
  {
    if n == 0 then 1 else 2 * Pow2(n - 1)
  }

  /** The low `n` bits of `v`, the highest first. */
  function BitsOf(v: int, n: nat): (bits: seq<Bit>)
    ensures |bits| == n
    decreases n
  {
    if n == 0 then [] else BitsOf(v / 2, n - 1) + [v % 2]
  }

  function Value(bits: seq<Bit>): (v: nat)
    ensures v < Pow2(|bits|)
  {
    if bits == [] then 0 else 2 * Value(bits[..|bits| - 1]) + bits[|bits| - 1]
  }

  function Zeros(n: nat): (bits: seq<Bit>)
    ensures |bits| == n
  {
    if n == 0 then [] else Zeros(n - 1) + [0]
  }

  function BytesBits(bytes: seq<Octet>): (bits: seq<Bit>)
    ensures |bits| == 8 * |bytes|
  {
    if bytes == [] then [] else BytesBits(bytes[..|bytes| - 1]) + BitsOf(bytes[|bytes| - 1], 8)
  }

  const ALPHABET := "ABCDEFGHIJKLMNOPQRSTUVWXYZ234567"

  function Letter(v: int): char
    requires 0 <= v < 32
  {
    ALPHABET[v]
  }

  predicate InAlphabet(c: char) {
    'A' <= c <= 'Z' || '2' <= c <= '7'
  }

  function IndexOf(c: char): (v: int)
    requires InAlphabet(c)
    ensures 0 <= v < 32
  {
    if 'A' <= c <= 'Z' then c as int - 'A' as int else 26 + (c as int - '2' as int)
  }

  /** Fives of bits as letters, the last five filled up with zeros on the right. */
  function Letters(bits: seq<Bit>): (text: string)
    decreases |bits|
  {
    if bits == [] then ""
    else if |bits| < 5 then [Group(bits + Zeros(5 - |bits|))]
    else [Group(bits[..5])] + Letters(bits[5..])
  }

  function Group(five: seq<Bit>): char
    requires |five| == 5
  {
    assert Pow2(5) == 32;
    Letter(Value(five))
  }

  function Encoded(bytes: seq<Octet>): string {
    Letters(BytesBits(bytes))
  }

  predicate AllInAlphabet(text: string) {
    forall c <- text :: InAlphabet(c)
  }

  function LetterBits(text: string): (bits: seq<Bit>)
    requires AllInAlphabet(text)
    ensures |bits| == 5 * |text|
  {
    if text == "" then []
    else
      assert text[|text| - 1] in text;
      LetterBits(text[..|text| - 1]) + BitsOf(IndexOf(text[|text| - 1]), 5)
  }

  /** Whole octets of bits; what is left over is dropped. */
  function Octets(bits: seq<Bit>): (bytes: seq<Octet>)
    decreases |bits|
  {
    if |bits| < 8 then []
    else
      assert Pow2(8) == 256;
      [Value(bits[..8])] + Octets(bits[8..])
  }

  // ------------------------------------------------------------- presentation

  /** What `\s` matches. */
  predicate Space(c: char) {
    var u := c as int;
    || 9 <= u <= 13 || u == 32 || u == 0xa0 || u == 0x1680 || 0x2000 <= u <= 0x200a
    || u == 0x2028 || u == 0x2029 || u == 0x202f || u == 0x205f || u == 0x3000 || u == 0xfeff
  }

  predicate Ignored(c: char) {
    Space(c) || c == '='
  }

  function Strip(text: string, drop: char -> bool): string {
    if text == "" then ""
    else (if drop(text[0]) then "" else [text[0]]) + Strip(text[1..], drop)
  }

  /** `toUpperCase`, one character at a time; `special` stands for what it does beyond ASCII. */
  function UpperChar(c: char, special: char -> string): string {
    if 'a' <= c <= 'z' then [(c as int - 32) as char]
    else if c as int < 128 then [c]
    else special(c)
  }

  function Upper(text: string, special: char -> string): string {
    if text == "" then "" else UpperChar(text[0], special) + Upper(text[1..], special)
  }

  function Cleaned(text: string, special: char -> string): string {
    Upper(Strip(text, Ignored), special)
  }

  /** None for the error. */
  function Decoded(text: string, special: char -> string): Option<seq<Octet>> {
    var cleaned := Cleaned(text, special);
    if AllInAlphabet(cleaned) then Some(Octets(LetterBits(cleaned))) else None
  }

  // --------------------------------------------------------------- bit lemmas

  lemma {:induction false} BitsOfShort(v: int, w: int, n: nat)
    requires v % Pow2(n) == w % Pow2(n)
    ensures BitsOf(v, n) == BitsOf(w, n)
    decreases n
  {
    if n > 0 {
      HalvesAgree(v, w, Pow2(n - 1));
      BitsOfShort(v / 2, w / 2, n - 1);
    }
  }

  lemma {:induction false} HalvesAgree(v: int, w: int, half: nat)
    requires half > 0 && v % (2 * half) == w % (2 * half)
    ensures v % 2 == w % 2 && (v / 2) % half == (w / 2) % half
  {
    ModOfHalf(v, half);
    ModOfHalf(w, half);
  }

  lemma {:induction false} ModOfHalf(v: int, half: nat)
    requires half > 0
    ensures v % 2 == (v % (2 * half)) % 2
    ensures (v / 2) % half == (v % (2 * half)) / 2
  {
    var q, r := v / (2 * half), v % (2 * half);
    assert v == (2 * half) * q + r;
    assert v == 2 * (half * q) + r;
    assert v / 2 == half * q + r / 2;
    assert 0 <= r / 2 < half;
    RemainderIs(v / 2, half, q, r / 2);
  }

  lemma {:induction false} RemainderIs(x: int, m: int, q: int, r: int)
    requires 0 <= r < m && x == m * q + r
    ensures x % m == r && x / m == q
  {
    var d := q - x / m;
    assert m * d == x % m - r;
    assert d > 0 ==> m * d >= m;
    assert d < 0 ==> m * d <= -m;
  }

  lemma {:induction false} BitsOfValue(bits: seq<Bit>)
    ensures BitsOf(Value(bits), |bits|) == bits
  {
    if bits != [] {
      BitsOfValue(bits[..|bits| - 1]);
    }
  }

  lemma {:induction false} ValueOfBits(v: int, n: nat)
    ensures Value(BitsOf(v, n)) == v % Pow2(n)
    decreases n
  {
    if n > 0 {
      var front := BitsOf(v / 2, n - 1);
      assert BitsOf(v, n)[..n - 1] == front;
      ValueOfBits(v / 2, n - 1);
      ModOfHalf(v, Pow2(n - 1));
      ModOfHalf(v % (2 * Pow2(n - 1)), Pow2(n - 1));
    } else {
      assert Pow2(0) == 1;
    }
  }

  /** Splitting the low bits of a number between a shift and a mask. */
  lemma {:induction false} BitsOfSplit(v: int, high: nat, low: nat)
    ensures BitsOf(v, high + low) == BitsOf(v / Pow2(low), high) + BitsOf(v, low)
    decreases low
  {
    if low == 0 {
      assert Pow2(0) == 1;
    } else {
      BitsOfSplit(v / 2, high, low - 1);
      QuotientTwice(v, Pow2(low - 1));
      assert BitsOf(v, high + low) == BitsOf(v / 2, high + low - 1) + [v % 2];
    }
  }

  lemma {:induction false} QuotientTwice(v: int, half: nat)
    requires half > 0
    ensures (v / 2) / half == v / (2 * half)
  {
    var q, r := (v / 2) / half, (v / 2) % half;
    var s := 2 * r + v % 2;
    assert v == 2 * (half * q + r) + v % 2;
    assert v == (2 * half) * q + s;
    RemainderIs(v, 2 * half, q, s);
  }

  /** Shifting left appends zeros. */
  lemma {:induction false} BitsOfShift(v: int, n: nat, k: nat)
    ensures BitsOf(v * Pow2(k), n + k) == BitsOf(v, n) + Zeros(k)
    decreases k
  {
    if k == 0 {
      assert Pow2(0) == 1;
    } else {
      BitsOfShift(v, n, k - 1);
      var w := v * Pow2(k - 1);
      assert v * Pow2(k) == 2 * w;
      assert BitsOf(2 * w, n + k) == BitsOf(w, n + k - 1) + [0];
    }
  }
}
