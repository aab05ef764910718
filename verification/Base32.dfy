/** Base 32 as the code computes it: a 32-bit buffer that is shifted and never masked. */
module Base32 {
  import opened Wrappers
  import opened Base32Spec
  import Sequences

  // ------------------------------------------------------- 32-bit arithmetic

  /** The signed 32-bit number a bitwise operator's result is kept as. */
  function ToInt32(x: int): (r: int)
    ensures -0x8000_0000 <= r < 0x8000_0000
  {
    var m := x % 0x1_0000_0000;
    if m < 0x8000_0000 then m else m - 0x1_0000_0000
  }

  /** `x << n`. */
  function ShiftLeft(x: int, n: nat): int {
    ToInt32(x * Pow2(n))
  }

  /** `x >> n`, which keeps the sign. */
  function ShiftRight(x: int, n: nat): int {
    x / Pow2(n)
  }

  lemma {:induction false} Pow2Sum(a: nat, b: nat)
    ensures Pow2(a + b) == Pow2(a) * Pow2(b)
    decreases a
  {
    if a > 0 {
      Pow2Sum(a - 1, b);
      assert Pow2(a) * Pow2(b) == 2 * (Pow2(a - 1) * Pow2(b));
    }
  }

  lemma Pow2Of32()
    ensures Pow2(32) == 0x1_0000_0000 && Pow2(5) == 32 && Pow2(8) == 256
  {
    assert Pow2(8) == 256;
    Pow2Sum(8, 8);
    Pow2Sum(16, 16);
  }

  lemma {:induction false} SameRemainder(x: int, y: int, m: nat, k: nat, turns: int)
    requires m > 0 && x == y + (m * k) * turns
    ensures x % m == y % m
  {
    var q := y / m + k * turns;
    assert (m * k) * turns == m * (k * turns);
    assert x == m * q + y % m;
    RemainderIs(x, m, q, y % m);
  }

  lemma WrapTurns(x: int) returns (turns: int)
    ensures x == ToInt32(x) + 0x1_0000_0000 * turns
  {
    turns := if x % 0x1_0000_0000 < 0x8000_0000 then x / 0x1_0000_0000 else x / 0x1_0000_0000 + 1;
  }

  lemma {:induction false} WrapRemainder(x: int, n: nat)
    requires n <= 32
    ensures ToInt32(x) % Pow2(n) == x % Pow2(n)
  {
    hide Pow2, ToInt32;
    Pow2Of32();
    Pow2Sum(n, 32 - n);
    var turns := WrapTurns(x);
    SameRemainder(x, ToInt32(x), Pow2(n), Pow2(32 - n), turns);
  }

  /** Wrapping keeps every low bit. */
  lemma WrapKeepsLowBits(x: int, n: nat)
    requires n <= 32
    ensures BitsOf(ToInt32(x), n) == BitsOf(x, n)
  {
    hide Pow2, ToInt32, BitsOf;
    WrapRemainder(x, n);
    BitsOfShort(ToInt32(x), x, n);
  }

  lemma {:induction false} ShiftedRemainder(buffer: int, width: nat)
    requires width <= 32
    ensures ShiftLeft(buffer, width) % Pow2(width) == 0
  {
    hide Pow2, ToInt32;
    WrapRemainder(buffer * Pow2(width), width);
    RemainderIs(buffer * Pow2(width), Pow2(width), buffer, 0);
  }

  /** A shift moves the pending bits up, whatever it lost at the top. */
  lemma {:induction false} ShiftedUp(buffer: int, bits: nat, width: nat)
    requires bits + width <= 32
    ensures BitsOf(ShiftLeft(buffer, width) / Pow2(width), bits) == BitsOf(buffer, bits)
  {
    hide Pow2, ToInt32, BitsOf;
    var m, shifted := Pow2(width), ShiftLeft(buffer, width);
    WrapKeepsLowBits(buffer * m, bits + width);
    BitsOfSplit(shifted, bits, width);
    BitsOfSplit(buffer * m, bits, width);
    RemainderIs(buffer * m, m, buffer, 0);
    PrefixEqual(BitsOf(shifted / m, bits), BitsOf(shifted, width), BitsOf(buffer, bits), BitsOf(buffer * m, width));
  }

  /** Shifting in a group: the pending bits move up and the new ones follow. */
  lemma ShiftIn(buffer: int, bits: nat, v: int, width: nat)
    requires bits + width <= 32 && 0 <= v < Pow2(width)
    ensures ShiftLeft(buffer, width) % Pow2(width) == 0
    ensures BitsOf(ShiftLeft(buffer, width) + v, bits + width) == BitsOf(buffer, bits) + BitsOf(v, width)
  {
    hide Pow2, ToInt32, BitsOf, ShiftLeft;
    var m, shifted := Pow2(width), ShiftLeft(buffer, width);
    ShiftedRemainder(buffer, width);
    ShiftedUp(buffer, bits, width);
    RemainderIs(shifted + v, m, shifted / m, v);
    BitsOfSplit(shifted + v, bits, width);
    RemainderIs(v, m, 0, v);
    BitsOfShort(shifted + v, v, width);
  }

  lemma PrefixEqual(a: seq<Bit>, b: seq<Bit>, c: seq<Bit>, d: seq<Bit>)
    requires a + b == c + d && |a| == |c|
    ensures a == c
  {
    assert a == (a + b)[..|a|] == c;
  }

  /** Shifting down and masking reads the top pending bits off. */
  lemma {:induction false} ReadOff(buffer: int, rest: nat, width: nat)
    ensures BitsOf(buffer, rest + width) == BitsOf(ShiftRight(buffer, rest), width) + BitsOf(buffer, rest)
    ensures Value(BitsOf(ShiftRight(buffer, rest), width)) == ShiftRight(buffer, rest) % Pow2(width)
  {
    BitsOfSplit(buffer, width, rest);
    ValueOfBits(ShiftRight(buffer, rest), width);
  }

  // ------------------------------------------------------------------- encode

  lemma LettersNone()
    ensures Letters([]) == ""
  {
  }

  lemma LettersLong(bits: seq<Bit>)
    requires |bits| >= 5
    ensures Letters(bits) == [Group(bits[..5])] + Letters(bits[5..])
  {
  }

  lemma {:induction false} LettersAcross(done: seq<Bit>, rest: seq<Bit>)
    requires |done| % 5 == 0
    ensures Letters(done + rest) == Letters(done) + Letters(rest)
    decreases |done|
  {
    hide Group, Zeros, Letters;
    if done == [] {
      assert Letters(done) == "" by { LettersNone(); }
      assert done + rest == rest;
    } else {
      assert (done + rest)[..5] == done[..5] && (done + rest)[5..] == done[5..] + rest;
      LettersLong(done);
      LettersLong(done + rest);
      LettersAcross(done[5..], rest);
      Sequences.Associative([Group(done[..5])], Letters(done[5..]), Letters(rest));
    }
  }

  lemma {:induction false} OneLetter(done: seq<Bit>, five: seq<Bit>)
    requires |done| % 5 == 0 && |five| == 5
    ensures Letters(done + five) == Letters(done) + [Group(five)]
  {
    hide Group, BitsOf;
    LettersAcross(done, five);
    assert five[..5] == five && five[5..] == [];
    assert Letters([]) == "";
  }

  method Base32Encode(bytes: seq<Octet>) returns (out: string)
    ensures out == Encoded(bytes)
  {
    hide BitsOf, Pow2, Value, ToInt32, ShiftLeft;
    out := "";
    var buffer, bits := 0, 0;
    ghost var done: seq<Bit> := [];
    Pow2Of32();
    var i := 0;
    while i < |bytes|
      invariant 0 <= i <= |bytes| && 0 <= bits < 5
      invariant |done| % 5 == 0 && out == Letters(done)
      invariant done + BitsOf(buffer, bits) == BytesBits(bytes[..i])
    {
      ShiftIn(buffer, bits, bytes[i], 8);
      BytesNext(bytes, i, done, BitsOf(buffer, bits));
      buffer := ShiftLeft(buffer, 8) + bytes[i];
      bits := bits + 8;
      while bits >= 5
        invariant 0 <= bits < 13
        invariant |done| % 5 == 0 && out == Letters(done)
        invariant done + BitsOf(buffer, bits) == BytesBits(bytes[..i + 1])
      {
        bits := bits - 5;
        out, done := Emit(out, done, buffer, bits, BytesBits(bytes[..i + 1]));
      }
      i := i + 1;
    }
    assert bytes[..i] == bytes;
    if bits > 0 {
      LastLetter(done, buffer, bits);
      out := out + [Letter(ShiftLeft(buffer, 5 - bits) % 32)];
    } else {
      assert done + BitsOf(buffer, 0) == done;
    }
  }

  /** One letter: `(buffer >> bits) & 31`. */
  method Emit(out: string, ghost done: seq<Bit>, buffer: int, bits: nat, ghost all: seq<Bit>)
    returns (more: string, ghost now: seq<Bit>)
    requires |done| % 5 == 0 && out == Letters(done) && done + BitsOf(buffer, bits + 5) == all
    ensures |now| % 5 == 0 && more == Letters(now) && now + BitsOf(buffer, bits) == all
    ensures more == out + [Letter(ShiftRight(buffer, bits) % 32)]
  {
    hide BitsOf, Pow2, Value, Letters, ShiftRight;
    Pow2Of32();
    ReadOff(buffer, bits, 5);
    ghost var five := BitsOf(ShiftRight(buffer, bits), 5);
    OneLetter(done, five);
    assert (done + five) + BitsOf(buffer, bits) == done + (five + BitsOf(buffer, bits));
    more := out + [Letter(ShiftRight(buffer, bits) % 32)];
    now := done + five;
  }

  lemma BytesNext(bytes: seq<Octet>, i: nat, done: seq<Bit>, pending: seq<Bit>)
    requires i < |bytes| && done + pending == BytesBits(bytes[..i])
    ensures done + (pending + BitsOf(bytes[i], 8)) == BytesBits(bytes[..i + 1])
  {
    hide BitsOf, Pow2, Value;
    assert bytes[..i + 1][..i] == bytes[..i];
    assert (done + pending) + BitsOf(bytes[i], 8) == done + (pending + BitsOf(bytes[i], 8));
  }

  lemma LastGroup(buffer: int, bits: nat)
    requires 0 < bits < 5
    ensures BitsOf(ShiftLeft(buffer, 5 - bits), 5) == BitsOf(buffer, bits) + Zeros(5 - bits)
    ensures Value(BitsOf(ShiftLeft(buffer, 5 - bits), 5)) == ShiftLeft(buffer, 5 - bits) % 32
  {
    hide BitsOf, Pow2, Value, Zeros, ToInt32;
    Pow2Of32();
    WrapKeepsLowBits(buffer * Pow2(5 - bits), 5);
    BitsOfShift(buffer, bits, 5 - bits);
    ValueOfBits(ShiftLeft(buffer, 5 - bits), 5);
  }

  lemma LettersShort(bits: seq<Bit>)
    requires 0 < |bits| < 5
    ensures Letters(bits) == [Group(bits + Zeros(5 - |bits|))]
  {
  }

  lemma GroupIs(five: seq<Bit>, v: int)
    requires |five| == 5 && Value(five) == v && 0 <= v < 32
    ensures Group(five) == Letter(v)
  {
  }

  lemma {:induction false} LastLetter(done: seq<Bit>, buffer: int, bits: nat)
    requires |done| % 5 == 0 && 0 < bits < 5
    ensures Letters(done + BitsOf(buffer, bits)) == Letters(done) + [Letter(ShiftLeft(buffer, 5 - bits) % 32)]
  {
    hide BitsOf, Value, Zeros, ShiftLeft, Pow2, Group, Letter, Letters;
    LettersAcross(done, BitsOf(buffer, bits));
    LastGroup(buffer, bits);
    LettersShort(BitsOf(buffer, bits));
    GroupIs(BitsOf(buffer, bits) + Zeros(5 - bits), ShiftLeft(buffer, 5 - bits) % 32);
  }

  // ------------------------------------------------------------------- decode

  lemma {:induction false} OctetsAcross(done: seq<Bit>, rest: seq<Bit>)
    requires |done| % 8 == 0
    ensures Octets(done + rest) == Octets(done) + Octets(rest)
    decreases |done|
  {
    if done == [] {
      assert done + rest == rest;
    } else {
      assert (done + rest)[..8] == done[..8] && (done + rest)[8..] == done[8..] + rest;
      OctetsAcross(done[8..], rest);
    }
  }

  lemma {:induction false} OneOctet(done: seq<Bit>, eight: seq<Bit>)
    requires |done| % 8 == 0 && |eight| == 8
    ensures Value(eight) < 256 && Octets(done + eight) == Octets(done) + [Value(eight)]
  {
    hide BitsOf, Value;
    Pow2Of32();
    OctetsAcross(done, eight);
    assert eight[..8] == eight && eight[8..] == [];
    assert Octets([]) == [];
  }

  /** One octet: `(buffer >> bits) & 0xff`. */
  method EmitOctet(out: seq<Octet>, ghost done: seq<Bit>, buffer: int, bits: nat, ghost all: seq<Bit>)
    returns (more: seq<Octet>, ghost now: seq<Bit>)
    requires |done| % 8 == 0 && out == Octets(done) && done + BitsOf(buffer, bits + 8) == all
    ensures |now| % 8 == 0 && more == Octets(now) && now + BitsOf(buffer, bits) == all
    ensures more == out + [ShiftRight(buffer, bits) % 256]
  {
    hide BitsOf, Pow2, Value, Octets, ShiftRight;
    Pow2Of32();
    ReadOff(buffer, bits, 8);
    ghost var eight := BitsOf(ShiftRight(buffer, bits), 8);
    OneOctet(done, eight);
    assert (done + eight) + BitsOf(buffer, bits) == done + (eight + BitsOf(buffer, bits));
    more := out + [ShiftRight(buffer, bits) % 256];
    now := done + eight;
  }

  method Base32Decode(text: string, special: char -> string) returns (bytes: Option<seq<Octet>>)
    ensures bytes == Decoded(text, special)
  {
    hide BitsOf, Pow2, Value, LetterBits, Cleaned, ToInt32, ShiftLeft, IndexOf, InAlphabet;
    var cleaned := Cleaned(text, special);
    var out: seq<Octet> := [];
    var buffer, bits := 0, 0;
    ghost var done: seq<Bit> := [];
    Pow2Of32();
    var i := 0;
    while i < |cleaned|
      invariant 0 <= i <= |cleaned| && 0 <= bits < 8
      invariant AllInAlphabet(cleaned[..i])
      invariant |done| % 8 == 0 && out == Octets(done)
      invariant done + BitsOf(buffer, bits) == LetterBits(cleaned[..i])
    {
      if !InAlphabet(cleaned[i]) {
        assert cleaned[i] in cleaned;
        return None;
      }
      var value := IndexOf(cleaned[i]);
      ShiftIn(buffer, bits, value, 5);
      LettersNext(cleaned, i, done, BitsOf(buffer, bits));
      buffer := ShiftLeft(buffer, 5) + value;
      bits := bits + 5;
      if bits >= 8 {
        bits := bits - 8;
        out, done := EmitOctet(out, done, buffer, bits, LetterBits(cleaned[..i + 1]));
      }
      i := i + 1;
    }
    assert cleaned[..i] == cleaned;
    OctetsAcross(done, BitsOf(buffer, bits));
    assert Octets(BitsOf(buffer, bits)) == [];
    assert out + [] == out;
    bytes := Some(out);
  }

  lemma LettersNext(text: string, i: nat, done: seq<Bit>, pending: seq<Bit>)
    requires i < |text| && AllInAlphabet(text[..i]) && InAlphabet(text[i])
    requires done + pending == LetterBits(text[..i])
    ensures AllInAlphabet(text[..i + 1])
    ensures done + (pending + BitsOf(IndexOf(text[i]), 5)) == LetterBits(text[..i + 1])
  {
    hide BitsOf, Pow2, Value, InAlphabet, IndexOf;
    assert text[..i + 1] == text[..i] + [text[i]];
    assert text[..i + 1][..i] == text[..i];
    assert (done + pending) + BitsOf(IndexOf(text[i]), 5) == done + (pending + BitsOf(IndexOf(text[i]), 5));
  }

  // --------------------------------------------------------------- round trip

  lemma LetterIsInAlphabet(v: int)
    requires 0 <= v < 32
    ensures InAlphabet(Letter(v)) && IndexOf(Letter(v)) == v
  {
    assert v < 26 ==> Letter(v) as int == 'A' as int + v;
    assert v >= 26 ==> Letter(v) as int == '2' as int + (v - 26);
  }

  lemma GroupBits(five: seq<Bit>)
    requires |five| == 5
    ensures InAlphabet(Group(five)) && BitsOf(IndexOf(Group(five)), 5) == five
  {
    hide BitsOf, InAlphabet, IndexOf, Letter;
    Pow2Of32();
    LetterIsInAlphabet(Value(five));
    BitsOfValue(five);
  }

  lemma {:induction false} LetterBitsCons(c: char, text: string)
    requires InAlphabet(c) && AllInAlphabet(text)
    ensures AllInAlphabet([c] + text)
    ensures LetterBits([c] + text) == BitsOf(IndexOf(c), 5) + LetterBits(text)
  {
    hide BitsOf, Value, Pow2, IndexOf, InAlphabet;
    var all := [c] + text;
    assert AllInAlphabet(all);
    if text == "" {
      assert all == [c] && all[..0] == "";
      assert LetterBits(all[..0]) == [];
    } else {
      var front, last := text[..|text| - 1], text[|text| - 1];
      assert all[..|all| - 1] == [c] + front;
      assert last in text && forall x <- front :: x in text;
      LetterBitsCons(c, front);
    }
  }

  /** The letters spell the bits, then fewer than five zeros. */
  lemma {:induction false} LettersSpell(bits: seq<Bit>) returns (pad: nat)
    ensures AllInAlphabet(Letters(bits)) && pad < 5
    ensures LetterBits(Letters(bits)) == bits + Zeros(pad)
    ensures |Letters(bits)| == (|bits| + 4) / 5
    decreases |bits|
  {
    hide BitsOf, Pow2, Value, InAlphabet, IndexOf, Group;
    if bits == [] {
      pad := 0;
    } else if |bits| < 5 {
      pad := 5 - |bits|;
      GroupBits(bits + Zeros(pad));
      LetterBitsCons(Group(bits + Zeros(pad)), "");
      assert Letters(bits) == [Group(bits + Zeros(pad))] + "";
    } else {
      pad := LettersSpell(bits[5..]);
      GroupBits(bits[..5]);
      LetterBitsCons(Group(bits[..5]), Letters(bits[5..]));
      assert bits[..5] + (bits[5..] + Zeros(pad)) == bits + Zeros(pad);
    }
  }

  lemma {:induction false} OctetsOfBytes(bytes: seq<Octet>, rest: seq<Bit>)
    requires |rest| < 8
    ensures Octets(BytesBits(bytes) + rest) == bytes
  {
    hide BitsOf, Value, Pow2;
    if bytes == [] {
      assert BytesBits(bytes) + rest == rest;
    } else {
      var front, last := bytes[..|bytes| - 1], bytes[|bytes| - 1];
      OctetsAcross(BytesBits(bytes), rest);
      OctetsOfBytes(front, []);
      assert BytesBits(front) + [] == BytesBits(front);
      OneOctet(BytesBits(front), BitsOf(last, 8));
      ValueOfBits(last, 8);
      Pow2Of32();
      assert bytes == front + [last];
    }
  }

  lemma CharIsClean(c: char, special: char -> string)
    requires InAlphabet(c)
    ensures !Ignored(c) && UpperChar(c, special) == [c]
  {
  }

  lemma {:induction false} CleanAlready(text: string, special: char -> string)
    requires AllInAlphabet(text)
    ensures Strip(text, Ignored) == text && Upper(text, special) == text
  {
    hide InAlphabet, UpperChar, Ignored;
    if text != "" {
      assert text[0] in text && forall c <- text[1..] :: c in text;
      CharIsClean(text[0], special);
      CleanAlready(text[1..], special);
    }
  }

  /** Decoding what was encoded gives back every byte string, and the length is the bits over five, rounded up. */
  lemma RoundTrip(bytes: seq<Octet>, special: char -> string)
    ensures Decoded(Encoded(bytes), special) == Some(bytes)
    ensures |Encoded(bytes)| == (8 * |bytes| + 4) / 5
  {
    var pad := LettersSpell(BytesBits(bytes));
    CleanAlready(Encoded(bytes), special);
    OctetsOfBytes(bytes, Zeros(pad));
  }

  // ------------------------------------------------------------- presentation

  lemma {:induction false} StripAcross(a: string, b: string, drop: char -> bool)
    ensures Strip(a + b, drop) == Strip(a, drop) + Strip(b, drop)
  {
    if a == "" {
      assert a + b == b;
    } else {
      assert (a + b)[1..] == a[1..] + b;
      StripAcross(a[1..], b, drop);
    }
  }

  lemma {:induction false} UpperAcross(a: string, b: string, special: char -> string)
    ensures Upper(a + b, special) == Upper(a, special) + Upper(b, special)
  {
    if a == "" {
      assert a + b == b;
    } else {
      assert (a + b)[1..] == a[1..] + b;
      UpperAcross(a[1..], b, special);
    }
  }

  lemma CleanedAcross(a: string, c: string, b: string, special: char -> string)
    ensures Cleaned(a + c + b, special) == Cleaned(a, special) + Cleaned(c, special) + Cleaned(b, special)
  {
    StripAcross(a + c, b, Ignored);
    StripAcross(a, c, Ignored);
    UpperAcross(Strip(a, Ignored) + Strip(c, Ignored), Strip(b, Ignored), special);
    UpperAcross(Strip(a, Ignored), Strip(c, Ignored), special);
  }

  lemma IgnoredIsCleaned(c: char, special: char -> string)
    requires Ignored(c)
    ensures Cleaned([c], special) == ""
  {
    assert Strip([c], Ignored) == "";
  }

  /** Padding and white space anywhere decode to the same bytes, or to the same error. */
  lemma IgnoredAnywhere(a: string, c: char, b: string, special: char -> string)
    requires Ignored(c)
    ensures Decoded(a + [c] + b, special) == Decoded(a + b, special)
  {
    hide Cleaned, Strip, Upper, AllInAlphabet, LetterBits, Octets, Ignored;
    CleanedAcross(a, [c], b, special);
    IgnoredIsCleaned(c, special);
    CleanedTwo(a, b, special);
  }

  /** In particular a padding sign, a space, a tab or the end of a line. */
  lemma PaddingAnywhere(a: string, c: char, b: string, special: char -> string)
    requires c in "= \t\n\r"
    ensures Decoded(a + [c] + b, special) == Decoded(a + b, special)
  {
    hide Decoded;
    IgnoredAnywhere(a, c, b, special);
  }

  lemma CleanedTwo(a: string, b: string, special: char -> string)
    ensures Cleaned(a + b, special) == Cleaned(a, special) + "" + Cleaned(b, special)
  {
    StripAcross(a, b, Ignored);
    UpperAcross(Strip(a, Ignored), Strip(b, Ignored), special);
    assert Cleaned(a, special) + "" == Cleaned(a, special);
  }

  lemma AllAcross(a: string, b: string)
    ensures AllInAlphabet(a + b) <==> AllInAlphabet(a) && AllInAlphabet(b)
  {
    hide InAlphabet;
    forall c
      ensures c in a + b <==> c in a || c in b
    {
    }
  }

  lemma KeptIsUpper(a: string, c: char, b: string, special: char -> string)
    requires !Ignored(c)
    ensures Cleaned(a + [c] + b, special) == Cleaned(a, special) + UpperChar(c, special) + Cleaned(b, special)
  {
    hide Ignored, UpperChar;
    CleanedAcross(a, [c], b, special);
    assert [c][1..] == "";
    assert Strip([c], Ignored) == [c] + Strip("", Ignored) && Strip("", Ignored) == "";
    assert Upper([c], special) == UpperChar(c, special) + Upper("", special) && Upper("", special) == "";
  }

  /**
   * When decoding fails, exactly: any character that is not passed over fails it if and only if its upper
   * case leaves the alphabet, and changes nothing about whether the rest fails it.
   */
  lemma RefusedIff(a: string, c: char, b: string, special: char -> string)
    requires !Ignored(c)
    ensures Decoded(a + [c] + b, special).None? <==>
      !AllInAlphabet(UpperChar(c, special)) || Decoded(a + b, special).None?
  {
    hide Cleaned, AllInAlphabet, UpperChar, Ignored;
    KeptIsUpper(a, c, b, special);
    CleanedTwo(a, b, special);
    var x, y, z := Cleaned(a, special), UpperChar(c, special), Cleaned(b, special);
    AllAcross(x + y, z);
    AllAcross(x, y);
    AllAcross(x + "", z);
    AllAcross(x, "");
    NothingIsForeign();
  }

  lemma NothingIsForeign()
    ensures AllInAlphabet("")
  {
  }

  /** A character whose upper case stays in the alphabet decodes as that upper case, whatever its own code is. */
  lemma FoldsAnywhere(a: string, c: char, b: string, special: char -> string)
    requires !Ignored(c) && AllInAlphabet(UpperChar(c, special))
    ensures Decoded(a + [c] + b, special) == Decoded(a + UpperChar(c, special) + b, special)
  {
    hide AllInAlphabet, UpperChar, Ignored;
    KeptIsUpper(a, c, b, special);
    CleanedAcross(a, UpperChar(c, special), b, special);
    CleanAlready(UpperChar(c, special), special);
  }

  /** So a letter in lower case decodes as its upper case. */
  lemma LowerCaseAnywhere(a: string, c: char, b: string, special: char -> string)
    requires 'a' <= c <= 'z'
    ensures Decoded(a + [c] + b, special) == Decoded(a + [(c as int - 32) as char] + b, special)
  {
    assert UpperChar(c, special) == [(c as int - 32) as char];
    FoldsAnywhere(a, c, b, special);
  }

  /** Any other ASCII character is an error, wherever it stands. */
  lemma ForeignIsRefused(a: string, c: char, b: string, special: char -> string)
    requires c as int < 128 && !Ignored(c) && !InAlphabet(c) && !('a' <= c <= 'z')
    ensures Decoded(a + [c] + b, special) == None
  {
    assert c in UpperChar(c, special);
    RefusedIff(a, c, b, special);
  }

  const SHARP_S := '\U{00DF}'

  /** Beyond ASCII "outside the alphabet" is no error by itself: the sharp s is accepted, as two letters. */
  lemma SharpSIsAccepted(a: string, b: string, special: char -> string)
    requires special(SHARP_S) == "SS"
    ensures !InAlphabet(SHARP_S) && !Ignored(SHARP_S)
    ensures Decoded(a + [SHARP_S] + b, special) == Decoded(a + "SS" + b, special)
    ensures Decoded([SHARP_S], special).Some?
  {
    assert UpperChar(SHARP_S, special) == "SS";
    FoldsAnywhere(a, SHARP_S, b, special);
    RefusedIff("", SHARP_S, "", special);
    assert "" + [SHARP_S] + "" == [SHARP_S];
    assert Decoded("" + "", special).Some?;
  }
}
