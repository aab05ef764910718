/** One-time codes: RFC 4226 section 5.3, RFC 6238 sections 4.2 and 5.2, and how recovery codes are written. */
module Totp {
  import opened Wrappers
  import opened Base32Spec
  import Base32
  import Bytes

  /** Why no counter can be computed. */
  datatype Fault = PeriodTooShort

  // --------------------------------------------------------------- the counter

  /** Whole periods since the epoch, rounded down before it too. */
  function StepAt(atMs: int, periodSeconds: int): (step: int)
    requires periodSeconds >= 1
    ensures step * (1000 * periodSeconds) <= atMs < (step + 1) * (1000 * periodSeconds)
  {
    var period := 1000 * periodSeconds;
    assert (atMs / period) * period == atMs - atMs % period;
    atMs / period
  }

  lemma {:induction false} StepsFollowTheClock(earlier: int, later: int, periodSeconds: int)
    requires periodSeconds >= 1 && earlier <= later
    ensures StepAt(earlier, periodSeconds) <= StepAt(later, periodSeconds)
  {
    var period, a, b := 1000 * periodSeconds, StepAt(earlier, periodSeconds), StepAt(later, periodSeconds);
    var gap := a - (b + 1);
    assert gap >= 0 ==> gap * period >= 0;
    assert a * period - (b + 1) * period == gap * period;
  }

  // -------------------------------------------------------------- the code

  /** The number four bytes make, the first one highest. */
  function FourBytes(b: seq<Octet>): (v: int)
    requires |b| == 4
    ensures 0 <= v < 0x1_0000_0000
  {
    var first: int, second: int, third: int := b[0], b[1], b[2];
    first * 0x100_0000 + second * 0x1_0000 + third * 0x100 + b[3]
  }

  function Offset(digest: seq<Octet>): int
    requires |digest| >= 20
  {
    digest[|digest| - 1] % 16
  }

  /** The 31 low bits of the four bytes the digest's last nibble points at. */
  function Truncated(digest: seq<Octet>): (v: int)
    requires |digest| >= 20
    ensures 0 <= v < 0x8000_0000
  {
    FourBytes(digest[Offset(digest)..Offset(digest) + 4]) % 0x8000_0000
  }

  function PadStart(numeral: Bytes.Bytes, width: nat): Bytes.Bytes
    decreases if |numeral| < width then width - |numeral| else 0
  {
    if |numeral| >= width then numeral else PadStart([Bytes.ZERO] + numeral, width)
  }

  /** The code a digest truncates to, as the character codes of its digits. */
  function CodeOf(digest: seq<Octet>, digits: nat): Bytes.Bytes
    requires |digest| >= 20
  {
    PadStart(Bytes.Digits(Truncated(digest) % Bytes.Pow10(digits)), digits)
  }

  /** The four bytes combined with shifts and ors, the sign bit masked off first. */
  method TotpCode(digest: seq<Octet>, digits: nat) returns (code: Bytes.Bytes)
    requires |digest| >= 20
    ensures code == CodeOf(digest, digits)
  {
    hide Base32.ToInt32, Pow2, Bytes.Digits, PadStart, Bytes.Pow10;
    var offset := digest[|digest| - 1] % 16;
    var first, second, third, fourth :=
      digest[offset] % 0x80, digest[offset + 1], digest[offset + 2], digest[offset + 3];
    Shifts(first, second, third);
    var truncated := Base32.ShiftLeft(first, 24) + Base32.ShiftLeft(second, 16)
      + Base32.ShiftLeft(third, 8) + fourth;
    ghost var window := digest[offset..offset + 4];
    assert FourBytes(window) == (digest[offset] / 0x80) * 0x8000_0000 + truncated;
    RemainderIs(FourBytes(window), 0x8000_0000, digest[offset] / 0x80, truncated);
    code := PadStart(Bytes.Digits(truncated % Bytes.Pow10(digits)), digits);
  }

  /** None of the three shifts reaches the sign bit, so the ors meet no bits in common. */
  lemma {:induction false} Shifts(first: int, second: int, third: int)
    requires 0 <= first < 0x80 && 0 <= second < 0x100 && 0 <= third < 0x100
    ensures Base32.ShiftLeft(first, 24) == first * 0x100_0000
    ensures Base32.ShiftLeft(second, 16) == second * 0x1_0000
    ensures Base32.ShiftLeft(third, 8) == third * 0x100
  {
    hide Pow2;
    Base32.Pow2Of32();
    Base32.Pow2Sum(8, 8);
    Base32.Pow2Sum(8, 16);
  }

  /** Section 5.4 of RFC 4226: from the byte the last nibble points at, four bytes, without the first one's top bit. */
  lemma TruncatedMeans(digest: seq<Octet>)
    requires |digest| >= 20
    ensures var o := digest[|digest| - 1] % 16;
            Truncated(digest) == (digest[o] as int % 128) * 16777216
                                 + digest[o + 1] as int * 65536 + digest[o + 2] as int * 256 + digest[o + 3] as int
  {
    var o := digest[|digest| - 1] % 16;
    var first: int := digest[o];
    var low := (first % 128) * 16777216 + digest[o + 1] as int * 65536 + digest[o + 2] as int * 256
               + digest[o + 3] as int;
    assert FourBytes(digest[o..o + 4]) == (first / 128) * 2147483648 + low;
    RemainderIs(FourBytes(digest[o..o + 4]), 0x8000_0000, first / 128, low);
  }

  /** The digest worked through there. */
  lemma {:induction false} Rfc4226Example()
    ensures var digest := [0x1f, 0x86, 0x98, 0x69, 0x0e, 0x02, 0xca, 0x16, 0x61, 0x85,
                           0x50, 0xef, 0x7f, 0x19, 0xda, 0x8e, 0x94, 0x5b, 0x55, 0x5a];
            Truncated(digest) == 0x50ef7f19 && CodeOf(digest, 6) == Bytes.Codes("872921")
  {
    hide Truncated, CodeOf;
    var digest := [0x1f, 0x86, 0x98, 0x69, 0x0e, 0x02, 0xca, 0x16, 0x61, 0x85,
                   0x50, 0xef, 0x7f, 0x19, 0xda, 0x8e, 0x94, 0x5b, 0x55, 0x5a];
    TruncatedMeans(digest);
    SixDigits(digest);
  }

  lemma SixDigits(digest: seq<Octet>)
    requires |digest| >= 20 && Truncated(digest) == 0x50ef7f19
    ensures CodeOf(digest, 6) == Bytes.Codes("872921")
  {
    hide Truncated, PadStart;
    assert Bytes.Pow10(6) == 1_000_000;
    SpellsOut();
    PadsNothing(Bytes.Digits(872921), 6);
  }

  lemma SpellsOut()
    ensures Bytes.Digits(872921) == Bytes.Codes("872921") && |Bytes.Digits(872921)| == 6
  {
    assert Bytes.Digits(872) == [56, 55, 50];
    assert Bytes.Digits(872921) == Bytes.Digits(872) + [57] + [50] + [49];
  }

  lemma PadsNothing(numeral: Bytes.Bytes, width: nat)
    requires |numeral| >= width
    ensures PadStart(numeral, width) == numeral
  {
  }

  lemma {:induction false} PadKeepsValue(numeral: Bytes.Bytes, width: nat)
    requires Bytes.AllDigits(numeral)
    ensures Bytes.AllDigits(PadStart(numeral, width))
    ensures Bytes.Value(PadStart(numeral, width)) == Bytes.Value(numeral)
    ensures |PadStart(numeral, width)| == if |numeral| < width then width else |numeral|
    decreases if |numeral| < width then width - |numeral| else 0
  {
    if |numeral| < width {
      LeadingZero(numeral);
      PadKeepsValue([Bytes.ZERO] + numeral, width);
    }
  }

  lemma {:induction false} LeadingZero(numeral: Bytes.Bytes)
    requires Bytes.AllDigits(numeral)
    ensures Bytes.AllDigits([Bytes.ZERO] + numeral)
    ensures Bytes.Value([Bytes.ZERO] + numeral) == Bytes.Value(numeral)
  {
    var padded := [Bytes.ZERO] + numeral;
    if numeral == [] {
      assert padded[..0] == [];
    } else {
      var front := numeral[..|numeral| - 1];
      assert padded[..|padded| - 1] == [Bytes.ZERO] + front;
      LeadingZero(front);
    }
  }

  /** A code has exactly the digits asked for, and they spell the truncation modulo the power of ten. */
  lemma {:induction false} CodeIsDigits(digest: seq<Octet>, digits: nat)
    requires |digest| >= 20 && digits >= 1
    ensures |CodeOf(digest, digits)| == digits && Bytes.AllDigits(CodeOf(digest, digits))
    ensures Bytes.Value(CodeOf(digest, digits)) == Truncated(digest) % Bytes.Pow10(digits)
  {
    var n := Truncated(digest) % Bytes.Pow10(digits);
    Bytes.DigitsDenote(n);
    Bytes.DigitsWithin(n, digits);
    PadKeepsValue(Bytes.Digits(n), digits);
  }

  // --------------------------------------------------------- judging a code

  /** How a shared secret answers a counter: its HMAC, at least 20 bytes for every algorithm in use. */
  type Mac = f: int -> seq<Octet> | forall step :: |f(step)| >= 20
    witness _ => seq(20, _ => 0)

  /** The counter is accepted for this code within the window. */
  predicate Matches(mac: Mac, code: seq<int>, digits: nat, centre: int, window: int, step: int) {
    centre - window <= step <= centre + window && 0 <= step && CodeOf(mac(step), digits) == code
  }

  /** Codes are compared with spaces and dashes taken out of what was typed. */
  predicate Separator(c: char) {
    Space(c) || c == '-'
  }

  function NormaliseCode(presented: string): seq<int> {
    Bytes.Codes(Strip(presented, Separator))
  }

  /** The least counter in the window that the code comes from, and None exactly when there is none. */
  method VerifyTotp(mac: Mac, presented: string, digits: nat, periodSeconds: int, atMs: int, window: int)
    returns (matched: Result<Option<int>, Fault>)
    ensures matched.Err? <==> periodSeconds < 1
    ensures matched.Ok? && matched.value.Some? ==>
      var code, centre := NormaliseCode(presented), StepAt(atMs, periodSeconds);
      && Matches(mac, code, digits, centre, window, matched.value.value)
      && forall step :: step < matched.value.value ==> !Matches(mac, code, digits, centre, window, step)
    ensures matched.Ok? && matched.value.None? ==>
      forall step :: !Matches(mac, NormaliseCode(presented), digits, StepAt(atMs, periodSeconds), window, step)
  {
    hide Matches, CodeOf, NormaliseCode, StepAt;
    var code := NormaliseCode(presented);
    if periodSeconds < 1 {
      return Err(PeriodTooShort);
    }
    var centre := StepAt(atMs, periodSeconds);
    var found: Option<int> := None;
    NothingBeyond(mac, code, digits, centre, window);
    var offset := -window;
    while offset <= window
      invariant -window <= offset
      invariant window >= 0 ==> offset <= window + 1
      invariant found.None? ==>
        forall step :: step < centre + offset ==> !Matches(mac, code, digits, centre, window, step)
      invariant found.Some? ==>
        && Matches(mac, code, digits, centre, window, found.value)
        && forall step :: step < found.value ==> !Matches(mac, code, digits, centre, window, step)
    {
      var step := centre + offset;
      MatchesWithin(mac, code, digits, centre, window, step);
      if step >= 0 {
        var expected := TotpCode(mac(step), digits);
        if expected == code && found.None? {
          found := Some(step);
        }
      }
      offset := offset + 1;
    }
    matched := Ok(found);
  }

  lemma MatchesWithin(mac: Mac, code: seq<int>, digits: nat, centre: int, window: int, step: int)
    ensures centre - window <= step <= centre + window ==>
      (Matches(mac, code, digits, centre, window, step) <==> step >= 0 && CodeOf(mac(step), digits) == code)
  {
  }

  lemma NothingBeyond(mac: Mac, code: seq<int>, digits: nat, centre: int, window: int)
    ensures forall step :: Matches(mac, code, digits, centre, window, step) ==>
      centre - window <= step <= centre + window
  {
  }

  // ----------------------------------------------------------- recovery codes

  const GROUP := 4

  function Grouped(code: string): string {
    if |code| <= GROUP then code else code[..GROUP] + "-" + Grouped(code[GROUP..])
  }

  function NormaliseRecoveryCode(code: string, special: char -> string): string {
    Upper(Strip(code, Separator), special)
  }

  lemma {:induction false} StripGrouped(code: string)
    requires AllInAlphabet(code)
    ensures Strip(Grouped(code), Separator) == code
    decreases |code|
  {
    if |code| <= GROUP {
      NoSeparators(code);
    } else {
      var front, rest := code[..GROUP], code[GROUP..];
      assert AllInAlphabet(front) && AllInAlphabet(rest) by {
        assert forall c <- front :: c in code;
        assert forall c <- rest :: c in code;
      }
      NoSeparators(front);
      StripGrouped(rest);
      Base32.StripAcross(front + "-", Grouped(rest), Separator);
      Base32.StripAcross(front, "-", Separator);
      assert Strip("-", Separator) == "";
      assert front + "" + rest == code;
    }
  }

  lemma {:induction false} NothingToStrip(text: string)
    requires forall c <- text :: !Separator(c)
    ensures Strip(text, Separator) == text
  {
    if text != "" {
      assert text[0] in text && forall c <- text[1..] :: c in text;
      NothingToStrip(text[1..]);
    }
  }

  /** A space or a dash anywhere in what was typed makes no difference. */
  lemma SeparatorAnywhere(front: string, c: char, back: string, special: char -> string)
    requires c == ' ' || c == '-'
    ensures NormaliseCode(front + [c] + back) == NormaliseCode(front + back)
    ensures NormaliseRecoveryCode(front + [c] + back, special) == NormaliseRecoveryCode(front + back, special)
  {
    Base32.StripAcross(front + [c], back, Separator);
    Base32.StripAcross(front, [c], Separator);
    Base32.StripAcross(front, back, Separator);
    assert Strip([c], Separator) == "";
    assert Strip(front + [c] + back, Separator) == Strip(front + back, Separator);
  }

  /** Groups of four. */
  lemma {:induction false} GroupsOfFour(a: string, b: string, c: string)
    requires |a| == 4 && |b| == 4 && 1 <= |c| <= 4
    ensures Grouped(a + b + c) == a + "-" + b + "-" + c
  {
    assert (a + b + c)[..4] == a && (a + b + c)[4..] == b + c;
    assert (b + c)[..4] == b && (b + c)[4..] == c;
    assert Grouped(b + c) == b + "-" + c;
    assert a + "-" + (b + "-" + c) == a + "-" + b + "-" + c;
  }

  lemma NoSeparators(text: string)
    requires AllInAlphabet(text)
    ensures Strip(text, Separator) == text
  {
    NothingToStrip(text);
  }

  /** A minted code hashes the same with its dashes as without, and its bytes can be read back from it. */
  lemma PrintedCodeNormalises(bytes: seq<Octet>, special: char -> string)
    ensures NormaliseRecoveryCode(Grouped(Encoded(bytes)), special) == Encoded(bytes)
    ensures NormaliseRecoveryCode(Encoded(bytes), special) == Encoded(bytes)
    ensures Decoded(NormaliseRecoveryCode(Grouped(Encoded(bytes)), special), special) == Some(bytes)
  {
    var pad := Base32.LettersSpell(BytesBits(bytes));
    StripGrouped(Encoded(bytes));
    NoSeparators(Encoded(bytes));
    Base32.CleanAlready(Encoded(bytes), special);
    Base32.RoundTrip(bytes, special);
  }
}
