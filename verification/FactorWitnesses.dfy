/** Runs from empty tables in which a code proves, or is spent on, another secret than the one it was judged by. */
module FactorWitnesses {
  import opened Wrappers
  import opened FactorSpec
  import opened FactorRequests
  import Bytes
  import Totp

  /** Every secret answers every counter with the same digest, so that every code is six zeros. */
  const ENV := Env(Constant, text => text, 1)

  function Constant(secret: Secret): Totp.Mac {
    _ => Zeros()
  }

  function Zeros(): (digest: seq<Bytes.byte>)
    ensures |digest| == 20 && forall k :: 0 <= k < 20 ==> digest[k] == 0
  {
    seq(20, _ => 0)
  }

  const OLD := Secret("old", 6, 30)
  const NEXT := Secret("next", 6, 30)
  const CODE := "000000"

  lemma PadZeros()
    ensures Totp.PadStart([48], 6) == [48, 48, 48, 48, 48, 48]
  {
    assert [Bytes.ZERO] + [48] == [48, 48];
    assert [Bytes.ZERO] + [48, 48] == [48, 48, 48];
    assert [Bytes.ZERO] + [48, 48, 48] == [48, 48, 48, 48];
    assert [Bytes.ZERO] + [48, 48, 48, 48] == [48, 48, 48, 48, 48];
    assert [Bytes.ZERO] + [48, 48, 48, 48, 48] == [48, 48, 48, 48, 48, 48];
    assert Totp.PadStart([48, 48, 48, 48, 48, 48], 6) == [48, 48, 48, 48, 48, 48];
    assert Totp.PadStart([48, 48, 48, 48, 48], 6) == [48, 48, 48, 48, 48, 48];
    assert Totp.PadStart([48, 48, 48, 48], 6) == [48, 48, 48, 48, 48, 48];
    assert Totp.PadStart([48, 48, 48], 6) == [48, 48, 48, 48, 48, 48];
  }

  lemma CodeIsZeros()
    ensures Totp.CodeOf(Zeros(), 6) == [48, 48, 48, 48, 48, 48] == Totp.NormaliseCode(CODE)
  {
    hide Totp.PadStart, Bytes.Pow10;
    assert Totp.Truncated(Zeros()) == 0;
    assert Bytes.Digits(0) == [48];
    PadZeros();
    Totp.NothingToStrip(CODE);
  }

  /** The code comes from every step, so it is taken to come from the first in the window. */
  lemma JudgedFirst(secret: Secret, centre: int)
    requires secret.digits == 6 && secret.periodSeconds == 30 && centre >= 1
    ensures Judge(ENV, secret, CODE, centre * 30_000) == Some(centre - 1)
  {
    hide Totp.CodeOf, Totp.NormaliseCode;
    CodeIsZeros();
    assert Totp.StepAt(centre * 30_000, 30) == centre;
    assert LeastMatch(ENV, secret, CODE, centre * 30_000, centre - 1);
  }

  const USER: User := 1

  /** A secret asked for, read to be confirmed, replaced, and then confirmed. */
  const REPLACED: seq<Event> := [
    Single(StartEnrolment(Self(USER), OLD, 0, true)),
    ReadPending(0, Self(USER), CODE, 90_000, 0),
    Single(StartEnrolment(Self(USER), NEXT, 0, true)),
    Write(0, [], 0)]

  lemma AfterNext(run: seq<Event>, n: nat)
    requires n < |run|
    ensures After(ENV, run, n + 1) == Next(ENV, After(ENV, run, n), run[n])
  {
  }

  /** Asking for the first secret. */
  const ASKED := Requests(Factors(map[], map[USER := Enrolment(OLD, false, None)], map[]), map[], 1)

  lemma Asked(run: seq<Event>)
    requires |run| >= 1 && run[0] == Single(StartEnrolment(Self(USER), OLD, 0, true))
    ensures After(ENV, run, 1) == ASKED
  {
    AfterNext(run, 0);
    assert map[][USER := Enrolment(OLD, false, None)] == map[USER := Enrolment(OLD, false, None)];
  }

  /** From empty tables, a code of the old secret confirms the next one, which it never proved. */
  lemma UnprovedIsConfirmed()
    ensures var rows := After(ENV, REPLACED, 4).rows;
            && USER in rows.enrolments && rows.enrolments[USER] == Enrolment(NEXT, true, Some(2))
            && ConfirmedAt(ENV, REPLACED, 3, USER)
            && 0 in After(ENV, REPLACED, 3).readings && After(ENV, REPLACED, 3).readings[0].secret == OLD != NEXT
            && After(ENV, REPLACED, 3).readings[0].readAt == 1 && !Stands(ENV, REPLACED, USER, 1, 3)
  {
    hide After, Judge, FactorOf, Stands, WithCodes, WithoutCodes;
    JudgedFirst(OLD, 3);
    Asked(REPLACED);
    AfterNext(REPLACED, 1);
    AfterNext(REPLACED, 2);
    AfterNext(REPLACED, 3);
    ConfirmsAnotherSecret(ENV, ASKED, USER, NEXT, CODE, 90_000, [], 0);
    ConfirmsWhatWasJudgedIff(ENV, REPLACED, USER, 3);
  }

  const CHALLENGE: Digest := "challenge"

  /** A factor confirmed and a challenge issued; then, between reading and redeeming, another factor confirmed. */
  const SWITCHED: seq<Event> := [
    Single(StartEnrolment(Self(USER), OLD, 0, true)),
    ReadPending(0, Self(USER), CODE, 90_000, 0),
    Write(0, [], 0),
    Single(StartChallenge(USER, CHALLENGE, 10, 0, true)),
    ReadConfirmed(0, CHALLENGE, CODE, 3_000_000, 0),
    Single(StartEnrolment(Self(USER), NEXT, 0, true)),
    ReadPending(1, Self(USER), CODE, 90_000, 0),
    Write(1, [], 0),
    Write(0, [], 0)]

  const CHALLENGED := Requests(
    Factors(map[CHALLENGE := Challenge(USER, 10, false)], map[USER := Enrolment(OLD, true, Some(2))], map[]), map[], 4)

  lemma Challenged()
    ensures After(ENV, SWITCHED, 4) == CHALLENGED
  {
    hide After, Judge, FactorOf;
    JudgedFirst(OLD, 3);
    Asked(SWITCHED);
    AfterNext(SWITCHED, 1);
    AfterNext(SWITCHED, 2);
    AfterNext(SWITCHED, 3);
    var read := map[0 := Confirming(1, USER, OLD, Self(USER), CODE, 90_000)];
    assert After(ENV, SWITCHED, 2) == Requests(ASKED.rows, read, 2);
    assert read - {0} == map[];
    assert WithCodes(WithoutCodes(map[], USER), USER, []) == map[];
    assert After(ENV, SWITCHED, 3) == Requests(
      Factors(map[], map[USER := Enrolment(OLD, true, Some(2))], map[]), map[], 3);
  }

  /** From empty tables, a code of the old secret is accepted although the next one has been confirmed since. */
  lemma OldCodeIsAccepted()
    ensures var before, after := After(ENV, SWITCHED, 8).rows, After(ENV, SWITCHED, 9).rows;
            && USER in before.enrolments && before.enrolments[USER] == Enrolment(NEXT, true, Some(2))
            && USER in after.enrolments && after.enrolments[USER] == Enrolment(NEXT, true, Some(99))
            && !LiveChallenge(after, CHALLENGE, 0)
    ensures CodeAccepted(ENV, SWITCHED, 8, USER) && ReadingOf(ENV, SWITCHED, 8).secret == OLD != NEXT
  {
    hide After, Judge, FactorOf, WithCodes, WithoutCodes, CodesLeft, Next;
    JudgedFirst(OLD, 100);
    JudgedFirst(NEXT, 3);
    Challenged();
    AfterNext(SWITCHED, 4);
    AfterNext(SWITCHED, 5);
    AfterNext(SWITCHED, 6);
    AfterNext(SWITCHED, 7);
    AfterNext(SWITCHED, 8);
    RedeemsOnAnotherSecret(ENV, CHALLENGED, USER, CHALLENGE, NEXT, CODE, 3_000_000, CODE, 90_000, 0);
    OldCodeIsRead();
  }

  /** What the redemption had read, and what it makes of it. */
  lemma OldCodeIsRead()
    ensures CodeAccepted(ENV, SWITCHED, 8, USER) && ReadingOf(ENV, SWITCHED, 8).secret == OLD
  {
    hide After, Judge, CodesLeft, WithCodes, WithoutCodes;
    JudgedFirst(OLD, 100);
    JudgedFirst(NEXT, 3);
    Challenged();
    AfterNext(SWITCHED, 4);
    AfterNext(SWITCHED, 5);
    AfterNext(SWITCHED, 6);
    AfterNext(SWITCHED, 7);
  }
}
