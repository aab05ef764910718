/**
 * The argument checkers: one in the control plane before signing, one in the agent
 * before acting, written independently over a catalogue one generates for the other.
 * Values are well-formed text, so a value's length in bytes is that of its UTF-8.
 */
module Arguments {
  import opened Wrappers
  import opened Bytes
  import opened Sequences
  import opened Utf

  datatype GoType = GoString | GoInt64 | GoBool

  /** A pattern, as its source and the strings it matches in either engine. */
  datatype Pattern = Pattern(source: string, matches: string -> bool)

  /** One kind as the catalogue declares it; an absent field is None. */
  datatype Kind = Kind(
    goType: GoType, pattern: Option<Pattern>, maxBytes: Option<nat>, min: Option<int>, max: Option<int>,
    oneOf: Option<seq<string>>, validator: Option<string>)

  /** One kind as generated for the agent; an absent field is the zero value. */
  datatype AgentKind = AgentKind(
    goType: GoType, pattern: Option<Pattern>, maxBytes: nat, min: int, max: int, bounded: bool,
    oneOf: seq<string>, validator: string)

  datatype Spec = Spec(name: string, kind: string)

  datatype Operation = Operation(name: string, args: seq<Spec>)

  /** The generator's rendering of a kind. An empty pattern source renders as none. */
  function Generated(k: Kind): AgentKind {
    AgentKind(
      k.goType,
      if k.pattern.Some? && k.pattern.value.source != "" then k.pattern else None,
      if k.maxBytes.Some? then k.maxBytes.value else 0,
      if k.min.Some? then k.min.value else 0,
      if k.max.Some? then k.max.value else 0,
      k.min.Some? || k.max.Some?,
      if k.oneOf.Some? then k.oneOf.value else [],
      if k.validator.Some? then k.validator.value else "")
  }

  /** A decimal numeral in its one canonical spelling. */
  predicate IsNumeral(text: string) {
    Canonical(Codes(text))
  }

  function Number(text: string): nat
    requires IsNumeral(text)
  {
    Value(Codes(text))
  }

  // ----------------------------------------------------------- control plane

  const SAFE := 0x20_0000_0000_0000

  /** JavaScript's string-to-number conversion on numerals: exact up to 2^53, and
      never below it past there. */
  ghost predicate Converts(number: nat -> real) {
    && (forall n: nat {:trigger number(n)} :: n <= SAFE ==> number(n) == n as real)
    && (forall n: nat {:trigger number(n)} :: n >= SAFE ==> number(n) >= SAFE as real)
  }

  predicate PlaneAcceptsValue(k: Kind, number: nat -> real, value: string) {
    if k.maxBytes.Some? && |Utf8(value)| > k.maxBytes.value then false
    else if k.oneOf.Some? then value in k.oneOf.value
    else if k.pattern.Some? then k.pattern.value.matches(value)
    else if k.goType.GoInt64? then
      && IsNumeral(value)
      && (k.min.Some? ==> !(number(Number(value)) < k.min.value as real))
      && (k.max.Some? ==> !(number(Number(value)) > k.max.value as real))
    else if k.goType.GoBool? then value == "true" || value == "false"
    else k.validator.Some? && value != ""
  }

  ghost predicate Declared(specs: seq<Spec>, name: string) {
    exists i :: 0 <= i < |specs| && specs[i].name == name
  }

  /** assertArgumentsMatch does not throw: nothing unexpected, nothing missing. */
  ghost predicate PlaneAccepts(
    kinds: map<string, Kind>, number: nat -> real, op: Operation, args: map<string, string>)
    requires forall i :: 0 <= i < |op.args| ==> op.args[i].kind in kinds
  {
    && (forall name :: name in args ==> Declared(op.args, name))
    && (forall i :: 0 <= i < |op.args| ==>
          op.args[i].name in args
          && PlaneAcceptsValue(kinds[op.args[i].kind], number, args[op.args[i].name]))
  }

  // ------------------------------------------------------------------- agent

  const NUMBER_CEILING := 0x1_0000_0000

  predicate AgentAcceptsNumber(k: AgentKind, value: string) {
    && IsNumeral(value) && Number(value) <= NUMBER_CEILING
    && (k.bounded ==> k.min <= Number(value) <= k.max)
  }

  predicate AgentAcceptsString(k: AgentKind, value: string) {
    if k.oneOf != [] then value in k.oneOf
    else if k.pattern.Some? then k.pattern.value.matches(value)
    else k.validator != "" && value != ""
  }

  predicate AgentAcceptsValue(k: AgentKind, value: string) {
    && !(k.maxBytes > 0 && |Utf8(value)| > k.maxBytes)
    && match k.goType
       case GoString => AgentAcceptsString(k, value)
       case GoInt64 => AgentAcceptsNumber(k, value)
       case GoBool => value == "true" || value == "false"
  }

  predicate AgentAcceptsSpec(kinds: map<string, AgentKind>, spec: Spec, args: map<string, string>) {
    spec.name in args && spec.kind in kinds && AgentAcceptsValue(kinds[spec.kind], args[spec.name])
  }

  ghost predicate AgentAccepts(kinds: map<string, AgentKind>, op: Operation, args: map<string, string>) {
    && (forall name :: name in args ==> Declared(op.args, name))
    && (forall i :: 0 <= i < |op.args| ==> AgentAcceptsSpec(kinds, op.args[i], args))
  }

  /** Digit by digit in an int64, bailing out above 2^32 before the next digit could overflow it. */
  method ValidateNumber(k: AgentKind, value: string) returns (ok: bool)
    ensures ok <==> AgentAcceptsNumber(k, value)
  {
    if value == "" {
      return false;
    }
    ghost var codes := Codes(value);
    var parsed: int64 := 0;
    var index := 0;
    hide Value, Utf8;
    Nothing(codes);
    while index < |value|
      invariant index <= |value| == |codes|
      invariant AllDigits(codes[..index])
      invariant parsed as int == Value(codes[..index]) && 0 <= parsed <= NUMBER_CEILING as int64
      invariant index > 0 && codes[0] == 48 ==> |value| == 1
    {
      var digit := value[index];
      if digit < '0' || digit > '9' {
        assert !IsDigit(codes[index]);
        return false;
      }
      if index == 0 && digit == '0' && |Utf8(value)| > 1 {
        LongerThanOne(value);
        return false;
      }
      if index == 0 && digit == '0' {
        LongerThanOne(value);
      }
      OneDigitMore(codes, index);
      parsed := parsed * 10 + (digit as int - '0' as int) as int64;
      if parsed > NUMBER_CEILING as int64 {
        TooLarge(codes, index + 1);
        return false;
      }
      index := index + 1;
    }
    assert codes[..index] == codes;
    ok := !(k.bounded && (parsed as int < k.min || parsed as int > k.max));
  }

  lemma Nothing(codes: seq<int>)
    ensures AllDigits(codes[..0]) && Value(codes[..0]) == 0
  {
  }

  lemma OneDigitMore(codes: seq<int>, n: nat)
    requires n < |codes| && AllDigits(codes[..n]) && IsDigit(codes[n])
    ensures AllDigits(codes[..n + 1]) && Value(codes[..n + 1]) == Value(codes[..n]) * 10 + (codes[n] - 48)
  {
    SnocTake(codes, n);
    assert codes[..n + 1][..n] == codes[..n];
  }

  lemma {:induction false} TooLarge(codes: seq<int>, n: nat)
    requires n <= |codes| && AllDigits(codes[..n]) && Value(codes[..n]) > NUMBER_CEILING
    ensures AllDigits(codes) ==> Value(codes) > NUMBER_CEILING
  {
    if AllDigits(codes) {
      ValueGrows(codes, n);
    }
  }

  /** An ASCII first character followed by anything takes more than one byte. */
  lemma {:induction false} LongerThanOne(value: string)
    requires value != "" && value[0] == '0'
    ensures |Utf8(value)| > 1 <==> |value| > 1
  {
    if |value| > 1 {
      assert |EncodeScalar(value[1])| >= 1;
      assert Utf8(value[1..]) == EncodeScalar(value[1]) + Utf8(value[1..][1..]);
    } else {
      assert value[1..] == "";
    }
  }

  method ValidateValue(k: AgentKind, value: string) returns (ok: bool)
    ensures ok <==> AgentAcceptsValue(k, value)
  {
    if k.maxBytes > 0 && |Utf8(value)| > k.maxBytes {
      return false;
    }
    match k.goType {
      case GoString => ok := AgentAcceptsString(k, value);
      case GoInt64 => ok := ValidateNumber(k, value);
      case GoBool => ok := value == "true" || value == "false";
    }
  }

  lemma {:induction false} DeclaredSnoc(specs: seq<Spec>, n: nat, name: string)
    requires n < |specs|
    ensures Declared(specs[..n + 1], name) <==> Declared(specs[..n], name) || specs[n].name == name
  {
    if specs[n].name == name {
      assert specs[..n + 1][n].name == name;
    }
    if Declared(specs[..n], name) {
      var i :| 0 <= i < n && specs[..n][i].name == name;
      assert specs[..n + 1][i].name == name;
    }
  }

  /** The declared arguments by name. */
  method Expected(specs: seq<Spec>) returns (expected: map<string, Spec>)
    ensures forall name :: name in expected <==> Declared(specs, name)
  {
    expected := map[];
    var i := 0;
    while i < |specs|
      invariant i <= |specs|
      invariant forall name :: name in expected <==> Declared(specs[..i], name)
    {
      hide Declared;
      forall name
        ensures Declared(specs[..i + 1], name) <==> Declared(specs[..i], name) || specs[i].name == name
      {
        DeclaredSnoc(specs, i, name);
      }
      expected := expected[specs[i].name := specs[i]];
      i := i + 1;
    }
    assert specs[..i] == specs;
  }

  method NothingUnexpected(expected: map<string, Spec>, args: map<string, string>) returns (ok: bool)
    ensures ok <==> args.Keys <= expected.Keys
  {
    var pending := args.Keys;
    while pending != {}
      invariant pending <= args.Keys && args.Keys <= expected.Keys + pending
      decreases |pending|
    {
      var name :| name in pending;
      pending := pending - {name};
      if name !in expected {
        return false;
      }
    }
    ok := true;
  }

  /** Unexpected names first, then every declared argument; counts what it checked. */
  method Validate(kinds: map<string, AgentKind>, op: Operation, args: map<string, string>)
    returns (checked: nat, ok: bool)
    ensures ok <==> AgentAccepts(kinds, op, args)
    ensures ok ==> checked == |op.args|
    ensures checked <= |op.args|
    ensures forall i :: 0 <= i < checked ==> AgentAcceptsSpec(kinds, op.args[i], args)
    ensures !ok && checked > 0 ==> checked < |op.args| && !AgentAcceptsSpec(kinds, op.args[checked], args)
  {
    hide AgentAcceptsValue, Declared;
    checked := 0;
    var expected := Expected(op.args);
    var known := NothingUnexpected(expected, args);
    if !known {
      return 0, false;
    }
    while checked < |op.args|
      invariant checked <= |op.args|
      invariant forall j :: 0 <= j < checked ==> AgentAcceptsSpec(kinds, op.args[j], args)
    {
      var spec := op.args[checked];
      if spec.name !in args || spec.kind !in kinds {
        return checked, false;
      }
      var good := ValidateValue(kinds[spec.kind], args[spec.name]);
      if !good {
        return checked, false;
      }
      checked := checked + 1;
    }
    ok := true;
  }

  // ----------------------------------------------------------------- results

  /** A declaration whose zero values cannot be mistaken for absent fields and whose
      fields suit its Go type. */
  predicate WellFormed(k: Kind) {
    && (k.maxBytes.Some? ==> k.maxBytes.value > 0)
    && (k.pattern.Some? ==> k.pattern.value.source != "" && k.goType.GoString?)
    && (k.oneOf.Some? ==> k.oneOf.value != [] && k.goType.GoString?)
    && (k.validator.Some? ==> k.validator.value != "")
    && (k.min.Some? ==> -SAFE < k.min.value < SAFE)
    && (k.max.Some? ==> -SAFE < k.max.value < SAFE)
  }

  /** The largest number a kind's upper bound and length limit leave, if either sets one. */
  function Largest(k: Kind): Option<int> {
    var longest := if k.maxBytes.Some? then Some(Pow10(k.maxBytes.value) - 1) else None;
    if k.max.None? then longest
    else if longest.None? || k.max.value <= longest.value then k.max
    else longest
  }

  /**
   * A number kind the agent cuts nothing from. Its ceiling, 2^32, must not cut into the range,
   * nor must an absent upper bound, generated as zero beside a lower one; or the range
   * is empty to begin with.
   */
  predicate InReach(k: Kind) {
    && Largest(k).Some?
    && (|| (Largest(k).value <= 0x1_0000_0000 && (k.max.Some? || k.min.None?))
        || (k.min.Some? && Largest(k).value < k.min.value))
  }

  ghost predicate ValuesAgree(k: Kind, number: nat -> real) {
    forall value :: PlaneAcceptsValue(k, number, value) <==> AgentAcceptsValue(Generated(k), value)
  }

  lemma {:induction false} NumeralOf(n: nat) returns (text: string)
    ensures IsNumeral(text) && Number(text) == n && |Utf8(text)| == |text|
  {
    DigitsDenote(n);
    var digits := Digits(n);
    text := seq(|digits|, i requires 0 <= i < |digits| => digits[i] as char);
    assert Codes(text) == digits;
    AsciiLength(text);
  }

  lemma {:induction false} AsciiLength(text: string)
    requires Ascii(text)
    ensures |Utf8(text)| == |text|
  {
    if text != [] {
      AsciiLength(text[1..]);
    }
  }

  /** How long a numeral is says how large it is. */
  lemma {:induction false} NumeralFits(value: string, width: nat)
    requires IsNumeral(value) && width >= 1
    ensures |Utf8(value)| <= width <==> Number(value) < Pow10(width)
  {
    CanonicalIsUnique(Codes(value));
    DigitsWithin(Number(value), width);
    forall i | 0 <= i < |value|
      ensures value[i] as int < 0x80
    {
      assert IsDigit(Codes(value)[i]);
    }
    AsciiLength(value);
  }

  /** What the control plane accepts of a number kind, by magnitude alone. */
  lemma {:induction false} PlaneNumbers(k: Kind, number: nat -> real, value: string)
    requires WellFormed(k) && k.goType.GoInt64? && Converts(number)
    ensures PlaneAcceptsValue(k, number, value) <==>
      && IsNumeral(value)
      && (k.min.Some? ==> k.min.value <= Number(value))
      && (Largest(k).Some? ==> Number(value) <= Largest(k).value)
  {
    hide Pow10;
    if IsNumeral(value) {
      var n := Number(value);
      assert n <= SAFE ==> number(n) == n as real;
      assert n >= SAFE ==> number(n) >= SAFE as real;
      if k.maxBytes.Some? {
        NumeralFits(value, k.maxBytes.value);
      }
    }
  }

  /** What the agent accepts of it: the ceiling, and an absent bound beside a present one as zero. */
  lemma {:induction false} AgentNumbers(k: Kind, value: string)
    requires WellFormed(k) && k.goType.GoInt64?
    ensures AgentAcceptsValue(Generated(k), value) <==>
      && IsNumeral(value) && Number(value) <= 0x1_0000_0000
      && (k.maxBytes.Some? ==> Number(value) < Pow10(k.maxBytes.value))
      && (k.min.Some? ==> k.min.value <= Number(value))
      && (k.max.Some? ==> Number(value) <= k.max.value)
      && (k.min.Some? && k.max.None? ==> Number(value) == 0)
  {
    hide Pow10;
    if IsNumeral(value) && k.maxBytes.Some? {
      NumeralFits(value, k.maxBytes.value);
    }
  }

  lemma {:induction false} NumbersAgree(k: Kind, number: nat -> real, value: string)
    requires WellFormed(k) && k.goType.GoInt64? && InReach(k) && Converts(number)
    ensures PlaneAcceptsValue(k, number, value) <==> AgentAcceptsValue(Generated(k), value)
  {
    hide PlaneAcceptsValue, AgentAcceptsValue, Pow10, IsNumeral, Number, WellFormed, Converts;
    PlaneNumbers(k, number, value);
    AgentNumbers(k, value);
  }

  /** A number the control plane accepts and the agent refuses, when the kind is out of reach. */
  lemma {:induction false} OutOfReach(k: Kind, number: nat -> real) returns (value: string)
    requires WellFormed(k) && k.goType.GoInt64? && !InReach(k) && Converts(number)
    ensures PlaneAcceptsValue(k, number, value) && !AgentAcceptsValue(Generated(k), value)
  {
    hide PlaneAcceptsValue, AgentAcceptsValue, Pow10, IsNumeral, Number, Converts;
    var least := if k.min.Some? && k.min.value > 0 then k.min.value else 0;
    var n: nat :=
      if k.min.Some? && k.max.None? then (if least > 0 then least else 1)
      else if least > 0x1_0000_0000 then least
      else 0x1_0000_0001;
    LongestIsPositive(k);
    value := NumeralOf(n);
    PlaneNumbers(k, number, value);
    AgentNumbers(k, value);
  }

  lemma {:induction false} LongestIsPositive(k: Kind)
    requires WellFormed(k)
    ensures k.maxBytes.Some? ==> Pow10(k.maxBytes.value) >= 10
  {
    if k.maxBytes.Some? {
      assert Pow10(k.maxBytes.value) == 10 * Pow10(k.maxBytes.value - 1);
    }
  }

  /**
   * Every well-formed kind, exactly: the checkers accept the same values of it if and
   * only if it is no number kind or is one within the agent's reach.
   */
  lemma {:induction false} KindsAgreeIff(k: Kind, number: nat -> real)
    requires WellFormed(k) && Converts(number)
    ensures ValuesAgree(k, number) <==> (k.goType.GoInt64? ==> InReach(k))
  {
    if k.goType.GoInt64? && !InReach(k) {
      var value := OutOfReach(k, number);
    } else {
      forall value
        ensures PlaneAcceptsValue(k, number, value) <==> AgentAcceptsValue(Generated(k), value)
      {
        if k.goType.GoInt64? {
          NumbersAgree(k, number, value);
        }
      }
    }
  }

  /** Without that well-formedness they need not: a pattern with an empty source is rendered as none, and the agent
      refuses what is then constrained by nothing. */
  lemma EmptyPatternIsRefused(k: Kind, number: nat -> real, value: string)
    requires k.goType.GoString? && k.pattern.Some? && k.pattern.value.source == "" && k.pattern.value.matches(value)
    requires k.maxBytes.None? && k.oneOf.None? && k.validator.None?
    ensures PlaneAcceptsValue(k, number, value) && !AgentAcceptsValue(Generated(k), value)
  {
  }

  /** Lifted to whole instructions: the control plane signs exactly what the agent
      will not refuse for its arguments. */
  lemma {:induction false} CheckersAgree(
    kinds: map<string, Kind>, agentKinds: map<string, AgentKind>, number: nat -> real, op: Operation,
    args: map<string, string>)
    requires Converts(number)
    requires forall i :: 0 <= i < |op.args| ==>
               && op.args[i].kind in kinds && op.args[i].kind in agentKinds
               && agentKinds[op.args[i].kind] == Generated(kinds[op.args[i].kind])
               && WellFormed(kinds[op.args[i].kind])
               && (kinds[op.args[i].kind].goType.GoInt64? ==> InReach(kinds[op.args[i].kind]))
    ensures PlaneAccepts(kinds, number, op, args) <==> AgentAccepts(agentKinds, op, args)
  {
    forall i | 0 <= i < |op.args| && op.args[i].name in args
      ensures PlaneAcceptsValue(kinds[op.args[i].kind], number, args[op.args[i].name])
         <==> AgentAcceptsValue(agentKinds[op.args[i].kind], args[op.args[i].name])
    {
      KindsAgreeIff(kinds[op.args[i].kind], number);
    }
  }
}
