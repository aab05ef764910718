/** The exact bytes an instruction signature covers, as the agent derives them, and
    the reader that shows no two instructions share them. */
module Canonical {
  import opened Wrappers
  import opened Bytes
  import opened Sorting
  import opened Listings
  import opened Sequences

  /** The wire form the agent parses; strings are byte strings, stamps int64. */
  datatype Envelope = Envelope(
    operation: Bytes, arguments: map<Bytes, Bytes>, nonce: Bytes, issuedAt: int, expiresAt: int,
    targetHostId: Bytes, signature: Bytes, keyId: Bytes)

  /** What the signature is about: everything but the signature and its key hint. */
  datatype Content = Content(
    operation: Bytes, targetHostId: Bytes, nonce: Bytes, issuedAt: int, expiresAt: int,
    arguments: map<Bytes, Bytes>)

  function ContentOf(e: Envelope): Content {
    Content(e.operation, e.targetHostId, e.nonce, e.issuedAt, e.expiresAt, e.arguments)
  }

  /** "ratline-instruction-v1" and the NUL that ends it. */
  const DOMAIN: Bytes :=
    [114, 97, 116, 108, 105, 110, 101, 45, 105, 110, 115, 116, 114, 117, 99, 116, 105, 111, 110, 45, 118, 49, 0]

  // ---------------------------------------------------------------- encoding

  const TWO_32 := 0x1_0000_0000
  const TWO_64 := 0x1_0000_0000_0000_0000

  /** The low `width` bytes of `n`, most significant first: a conversion that wraps. */
  function BigEndian(n: nat, width: nat): (b: Bytes)
    ensures |b| == width
  {
    if width == 0 then [] else BigEndian(n / 256, width - 1) + [n % 256]
  }

  function FromBigEndian(b: Bytes): nat {
    if b == [] then 0 else FromBigEndian(b[..|b| - 1]) * 256 + b[|b| - 1]
  }

  function Uint32(n: nat): Bytes {
    BigEndian(n, 4)
  }

  /** An int64 stamp converted to uint64, two's complement. */
  function Uint64(n: int): Bytes
    requires IsInt64(n)
  {
    BigEndian(if n < 0 then n + TWO_64 else n, 8)
  }

  function Field(value: Bytes): Bytes {
    Uint32(|value|) + value
  }

  function Pairs(arguments: map<Bytes, Bytes>, names: seq<Bytes>): Bytes
    requires forall i :: 0 <= i < |names| ==> names[i] in arguments
  {
    if names == [] then []
    else Field(names[0]) + Field(arguments[names[0]]) + Pairs(arguments, names[1..])
  }

  /** The layout, with the argument names in a given order. */
  function Layout(c: Content, names: seq<Bytes>): Bytes
    requires IsInt64(c.issuedAt) && IsInt64(c.expiresAt)
    requires forall i :: 0 <= i < |names| ==> names[i] in c.arguments
  {
    DOMAIN + (Field(c.operation) + (Field(c.targetHostId) + (Field(c.nonce) +
    (Uint64(c.issuedAt) + (Uint64(c.expiresAt) + (Uint32(|names|) + Pairs(c.arguments, names)))))))
  }

  /** sort.Strings. */
  function SortStrings(names: seq<Bytes>): seq<Bytes> {
    Sort((a: Bytes, b: Bytes) => Less(a, b), names)
  }

  ghost function SortedNames(arguments: map<Bytes, Bytes>): (names: seq<Bytes>)
  {
    SortStrings(ListOf(arguments.Keys))
  }

  /** The one legal encoding of an instruction. */
  ghost function CanonicalBytes(c: Content): Bytes
    requires IsInt64(c.issuedAt) && IsInt64(c.expiresAt)
  {
    SortedNamesList(c.arguments);
    Layout(c, SortedNames(c.arguments))
  }

  // ------------------------------------------------------------------ reading

  function ReadNumber(b: Bytes, width: nat): Option<(nat, Bytes)> {
    if |b| < width then None else Some((FromBigEndian(b[..width]), b[width..]))
  }

  function ReadStamp(b: Bytes): Option<(int, Bytes)> {
    match ReadNumber(b, 8)
    case None => None
    case Some((n, rest)) => Some((if n > INT64_MAX then n - TWO_64 else n, rest))
  }

  function ReadField(b: Bytes): Option<(Bytes, Bytes)> {
    match ReadNumber(b, 4)
    case None => None
    case Some((n, rest)) => if |rest| < n then None else Some((rest[..n], rest[n..]))
  }

  function ReadPairs(count: nat, b: Bytes): Option<map<Bytes, Bytes>> {
    if count == 0 then if b == [] then Some(map[]) else None
    else
      match ReadField(b)
      case None => None
      case Some((name, afterName)) =>
        match ReadField(afterName)
        case None => None
        case Some((value, rest)) =>
          match ReadPairs(count - 1, rest)
          case None => None
          case Some(others) => Some(others[name := value])
  }

  function ReadStampsAndPairs(b: Bytes): Option<(int, int, map<Bytes, Bytes>)> {
    match ReadStamp(b)
    case None => None
    case Some((issued, b1)) =>
      match ReadStamp(b1)
      case None => None
      case Some((expires, b2)) =>
        match ReadNumber(b2, 4)
        case None => None
        case Some((count, b3)) =>
          match ReadPairs(count, b3)
          case None => None
          case Some(arguments) => Some((issued, expires, arguments))
  }

  function Read(b: Bytes): Option<Content> {
    if |b| < |DOMAIN| || b[..|DOMAIN|] != DOMAIN then None
    else
      match ReadField(b[|DOMAIN|..])
      case None => None
      case Some((operation, b1)) =>
        match ReadField(b1)
        case None => None
        case Some((host, b2)) =>
          match ReadField(b2)
          case None => None
          case Some((nonce, b3)) =>
            match ReadStampsAndPairs(b3)
            case None => None
            case Some((issued, expires, arguments)) =>
              Some(Content(operation, host, nonce, issued, expires, arguments))
  }

  // --------------------------------------------------------------- round trip

  /** Lengths a 32-bit prefix can carry and stamps an int64 can. */
  ghost predicate Encodable(c: Content) {
    && IsInt64(c.issuedAt) && IsInt64(c.expiresAt)
    && |c.operation| < TWO_32 && |c.targetHostId| < TWO_32 && |c.nonce| < TWO_32
    && |c.arguments| < TWO_32
    && forall name :: name in c.arguments ==> |name| < TWO_32 && |c.arguments[name]| < TWO_32
  }

  function Power(width: nat): nat {
    if width == 0 then 1 else 256 * Power(width - 1)
  }

  lemma {:induction false} BigEndianReads(n: nat, width: nat)
    requires n < Power(width)
    ensures FromBigEndian(BigEndian(n, width)) == n
  {
    if width > 0 {
      BigEndianReads(n / 256, width - 1);
      var front := BigEndian(n / 256, width - 1);
      assert BigEndian(n, width)[..width - 1] == front;
    }
  }

  lemma NumberReads(n: nat, width: nat, rest: Bytes)
    requires n < Power(width)
    ensures ReadNumber(BigEndian(n, width) + rest, width) == Some((n, rest))
  {
    BigEndianReads(n, width);
    var b := BigEndian(n, width) + rest;
    assert b[..width] == BigEndian(n, width) && b[width..] == rest;
  }

  lemma FieldReads(value: Bytes, rest: Bytes)
    requires |value| < TWO_32
    ensures ReadField(Field(value) + rest) == Some((value, rest))
  {
    assert Power(4) == TWO_32;
    assert Field(value) + rest == Uint32(|value|) + (value + rest);
    NumberReads(|value|, 4, value + rest);
    assert (value + rest)[..|value|] == value && (value + rest)[|value|..] == rest;
  }

  lemma StampReads(n: int, rest: Bytes)
    requires IsInt64(n)
    ensures ReadStamp(Uint64(n) + rest) == Some((n, rest))
  {
    assert Power(8) == TWO_64 by {
      assert Power(4) == TWO_32;
    }
    NumberReads(if n < 0 then n + TWO_64 else n, 8, rest);
  }

  /** The arguments named in `names`. */
  function Restrict(arguments: map<Bytes, Bytes>, names: seq<Bytes>): map<Bytes, Bytes> {
    map name | name in names && name in arguments :: arguments[name]
  }

  lemma RestrictCons(arguments: map<Bytes, Bytes>, first: Bytes, others: seq<Bytes>)
    requires first in arguments
    ensures Restrict(arguments, others)[first := arguments[first]] == Restrict(arguments, [first] + others)
  {
  }

  lemma {:induction false} PairsRead(arguments: map<Bytes, Bytes>, names: seq<Bytes>)
    requires forall i :: 0 <= i < |names| ==> names[i] in arguments
    requires forall i :: 0 <= i < |names| ==> |names[i]| < TWO_32 && |arguments[names[i]]| < TWO_32
    ensures ReadPairs(|names|, Pairs(arguments, names)) == Some(Restrict(arguments, names))
  {
    hide Field, Restrict, ReadPairs;
    if names == [] {
      NothingRead(arguments);
    } else {
      var first, others := names[0], names[1..];
      PairsRead(arguments, others);
      ReadPair(|others|, first, arguments[first], Pairs(arguments, others));
      Associative(Field(first), Field(arguments[first]), Pairs(arguments, others));
      RestrictCons(arguments, first, others);
      assert names == [first] + others;
    }
  }

  lemma NothingRead(arguments: map<Bytes, Bytes>)
    ensures ReadPairs(0, Pairs(arguments, [])) == Some(Restrict(arguments, []))
  {
    assert Restrict(arguments, []) == map[];
  }

  lemma ReadPair(count: nat, name: Bytes, value: Bytes, rest: Bytes)
    requires |name| < TWO_32 && |value| < TWO_32
    requires ReadPairs(count, rest).Some?
    ensures ReadPairs(count + 1, Field(name) + (Field(value) + rest))
         == Some(ReadPairs(count, rest).value[name := value])
  {
    hide Field, ReadField;
    FieldReads(name, Field(value) + rest);
    FieldReads(value, rest);
  }

  /** In whatever order the names are laid out, the reader recovers the instruction. */
  lemma LayoutReads(c: Content, names: seq<Bytes>)
    requires Encodable(c) && Lists(names, c.arguments.Keys)
    ensures Read(Layout(c, names)) == Some(c)
  {
    ListingLength(names, c.arguments.Keys);
    assert |names| == |c.arguments|;
    assert Power(4) == TWO_32;
    var pairs := Pairs(c.arguments, names);
    var counted := Uint32(|names|) + pairs;
    var expiring := Uint64(c.expiresAt) + counted;
    var stamped := Uint64(c.issuedAt) + expiring;
    PairsRead(c.arguments, names);
    assert Restrict(c.arguments, names) == c.arguments;
    NumberReads(|names|, 4, pairs);
    StampReads(c.expiresAt, counted);
    StampReads(c.issuedAt, expiring);
    assert ReadStampsAndPairs(stamped) == Some((c.issuedAt, c.expiresAt, c.arguments));
    HeadReads(c, stamped);
  }

  lemma {:induction false} HeadReads(c: Content, stamped: Bytes)
    requires Encodable(c)
    requires ReadStampsAndPairs(stamped) == Some((c.issuedAt, c.expiresAt, c.arguments))
    ensures Read(DOMAIN + (Field(c.operation) + (Field(c.targetHostId) + (Field(c.nonce) + stamped)))) == Some(c)
  {
    hide Field, ReadField, ReadStampsAndPairs;
    var b3 := Field(c.nonce) + stamped;
    var b2 := Field(c.targetHostId) + b3;
    var b1 := Field(c.operation) + b2;
    FieldReads(c.operation, b2);
    FieldReads(c.targetHostId, b3);
    FieldReads(c.nonce, stamped);
    assert (DOMAIN + b1)[..|DOMAIN|] == DOMAIN && (DOMAIN + b1)[|DOMAIN|..] == b1;
  }

  lemma Cancel(head: Bytes, a: Bytes, b: Bytes)
    requires head + a == head + b
    ensures a == b
  {
    assert a == (head + a)[|head|..] && b == (head + b)[|head|..];
  }

  lemma {:induction false} PairsFixNames(arguments: map<Bytes, Bytes>, a: seq<Bytes>, b: seq<Bytes>)
    requires forall i :: 0 <= i < |a| ==> a[i] in arguments
    requires forall i :: 0 <= i < |b| ==> b[i] in arguments
    requires forall name <- arguments :: |name| < TWO_32 && |arguments[name]| < TWO_32
    requires |a| == |b| && Pairs(arguments, a) == Pairs(arguments, b)
    ensures a == b
  {
    hide Field, ReadField;
    if a != [] {
      var x, y := Pairs(arguments, a[1..]), Pairs(arguments, b[1..]);
      Associative(Field(a[0]), Field(arguments[a[0]]), x);
      Associative(Field(b[0]), Field(arguments[b[0]]), y);
      FieldReads(a[0], Field(arguments[a[0]]) + x);
      FieldReads(b[0], Field(arguments[b[0]]) + y);
      FieldReads(arguments[a[0]], x);
      FieldReads(arguments[b[0]], y);
      PairsFixNames(arguments, a[1..], b[1..]);
      assert a == [a[0]] + a[1..] && b == [b[0]] + b[1..];
    }
  }

  /** The bytes show in which order the names were laid out. */
  lemma {:induction false} LayoutFixesOrder(c: Content, a: seq<Bytes>, b: seq<Bytes>)
    requires Encodable(c) && Lists(a, c.arguments.Keys) && Lists(b, c.arguments.Keys)
    requires Layout(c, a) == Layout(c, b)
    ensures a == b
  {
    hide Field, Uint32, Uint64, Pairs;
    ListingLength(a, c.arguments.Keys);
    ListingLength(b, c.arguments.Keys);
    var x0, y0 := Pairs(c.arguments, a), Pairs(c.arguments, b);
    var x1, y1 := Uint32(|a|) + x0, Uint32(|a|) + y0;
    var x2, y2 := Uint64(c.expiresAt) + x1, Uint64(c.expiresAt) + y1;
    var x3, y3 := Uint64(c.issuedAt) + x2, Uint64(c.issuedAt) + y2;
    var x4, y4 := Field(c.nonce) + x3, Field(c.nonce) + y3;
    var x5, y5 := Field(c.targetHostId) + x4, Field(c.targetHostId) + y4;
    Cancel(DOMAIN, Field(c.operation) + x5, Field(c.operation) + y5);
    Cancel(Field(c.operation), x5, y5);
    Cancel(Field(c.targetHostId), x4, y4);
    Cancel(Field(c.nonce), x3, y3);
    Cancel(Uint64(c.issuedAt), x2, y2);
    Cancel(Uint64(c.expiresAt), x1, y1);
    Cancel(Uint32(|a|), x0, y0);
    PairsFixNames(c.arguments, a, b);
  }

  // ----------------------------------------------------------------- the sort

  lemma LessIsStrict()
    ensures StrictOrder((a: Bytes, b: Bytes) => Less(a, b))
  {
    forall a: Bytes, b: Bytes
      ensures Less(a, b) ==> !Less(b, a)
    {
      LessTrichotomy(a, b);
    }
    forall a: Bytes, b: Bytes, c: Bytes
      ensures Less(a, b) ==> Less(a, c) || Less(c, b)
    {
      LessTrichotomy(a, c);
      if Less(a, b) && Less(c, a) {
        LessTransitive(c, a, b);
      }
    }
  }

  lemma {:induction false} SortKeepsListing(names: seq<Bytes>, keys: set<Bytes>)
    requires Lists(names, keys)
    ensures Lists(SortStrings(names), keys) && Ascending(SortStrings(names))
  {
    var less := (a: Bytes, b: Bytes) => Less(a, b);
    var r := SortStrings(names);
    LessIsStrict();
    SortOrdered(less, names);
    SortMembers(less, names);
    DistinctByCount(names);
    assert multiset(r) == multiset(names);
    CountByDistinct(r);
    forall i, j | 0 <= i < j < |r|
      ensures Less(r[i], r[j])
    {
      LessTrichotomy(r[i], r[j]);
      assert !less(r[j], r[i]);
    }
  }

  lemma SortedNamesList(arguments: map<Bytes, Bytes>)
    ensures Lists(SortedNames(arguments), arguments.Keys) && Ascending(SortedNames(arguments))
  {
    SortKeepsListing(ListOf(arguments.Keys), arguments.Keys);
  }

  /** Every listing of the names sorts to the same sequence. */
  lemma SortIgnoresOrder(names: seq<Bytes>, arguments: map<Bytes, Bytes>)
    requires Lists(names, arguments.Keys)
    ensures SortStrings(names) == SortedNames(arguments)
  {
    SortKeepsListing(names, arguments.Keys);
    SortedNamesList(arguments);
    AscendingUnique(SortStrings(names), SortedNames(arguments));
  }

  // ------------------------------------------------------------- main results

  /** The encoding can be read back. */
  lemma {:induction false} CanonicalReads(c: Content)
    requires Encodable(c)
    ensures Read(CanonicalBytes(c)) == Some(c)
  {
    SortedNamesList(c.arguments);
    LayoutReads(c, SortedNames(c.arguments));
  }

  /** No two instructions share their signed bytes. */
  lemma {:induction false} CanonicalInjective(a: Content, b: Content)
    requires Encodable(a) && Encodable(b)
    requires CanonicalBytes(a) == CanonicalBytes(b)
    ensures a == b
  {
    CanonicalReads(a);
    CanonicalReads(b);
  }

  // -------------------------------------------------------------- the program

  method WritePairs(arguments: map<Bytes, Bytes>, names: seq<Bytes>) returns (buffer: Bytes)
    requires forall i :: 0 <= i < |names| ==> names[i] in arguments
    ensures buffer == Pairs(arguments, names)
  {
    buffer := [];
    var i := 0;
    while i < |names|
      invariant i <= |names|
      invariant buffer == Pairs(arguments, names[..i])
    {
      buffer := buffer + Field(names[i]);
      buffer := buffer + Field(arguments[names[i]]);
      PairsSnoc(arguments, names[..i], names[i]);
      assert names[..i + 1] == names[..i] + [names[i]];
      i := i + 1;
    }
    assert names[..i] == names;
  }

  /** Writes the fields in order, then the arguments sorted by name. */
  method Encode(e: Envelope) returns (buffer: Bytes)
    requires IsInt64(e.issuedAt) && IsInt64(e.expiresAt)
    ensures buffer == CanonicalBytes(ContentOf(e))
  {
    buffer := DOMAIN + Field(e.operation);
    buffer := buffer + Field(e.targetHostId);
    buffer := buffer + Field(e.nonce);
    buffer := buffer + Uint64(e.issuedAt) + Uint64(e.expiresAt);
    var names := Gather(e.arguments.Keys);
    SortIgnoresOrder(names, e.arguments);
    SortedNamesList(e.arguments);
    names := SortStrings(names);
    buffer := buffer + Uint32(|names|);
    var pairs := WritePairs(e.arguments, names);
    buffer := buffer + pairs;
    Regroup(DOMAIN, Field(e.operation), Field(e.targetHostId), Field(e.nonce), Uint64(e.issuedAt),
            Uint64(e.expiresAt), Uint32(|names|), pairs);
  }

  lemma Regroup(a: Bytes, b: Bytes, c: Bytes, d: Bytes, e: Bytes, f: Bytes, g: Bytes, h: Bytes)
    ensures a + b + c + d + e + f + g + h == a + (b + (c + (d + (e + (f + (g + h))))))
  {
    assert f + g + h == f + (g + h);
    assert c + d + e + (f + (g + h)) == c + (d + (e + (f + (g + h))));
  }

  lemma {:induction false} PairsSnoc(arguments: map<Bytes, Bytes>, names: seq<Bytes>, name: Bytes)
    requires name in arguments && forall i :: 0 <= i < |names| ==> names[i] in arguments
    ensures Pairs(arguments, names + [name])
         == Pairs(arguments, names) + Field(name) + Field(arguments[name])
  {
    if names != [] {
      assert (names + [name])[1..] == names[1..] + [name];
      PairsSnoc(arguments, names[1..], name);
    }
  }
}
