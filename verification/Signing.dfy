/** The control plane's half: the same signed bytes from JavaScript strings, and what it
    refuses to sign. Strings are well-formed text. */
module Signing {
  import opened Wrappers
  import opened Bytes
  import opened Sequences
  import opened Sorting
  import opened Listings
  import opened Utf
  import opened Canonical
  import opened NameOrder

  const MAX_VALIDITY_MS := 300_000

  datatype Instruction = Instruction(
    operation: string, targetHostId: string, nonce: string, issuedAt: int, expiresAt: int,
    arguments: map<string, string>)

  /** The argument map as the agent parses it. */
  ghost function WireArguments(arguments: map<string, string>): (wire: map<Bytes, Bytes>)
    ensures forall name :: name in arguments ==> Utf8(name) in wire && wire[Utf8(name)] == Utf8(arguments[name])
    ensures forall key :: key in wire ==> exists name :: name in arguments && Utf8(name) == key
  {
    assert forall a, b :: a in arguments && b in arguments && Utf8(a) == Utf8(b) ==> a == b by {
      forall a, b | a in arguments && b in arguments && Utf8(a) == Utf8(b)
        ensures a == b
      {
        Utf8Injective(a, b);
      }
    }
    map name | name in arguments :: Utf8(name) := Utf8(arguments[name])
  }

  ghost function Wire(i: Instruction): Content {
    Content(Utf8(i.operation), Utf8(i.targetHostId), Utf8(i.nonce), i.issuedAt, i.expiresAt,
            WireArguments(i.arguments))
  }

  function SortNames(names: seq<string>): seq<string> {
    Sort((a: string, b: string) => UnitsLess(a, b), names)
  }

  function Encodings(names: seq<string>): (b: seq<Bytes>)
    ensures |b| == |names| && forall k :: 0 <= k < |names| ==> b[k] == Utf8(names[k])
  {
    seq(|names|, k requires 0 <= k < |names| => Utf8(names[k]))
  }

  /** The signed bytes, with the names listed in `order` before the sort. */
  ghost function SignedBytes(i: Instruction, order: seq<string>): Bytes
    requires IsInt64(i.issuedAt) && IsInt64(i.expiresAt) && Lists(order, i.arguments.Keys)
  {
    SortMembers((a: string, b: string) => UnitsLess(a, b), order);
    Layout(Wire(i), Encodings(SortNames(order)))
  }

  // ------------------------------------------------------------------ results

  lemma {:induction false} EncodingsList(names: seq<string>, arguments: map<string, string>)
    requires Lists(names, arguments.Keys)
    ensures Lists(Encodings(names), WireArguments(arguments).Keys)
  {
    var wire := WireArguments(arguments);
    forall i, j | 0 <= i < j < |names|
      ensures Encodings(names)[i] != Encodings(names)[j]
    {
      if Utf8(names[i]) == Utf8(names[j]) {
        Utf8Injective(names[i], names[j]);
      }
    }
    forall key
      ensures key in Encodings(names) <==> key in wire.Keys
    {
      if key in wire.Keys {
        var name :| name in arguments && Utf8(name) == key;
        assert name in names;
        var k :| 0 <= k < |names| && names[k] == name;
        assert Encodings(names)[k] == key;
      }
      if key in Encodings(names) {
        var k :| 0 <= k < |names| && Encodings(names)[k] == key;
        assert names[k] in arguments;
      }
    }
  }

  lemma SortedIsListing(order: seq<string>, keys: set<string>)
    requires Lists(order, keys)
    ensures Lists(SortNames(order), keys)
  {
    SortMembers((a: string, b: string) => UnitsLess(a, b), order);
    DistinctByCount(order);
    CountByDistinct(SortNames(order));
  }

  /** The agent's reader recovers the instruction from the control plane's bytes. */
  lemma {:induction false} SignedBytesRead(i: Instruction, order: seq<string>)
    requires Lists(order, i.arguments.Keys) && Encodable(Wire(i))
    ensures Read(SignedBytes(i, order)) == Some(Wire(i))
  {
    SortedIsListing(order, i.arguments.Keys);
    EncodingsList(SortNames(order), i.arguments);
    LayoutReads(Wire(i), Encodings(SortNames(order)));
  }

  /** No two instructions share the bytes the control plane signs. */
  lemma {:induction false} SignedBytesInjective(
    a: Instruction, aOrder: seq<string>, b: Instruction, bOrder: seq<string>)
    requires Lists(aOrder, a.arguments.Keys) && Lists(bOrder, b.arguments.Keys)
    requires Encodable(Wire(a)) && Encodable(Wire(b))
    requires SignedBytes(a, aOrder) == SignedBytes(b, bOrder)
    ensures a == b
  {
    SignedBytesRead(a, aOrder);
    SignedBytesRead(b, bOrder);
    assert Wire(a) == Wire(b);
    Utf8Injective(a.operation, b.operation);
    Utf8Injective(a.targetHostId, b.targetHostId);
    Utf8Injective(a.nonce, b.nonce);
    WireArgumentsInjective(a.arguments, b.arguments);
  }

  lemma {:induction false} WireArgumentsWithin(a: map<string, string>, b: map<string, string>, name: string)
    requires WireArguments(a) == WireArguments(b) && name in a
    ensures name in b && a[name] == b[name]
  {
    var key := Utf8(name);
    assert key in WireArguments(b);
    var other :| other in b && Utf8(other) == key;
    Utf8Injective(name, other);
    Utf8Injective(a[name], b[name]);
  }

  lemma {:induction false} WireArgumentsInjective(a: map<string, string>, b: map<string, string>)
    requires WireArguments(a) == WireArguments(b)
    ensures a == b
  {
    forall name | name in a
      ensures name in b && a[name] == b[name]
    {
      WireArgumentsWithin(a, b, name);
    }
    forall name | name in b
      ensures name in a
    {
      WireArgumentsWithin(b, a, name);
    }
  }

  lemma UnitsLessIsStrict()
    ensures StrictOrder((a: string, b: string) => UnitsLess(a, b))
  {
    forall a: string, b: string
      ensures UnitsLess(a, b) ==> !UnitsLess(b, a)
    {
      LessTrichotomy(Units(a), Units(b));
    }
    forall a: string, b: string, c: string
      ensures UnitsLess(a, b) ==> UnitsLess(a, c) || UnitsLess(c, b)
    {
      LessTrichotomy(Units(a), Units(c));
      if UnitsLess(a, b) && Less(Units(c), Units(a)) {
        LessTransitive(Units(c), Units(a), Units(b));
      }
    }
  }

  /** No two of these names are ordered differently by code unit and by byte. */
  ghost predicate OrderedAlike(names: set<string>) {
    forall a, b :: a in names && b in names ==> !Straddles(a, b)
  }

  lemma {:induction false} AlikeIsAscending(names: seq<string>)
    requires forall m, n :: 0 <= m < n < |names| ==> names[m] != names[n]
    requires Ordered((a: string, b: string) => UnitsLess(a, b), names)
    ensures Ascending(Encodings(names)) <==>
      forall m, n :: 0 <= m < n < |names| ==> !Straddles(names[m], names[n])
  {
    hide UnitsLess, BytesLess, Straddles;
    forall m, n | 0 <= m < n < |names|
      ensures BytesLess(names[m], names[n]) <==> !Straddles(names[m], names[n])
      ensures BytesLess(names[m], names[n]) <==> Less(Encodings(names)[m], Encodings(names)[n])
    {
      OrdersAgreeIff(names[m], names[n]);
      UnitsTotal(names[m], names[n]);
      assert !UnitsLess(names[n], names[m]);
      BytesLessIs(names[m], names[n]);
    }
  }

  lemma BytesLessIs(a: string, b: string)
    ensures BytesLess(a, b) <==> Less(Utf8(a), Utf8(b))
  {
  }

  /** The two sorts give one sequence exactly when no two of the names straddle. */
  lemma {:induction false} SortsAgreeIff(arguments: map<string, string>, order: seq<string>)
    requires Lists(order, arguments.Keys)
    ensures Encodings(SortNames(order)) == SortedNames(WireArguments(arguments)) <==> OrderedAlike(arguments.Keys)
  {
    hide UnitsLess, Straddles, Utf8, WireArguments, Encodings, OrderedAlike, SortNames, Sort;
    var sorted, wire := SortNames(order), WireArguments(arguments);
    SortedIsListing(order, arguments.Keys);
    EncodingsList(sorted, arguments);
    SortedNamesList(wire);
    SortedUnits(order);
    AlikeIsAscending(sorted);
    ListedAlike(sorted, arguments.Keys);
    if OrderedAlike(arguments.Keys) {
      AscendingUnique(Encodings(sorted), SortedNames(wire));
    }
  }

  lemma SortedUnits(order: seq<string>)
    ensures Ordered((a: string, b: string) => UnitsLess(a, b), SortNames(order))
  {
    UnitsLessIsStrict();
    SortOrdered((a: string, b: string) => UnitsLess(a, b), order);
  }

  lemma {:induction false} ListedAlike(names: seq<string>, keys: set<string>)
    requires Lists(names, keys)
    ensures OrderedAlike(keys) <==> forall m, n :: 0 <= m < n < |names| ==> !Straddles(names[m], names[n])
  {
    hide Straddles;
    if !OrderedAlike(keys) {
      var a, b :| a in keys && b in keys && Straddles(a, b);
      StraddlesBothWays(a, b);
      assert a in names && b in names;
    }
  }

  /** Both sides derive the same bytes, in whatever order the maps are visited, if no two names straddle. */
  lemma {:induction false} AlikeAgrees(i: Instruction, order: seq<string>)
    requires Lists(order, i.arguments.Keys) && IsInt64(i.issuedAt) && IsInt64(i.expiresAt)
    requires OrderedAlike(i.arguments.Keys)
    ensures SignedBytes(i, order) == CanonicalBytes(Wire(i))
  {
    hide OrderedAlike, Layout, WireArguments, SortNames, Encodings, SortedNames;
    SortsAgreeIff(i.arguments, order);
  }

  /** And only then: the two sides derive the same bytes exactly when no two argument names straddle. */
  lemma {:induction false} BothSidesAgreeIff(i: Instruction, order: seq<string>)
    requires Lists(order, i.arguments.Keys) && Encodable(Wire(i))
    ensures SignedBytes(i, order) == CanonicalBytes(Wire(i)) <==> OrderedAlike(i.arguments.Keys)
  {
    hide OrderedAlike, Layout, WireArguments, SortNames, Encodings, SortedNames;
    SortsAgreeIff(i.arguments, order);
    SortedIsListing(order, i.arguments.Keys);
    EncodingsList(SortNames(order), i.arguments);
    SortedNamesList(WireArguments(i.arguments));
    if SignedBytes(i, order) == CanonicalBytes(Wire(i)) {
      LayoutFixesOrder(Wire(i), Encodings(SortNames(order)), SortedNames(WireArguments(i.arguments)));
    }
  }

  /** Catalogue argument names are ASCII, so both sides sort them alike and derive the
      same bytes, whatever the values are and whatever order the maps are visited in. */
  lemma {:induction false} BothSidesAgree(i: Instruction, order: seq<string>)
    requires Lists(order, i.arguments.Keys) && IsInt64(i.issuedAt) && IsInt64(i.expiresAt)
    requires forall name :: name in i.arguments ==> Ascii(name)
    ensures SignedBytes(i, order) == CanonicalBytes(Wire(i))
  {
    forall a, b | a in i.arguments.Keys && b in i.arguments.Keys
      ensures !Straddles(a, b)
    {
      AsciiNeverStraddles(a, b);
    }
    AlikeAgrees(i, order);
  }

  /** Without that restriction the two sorts differ: code units put a surrogate pair
      before U+FFFD, bytes put it after. */
  lemma SortsDifferBeyondAscii()
    ensures var high, low := "\U{10000}", "\U{FFFD}";
            UnitsLess(high, low) && Less(Utf8(low), Utf8(high))
  {
    var high, low := "\U{10000}", "\U{FFFD}";
    assert Units(high) == [0xD800, 0xDC00] + Units(high[1..]);
    assert Units(low) == [0xFFFD] + Units(low[1..]);
    assert Utf8(high)[0] == 0xF0 && Utf8(low)[0] == 0xEF;
  }

  // -------------------------------------------------------------- the program

  function Concat(parts: seq<Bytes>): Bytes {
    if parts == [] then [] else Concat(parts[..|parts| - 1]) + parts[|parts| - 1]
  }

  lemma ConcatSnoc(parts: seq<Bytes>, part: Bytes)
    ensures Concat(parts + [part]) == Concat(parts) + part
  {
    var all := parts + [part];
    assert all[..|all| - 1] == parts;
  }

  /** Sizes an output array by the parts' lengths and fills it by offset. */
  method Join(parts: seq<Bytes>) returns (out: array<byte>)
    ensures fresh(out) && out[..] == Concat(parts)
  {
    var total := 0;
    var i := 0;
    while i < |parts|
      invariant i <= |parts|
      invariant total == |Concat(parts[..i])|
    {
      SnocTake(parts, i);
      ConcatSnoc(parts[..i], parts[i]);
      total := total + |parts[i]|;
      i := i + 1;
    }
    assert parts[..i] == parts;
    out := new byte[total];
    var offset := 0;
    i := 0;
    while i < |parts|
      invariant i <= |parts|
      invariant offset == |Concat(parts[..i])| <= total
      invariant out[..offset] == Concat(parts[..i])
      invariant total == |Concat(parts)|
    {
      SnocTake(parts, i);
      ConcatSnoc(parts[..i], parts[i]);
      ConcatGrows(parts, i + 1);
      var part := parts[i];
      ghost var before := out[..offset];
      forall k | 0 <= k < |part| {
        out[offset + k] := part[k];
      }
      assert out[..offset + |part|] == before + part;
      offset := offset + |part|;
      i := i + 1;
    }
    assert parts[..i] == parts;
  }

  lemma {:induction false} ConcatGrows(parts: seq<Bytes>, n: nat)
    requires n <= |parts|
    ensures |Concat(parts[..n])| <= |Concat(parts)|
  {
    if n < |parts| {
      var front := parts[..|parts| - 1];
      ConcatGrows(front, n);
      assert front[..n] == parts[..n];
    } else {
      assert parts[..n] == parts;
    }
  }

  /** The parts of the argument section, pushed name by name. */
  method PairParts(wire: map<string, string>, names: seq<string>) returns (parts: seq<Bytes>)
    requires forall k :: 0 <= k < |names| ==> names[k] in wire
    ensures Concat(parts) == Pairs(WireArguments(wire), Encodings(names))
  {
    hide Concat, Pairs, Field, Utf8, Uint32, WireArguments, Encodings;
    parts := [];
    NoPairs(wire);
    var i := 0;
    while i < |names|
      invariant i <= |names|
      invariant PairsDone(wire, names[..i], parts)
    {
      var name, value := Utf8(names[i]), Utf8(wire[names[i]]);
      SnocTake(names, i);
      OnePairMore(wire, names[..i], names[i], parts);
      parts := parts + [Uint32(|name|), name];
      parts := parts + [Uint32(|value|), value];
      i := i + 1;
    }
    assert names[..i] == names;
  }

  /** The parts spell the pairs of these names. */
  ghost predicate PairsDone(wire: map<string, string>, names: seq<string>, parts: seq<Bytes>) {
    && (forall k :: 0 <= k < |names| ==> names[k] in wire)
    && Concat(parts) == Pairs(WireArguments(wire), Encodings(names))
  }

  lemma NoPairs(wire: map<string, string>)
    ensures PairsDone(wire, [], [])
  {
  }

  lemma OnePairMore(wire: map<string, string>, names: seq<string>, next: string, parts: seq<Bytes>)
    requires PairsDone(wire, names, parts) && next in wire
    ensures var name, value := Utf8(next), Utf8(wire[next]);
            PairsDone(wire, names + [next], parts + [Uint32(|name|), name] + [Uint32(|value|), value])
  {
    hide Concat, Pairs, Field, Utf8, Uint32;
    var name, value := Utf8(next), Utf8(wire[next]);
    assert Encodings(names + [next]) == Encodings(names) + [name];
    PairsSnoc(WireArguments(wire), Encodings(names), name);
    FieldParts(parts, name);
    FieldParts(parts + [Uint32(|name|), name], value);
  }

  lemma FieldParts(parts: seq<Bytes>, value: Bytes)
    ensures Concat(parts + [Uint32(|value|), value]) == Concat(parts) + Field(value)
  {
    hide Uint32, Concat;
    ConcatSnoc(parts, Uint32(|value|));
    ConcatSnoc(parts + [Uint32(|value|)], value);
    assert parts + [Uint32(|value|)] + [value] == parts + [Uint32(|value|), value];
    Associative(Concat(parts), Uint32(|value|), value);
  }

  lemma {:induction false} ConcatAppend(a: seq<Bytes>, b: seq<Bytes>)
    ensures Concat(a + b) == Concat(a) + Concat(b)
  {
    if b == [] {
      assert a + b == a;
    } else {
      var front, last := b[..|b| - 1], b[|b| - 1];
      ConcatAppend(a, front);
      ConcatSnoc(a + front, last);
      assert a + b == a + front + [last];
      Associative(Concat(a), Concat(front), last);
    }
  }

  /** Pushes the parts, then joins them into one array. */
  method EncodeInstruction(i: Instruction) returns (out: array<byte>, ghost order: seq<string>)
    requires IsInt64(i.issuedAt) && IsInt64(i.expiresAt)
    ensures fresh(out) && Lists(order, i.arguments.Keys)
    ensures out[..] == SignedBytes(i, order)
  {
    var names := Gather(i.arguments.Keys);
    order := names;
    SortedIsListing(order, i.arguments.Keys);
    names := SortNames(names);
    var operation, host, nonce := Utf8(i.operation), Utf8(i.targetHostId), Utf8(i.nonce);
    var head := [DOMAIN] + [Uint32(|operation|), operation];
    head := head + [Uint32(|host|), host];
    head := head + [Uint32(|nonce|), nonce];
    head := head + [Uint64(i.issuedAt)];
    head := head + [Uint64(i.expiresAt)];
    head := head + [Uint32(|names|)];
    HeadParts(operation, host, nonce, Uint64(i.issuedAt), Uint64(i.expiresAt), Uint32(|names|));
    var pairs := PairParts(i.arguments, names);
    ConcatAppend(head, pairs);
    out := Join(head + pairs);
    Regroup(DOMAIN, Field(operation), Field(host), Field(nonce), Uint64(i.issuedAt), Uint64(i.expiresAt),
            Uint32(|names|), Concat(pairs));
  }

  lemma HeadParts(a: Bytes, b: Bytes, c: Bytes, issued: Bytes, expires: Bytes, count: Bytes)
    ensures Concat([DOMAIN] + [Uint32(|a|), a] + [Uint32(|b|), b] + [Uint32(|c|), c] + [issued] + [expires] + [count])
         == DOMAIN + Field(a) + Field(b) + Field(c) + issued + expires + count
  {
    ConcatSnoc([], DOMAIN);
    assert [] + [DOMAIN] == [DOMAIN];
    hide Uint32, Concat, Field;
    FieldParts([DOMAIN], a);
    var p1 := [DOMAIN] + [Uint32(|a|), a];
    FieldParts(p1, b);
    var p2 := p1 + [Uint32(|b|), b];
    FieldParts(p2, c);
    var p3 := p2 + [Uint32(|c|), c];
    ConcatSnoc(p3, issued);
    ConcatSnoc(p3 + [issued], expires);
    ConcatSnoc(p3 + [issued] + [expires], count);
  }
}
