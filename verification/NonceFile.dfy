/** The replay store's file: one "nonce SP millis LF" record a line, and how a
    scan of it is read back. Instants are nanoseconds, record stamps milliseconds. */
module NonceFile {
  import opened Wrappers
  import opened Bytes
  import opened Sequences

  const NANOS := 1_000_000

  /** A scanner buffer of 4096 bytes cannot hold a line this long. */
  const LINE_LIMIT := 4096

  // ------------------------------------------------------------------ format

  /** One of the four characters that could forge a record boundary. */
  predicate IsBreak(c: byte) {
    c == SPACE || c == TAB || c == LF || c == CR
  }

  predicate Breakless(nonce: Bytes) {
    forall i :: 0 <= i < |nonce| ==> !IsBreak(nonce[i])
  }

  function RecordLine(nonce: Bytes, millis: int): Bytes {
    nonce + [SPACE] + FormatInt(millis)
  }

  function RecordText(nonce: Bytes, millis: int): Bytes {
    RecordLine(nonce, millis) + [LF]
  }

  /** The index of the first `c`, or the length when there is none. */
  function IndexOf(c: byte, s: Bytes): (i: nat)
    ensures i <= |s|
    ensures i < |s| ==> s[i] == c
    ensures forall k :: 0 <= k < i ==> s[k] != c
  {
    if s == [] || s[0] == c then 0 else 1 + IndexOf(c, s[1..])
  }

  function ParseRecord(text: Bytes): Option<(Bytes, int)> {
    var cut := IndexOf(SPACE, text);
    if cut == |text| || cut == 0 then None
    else match ParseInt64(text[cut + 1..])
      case None => None
      case Some(millis) => Some((text[..cut], millis))
  }

  /** The lines between line feeds; a final fragment counts when it is not empty. */
  function RawLines(file: Bytes): seq<Bytes>
    decreases |file|
  {
    if file == [] then []
    else
      var end := IndexOf(LF, file);
      if end == |file| then [file] else [file[..end]] + RawLines(file[end + 1..])
  }

  function DropReturn(line: Bytes): Bytes {
    if line != [] && line[|line| - 1] == CR then line[..|line| - 1] else line
  }

  /** A line that is not a record is skipped; the last record of a nonce wins. */
  function Absorb(held: map<Bytes, int>, line: Bytes): map<Bytes, int> {
    match ParseRecord(DropReturn(line))
    case None => held
    case Some((nonce, millis)) => held[nonce := millis * NANOS]
  }

  /** What scanning these lines leaves in an empty map. */
  function Recall(lines: seq<Bytes>): map<Bytes, int> {
    if lines == [] then map[] else Absorb(Recall(lines[..|lines| - 1]), lines[|lines| - 1])
  }

  function Text(disk: Option<Bytes>): Bytes {
    if disk.Some? then disk.value else []
  }

  /** Everything a full scan of this file remembers. */
  function Recalled(disk: Option<Bytes>): map<Bytes, int> {
    Recall(RawLines(Text(disk)))
  }

  /** Ends on a record boundary. */
  predicate Terminated(file: Bytes) {
    file == [] || file[|file| - 1] == LF
  }

  /** How many leading lines fit the scanner's buffer. */
  function Readable(lines: seq<Bytes>): (n: nat)
    ensures n <= |lines|
    ensures forall i :: 0 <= i < n ==> |lines[i]| < LINE_LIMIT
    ensures n < |lines| ==> |lines[n]| >= LINE_LIMIT
  {
    if lines == [] || |lines[0]| >= LINE_LIMIT then 0 else 1 + Readable(lines[1..])
  }

  /** What the first `p` bytes of a line would be read as. */
  function ReadPart(line: Bytes, p: nat): Option<(Bytes, int)>
    requires p <= |line|
  {
    ParseRecord(DropReturn(line[..p]))
  }

  /** No part of the line names a nonce that the whole of it does not: a record, or nothing like one. */
  ghost predicate Honest(line: Bytes) {
    forall p: nat :: p <= |line| && ReadPart(line, p).Some? ==>
      ReadPart(line, |line|).Some? && ReadPart(line, |line|).value.0 == ReadPart(line, p).value.0
  }

  /** A file this code wrote with every record whole. */
  ghost predicate Intact(disk: Option<Bytes>) {
    && Terminated(Text(disk)) && Readable(RawLines(Text(disk))) == |RawLines(Text(disk))|
    && forall line <- RawLines(Text(disk)) :: Honest(line)
  }

  // --------------------------------------------------------------- read-back

  lemma {:induction false} IndexOfFirst(c: byte, front: Bytes, back: Bytes)
    requires c !in front
    ensures IndexOf(c, front + [c] + back) == |front|
  {
    var s := front + [c] + back;
    assert s[|front|] == c;
    assert forall k :: 0 <= k < |front| ==> s[k] == front[k];
  }

  lemma DigitsAreNotBreaks(n: nat)
    ensures forall i :: 0 <= i < |Digits(n)| ==> !IsBreak(Digits(n)[i])
  {
    DigitsDenote(n);
  }

  lemma RecordLineShape(nonce: Bytes, millis: int)
    requires Breakless(nonce)
    ensures LF !in RecordLine(nonce, millis)
    ensures DropReturn(RecordLine(nonce, millis)) == RecordLine(nonce, millis)
  {
    DigitsAreNotBreaks(if millis < 0 then -millis else millis);
    var line := RecordLine(nonce, millis);
    var stamp := FormatInt(millis);
    assert line[|line| - 1] == stamp[|stamp| - 1];
  }

  /** A written record reads back as itself. */
  lemma RecordReadsBack(nonce: Bytes, millis: int)
    requires nonce != [] && Breakless(nonce) && IsInt64(millis)
    ensures ParseRecord(DropReturn(RecordLine(nonce, millis))) == Some((nonce, millis))
  {
    RecordLineShape(nonce, millis);
    IndexOfFirst(SPACE, nonce, FormatInt(millis));
    ParseInt64Format(millis);
    var line := RecordLine(nonce, millis);
    assert line == nonce + [SPACE] + FormatInt(millis);
    assert line[..|nonce|] == nonce && line[|nonce| + 1..] == FormatInt(millis);
  }

  /** So a record read in part names its own nonce, if any. */
  lemma RecordIsHonest(nonce: Bytes, millis: int)
    requires nonce != [] && Breakless(nonce) && IsInt64(millis)
    ensures Honest(RecordLine(nonce, millis))
  {
    hide ParseInt64, FormatInt;
    var line := RecordLine(nonce, millis);
    RecordReadsBack(nonce, millis);
    assert line[..|line|] == line;
    forall p: nat | p <= |line| && ReadPart(line, p).Some?
      ensures ReadPart(line, p).value.0 == nonce
    {
      PartNames(nonce, millis, p);
    }
  }

  lemma PartNames(nonce: Bytes, millis: int, p: nat)
    requires Breakless(nonce) && p <= |RecordLine(nonce, millis)|
    ensures ReadPart(RecordLine(nonce, millis), p).Some? ==> ReadPart(RecordLine(nonce, millis), p).value.0 == nonce
  {
    hide ParseInt64;
    var stamp := FormatInt(millis);
    var part := RecordLine(nonce, millis)[..p];
    DigitsAreNotBreaks(if millis < 0 then -millis else millis);
    hide FormatInt;
    if p <= |nonce| {
      assert part == nonce[..p];
      NoSpaceNoRecord(part);
    } else {
      var rest := stamp[..p - |nonce| - 1];
      assert part == nonce + [SPACE] + rest;
      assert DropReturn(part) == part by {
        assert part[|part| - 1] == if rest == [] then SPACE else stamp[|rest| - 1];
      }
      IndexOfFirst(SPACE, nonce, rest);
      assert part[..|nonce|] == nonce;
    }
  }

  /** A line this code never writes can be read in part as a record that the whole of it is not: "n 1x". */
  lemma StrangeLineIsDishonest()
    ensures var line: Bytes := [110, SPACE, 49, 120];
            ReadPart(line, 3) == Some(([110], 1)) && ReadPart(line, 4) == None && !Honest(line)
  {
    var line: Bytes := [110, SPACE, 49, 120];
    var nonce, part: Bytes := [110], [110, SPACE, 49];
    assert line[..3] == part && line[..4] == line;
    IndexOfFirst(SPACE, nonce, [49]);
    IndexOfFirst(SPACE, nonce, [49, 120]);
    assert nonce + [SPACE] + [49] == part && nonce + [SPACE] + [49, 120] == line;
    assert part[..1] == nonce && part[2..] == [49] && line[2..] == [49, 120];
    StampOfOne();
    assert [49, 120][1] == 120 && !AllDigits([49, 120]);
  }

  /** A record is a nonce without spaces, a space, and a stamp; nothing else is one. */
  lemma RecordIff(text: Bytes, nonce: Bytes, millis: int)
    ensures ParseRecord(text) == Some((nonce, millis)) <==>
      && nonce != [] && SPACE !in nonce && |nonce| < |text| && text[..|nonce|] == nonce && text[|nonce|] == SPACE
      && ParseInt64(text[|nonce| + 1..]) == Some(millis)
  {
    hide ParseInt64;
    var cut := IndexOf(SPACE, text);
    if nonce != [] && SPACE !in nonce && |nonce| < |text| && text[..|nonce|] == nonce && text[|nonce|] == SPACE {
      assert forall k :: 0 <= k < |nonce| ==> text[k] == nonce[k];
    } else if cut < |text| {
      assert SPACE !in text[..cut];
    }
  }

  lemma LineAndReturn(nonce: Bytes, millis: int)
    requires nonce != [] && Breakless(nonce)
    ensures var line := RecordLine(nonce, millis);
            DropReturn(line + [CR]) == line && DropReturn(line + [CR] + [CR]) == line + [CR]
  {
    hide FormatInt;
    var line := RecordLine(nonce, millis);
    assert (line + [CR])[..|line|] == line && (line + [CR] + [CR])[..|line| + 1] == line + [CR];
  }

  lemma ReturnSpoilsRecord(nonce: Bytes, stamp: Bytes)
    requires nonce != [] && Breakless(nonce)
    ensures ParseRecord(nonce + [SPACE] + (stamp + [CR])) == None
  {
    hide ParseInt64;
    var text := nonce + [SPACE] + (stamp + [CR]);
    IndexOfFirst(SPACE, nonce, stamp + [CR]);
    assert text[|nonce| + 1..] == stamp + [CR];
    ReturnSpoilsStamp(stamp);
  }

  /** A record whose line was ended with a carriage return as well is the same record; a second one spoils it. */
  lemma ReturnIsDropped(nonce: Bytes, millis: int)
    requires nonce != [] && Breakless(nonce) && IsInt64(millis)
    ensures ParseRecord(DropReturn(RecordLine(nonce, millis) + [CR])) == Some((nonce, millis))
    ensures ParseRecord(DropReturn(RecordLine(nonce, millis) + [CR] + [CR])) == None
  {
    hide FormatInt, ParseRecord, DropReturn;
    LineAndReturn(nonce, millis);
    RecordReadsBack(nonce, millis);
    RecordIsUnreturned(nonce, millis);
    assert RecordLine(nonce, millis) + [CR] == nonce + [SPACE] + (FormatInt(millis) + [CR]);
    ReturnSpoilsRecord(nonce, FormatInt(millis));
  }

  lemma RecordIsUnreturned(nonce: Bytes, millis: int)
    requires Breakless(nonce)
    ensures DropReturn(RecordLine(nonce, millis)) == RecordLine(nonce, millis)
  {
    RecordLineShape(nonce, millis);
  }

  lemma ReturnSpoilsStamp(stamp: Bytes)
    ensures ParseInt64(stamp + [CR]) == None
  {
    var text := stamp + [CR];
    assert text[|stamp|] == CR && (|stamp| > 0 ==> text[1..][|stamp| - 1] == CR);
  }

  lemma StampOfOne()
    ensures ParseInt64([49]) == Some(1)
  {
    assert [49][..0] == [] && Value([]) == 0;
  }

  lemma NoSpaceNoRecord(text: Bytes)
    requires Breakless(text)
    ensures ParseRecord(DropReturn(text)) == None
  {
    assert DropReturn(text) == text;
    assert SPACE !in text;
    assert IndexOf(SPACE, text) == |text|;
  }

  lemma {:induction false} RawLinesFirst(line: Bytes, rest: Bytes)
    requires LF !in line
    ensures RawLines(line + [LF] + rest) == [line] + RawLines(rest)
  {
    var file := line + [LF] + rest;
    IndexOfFirst(LF, line, rest);
    assert file[..|line|] == line && file[|line| + 1..] == rest;
  }

  lemma RawLinesOne(line: Bytes)
    requires LF !in line
    ensures RawLines(line + [LF]) == [line]
    ensures line != [] ==> RawLines(line) == [line]
  {
    RawLinesFirst(line, []);
    assert line + [LF] + [] == line + [LF];
  }

  /** Text after a record boundary does not disturb the lines before it. */
  lemma {:induction false} RawLinesSplit(head: Bytes, tail: Bytes)
    requires Terminated(head)
    ensures RawLines(head + tail) == RawLines(head) + RawLines(tail)
    decreases |head|
  {
    if head == [] {
      assert head + tail == tail;
    } else {
      var line, rest := FirstLine(head);
      hide RawLines;
      RawLinesFirst(line, rest);
      RawLinesFirst(line, rest + tail);
      RawLinesSplit(rest, tail);
      Associative(line + [LF], rest, tail);
      Associative([line], RawLines(rest), RawLines(tail));
    }
  }

  lemma FirstLine(head: Bytes) returns (line: Bytes, rest: Bytes)
    requires head != [] && Terminated(head)
    ensures head == line + [LF] + rest && LF !in line && Terminated(rest)
  {
    var end := IndexOf(LF, head);
    assert head[|head| - 1] == LF;
    line, rest := head[..end], head[end + 1..];
    assert rest != [] ==> rest[|rest| - 1] == head[|head| - 1];
  }

  lemma RecallSnoc(lines: seq<Bytes>, line: Bytes)
    ensures Recall(lines + [line]) == Absorb(Recall(lines), line)
  {
    var all := lines + [line];
    assert all[..|all| - 1] == lines;
  }

  lemma {:induction false} ReadableConcat(a: seq<Bytes>, b: seq<Bytes>)
    requires Readable(a) == |a| && Readable(b) == |b|
    ensures Readable(a + b) == |a + b|
  {
    forall i | 0 <= i < |a + b|
      ensures |(a + b)[i]| < LINE_LIMIT
    {
      assert (a + b)[i] == if i < |a| then a[i] else b[i - |a|];
    }
  }

  /** Appending one whole record to an intact file adds exactly that record. */
  lemma AppendRecalls(file: Bytes, nonce: Bytes, millis: int)
    requires Terminated(file)
    requires nonce != [] && Breakless(nonce) && IsInt64(millis)
    ensures Recall(RawLines(file + RecordText(nonce, millis)))
         == Recall(RawLines(file))[nonce := millis * NANOS]
    ensures Terminated(file + RecordText(nonce, millis))
    ensures RawLines(file + RecordText(nonce, millis)) == RawLines(file) + [RecordLine(nonce, millis)]
  {
    RecordLineShape(nonce, millis);
    RawLinesSplit(file, RecordText(nonce, millis));
    RawLinesOne(RecordLine(nonce, millis));
    RecordReadsBack(nonce, millis);
    RecallSnoc(RawLines(file), RecordLine(nonce, millis));
  }

  // ------------------------------------------------------------ torn records

  lemma SpaceSpoilsStamp(front: Bytes, back: Bytes)
    requires front != []
    ensures ParseInt64(front + [SPACE] + back) == None
  {
    var stamp := front + [SPACE] + back;
    assert stamp[|front|] == SPACE && stamp[1..][|front| - 1] == SPACE;
  }

  lemma FusedEnds(fragment: Bytes, nonce: Bytes, millis: int)
    requires Breakless(nonce)
    ensures DropReturn(fragment + RecordLine(nonce, millis)) == fragment + RecordLine(nonce, millis)
  {
    RecordLineShape(nonce, millis);
    var line := RecordLine(nonce, millis);
    var fused := fragment + line;
    assert fused[|fused| - 1] == line[|line| - 1];
  }

  /** After a fragment that already holds a space, the fused line is no record. */
  lemma FusedAfterSpace(front: Bytes, back: Bytes, nonce: Bytes, millis: int)
    requires SPACE !in front && nonce != []
    ensures ParseRecord(front + [SPACE] + back + RecordLine(nonce, millis)) == None
  {
    var fused := front + [SPACE] + back + RecordLine(nonce, millis);
    assert fused == front + [SPACE] + (back + RecordLine(nonce, millis));
    IndexOfFirst(SPACE, front, back + RecordLine(nonce, millis));
    assert fused[|front| + 1..] == (back + nonce) + [SPACE] + FormatInt(millis);
    SpaceSpoilsStamp(back + nonce, FormatInt(millis));
  }

  /** A record written after a fragment is fused with it: the fused line names some
      other nonce or nothing at all. */
  lemma {:induction false} FusedLineIsNotTheRecord(fragment: Bytes, nonce: Bytes, millis: int)
    requires fragment != [] && nonce != [] && Breakless(nonce)
    ensures var parsed := ParseRecord(fragment + RecordLine(nonce, millis));
            parsed.Some? ==> parsed.value.0 != nonce
  {
    var fused := fragment + RecordLine(nonce, millis);
    if SPACE in fragment {
      var cut := IndexOf(SPACE, fragment);
      assert fragment == fragment[..cut] + [SPACE] + fragment[cut + 1..];
      FusedAfterSpace(fragment[..cut], fragment[cut + 1..], nonce, millis);
    } else {
      assert fused == (fragment + nonce) + [SPACE] + FormatInt(millis);
      IndexOfFirst(SPACE, fragment + nonce, FormatInt(millis));
      assert fused[..|fragment + nonce|] == fragment + nonce;
    }
  }

  /** The head of a file up to its last line feed, and the fragment after it. */
  lemma {:induction false} SplitAtLastFeed(file: Bytes) returns (head: Bytes, fragment: Bytes)
    ensures file == head + fragment && Terminated(head) && LF !in fragment
    ensures Terminated(file) <==> fragment == []
  {
    if Terminated(file) {
      head, fragment := file, [];
    } else {
      var last := file[|file| - 1];
      var h, f := SplitAtLastFeed(file[..|file| - 1]);
      head, fragment := h, f + [last];
      assert file == file[..|file| - 1] + [last];
    }
  }

  /**
   * Appends write no leading line feed, so a record of a nonce the file does not
   * already hold is remembered by the next scan exactly when the file ended on a
   * record boundary; after a torn fragment the new record is lost.
   */
  lemma {:induction false} AppendSurvivesIffTerminated(file: Bytes, nonce: Bytes, millis: int)
    requires nonce != [] && Breakless(nonce) && IsInt64(millis)
    requires nonce !in Recall(RawLines(file))
    ensures nonce in Recall(RawLines(file + RecordText(nonce, millis))) <==> Terminated(file)
  {
    if Terminated(file) {
      AppendRecalls(file, nonce, millis);
    } else {
      var head, fragment := SplitAtLastFeed(file);
      FusedScan(head, fragment, nonce, millis);
      FusedLineIsNotTheRecord(fragment, nonce, millis);
      RawLinesSplit(head, fragment);
      RawLinesOne(fragment);
      RecallSnoc(RawLines(head), fragment);
      RecallSnoc(RawLines(head), fragment + RecordLine(nonce, millis));
    }
  }

  lemma {:induction false} FusedScan(head: Bytes, fragment: Bytes, nonce: Bytes, millis: int)
    requires Terminated(head) && LF !in fragment && Breakless(nonce)
    ensures RawLines(head + fragment + RecordText(nonce, millis))
         == RawLines(head) + [fragment + RecordLine(nonce, millis)]
    ensures DropReturn(fragment + RecordLine(nonce, millis)) == fragment + RecordLine(nonce, millis)
  {
    var fused := fragment + RecordLine(nonce, millis);
    FusedEnds(fragment, nonce, millis);
    RecordLineShape(nonce, millis);
    assert head + fragment + RecordText(nonce, millis) == head + (fused + [LF]);
    RawLinesSplit(head, fused + [LF]);
    RawLinesOne(fused);
  }

  /** A torn but readable record is swallowed by the next append as well. */
  lemma {:induction false} TornRecordIsSwallowed(head: Bytes, torn: Bytes, tornMillis: int, nonce: Bytes, millis: int)
    requires Terminated(head) && torn != [] && nonce != []
    requires Breakless(torn) && Breakless(nonce) && IsInt64(tornMillis)
    ensures var file := head + RecordLine(torn, tornMillis);
            && torn in Recall(RawLines(file))
            && Recall(RawLines(file + RecordText(nonce, millis))) == Recall(RawLines(head))
  {
    var fragment := RecordLine(torn, tornMillis);
    RecordLineShape(torn, tornMillis);
    RawLinesSplit(head, fragment);
    RawLinesOne(fragment);
    RecordReadsBack(torn, tornMillis);
    RecallSnoc(RawLines(head), fragment);
    FusedScan(head, fragment, nonce, millis);
    FusedAfterSpace(torn, FormatInt(tornMillis), nonce, millis);
    RecallSnoc(RawLines(head), fragment + RecordLine(nonce, millis));
  }
}
