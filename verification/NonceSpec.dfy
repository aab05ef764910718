/** The replay store as a function of its state: what each call answers and leaves
    in memory and on disk, for every fault, clock reading and map iteration order. */
module NonceSpec {
  import opened Wrappers
  import opened Bytes
  import opened NonceFile
  import opened Listings

  const MAX_REMEMBERED_NONCES := 10_000
  const PRUNE_EVERY := 256

  // ------------------------------------------------------------------- state

  /** The file on disk and what one process holds in memory. */
  datatype Store = Store(
    limit: nat, disk: Option<Bytes>, seen: map<Bytes, int>, appends: nat, loaded: bool)

  /** A failed read leaves so many whole lines, and so many bytes of the next one. */
  datatype LoadFault = NoFault | OpenFails | ReadFailsAfter(lines: nat, more: nat)

  /** A failed append wrote nothing, or left this many bytes of its record behind. */
  datatype AppendFault = Appends | AppendFails(written: Option<nat>)

  /** The operation of a rewrite that fails, in the order they are tried; a record write fails after some records. */
  datatype RewriteFault =
    | Rewrites | NoDirectory | NoTemporary | NotWritten(after: nat) | NotFlushed | NotRestricted | NotSynced
    | NotClosed | NotRenamed

  /** Everything one call learns from the clock and the file system. */
  datatype Io = Io(
    load: LoadFault, loadAt: int, fullAt: int, append: AppendFault, pruneAt: int, rewrite: RewriteFault)

  datatype Answer = Fresh | Replayed | Full | Malformed | Unreadable | Unwritable

  /** Where a crash can interrupt a call, in file-operation order. */
  datatype Interruption = BeforeAppend | DuringAppend(written: nat) | AfterAppend | AfterRewrite

  datatype Outcome = Outcome(after: Store, answer: Answer)

  // ----------------------------------------------------------- specification

  function Prune(seen: map<Bytes, int>, now: int): map<Bytes, int> {
    map nonce | nonce in seen && seen[nonce] > now :: seen[nonce]
  }

  function Merge(a: map<Bytes, int>, b: map<Bytes, int>): map<Bytes, int> {
    a + b
  }

  lemma {:induction false} MergeAbsorb(a: map<Bytes, int>, held: map<Bytes, int>, line: Bytes)
    ensures Merge(a, Absorb(held, line)) == Absorb(Merge(a, held), line)
  {
  }

  /** The bytes read of a line the read failed in are handed over like a line, as far as the buffer holds them. */
  function Fragment(line: Bytes, more: nat): (part: seq<Bytes>)
    ensures |part| <= 1
  {
    var p := Least(more, Least(|line|, LINE_LIMIT - 1));
    if p == 0 then [] else [line[..p]]
  }

  function Least(a: nat, b: nat): (m: nat)
    ensures m <= a && m <= b && (m == a || m == b)
  {
    if a <= b then a else b
  }

  /** What the scanner hands over, and whether it got through to the end. */
  function Scanned(lines: seq<Bytes>, fault: LoadFault): (seq<Bytes>, bool) {
    var stop := Readable(lines);
    match fault
    case ReadFailsAfter(n, more) =>
      if n <= stop && n < |lines| then (lines[..n] + Fragment(lines[n], more), false) else (lines[..stop], false)
    case _ => (lines[..stop], stop == |lines|)
  }

  /** Reads the file once per process. */
  function Load(s: Store, io: Io): (Store, bool) {
    if s.loaded then (s, true)
    else if io.load.OpenFails? then (s, false)
    else if s.disk.None? then (s.(loaded := true), true)
    else
      var (handed, complete) := Scanned(RawLines(s.disk.value), io.load);
      var seen := Merge(s.seen, Recall(handed));
      if complete then (s.(seen := Prune(seen, io.loadAt), loaded := true), true)
      else (s.(seen := seen), false)
  }

  /** The store after pruning to make room, when it is at its bound. */
  function MakeRoom(s: Store, io: Io): Store {
    if |s.seen| >= s.limit then s.(seen := Prune(s.seen, io.fullAt)) else s
  }

  function Take(record: Bytes, n: nat): Bytes {
    if n <= |record| then record[..n] else record
  }

  /** The disk after an append that may have stopped early. */
  function AppendTo(disk: Option<Bytes>, record: Bytes, fault: AppendFault): Option<Bytes> {
    match fault
    case Appends => Some(Text(disk) + record)
    case AppendFails(None) => disk
    case AppendFails(Some(n)) => Some(Text(disk) + Take(record, n))
  }

  /** The rewritten file: one record for each nonce, in the map's iteration order. */
  function Render(seen: map<Bytes, int>, order: seq<Bytes>): Bytes
    requires forall i :: 0 <= i < |order| ==> order[i] in seen
  {
    if order == [] then []
    else
      var last := order[|order| - 1];
      Render(seen, order[..|order| - 1]) + RecordText(last, seen[last] / NANOS)
  }

  /** The amortised prune and rewrite that follow a successful append. */
  function Settle(s: Store, io: Io, order: seq<Bytes>): Store
    requires s.appends >= PRUNE_EVERY && io.rewrite.Rewrites? ==> Lists(order, Prune(s.seen, io.pruneAt).Keys)
  {
    if s.appends < PRUNE_EVERY then s
    else
      var pruned := s.(seen := Prune(s.seen, io.pruneAt));
      if !io.rewrite.Rewrites? then pruned
      else pruned.(disk := Some(Render(pruned.seen, order)), appends := 0)
  }

  /** Once `nonce` is known to be new and there is room for it. */
  function Record(s: Store, nonce: Bytes, expiresAt: int): Store {
    s.(disk := Some(Text(s.disk) + RecordText(nonce, expiresAt / NANOS)),
       seen := s.seen[nonce := expiresAt],
       appends := s.appends + 1)
  }

  /** `order` is the map iteration order a rewrite in this call would use. */
  ghost predicate OrderFits(s: Store, nonce: Bytes, expiresAt: int, io: Io, order: seq<Bytes>) {
    Lists(order, Prune(MakeRoom(Load(s, io).0, io).seen[nonce := expiresAt], io.pruneAt).Keys)
  }

  /** A nonce the loaded map does not hold. */
  function Admit(l: Store, nonce: Bytes, expiresAt: int, io: Io, order: seq<Bytes>): Outcome
    requires Lists(order, Prune(MakeRoom(l, io).seen[nonce := expiresAt], io.pruneAt).Keys)
  {
    var room := MakeRoom(l, io);
    if |room.seen| >= room.limit then Outcome(room, Full)
    else if io.append.AppendFails? then
      var record := RecordText(nonce, expiresAt / NANOS);
      Outcome(room.(disk := AppendTo(room.disk, record, io.append)), Unwritable)
    else
      Outcome(Settle(Record(room, nonce, expiresAt), io, order), Fresh)
  }

  function Remember(s: Store, nonce: Bytes, expiresAt: int, io: Io, order: seq<Bytes>): Outcome
    requires OrderFits(s, nonce, expiresAt, io, order)
  {
    if nonce == [] || !Breakless(nonce) then Outcome(s, Malformed)
    else
      var (l, ok) := Load(s, io);
      if !ok then Outcome(l, Unreadable)
      else if nonce in l.seen then Outcome(l, Replayed)
      else Admit(l, nonce, expiresAt, io, order)
  }

  /** A new process over whatever the last one left on disk. */
  function Restart(s: Store): Store {
    s.(seen := map[], appends := 0, loaded := false)
  }

  /** The disk a crash at `point` of a call leaves; a point the call does not reach
      leaves the disk its last file operation before the end left. */
  function CrashDisk(
    s: Store, nonce: Bytes, expiresAt: int, io: Io, order: seq<Bytes>, point: Interruption): Option<Bytes>
    requires OrderFits(s, nonce, expiresAt, io, order)
  {
    var outcome := Remember(s, nonce, expiresAt, io, order);
    if outcome.answer != Fresh then
      if point.BeforeAppend? then s.disk else outcome.after.disk
    else
      var record := RecordText(nonce, expiresAt / NANOS);
      match point
      case BeforeAppend => s.disk
      case DuringAppend(n) => Some(Text(s.disk) + Take(record, n))
      case AfterAppend => Some(Text(s.disk) + record)
      case AfterRewrite => outcome.after.disk
  }
}
