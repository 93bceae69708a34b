/**
 * The raw bring-up log: a two-slot ring past the end of the filesystem, its writer, and the host-side
 * reader. Power may be cut at any point of the writer.
 *
 * Assumed of the hardware: the one-block header write is atomic, and a write either completes or
 * power is cut during it, leaving anything at all in the bytes it was to cover.
 */
module BringupLog {
  import opened Common
  import opened Disk
  import opened Layout
  import H = LogHeader

  // ---------------------------------------------------------------- slots

  const MAX_PAYLOAD := Bytes(PAYLOAD_BLOCKS)
  const RING_END := Bytes(SLOT_B + SLOT_BLOCKS)

  datatype Side = A | B

  /** The slot the `n`th snapshot of a boot goes to. */
  function SideOf(n: nat): Side {
    if n % 2 == 1 then A else B
  }

  function Other(side: Side): Side {
    if side.A? then B else A
  }

  lemma SidesAlternate(n: nat)
    ensures SideOf(n + 1) == Other(SideOf(n))
  {
  }

  function Slot(side: Side): nat {
    if side.A? then SLOT_A else SLOT_B
  }

  function HeaderAt(side: Side): nat {
    Bytes(Slot(side))
  }

  function PayloadAt(side: Side): nat {
    Bytes(Slot(side) + 1)
  }

  // ---------------------------------------------------------------- the reader

  datatype Candidate = Candidate(slot: nat, seqNo: nat, bytes: string)

  datatype Refusal = NoSlot | NoPayload | BadCount

  /** `${v:-0}` */
  function OrZero(v: string): string {
    if v == "" then "0" else v
  }

  function HeaderLine(d: string, slot: nat): string {
    H.FirstLine(ReadAt(d, Bytes(slot), BLOCK))
  }

  /** One round of the reader's loop. A `seq` that is no number fails the test and loses. */
  function Consider(best: Option<Candidate>, d: string, slot: nat): Option<Candidate> {
    var header := HeaderLine(d, slot);
    if !(H.MAGIC + " " <= header) then best
    else
      match H.Number(OrZero(H.Field(header, "seq")))
      case None => best
      case Some(n) =>
        if best.None? || n > best.value.seqNo then Some(Candidate(slot, n, OrZero(H.Field(header, "bytes")))) else best
  }

  function Select(d: string): Option<Candidate> {
    Consider(Consider(None, d, SLOT_A), d, SLOT_B)
  }

  function ReadChosen(d: string, choice: Option<Candidate>): Result<string, Refusal> {
    match choice
    case None => Err(NoSlot)
    case Some(c) =>
      match H.Number(c.bytes)
      case None => Err(BadCount)
      case Some(n) => if n == 0 then Err(NoPayload) else Ok(ReadAt(d, Bytes(c.slot + 1), n))
  }

  /** Whole blocks that cover so many bytes. */
  function BlocksFor(bytes: nat): nat {
    (bytes + 4095) / 4096
  }

  function Read(d: string): Result<string, Refusal> {
    ReadChosen(d, Select(d))
  }

  /** Nothing below the ring has a part in what is read. */
  lemma ReadSeesOnlyTheRing(d: string, d': string)
    requires |d'| == |d| >= Bytes(SLOT_A) && d'[Bytes(SLOT_A)..] == d[Bytes(SLOT_A)..]
    ensures Read(d') == Read(d)
  {
    hide H.FirstLine, H.Field, H.Number;
    RingReads(d, d', Bytes(SLOT_A), BLOCK);
    RingReads(d, d', Bytes(SLOT_B), BLOCK);
    var choice := Select(d);
    if choice.Some? && H.Number(choice.value.bytes).Some? {
      RingReads(d, d', Bytes(choice.value.slot + 1), H.Number(choice.value.bytes).value);
    }
  }

  lemma RingReads(d: string, d': string, at: nat, n: nat)
    requires |d'| == |d| >= Bytes(SLOT_A) && d'[Bytes(SLOT_A)..] == d[Bytes(SLOT_A)..] && at >= Bytes(SLOT_A)
    ensures ReadAt(d', at, n) == ReadAt(d, at, n)
  {
    if at < |d| {
      SliceOutside(d, d', 0, Bytes(SLOT_A), at, if at + n >= |d| then |d| else at + n);
    }
  }

  method ReadLog(dev: array<char>) returns (r: Result<string, Refusal>)
    ensures r == Read(dev[..])
  {
    var d := dev[..];
    var bestSlot: int := -1;
    var bestSeq: int := -1;
    var bestBytes := "0";
    var slots := [SLOT_A, SLOT_B];
    ghost var best: Option<Candidate> := None;
    for i := 0 to 2
      invariant best == if i == 0 then None else if i == 1 then Consider(None, d, SLOT_A) else Select(d)
      invariant best.None? ==> bestSlot == -1 && bestSeq == -1
      invariant best.Some? ==> bestSlot >= 0 && bestSeq >= 0 && best.value == Candidate(bestSlot, bestSeq, bestBytes)
    {
      var slot := slots[i];
      best := Consider(best, d, slot);
      var header := H.FirstLine(ReadAt(d, Bytes(slot), BLOCK));
      if !(H.MAGIC + " " <= header) {
        continue;
      }
      var number := H.Number(OrZero(H.Field(header, "seq")));
      var bytes := OrZero(H.Field(header, "bytes"));
      if number.Some? && number.value > bestSeq {
        bestSeq := number.value;
        bestSlot := slot;
        bestBytes := bytes;
      }
    }
    if bestSlot == -1 {
      return Err(NoSlot);
    }
    var count := H.Number(bestBytes);
    if count.None? {
      return Err(BadCount);
    }
    if count.value <= 0 {
      return Err(NoPayload);
    }
    var blocks := BlocksFor(count.value);
    var text := ReadAt(d, Bytes(bestSlot + 1), Bytes(blocks));
    assert Bytes(blocks) >= count.value;
    assert (if |text| <= count.value then text else text[..count.value]) == ReadAt(d, Bytes(bestSlot + 1), count.value);
    return Ok(if |text| <= count.value then text else text[..count.value]);
  }

  // ---------------------------------------------------------------- a boot, step by step

  /** A snapshot as it goes to flash: the captured text and the header line printed for it. */
  datatype Snapshot = Snapshot(payload: string, line: string)

  /** Payload and header stay within their blocks, and the header is one line. */
  ghost predicate Sized(s: Snapshot) {
    |s.payload| <= MAX_PAYLOAD && |s.line| < BLOCK && H.OneLine(s.line)
  }

  ghost predicate Printed(s: Snapshot, n: nat) {
    exists uptime :: H.Word(uptime) && s.line == H.Line(n, uptime, |s.payload|)
  }

  ghost predicate Fits(s: Snapshot, n: nat) {
    Sized(s) && Printed(s, n)
  }

  datatype Phase = Idle | Payload(next: Snapshot) | Header(next: Snapshot)

  /** The device, the snapshots whose headers are on flash, and what the writer is doing. */
  datatype Boot = Boot(dev: string, done: seq<Snapshot>, phase: Phase)

  /** What `head -c 4096 /dev/zero` writes. */
  function Zeros(): string {
    seq(BLOCK, _ => '\0')
  }

  ghost predicate Zeroed(d: string, at: nat) {
    at + BLOCK <= |d| && d[at..at + BLOCK] == Zeros()
  }

  /** Claims start once both headers are invalidated, over whatever else the device held. */
  ghost predicate Init(b: Boot) {
    && |b.dev| >= RING_END
    && Zeroed(b.dev, Bytes(SLOT_A)) && Zeroed(b.dev, Bytes(SLOT_B))
    && b.done == [] && b.phase == Idle
  }

  ghost predicate Step(b: Boot, b': Boot) {
    || Begins(b, b') || Scribbles(b, b') || Lands(b, b') || Commits(b, b')
  }

  ghost predicate Begins(b: Boot, b': Boot) {
    b.phase.Idle? && b'.phase.Payload? && Fits(b'.phase.next, |b.done| + 1) && b' == b.(phase := b'.phase)
  }

  /** Inside the payload write anything may already be, or still be, in the bytes it covers. */
  ghost predicate Scribbles(b: Boot, b': Boot) {
    var at := PayloadAt(SideOf(|b.done| + 1));
    && b.phase.Payload?
    && b' == b.(dev := b'.dev)
    && at + |b.phase.next.payload| <= |b.dev|
    && SameOutside(b.dev, b'.dev, at, at + |b.phase.next.payload|)
  }

  ghost predicate Lands(b: Boot, b': Boot) {
    var at := PayloadAt(SideOf(|b.done| + 1));
    && b.phase.Payload?
    && at + |b.phase.next.payload| <= |b.dev|
    && b' == Boot(Overwrite(b.dev, at, b.phase.next.payload), b.done, Header(b.phase.next))
  }

  ghost predicate Commits(b: Boot, b': Boot) {
    var at := HeaderAt(SideOf(|b.done| + 1));
    && b.phase.Header?
    && at + |b.phase.next.line| + 1 <= |b.dev|
    && b' == Boot(Overwrite(b.dev, at, b.phase.next.line + "\n"), b.done + [b.phase.next], Idle)
  }

  ghost predicate IsRun(run: seq<Boot>) {
    && run != [] && Init(run[0])
    && forall i :: 0 <= i < |run| - 1 ==> Step(run[i], run[i + 1])
  }

  lemma RunGrows(run: seq<Boot>, b: Boot)
    requires IsRun(run) && Step(run[|run| - 1], b)
    ensures IsRun(run + [b])
  {
    var all := run + [b];
    forall i | 0 <= i < |all| - 1 ensures Step(all[i], all[i + 1]) {
      if i < |run| - 1 {
        assert Step(run[i], run[i + 1]);
      }
    }
  }

  // ---------------------------------------------------------------- what every state keeps

  /** A header block starts with this line. */
  ghost predicate Headed(d: string, side: Side, line: string) {
    HeaderAt(side) + |line| + 1 <= |d| && d[HeaderAt(side)..HeaderAt(side) + |line| + 1] == line + "\n"
  }

  /** The slot carries the header snapshot `k` was committed with, or zeros if there is no such snapshot. */
  ghost predicate Labelled(d: string, side: Side, done: seq<Snapshot>, k: int) {
    if 1 <= k <= |done| then Headed(d, side, done[k - 1].line) else Zeroed(d, HeaderAt(side))
  }

  ghost predicate Holds(d: string, side: Side, payload: string) {
    PayloadAt(side) + |payload| <= |d| && d[PayloadAt(side)..PayloadAt(side) + |payload|] == payload
  }

  ghost predicate Sizes(b: Boot) {
    && |b.dev| >= RING_END
    && (forall i :: 0 <= i < |b.done| ==> Sized(b.done[i]))
    && (!b.phase.Idle? ==> Sized(b.phase.next))
  }

  /** The newest slot is whole. */
  ghost predicate Newest(b: Boot) {
    var n := |b.done|;
    && Labelled(b.dev, SideOf(n), b.done, n)
    && (n >= 1 ==> Holds(b.dev, SideOf(n), b.done[n - 1].payload))
  }

  /** The other slot carries the header of the snapshot before, or none; its payload is that snapshot's
      only while no write is under way. */
  ghost predicate Previous(b: Boot) {
    var n := |b.done|;
    && Labelled(b.dev, Other(SideOf(n)), b.done, n - 1)
    && (n >= 2 && b.phase.Idle? ==> Holds(b.dev, Other(SideOf(n)), b.done[n - 2].payload))
  }

  ghost predicate Pending(b: Boot) {
    b.phase.Header? ==> Holds(b.dev, Other(SideOf(|b.done|)), b.phase.next.payload)
  }

  ghost predicate Ring(b: Boot) {
    Sizes(b) && Newest(b) && Previous(b) && Pending(b)
  }

  ghost predicate Numbered(b: Boot) {
    && (forall i :: 0 <= i < |b.done| ==> Printed(b.done[i], i + 1))
    && (!b.phase.Idle? ==> Printed(b.phase.next, |b.done| + 1))
  }

  /** A write elsewhere leaves a slot labelled as it was. */
  lemma LabelUntouched(d: string, d': string, from: nat, to: nat, side: Side, done: seq<Snapshot>, k: int)
    requires from <= to <= |d| && SameOutside(d, d', from, to)
    requires HeaderAt(side) + BLOCK <= from || to <= HeaderAt(side)
    requires 1 <= k <= |done| ==> |done[k - 1].line| < BLOCK
    requires Labelled(d, side, done, k)
    ensures Labelled(d', side, done, k)
  {
    var length := if 1 <= k <= |done| then |done[k - 1].line| + 1 else BLOCK;
    SliceOutside(d, d', from, to, HeaderAt(side), HeaderAt(side) + length);
  }

  lemma PayloadUntouched(d: string, d': string, from: nat, to: nat, side: Side, payload: string)
    requires from <= to <= |d| && SameOutside(d, d', from, to) && Holds(d, side, payload)
    requires PayloadAt(side) + |payload| <= from || to <= PayloadAt(side)
    ensures Holds(d', side, payload)
  {
    SliceOutside(d, d', from, to, PayloadAt(side), PayloadAt(side) + |payload|);
  }

  /** No write to the payload of the next slot can be seen in either header or in the newest payload. */
  lemma PayloadWriteKeepsRing(b: Boot, d': string, phase: Phase)
    requires Ring(b) && b.phase.Payload? && (phase.Payload? || phase.Header?) && phase.next == b.phase.next
    requires var at := PayloadAt(SideOf(|b.done| + 1)); SameOutside(b.dev, d', at, at + |b.phase.next.payload|)
    requires phase.Header? ==> Holds(d', SideOf(|b.done| + 1), b.phase.next.payload)
    ensures Ring(Boot(d', b.done, phase))
  {
    hide Headed, Zeroed;
    var n := |b.done|;
    SidesAlternate(n);
    var here, next := SideOf(n), Other(SideOf(n));
    var from, to := PayloadAt(next), PayloadAt(next) + |b.phase.next.payload|;
    assert Newest(Boot(d', b.done, phase)) by {
      LabelUntouched(b.dev, d', from, to, here, b.done, n);
      if n >= 1 {
        PayloadUntouched(b.dev, d', from, to, here, b.done[n - 1].payload);
      }
    }
    LabelUntouched(b.dev, d', from, to, next, b.done, n - 1);
  }

  lemma CommitKeepsRing(b: Boot, d': string)
    requires Ring(b) && b.phase.Header?
    requires var at := HeaderAt(SideOf(|b.done| + 1)); SameOutside(b.dev, d', at, at + |b.phase.next.line| + 1)
    requires Headed(d', SideOf(|b.done| + 1), b.phase.next.line)
    ensures Ring(Boot(d', b.done + [b.phase.next], Idle))
  {
    hide SideOf, Zeroed;
    var n := |b.done|;
    var s := b.phase.next;
    SidesAlternate(n);
    var here, next := SideOf(n), Other(SideOf(n));
    var from, to := HeaderAt(next), HeaderAt(next) + |s.line| + 1;
    PayloadUntouched(b.dev, d', from, to, next, s.payload);
    LabelUntouched(b.dev, d', from, to, here, b.done, n);
    if n >= 1 {
      PayloadUntouched(b.dev, d', from, to, here, b.done[n - 1].payload);
    }
    CommittedRing(d', b.done, s);
  }

  /** The two slots swap roles: what was newest is now the one before. */
  lemma CommittedRing(d: string, done: seq<Snapshot>, s: Snapshot)
    requires |d| >= RING_END && Sized(s) && forall i :: 0 <= i < |done| ==> Sized(done[i])
    requires var side := SideOf(|done|);
             && Headed(d, Other(side), s.line) && Holds(d, Other(side), s.payload)
             && Labelled(d, side, done, |done|)
             && (|done| >= 1 ==> Holds(d, side, done[|done| - 1].payload))
    ensures Ring(Boot(d, done + [s], Idle))
  {
    hide SideOf, Sized, Headed, Holds, Zeroed;
    var n := |done|;
    SidesAlternate(n);
    assert (done + [s])[n] == s;
    assert n >= 1 ==> (done + [s])[n - 1] == done[n - 1];
  }

  lemma LandKeepsRing(b: Boot, b': Boot)
    requires Ring(b) && Lands(b, b')
    ensures Ring(b')
  {
    PayloadWriteKeepsRing(b, b'.dev, b'.phase);
  }

  lemma HeaderWriteKeepsRing(b: Boot, b': Boot)
    requires Ring(b) && Commits(b, b')
    ensures Ring(b')
  {
    hide Newest, Previous, Pending, Sized, Zeroed;
    CommitKeepsRing(b, b'.dev);
  }

  lemma StepKeepsRing(b: Boot, b': Boot)
    requires Ring(b) && Step(b, b')
    ensures Ring(b')
  {
    if Begins(b, b') {
    } else if Scribbles(b, b') {
      PayloadWriteKeepsRing(b, b'.dev, b.phase);
    } else if Lands(b, b') {
      LandKeepsRing(b, b');
    } else {
      HeaderWriteKeepsRing(b, b');
    }
  }

  lemma StepKeepsNumbers(b: Boot, b': Boot)
    requires Numbered(b) && Step(b, b')
    ensures Numbered(b')
  {
    if Commits(b, b') {
      assert forall i :: 0 <= i < |b.done| ==> b'.done[i] == b.done[i];
    }
  }

  lemma {:induction false} RunKeepsRing(run: seq<Boot>, i: nat)
    requires IsRun(run) && i < |run|
    ensures Ring(run[i]) && Numbered(run[i])
  {
    if i == 0 {
    } else {
      RunKeepsRing(run, i - 1);
      assert Step(run[i - 1], run[i - 1 + 1]);
      StepKeepsRing(run[i - 1], run[i]);
      StepKeepsNumbers(run[i - 1], run[i]);
    }
  }

  // ---------------------------------------------------------------- what the reader says of it

  /** The candidate a committed snapshot makes. */
  function CandidateOf(s: Snapshot, n: nat): Candidate {
    Candidate(Slot(SideOf(n)), n, H.Decimal(|s.payload|))
  }

  lemma ZeroedHasNoLine(d: string, slot: nat)
    requires Zeroed(d, Bytes(slot))
    ensures HeaderLine(d, slot) == ""
  {
    H.ZerosHoldNoLine(Zeros());
    assert ReadAt(d, Bytes(slot), BLOCK) == d[Bytes(slot)..Bytes(slot) + BLOCK];
  }

  /** The first line is the new header's, however long the header it was printed over. */
  lemma HeadedReads(d: string, side: Side, line: string)
    requires Headed(d, side, line) && HeaderAt(side) + BLOCK <= |d| && |line| < BLOCK && H.OneLine(line)
    ensures HeaderLine(d, Slot(side)) == line
  {
    var at := HeaderAt(side);
    var to := at + |line| + 1;
    assert d[at..at + BLOCK] == line + "\n" + d[to..at + BLOCK];
    H.FirstLineStops(line, d[to..at + BLOCK]);
    assert ReadAt(d, at, BLOCK) == d[at..at + BLOCK];
  }

  function Better(best: Option<Candidate>, c: Candidate): Option<Candidate> {
    if best.None? || c.seqNo > best.value.seqNo then Some(c) else best
  }

  lemma ConsidersNone(best: Option<Candidate>, d: string, slot: nat)
    requires Zeroed(d, Bytes(slot))
    ensures Consider(best, d, slot) == best
  {
    ZeroedHasNoLine(d, slot);
  }

  lemma ConsidersSnapshot(best: Option<Candidate>, d: string, s: Snapshot, n: nat)
    requires Printed(s, n) && Sized(s) && HeaderAt(SideOf(n)) + BLOCK <= |d| && Headed(d, SideOf(n), s.line)
    ensures Consider(best, d, Slot(SideOf(n))) == Better(best, CandidateOf(s, n))
  {
    HeadedReads(d, SideOf(n), s.line);
    var uptime :| H.Word(uptime) && s.line == H.Line(n, uptime, |s.payload|);
    H.FieldsReadBack(n, uptime, |s.payload|);
    H.DecimalReadsBack(n);
    H.DecimalReadsBack(|s.payload|);
  }

  /** What a round makes of the slot of snapshot `k`, if there is one. */
  function Offer(best: Option<Candidate>, done: seq<Snapshot>, k: int): Option<Candidate> {
    if 1 <= k <= |done| then Better(best, CandidateOf(done[k - 1], k)) else best
  }

  lemma ConsidersLabelled(best: Option<Candidate>, b: Boot, side: Side, k: int)
    requires Sizes(b) && Numbered(b) && Labelled(b.dev, side, b.done, k)
    requires 1 <= k <= |b.done| ==> SideOf(k) == side
    ensures Consider(best, b.dev, Slot(side)) == Offer(best, b.done, k)
  {
    if 1 <= k <= |b.done| {
      ConsidersSnapshot(best, b.dev, b.done[k - 1], k);
    } else {
      ConsidersNone(best, b.dev, Slot(side));
    }
  }

  lemma SelectsNewest(b: Boot)
    requires Ring(b) && Numbered(b)
    ensures Select(b.dev) == if b.done == [] then None else Some(CandidateOf(b.done[|b.done| - 1], |b.done|))
  {
    hide Consider, Headed, Zeroed, Sized, Printed;
    var n := |b.done|;
    if n >= 1 {
      SidesAlternate(n - 1);
    }
    if SideOf(n).A? {
      ConsidersLabelled(None, b, A, n);
      ConsidersLabelled(Offer(None, b.done, n), b, B, n - 1);
    } else {
      ConsidersLabelled(None, b, A, n - 1);
      ConsidersLabelled(Offer(None, b.done, n - 1), b, B, n);
    }
  }

  lemma ReadsItsPayload(d: string, s: Snapshot, n: nat)
    requires Holds(d, SideOf(n), s.payload)
    ensures ReadChosen(d, Some(CandidateOf(s, n))) == if s.payload == "" then Err(NoPayload) else Ok(s.payload)
  {
    H.DecimalReadsBack(|s.payload|);
    hide H.Decimal, H.Number;
    if s.payload != "" {
      var at := PayloadAt(SideOf(n));
      assert ReadAt(d, at, |s.payload|) == d[at..at + |s.payload|];
    }
  }

  /** In every state a boot can reach, inside a payload write included, the reader returns the payload
      of the last snapshot whose header is on flash, and refuses when there is none or it is empty. */
  lemma ReaderIsRightWheneverPowerIsCut(run: seq<Boot>, i: nat)
    requires IsRun(run) && i < |run|
    ensures var done := run[i].done;
            Read(run[i].dev) == if done == [] then Err(NoSlot)
                                else if done[|done| - 1].payload == "" then Err(NoPayload)
                                else Ok(done[|done| - 1].payload)
  {
    RunKeepsRing(run, i);
    var b := run[i];
    SelectsNewest(b);
    if b.done != [] {
      ReadsItsPayload(b.dev, b.done[|b.done| - 1], |b.done|);
    }
  }

  /** The whole blocks the reader asks for cover the payload and lie inside the slot it chose. */
  lemma ReadStaysInItsSlot(run: seq<Boot>, i: nat)
    requires IsRun(run) && i < |run| && Select(run[i].dev).Some?
    ensures var c := Select(run[i].dev).value;
            && (c.slot == SLOT_A || c.slot == SLOT_B)
            && H.Number(c.bytes).Some?
            && H.Number(c.bytes).value <= Bytes(BlocksFor(H.Number(c.bytes).value))
            && c.slot + 1 + BlocksFor(H.Number(c.bytes).value) <= c.slot + SLOT_BLOCKS
  {
    RunKeepsRing(run, i);
    SelectsNewest(run[i]);
    H.DecimalReadsBack(|run[i].done[|run[i].done| - 1].payload|);
  }

  /** Where the newest snapshot lies, in numbers: odd ones from block 4194304 on, even ones from 4210688. */
  lemma NewestInNumbers(run: seq<Boot>, i: nat)
    requires IsRun(run) && i < |run| && run[i].done != []
    ensures var b, n := run[i], |run[i].done|;
            var at := (if n % 2 == 1 then 4194304 else 4210688) * 4096;
            && at + 4096 + |b.done[n - 1].payload| <= |b.dev|
            && H.FirstLine(b.dev[at..at + 4096]) == b.done[n - 1].line
            && b.dev[at + 4096..at + 4096 + |b.done[n - 1].payload|] == b.done[n - 1].payload
  {
    var b, n := run[i], |run[i].done|;
    RunKeepsRing(run, i);
    HeadedReads(b.dev, SideOf(n), b.done[n - 1].line);
    var at := HeaderAt(SideOf(n));
    assert ReadAt(b.dev, at, BLOCK) == b.dev[at..at + BLOCK];
  }

  /** A slot whose first line is a header with a number in its `seq` field. */
  ghost predicate Bids(d: string, slot: nat, n: nat) {
    H.MAGIC + " " <= HeaderLine(d, slot) && H.Number(OrZero(H.Field(HeaderLine(d, slot), "seq"))) == Some(n)
  }

  /** On any device at all: the higher number wins, slot A on a tie, and nothing is chosen only if neither
      slot has a number. */
  lemma HigherNumberWins(d: string)
    ensures Select(d).None? <==> forall n: nat :: !Bids(d, 4194304, n) && !Bids(d, 4210688, n)
    ensures Select(d).Some? ==> Bids(d, Select(d).value.slot, Select(d).value.seqNo)
    ensures Select(d).Some? && Select(d).value.slot == 4194304 ==> forall n: nat :: Bids(d, 4210688, n) ==> n <= Select(d).value.seqNo
    ensures Select(d).Some? && Select(d).value.slot != 4194304 ==>
              Select(d).value.slot == 4210688 && forall n: nat :: Bids(d, 4194304, n) ==> n < Select(d).value.seqNo
  {
    hide H.Field, H.Number, H.FirstLine;
    assert Select(d).None? ==> forall n: nat :: !Bids(d, 4194304, n);
    if Consider(None, d, SLOT_A).Some? {
      assert Bids(d, 4194304, Consider(None, d, SLOT_A).value.seqNo);
    }
    if Select(d).Some? && Select(d).value.slot == 4210688 {
      assert Bids(d, 4210688, Select(d).value.seqNo);
    }
  }

  /** What is read once a slot is chosen, on any device: nothing if its header has no `bytes` or says zero,
      an error if it says no number, and otherwise that many bytes from the slot's second block on. */
  lemma ReadsWhatItChose(d: string)
    requires Select(d).Some?
    ensures var slot := Select(d).value.slot;
            var v := H.Field(HeaderLine(d, slot), "bytes");
            && (v == "" || H.Number(v) == Some(0) ==> Read(d) == Err(NoPayload))
            && (v != "" && H.Number(v) == None ==> Read(d) == Err(BadCount))
            && (v != "" && H.Number(v).Some? && H.Number(v).value > 0 && (slot + 1) * 4096 + H.Number(v).value <= |d| ==>
                  Read(d) == Ok(d[(slot + 1) * 4096..(slot + 1) * 4096 + H.Number(v).value]))
  {
    hide H.Field, H.FirstLine;
    assert H.Number("0") == Some(0);
    ChosenBytes(d);
    hide H.Number, Select;
    var slot, v := Select(d).value.slot, H.Field(HeaderLine(d, Select(d).value.slot), "bytes");
    if v != "" && H.Number(v).Some? && (slot + 1) * 4096 + H.Number(v).value <= |d| {
      var at, n := (slot + 1) * 4096, H.Number(v).value;
      assert at == Bytes(slot + 1);
      assert n > 0 ==> ReadAt(d, at, n) == d[at..at + n];
    }
  }

  lemma ChosenBytes(d: string)
    requires Select(d).Some?
    ensures Select(d).value.bytes == OrZero(H.Field(HeaderLine(d, Select(d).value.slot), "bytes"))
  {
    hide H.Field, H.FirstLine, H.Number, OrZero;
  }

  // ---------------------------------------------------------------- what a cut leaves under the other header

  /** The slot being written, if it has a header, still holds the payload that header was printed for. */
  ghost predicate Described(b: Boot) {
    |b.done| >= 2 ==> Holds(b.dev, Other(SideOf(|b.done|)), b.done[|b.done| - 2].payload)
  }

  /** Past its first `m` bytes the payload `s` is where it was. */
  ghost predicate KeepsPast(d: string, at: nat, s: string, m: nat) {
    m < |s| ==> at + |s| <= |d| && d[at + m..at + |s|] == s[m..]
  }

  /** What a new payload does not reach of the one it replaces is still there until the commit. */
  ghost predicate Leftover(b: Boot) {
    |b.done| >= 2 && !b.phase.Idle? ==>
      KeepsPast(b.dev, PayloadAt(Other(SideOf(|b.done|))), b.done[|b.done| - 2].payload, |b.phase.next.payload|)
  }

  lemma WholeKeepsPast(d: string, at: nat, s: string, m: nat)
    requires at + |s| <= |d| && d[at..at + |s|] == s
    ensures KeepsPast(d, at, s, m)
  {
    if m < |s| {
      assert d[at + m..at + |s|] == d[at..at + |s|][m..];
    }
  }

  lemma WriteKeepsPast(d: string, d': string, at: nat, s: string, m: nat)
    requires at + m <= |d| && SameOutside(d, d', at, at + m) && KeepsPast(d, at, s, m)
    ensures KeepsPast(d', at, s, m)
  {
    if m < |s| {
      SliceOutside(d, d', at, at + m, at + m, at + |s|);
    }
  }

  lemma StepKeepsLeftover(b: Boot, b': Boot)
    requires Ring(b) && Leftover(b) && Step(b, b')
    ensures Leftover(b')
  {
    hide KeepsPast, Sizes, Newest, Pending, SideOf, Fits;
    var n := |b.done|;
    SidesAlternate(n);
    if n >= 2 && !b'.phase.Idle? {
      var at, earlier, m := PayloadAt(Other(SideOf(n))), b.done[n - 2].payload, |b'.phase.next.payload|;
      if Begins(b, b') {
        WholeKeepsPast(b.dev, at, earlier, m);
      } else {
        WriteKeepsPast(b.dev, b'.dev, at, earlier, m);
      }
    }
  }

  lemma {:induction false} RunKeepsLeftover(run: seq<Boot>, i: nat)
    requires IsRun(run) && i < |run|
    ensures Leftover(run[i])
  {
    if i > 0 {
      RunKeepsLeftover(run, i - 1);
      RunKeepsRing(run, i - 1);
      assert Step(run[i - 1], run[i - 1 + 1]);
      StepKeepsLeftover(run[i - 1], run[i]);
    }
  }

  /** Two payloads have the same bytes as far as both go. */
  ghost predicate Agree(a: string, b: string) {
    forall k :: 0 <= k < |a| && k < |b| ==> a[k] == b[k]
  }

  /** One payload written over the start of another leaves that other exactly if the two agree. */
  lemma OverlaidExactlyWhen(d: string, at: nat, a: string, b: string)
    requires at + |a| <= |d| && d[at..at + |a|] == a
    requires KeepsPast(d, at, b, |a|)
    ensures (at + |b| <= |d| && d[at..at + |b|] == b) <==> Agree(a, b)
  {
    forall k | 0 <= k < |b| && at + |b| <= |d|
      ensures d[at..at + |b|][k] == if k < |a| then a[k] else b[k]
    {
      if k < |a| {
        assert d[at..at + |a|][k] == a[k];
      } else {
        assert d[at + |a|..at + |b|][k - |a|] == b[|a|..][k - |a|];
      }
    }
  }

  /** What the writer's comment promises of a cut between the two writes, the old header over a payload it
      describes, is so exactly if there is no old header yet, or the payload that landed and the one it
      replaced agree as far as both go. */
  lemma CutBetweenTheWrites(run: seq<Boot>, i: nat)
    requires IsRun(run) && i < |run| && run[i].phase.Header?
    ensures var b := run[i];
            Described(b) <==> |b.done| < 2 || Agree(b.phase.next.payload, b.done[|b.done| - 2].payload)
  {
    var b := run[i];
    RunKeepsRing(run, i);
    RunKeepsLeftover(run, i);
    if |b.done| >= 2 {
      OverlaidExactlyWhen(b.dev, PayloadAt(Other(SideOf(|b.done|))), b.phase.next.payload, b.done[|b.done| - 2].payload);
    }
  }

  /** A cut inside the payload write can leave the old header over a payload it does not describe exactly
      from the third snapshot on, and only if neither the new payload nor the one it replaces is empty. */
  lemma TornPayloadUnderValidHeader(run: seq<Boot>, i: nat)
    requires IsRun(run) && i < |run| && run[i].phase.Payload?
    ensures var b := run[i];
            (exists b' :: Scribbles(b, b') && !Described(b'))
            <==> |b.done| >= 2 && b.phase.next.payload != "" && b.done[|b.done| - 2].payload != ""
  {
    var b := run[i];
    var n := |b.done|;
    RunKeepsRing(run, i);
    SidesAlternate(n);
    if n >= 2 {
      var at, next, earlier := PayloadAt(Other(SideOf(n))), b.phase.next.payload, b.done[n - 2].payload;
      if next == "" || earlier == "" {
        forall b' | Scribbles(b, b') ensures Described(b') {
          StaysDescribed(run, i, b');
        }
      } else {
        var torn := OneByteTorn(b.dev, at, at + |next|, earlier[0]);
        var b' := b.(dev := torn);
        assert Scribbles(b, b');
        assert b'.dev[at] == b'.dev[at..at + |earlier|][0];
      }
    }
  }

  /** Nothing can be torn by writing nothing, and an empty payload cannot be torn. */
  lemma StaysDescribed(run: seq<Boot>, i: nat, b': Boot)
    requires IsRun(run) && i < |run| && Scribbles(run[i], b')
    requires |run[i].done| >= 2 && (run[i].phase.next.payload == "" || run[i].done[|run[i].done| - 2].payload == "")
    ensures Described(b')
  {
    var b := run[i];
    var n := |b.done|;
    RunKeepsRing(run, i);
    RunKeepsLeftover(run, i);
    SidesAlternate(n);
    var at, earlier := PayloadAt(Other(SideOf(n))), b.done[n - 2].payload;
    if earlier != "" {
      SliceOutside(b.dev, b'.dev, at, at, at, at + |earlier|);
      assert earlier[0..] == earlier;
    }
  }

  lemma OneByteTorn(d: string, from: nat, to: nat, c: char) returns (d': string)
    requires from < to <= |d|
    ensures SameOutside(d, d', from, to) && d'[from] != c
  {
    d' := Overwrite(d, from, if c == 'x' then "y" else "x");
    assert d'[from] == d'[from..from + 1][0];
    assert d'[to..] == d'[from + 1..][to - from - 1..] && d[to..] == d[from + 1..][to - from - 1..];
  }

  // ---------------------------------------------------------------- such a cut can happen

  lemma PayloadBegun(run: seq<Boot>, s: Snapshot) returns (run': seq<Boot>)
    requires IsRun(run) && run[|run| - 1].phase.Idle? && Fits(s, |run[|run| - 1].done| + 1)
    ensures IsRun(run') && run'[0] == run[0]
    ensures run'[|run'| - 1] == run[|run| - 1].(phase := Payload(s))
  {
    var b' := run[|run| - 1].(phase := Payload(s));
    assert Begins(run[|run| - 1], b');
    RunGrows(run, b');
    run' := run + [b'];
  }

  lemma PayloadLanded(run: seq<Boot>) returns (run': seq<Boot>)
    requires IsRun(run) && run[|run| - 1].phase.Payload?
    ensures IsRun(run') && run'[0] == run[0]
    ensures run'[|run'| - 1].done == run[|run| - 1].done
    ensures run'[|run'| - 1].phase == Header(run[|run| - 1].phase.next)
  {
    var b := run[|run| - 1];
    RunKeepsRing(run, |run| - 1);
    var b' := Boot(Overwrite(b.dev, PayloadAt(SideOf(|b.done| + 1)), b.phase.next.payload), b.done, Header(b.phase.next));
    assert Lands(b, b');
    RunGrows(run, b');
    run' := run + [b'];
  }

  lemma HeaderCommitted(run: seq<Boot>) returns (run': seq<Boot>)
    requires IsRun(run) && run[|run| - 1].phase.Header?
    ensures IsRun(run') && run'[0] == run[0] && run'[|run'| - 1].phase.Idle?
    ensures run'[|run'| - 1].done == run[|run| - 1].done + [run[|run| - 1].phase.next]
  {
    var b := run[|run| - 1];
    RunKeepsRing(run, |run| - 1);
    var b' := Boot(Overwrite(b.dev, HeaderAt(SideOf(|b.done| + 1)), b.phase.next.line + "\n"), b.done + [b.phase.next], Idle);
    assert Commits(b, b');
    RunGrows(run, b');
    run' := run + [b'];
  }

  /** Two rounds and the start of a third. */
  lemma ThirdBegun(d: string, s1: Snapshot, s2: Snapshot, s3: Snapshot) returns (run: seq<Boot>)
    requires |d| >= RING_END && Zeroed(d, Bytes(SLOT_A)) && Zeroed(d, Bytes(SLOT_B))
    requires Fits(s1, 1) && Fits(s2, 2) && Fits(s3, 3)
    ensures IsRun(run) && run[0].dev == d && run[|run| - 1].done == [s1, s2] && run[|run| - 1].phase == Payload(s3)
  {
    hide Fits, Begins, Scribbles, Lands, Commits;
    run := [Boot(d, [], Idle)];
    run := PayloadBegun(run, s1);
    run := PayloadLanded(run);
    run := HeaderCommitted(run);
    run := PayloadBegun(run, s2);
    run := PayloadLanded(run);
    run := HeaderCommitted(run);
    run := PayloadBegun(run, s3);
  }

  /** From any device the invalidations leave, and with any three snapshots of which the third disagrees
      with the first, a boot reaches a cut between the two writes that the comment is wrong about. */
  lemma CutCanLeaveWrongHeader(d: string, s1: Snapshot, s2: Snapshot, s3: Snapshot) returns (run: seq<Boot>)
    requires |d| >= RING_END && Zeroed(d, Bytes(SLOT_A)) && Zeroed(d, Bytes(SLOT_B))
    requires Fits(s1, 1) && Fits(s2, 2) && Fits(s3, 3) && !Agree(s3.payload, s1.payload)
    ensures IsRun(run) && run[0].dev == d && run[|run| - 1].phase == Header(s3) && !Described(run[|run| - 1])
  {
    hide Fits, Zeroed, Described, Agree;
    run := ThirdBegun(d, s1, s2, s3);
    run := PayloadLanded(run);
    CutBetweenTheWrites(run, |run| - 1);
  }

  /** A boot reaches a torn slot too, whatever three snapshots it takes, unless the first or the third is empty. */
  lemma CutCanTearPayload(d: string, s1: Snapshot, s2: Snapshot, s3: Snapshot) returns (run: seq<Boot>)
    requires |d| >= RING_END && Zeroed(d, Bytes(SLOT_A)) && Zeroed(d, Bytes(SLOT_B))
    requires Fits(s1, 1) && Fits(s2, 2) && Fits(s3, 3) && s1.payload != "" && s3.payload != ""
    ensures IsRun(run) && run[0].dev == d && run[|run| - 1].phase == Payload(s3) && !Described(run[|run| - 1])
  {
    hide Fits, Zeroed, Described;
    run := ThirdBegun(d, s1, s2, s3);
    TornPayloadUnderValidHeader(run, |run| - 1);
    var b' :| Scribbles(run[|run| - 1], b') && !Described(b');
    RunGrows(run, b');
    run := run + [b'];
  }

  /** The last snapshot that went to slot B. */
  function LastEven(n: nat): nat {
    if SideOf(n).A? then n - 1 else n
  }

  /** Between the two invalidations only slot B is left. If the previous boot got as far as writing it,
      that is the slot the reader picks, torn or not. */
  lemma BetweenInvalidations(b: Boot)
    requires Ring(b) && Numbered(b)
    ensures var m := LastEven(|b.done|);
            Select(Overwrite(b.dev, Bytes(SLOT_A), Zeros())) == if m == 0 then None else Some(CandidateOf(b.done[m - 1], m))
  {
    var at := Bytes(SLOT_A);
    var b' := b.(dev := Overwrite(b.dev, at, Zeros()));
    var n := |b.done|;
    ConsidersNone(None, b'.dev, SLOT_A);
    if n >= 1 {
      SidesAlternate(n - 1);
    }
    var m := LastEven(n);
    LabelUntouched(b.dev, b'.dev, at, at + BLOCK, B, b.done, m);
    ConsidersLabelled(None, b', B, m);
  }

  // ---------------------------------------------------------------- the writer

  function Truncated(text: string): string {
    Take(text, MAX_PAYLOAD)
  }

  /** What the writer puts on flash for the `n`th text it samples. */
  function SnapshotOf(text: string, uptime: string, n: nat): Snapshot {
    Snapshot(Truncated(text), H.Line(n, uptime, |Truncated(text)|))
  }

  /** The `n` snapshots of the first `n` texts. */
  function Sampled(texts: seq<string>, uptimes: seq<string>, n: nat): seq<Snapshot>
    requires n <= |texts| && |texts| == |uptimes|
  {
    if n == 0 then [] else Sampled(texts, uptimes, n - 1) + [SnapshotOf(texts[n - 1], uptimes[n - 1], n)]
  }

  /** The whole text, if it fits the 16383 payload blocks of a slot, and otherwise as much as fits. */
  ghost predicate IsSample(payload: string, text: string) {
    payload == if |text| <= 16383 * 4096 then text else text[..16383 * 4096]
  }

  /** Each is its text, as much of it as a slot's payload blocks hold. */
  lemma {:induction false} SampledPayloads(texts: seq<string>, uptimes: seq<string>, n: nat)
    requires n <= |texts| && |texts| == |uptimes|
    ensures |Sampled(texts, uptimes, n)| == n
    ensures forall i :: 0 <= i < n ==> IsSample(Sampled(texts, uptimes, n)[i].payload, texts[i])
  {
    hide H.Line;
    if n > 0 {
      SampledPayloads(texts, uptimes, n - 1);
    }
  }

  lemma SampledSnapshotFits(text: string, uptime: string, n: nat)
    requires H.Word(uptime) && |H.Line(n, uptime, |Truncated(text)|)| < BLOCK
    ensures Fits(SnapshotOf(text, uptime, n), n)
  {
    H.LineIsOneLine(n, uptime, |Truncated(text)|);
  }

  /** One round of the loop: payload, then header. */
  method WriteSnapshot(dev: array<char>, seqNo: nat, text: string, uptime: string, ghost b: Boot) returns (ghost steps: seq<Boot>)
    requires dev.Length >= RING_END && b.dev == dev[..] && b.phase.Idle? && seqNo == |b.done| + 1
    requires H.Word(uptime) && |H.Line(seqNo, uptime, |Truncated(text)|)| < BLOCK
    modifies dev
    ensures |steps| == 3 && Step(b, steps[0]) && Step(steps[0], steps[1]) && Step(steps[1], steps[2])
    ensures steps[2] == Boot(dev[..], b.done + [SnapshotOf(text, uptime, seqNo)], Idle)
    ensures SameOutside(old(dev[..]), dev[..], Bytes(SLOT_A), RING_END)
  {
    var slot := SLOT_B;
    if seqNo % 2 == 1 {
      slot := SLOT_A;
    }
    ghost var s := SnapshotOf(text, uptime, seqNo);
    SampledSnapshotFits(text, uptime, seqNo);
    ghost var b1 := b.(phase := Payload(s));
    var payload := Truncated(text);
    WritePayload(dev, slot, payload, b1);
    ghost var b2 := Boot(dev[..], b.done, Header(s));
    WriteHeader(dev, slot, H.Line(seqNo, uptime, |payload|), b2);
    steps := [b1, b2, Boot(dev[..], b.done + [s], Idle)];
  }

  method WritePayload(dev: array<char>, slot: nat, payload: string, ghost b: Boot)
    requires dev.Length >= RING_END && b.dev == dev[..] && b.phase.Payload? && |payload| <= MAX_PAYLOAD
    requires slot == Slot(SideOf(|b.done| + 1)) && payload == b.phase.next.payload
    modifies dev
    ensures Lands(b, Boot(dev[..], b.done, Header(b.phase.next)))
    ensures SameOutside(old(dev[..]), dev[..], Bytes(SLOT_A), RING_END)
  {
    Dd(dev, Bytes(slot + 1), payload);
    StaysInRing(b.dev, dev[..], Bytes(slot + 1), Bytes(slot + 1) + |payload|);
  }

  method WriteHeader(dev: array<char>, slot: nat, line: string, ghost b: Boot)
    requires dev.Length >= RING_END && b.dev == dev[..] && b.phase.Header? && |line| < BLOCK
    requires slot == Slot(SideOf(|b.done| + 1)) && line == b.phase.next.line
    modifies dev
    ensures Commits(b, Boot(dev[..], b.done + [b.phase.next], Idle))
    ensures SameOutside(old(dev[..]), dev[..], Bytes(SLOT_A), RING_END)
  {
    Dd(dev, Bytes(slot), line + "\n");
    StaysInRing(b.dev, dev[..], Bytes(slot), Bytes(slot) + |line| + 1);
  }

  lemma StaysInRing(d: string, d': string, from: nat, to: nat)
    requires Bytes(SLOT_A) <= from <= to <= RING_END <= |d| && SameOutside(d, d', from, to)
    ensures SameOutside(d, d', Bytes(SLOT_A), RING_END)
  {
    SliceOutside(d, d', from, to, 0, Bytes(SLOT_A));
    SliceOutside(d, d', from, to, RING_END, |d|);
    assert d[..Bytes(SLOT_A)] == d[0..Bytes(SLOT_A)] && d'[..Bytes(SLOT_A)] == d'[0..Bytes(SLOT_A)];
    assert d[RING_END..] == d[RING_END..|d|] && d'[RING_END..] == d'[RING_END..|d'|];
  }

  /** What a finished capture left: every text, and the last of them for the reader. */
  lemma WrittenLogReads(run: seq<Boot>, texts: seq<string>, uptimes: seq<string>)
    requires IsRun(run) && |texts| == |uptimes| && run[|run| - 1].done == Sampled(texts, uptimes, |texts|)
    ensures |run[|run| - 1].done| == |texts|
    ensures forall i :: 0 <= i < |texts| ==> IsSample(run[|run| - 1].done[i].payload, texts[i])
    ensures var r := Read(run[|run| - 1].dev);
            if texts == [] then r == Err(NoSlot)
            else if texts[|texts| - 1] == "" then r == Err(NoPayload)
            else r.Ok? && IsSample(r.value, texts[|texts| - 1])
  {
    hide Read, Step, Init, Sampled, IsSample, H.Line, H.Word;
    SampledPayloads(texts, uptimes, |texts|);
    ReaderIsRightWheneverPowerIsCut(run, |run| - 1);
    if texts != [] {
      SampleOfNothing(run[|run| - 1].done[|texts| - 1].payload, texts[|texts| - 1]);
    }
  }

  lemma SampleOfNothing(payload: string, text: string)
    requires IsSample(payload, text)
    ensures payload == "" <==> text == ""
  {
  }

  /** The capture loop over the ring-buffer texts and uptimes it samples. Every device content it
      passes through is a state of a run, so the reader is right at each of them. */
  method WriteLog(dev: array<char>, texts: seq<string>, uptimes: seq<string>) returns (ghost run: seq<Boot>)
    requires dev.Length >= RING_END && |texts| == |uptimes|
    requires forall i :: 0 <= i < |texts| ==> H.Word(uptimes[i]) && |H.Line(i + 1, uptimes[i], |Truncated(texts[i])|)| < BLOCK
    modifies dev
    ensures IsRun(run) && run[|run| - 1].dev == dev[..] && run[|run| - 1].phase == Idle
    ensures SameOutside(old(dev[..]), dev[..], Bytes(SLOT_A), RING_END)
    ensures run[|run| - 1].done == Sampled(texts, uptimes, |texts|) && |run[|run| - 1].done| == |texts|
    ensures forall i :: 0 <= i < |texts| ==> IsSample(run[|run| - 1].done[i].payload, texts[i])
    ensures texts == [] ==> Read(dev[..]) == Err(NoSlot)
    ensures texts != [] && texts[|texts| - 1] == "" ==> Read(dev[..]) == Err(NoPayload)
    ensures texts != [] && texts[|texts| - 1] != "" ==> Read(dev[..]).Ok? && IsSample(Read(dev[..]).value, texts[|texts| - 1])
  {
    Dd(dev, Bytes(SLOT_A), Zeros());
    ghost var d1 := dev[..];
    StaysInRing(old(dev[..]), d1, Bytes(SLOT_A), Bytes(SLOT_A) + BLOCK);
    Dd(dev, Bytes(SLOT_B), Zeros());
    StaysInRing(d1, dev[..], Bytes(SLOT_B), Bytes(SLOT_B) + BLOCK);
    SliceOutside(d1, dev[..], Bytes(SLOT_B), Bytes(SLOT_B) + BLOCK, Bytes(SLOT_A), Bytes(SLOT_A) + BLOCK);
    run := [Boot(dev[..], [], Idle)];

    var seqNo, i := 0, 0;
    while i < |texts|
      invariant seqNo == i <= |texts|
      invariant IsRun(run) && run[|run| - 1] == Boot(dev[..], Sampled(texts, uptimes, i), Idle)
      invariant |Sampled(texts, uptimes, i)| == i
      invariant SameOutside(old(dev[..]), dev[..], Bytes(SLOT_A), RING_END)
    {
      seqNo := seqNo + 1;
      ghost var steps := WriteSnapshot(dev, seqNo, texts[i], uptimes[i], run[|run| - 1]);
      RunGrows(run, steps[0]);
      RunGrows(run + [steps[0]], steps[1]);
      RunGrows(run + [steps[0]] + [steps[1]], steps[2]);
      run := run + [steps[0]] + [steps[1]] + [steps[2]];
      i := i + 1;
    }
    WrittenLogReads(run, texts, uptimes);
  }

  /** The input against the comment, spelt out: an empty ring and captures of "x", nothing and "y". */
  lemma CommentIsWrong() returns (run: seq<Boot>)
    ensures IsRun(run) && run[|run| - 1].phase.Header? && !Described(run[|run| - 1])
  {
    var d := seq(RING_END, _ => '\0');
    assert Zeroed(d, Bytes(SLOT_A)) && Zeroed(d, Bytes(SLOT_B));
    assert H.Decimal(0) == "0" && H.Decimal(1) == "1" && H.Decimal(2) == "2" && H.Decimal(3) == "3";
    SampledSnapshotFits("x", "0", 1);
    SampledSnapshotFits("", "0", 2);
    SampledSnapshotFits("y", "0", 3);
    var s1, s2, s3 := SnapshotOf("x", "0", 1), SnapshotOf("", "0", 2), SnapshotOf("y", "0", 3);
    assert s1.payload[0] != s3.payload[0];
    run := CutCanLeaveWrongHeader(d, s1, s2, s3);
  }
}
