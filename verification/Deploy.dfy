/**
 * Writing a rootfs image in verified chunks, over adb and over ssh.
 *
 * Everything the transport can do to a run is in its script: whether the device answers, how much of a
 * bulk write lands, what comes back for a hash. A hash is represented by the bytes it was taken of, so
 * equal hashes mean equal bytes; a reply that was cut short is never mistaken for a whole one. The
 * two-byte write that zeroes the magic is taken to be reliable.
 */
module Deploy {
  import opened Common
  import opened Disk
  import Layout

  /** Blocks in a chunk, and bytes. */
  const CHUNK := 8192
  const SPAN := Bytes(CHUNK)

  const MAGIC_OFFSET := 1080
  const LOG_SLOT_A := Layout.SLOT_A

  // ---------------------------------------------------------------- the transport

  datatype Transport = Adb | Ssh

  datatype Reply = Nothing | Garbled | Faithful

  /** One try at a chunk. `before` and `after` are adb's `wait_device`; `reported` is ssh's exit status
      turning a bad write into an error. `landed` is how many bytes of the write reached the device. */
  datatype Try = Try(before: bool, landed: nat, reported: bool, after: bool, reply: Reply)

  const TRIES := 5

  type FiveTries = s: seq<Try> | |s| == TRIES witness seq(TRIES, _ => Try(false, 0, false, false, Nothing))

  /** The first look at a chunk, then the tries. */
  datatype ChunkScript = ChunkScript(up: bool, first: Reply, tries: FiveTries)

  /** A script for every chunk number. */
  type Script = nat -> ChunkScript

  /** What the host gets to compare: the digest of what the device read, or something that is no digest. */
  datatype Answer = Empty | Junk | Digest(of: string)

  function Answered(reply: Reply, read: string): Answer {
    match reply
    case Nothing => Empty
    case Garbled => Junk
    case Faithful => Digest(read)
  }

  // ---------------------------------------------------------------- one chunk

  /** Bytes that reached the device at an offset. */
  datatype Write = Write(at: nat, bytes: string)

  /** The device and every bulk write made to it so far. */
  datatype State = State(dev: string, writes: seq<Write>)

  datatype Outcome = Outcome(st: State, ok: bool)

  /** `dd if=$IMG skip=blk count=cnt`, with offset and count in bytes. */
  function Chunk(img: string, at: nat, n: nat): string {
    ReadAt(img, at, n)
  }

  function Apply(d: string, w: Write): string {
    if w.at + |w.bytes| <= |d| then Overwrite(d, w.at, w.bytes) else d
  }

  function Log(st: State, w: Write): State {
    State(Apply(st.dev, w), st.writes + [w])
  }

  datatype Verdict = Gone | Again | Good

  function Sent(img: string, at: nat, n: nat, t: Try): Write {
    Write(at, Take(Chunk(img, at, n), t.landed))
  }

  /** What the host concludes after a write that left the device as `dev`. */
  function Judge(dev: string, img: string, at: nat, n: nat, tr: Transport, t: Try): Verdict {
    if tr.Ssh? && t.reported then Again
    else if tr.Adb? && !t.after then Gone
    else if Answered(t.reply, ReadAt(dev, at, n)) == Digest(Chunk(img, at, n)) then Good
    else Again
  }

  function Tries(st: State, img: string, at: nat, n: nat, tr: Transport, tries: seq<Try>): Outcome
    decreases |tries|
  {
    if tries == [] || (tr.Adb? && !tries[0].before) then Outcome(st, false)
    else
      var st' := Log(st, Sent(img, at, n, tries[0]));
      match Judge(st'.dev, img, at, n, tr, tries[0])
      case Gone => Outcome(st', false)
      case Good => Outcome(st', true)
      case Again => Tries(st', img, at, n, tr, tries[1..])
  }

  function DoChunk(st: State, img: string, at: nat, n: nat, tr: Transport, s: ChunkScript): Outcome {
    if tr.Adb? && !s.up then Outcome(st, false)
    else if Answered(s.first, ReadAt(st.dev, at, n)) == Digest(Chunk(img, at, n)) then Outcome(st, true)
    else Tries(st, img, at, n, tr, s.tries)
  }

  // ---------------------------------------------------------------- a run

  function Offset(k: nat): nat {
    33554432 * k
  }

  /** How much the `k`th chunk compares. Chunk 0 is always taken to be a whole one. */
  function Length(img: string, k: nat): nat {
    if k == 0 || Offset(k + 1) <= |img| then SPAN else if Offset(k) <= |img| then |img| - Offset(k) else 0
  }

  function OneChunk(st: State, img: string, tr: Transport, script: Script, k: nat): Outcome {
    DoChunk(st, img, Offset(k), Length(img, k), tr, script(k))
  }

  /** The chunks from the `k`th on. */
  function Trailing(st: State, img: string, tr: Transport, script: Script, k: nat): Outcome
    decreases |img| - Offset(k)
  {
    if Offset(k) >= |img| then Outcome(st, true)
    else
      var o := OneChunk(st, img, tr, script, k);
      if !o.ok then o else Trailing(o.st, img, tr, script, k + 1)
  }

  function Zeroed(d: string): string
    requires MAGIC_OFFSET + 2 <= |d|
  {
    Overwrite(d, MAGIC_OFFSET, "\0\0")
  }

  function Chunks(st: State, img: string, tr: Transport, script: Script): Outcome {
    var o := Trailing(st, img, tr, script, 1);
    if !o.ok then o else OneChunk(o.st, img, tr, script, 0)
  }

  /** The size checks on the image, both made before anything is written. */
  predicate Acceptable(img: string) {
    !Blocks(|img|).1 && |img| <= Bytes(LOG_SLOT_A)
  }

  /** `guards` stands for the identity, mount and battery checks. */
  function Run(d: string, img: string, guards: bool, tr: Transport, script: Script): Outcome
    requires MAGIC_OFFSET + 2 <= |d|
  {
    if !Acceptable(img) || !guards then Outcome(State(d, []), false)
    else Chunks(State(Zeroed(d), []), img, tr, script)
  }
}
