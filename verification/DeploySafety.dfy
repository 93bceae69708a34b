/**
 * What a deploy run guarantees, whatever the transport does: over adb or ssh, on any device contents,
 * at every moment of the run.
 */
module DeploySafety {
  import opened Common
  import opened Disk
  import opened Deploy
  import BringupLog

  // ---------------------------------------------------------------- writes and what they leave

  /** The device after some writes. */
  function Replay(d: string, ws: seq<Write>): string {
    if ws == [] then d else Apply(Replay(d, ws[..|ws| - 1]), ws[|ws| - 1])
  }

  /** The device while the `i`th write is under way, with `j` of its bytes landed. */
  function Midway(d: string, ws: seq<Write>, i: nat, j: nat): string
    requires i < |ws|
  {
    Apply(Replay(d, ws[..i]), Write(ws[i].at, Take(ws[i].bytes, j)))
  }

  /** The write puts the image's own bytes in their place, within `[from, to)`. */
  ghost predicate Copies(w: Write, img: string, from: nat, to: nat) {
    && from <= w.at && w.at + |w.bytes| <= to && w.at + |w.bytes| <= |img|
    && w.bytes == img[w.at..w.at + |w.bytes|]
  }

  ghost predicate AllCopy(ws: seq<Write>, img: string, from: nat, to: nat) {
    forall i :: 0 <= i < |ws| ==> Copies(ws[i], img, from, to)
  }

  /** The device holds the image's bytes in `[from, to)`. */
  ghost predicate Right(d: string, img: string, from: nat, to: nat) {
    from <= to <= |d| && to <= |img| && d[from..to] == img[from..to]
  }

  lemma ApplyCopy(d: string, w: Write, img: string, from: nat, to: nat)
    requires Copies(w, img, from, to) && to <= |d|
    ensures SameOutside(d, Apply(d, w), from, to)
  {
    var d' := Apply(d, w);
    var end := w.at + |w.bytes|;
    assert d'[..from] == d'[..w.at][..from] && d[..from] == d[..w.at][..from];
    assert d'[to..] == d'[end..][to - end..] && d[to..] == d[end..][to - end..];
  }

  lemma OutsideTwice(d: string, d': string, d'': string, from: nat, to: nat)
    requires from <= to <= |d| && SameOutside(d, d', from, to) && SameOutside(d', d'', from, to)
    ensures SameOutside(d, d'', from, to)
  {
  }

  lemma {:induction false} ReplayOutside(d: string, ws: seq<Write>, img: string, from: nat, to: nat)
    requires AllCopy(ws, img, from, to) && from <= to <= |d|
    ensures SameOutside(d, Replay(d, ws), from, to)
  {
    if ws != [] {
      var init := ws[..|ws| - 1];
      ReplayOutside(d, init, img, from, to);
      ApplyCopy(Replay(d, init), ws[|ws| - 1], img, from, to);
      OutsideTwice(d, Replay(d, init), Replay(d, ws), from, to);
    }
  }

  lemma {:induction false} ReplayJoins(d: string, a: seq<Write>, b: seq<Write>)
    ensures Replay(Replay(d, a), b) == Replay(d, a + b)
  {
    if b == [] {
      assert a + b == a;
    } else {
      var init := b[..|b| - 1];
      assert (a + b)[..|a + b| - 1] == a + init;
      ReplayJoins(d, a, init);
    }
  }

  lemma MidwayOutside(d: string, ws: seq<Write>, i: nat, j: nat, img: string, from: nat, to: nat)
    requires i < |ws| && AllCopy(ws, img, from, to) && from <= to <= |d|
    ensures SameOutside(d, Midway(d, ws, i, j), from, to)
  {
    ReplayOutside(d, ws[..i], img, from, to);
    var w := ws[i];
    var part := Write(w.at, Take(w.bytes, j));
    assert part.bytes == w.bytes[..|part.bytes|];
    assert Copies(part, img, from, to);
    ApplyCopy(Replay(d, ws[..i]), part, img, from, to);
    OutsideTwice(d, Replay(d, ws[..i]), Midway(d, ws, i, j), from, to);
  }

  /** Bytes that were right, and are not written, are still right. */
  lemma StillRight(d: string, d': string, img: string, from: nat, to: nat, i: nat, j: nat)
    requires from <= to <= |d| && SameOutside(d, d', from, to) && (j <= from || to <= i)
    requires Right(d, img, i, j)
    ensures Right(d', img, i, j)
  {
    SliceOutside(d, d', from, to, i, j);
  }

  lemma RightJoins(d: string, img: string, i: nat, j: nat, k: nat)
    requires Right(d, img, i, j) && Right(d, img, j, k)
    ensures Right(d, img, i, k)
  {
    assert d[i..k] == d[i..j] + d[j..k];
    assert img[i..k] == img[i..j] + img[j..k];
  }

  /** What a read returns depends only on the bytes it covers. */
  lemma ReadUntouched(d: string, d': string, from: nat, to: nat, at: nat, n: nat)
    requires from <= to <= |d| && SameOutside(d, d', from, to) && (at + n <= from || to <= at)
    ensures ReadAt(d', at, n) == ReadAt(d, at, n)
  {
    if at < |d| {
      SliceOutside(d, d', from, to, at, if at + n >= |d| then |d| else at + n);
    }
  }

  // ---------------------------------------------------------------- one chunk

  /** From `st` to `st'` by writes of this chunk alone. */
  ghost predicate Leads(st: State, st': State, added: seq<Write>) {
    st'.writes == st.writes + added && st'.dev == Replay(st.dev, added)
  }

  lemma LeadsJoins(a: State, b: State, c: State, x: seq<Write>, y: seq<Write>)
    requires Leads(a, b, x) && Leads(b, c, y)
    ensures Leads(a, c, x + y)
  {
    ReplayJoins(a.dev, x, y);
    assert a.writes + x + y == a.writes + (x + y);
  }

  lemma SentCopies(img: string, at: nat, n: nat, t: Try)
    requires at <= |img|
    ensures Copies(Sent(img, at, n, t), img, at, at + n)
  {
    var c := Chunk(img, at, n);
    var w := Sent(img, at, n, t);
    assert c == img[at..at + |c|];
    assert w.bytes == c[..|w.bytes|];
  }

  lemma {:induction false} TriesEffect(st: State, img: string, at: nat, n: nat, tr: Transport, tries: seq<Try>) returns (added: seq<Write>)
    requires at <= |img|
    ensures var o := Tries(st, img, at, n, tr, tries);
            && Leads(st, o.st, added) && AllCopy(added, img, at, at + n)
            && (forall i :: 0 <= i < |added| ==> added[i].at == at)
            && (o.ok ==> ReadAt(o.st.dev, at, n) == Chunk(img, at, n) && added != [])
    decreases |tries|
  {
    if tries == [] || (tr.Adb? && !tries[0].before) {
      return [];
    }
    var w := Sent(img, at, n, tries[0]);
    SentCopies(img, at, n, tries[0]);
    var st' := Log(st, w);
    assert [w][..0] == [];
    assert Leads(st, st', [w]);
    if Judge(st'.dev, img, at, n, tr, tries[0]).Again? {
      var rest := TriesEffect(st', img, at, n, tr, tries[1..]);
      var o := Tries(st', img, at, n, tr, tries[1..]);
      LeadsJoins(st, st', o.st, [w], rest);
      return [w] + rest;
    }
    return [w];
  }

  /** The chunk is written only if it was wrong or its hash did not come back, and it is left right if
      the step succeeds. */
  lemma ChunkEffect(st: State, img: string, tr: Transport, script: Script, k: nat) returns (added: seq<Write>)
    requires Offset(k) <= |img|
    ensures var o := OneChunk(st, img, tr, script, k);
            && Leads(st, o.st, added) && AllCopy(added, img, Offset(k), Offset(k) + Length(img, k))
            && (forall i :: 0 <= i < |added| ==> added[i].at == Offset(k))
            && (o.ok ==> ReadAt(o.st.dev, Offset(k), Length(img, k)) == Chunk(img, Offset(k), Length(img, k)))
            && (added != [] ==> Needed(st.dev, img, script, k))
            && (o.ok && !Matches(st.dev, img, k) ==> added != [])
  {
    var cs := script(k);
    var at, n := Offset(k), Length(img, k);
    if (tr.Adb? && !cs.up) || Answered(cs.first, ReadAt(st.dev, at, n)) == Digest(Chunk(img, at, n)) {
      added := [];
    } else {
      added := TriesEffect(st, img, at, n, tr, cs.tries);
    }
  }

  predicate Matches(d: string, img: string, k: nat) {
    ReadAt(d, Offset(k), Length(img, k)) == Chunk(img, Offset(k), Length(img, k))
  }

  predicate Needed(d: string, img: string, script: Script, k: nat) {
    Matches(d, img, k) ==> !script(k).first.Faithful?
  }

  // ---------------------------------------------------------------- the trailing chunks

  /** The chunk a write belongs to. */
  function ChunkOf(w: Write): nat {
    w.at / 33554432
  }

  ghost predicate AllNeeded(ws: seq<Write>, d: string, img: string, script: Script) {
    forall i :: 0 <= i < |ws| ==> ws[i].at == Offset(ChunkOf(ws[i])) && Needed(d, img, script, ChunkOf(ws[i]))
  }

  lemma MatchesUntouched(d: string, d': string, img: string, from: nat, to: nat, k: nat)
    requires from <= to <= |d| && SameOutside(d, d', from, to)
    requires Offset(k) + Length(img, k) <= from || to <= Offset(k)
    ensures Matches(d', img, k) == Matches(d, img, k)
  {
    ReadUntouched(d, d', from, to, Offset(k), Length(img, k));
  }

  lemma RightFromRead(d: string, img: string, k: nat)
    requires k >= 1 && Offset(k) < |img| <= |d| && Matches(d, img, k)
    ensures Right(d, img, Offset(k), Offset(k) + Length(img, k))
  {
  }

  lemma {:induction false} TrailingEffect(st: State, img: string, tr: Transport, script: Script, k: nat) returns (added: seq<Write>)
    requires k >= 1 && |img| <= |st.dev|
    ensures var o := Trailing(st, img, tr, script, k);
            && Leads(st, o.st, added)
            && (Offset(k) <= |img| ==> AllCopy(added, img, Offset(k), |img|))
            && (Offset(k) > |img| ==> added == [])
            && AllNeeded(added, st.dev, img, script)
            && (o.ok && Offset(k) <= |img| ==> Right(o.st.dev, img, Offset(k), |img|))
    decreases |img| - Offset(k)
  {
    hide OneChunk, Replay;
    if Offset(k) >= |img| {
      added := NothingWritten(st, img, script);
    } else {
      added := ChunkEffect(st, img, tr, script, k);
      var o := OneChunk(st, img, tr, script, k);
      ChunkWrites(added, st.dev, img, script, k);
      if o.ok {
        ReplayOutside(st.dev, added, img, Offset(k), Offset(k) + Length(img, k));
        var rest := TrailingEffect(o.st, img, tr, script, k + 1);
        var o' := Trailing(o.st, img, tr, script, k + 1);
        LeadsJoins(st, o.st, o'.st, added, rest);
        LaterWrites(st.dev, o.st.dev, rest, img, script, k);
        if o'.ok {
          RightFromRead(o.st.dev, img, k);
          RestStaysRight(o.st.dev, o'.st.dev, img, rest, k);
        }
        WritesJoin(added, rest, st.dev, img, script, Offset(k));
        added := added + rest;
      }
    }
  }

  lemma NothingWritten(st: State, img: string, script: Script) returns (added: seq<Write>)
    ensures added == [] && Leads(st, st, added) && AllNeeded(added, st.dev, img, script)
  {
    added := [];
  }

  lemma ChunkWrites(ws: seq<Write>, d: string, img: string, script: Script, k: nat)
    requires k >= 1 && Offset(k) < |img| && AllCopy(ws, img, Offset(k), Offset(k) + Length(img, k))
    requires forall i :: 0 <= i < |ws| ==> ws[i].at == Offset(k)
    requires ws != [] ==> Needed(d, img, script, k)
    ensures AllCopy(ws, img, Offset(k), |img|) && AllNeeded(ws, d, img, script)
  {
    assert forall i :: 0 <= i < |ws| ==> ChunkOf(ws[i]) == k;
  }

  /** Writes needed once the `k`th chunk is done were needed before it, being to other chunks. */
  lemma LaterWrites(d: string, d': string, rest: seq<Write>, img: string, script: Script, k: nat)
    requires k >= 1 && Offset(k) < |img| <= |d| && SameOutside(d, d', Offset(k), Offset(k) + Length(img, k))
    requires if Offset(k + 1) <= |img| then AllCopy(rest, img, Offset(k + 1), |img|) else rest == []
    requires AllNeeded(rest, d', img, script)
    ensures AllCopy(rest, img, Offset(k), |img|) && AllNeeded(rest, d, img, script)
  {
    forall i | 0 <= i < |rest| ensures Copies(rest[i], img, Offset(k), |img|) && Needed(d, img, script, ChunkOf(rest[i])) {
      assert Copies(rest[i], img, Offset(k + 1), |img|);
      assert ChunkOf(rest[i]) >= k + 1;
      MatchesUntouched(d, d', img, Offset(k), Offset(k) + Length(img, k), ChunkOf(rest[i]));
    }
  }

  lemma WritesJoin(a: seq<Write>, b: seq<Write>, d: string, img: string, script: Script, from: nat)
    requires AllCopy(a, img, from, |img|) && AllCopy(b, img, from, |img|)
    requires AllNeeded(a, d, img, script) && AllNeeded(b, d, img, script)
    ensures AllCopy(a + b, img, from, |img|) && AllNeeded(a + b, d, img, script)
  {
  }

  lemma RestStaysRight(d: string, d': string, img: string, rest: seq<Write>, k: nat)
    requires k >= 1 && Offset(k) < |img| <= |d| && d' == Replay(d, rest)
    requires if Offset(k + 1) <= |img| then AllCopy(rest, img, Offset(k + 1), |img|) else rest == []
    requires Offset(k + 1) <= |img| ==> Right(d', img, Offset(k + 1), |img|)
    requires Right(d, img, Offset(k), Offset(k) + Length(img, k))
    ensures Right(d', img, Offset(k), |img|)
  {
    if Offset(k + 1) <= |img| {
      ReplayOutside(d, rest, img, Offset(k + 1), |img|);
      StillRight(d, d', img, Offset(k + 1), |img|, Offset(k), Offset(k + 1));
      RightJoins(d', img, Offset(k), Offset(k + 1), |img|);
    }
  }

  // ---------------------------------------------------------------- whole runs

  /** The zeroed device, the writes to the trailing chunks, and those to chunk 0. */
  ghost predicate Parts(z: string, img: string, o: Outcome, tail: seq<Write>, head: seq<Write>) {
    && o.st.writes == tail + head
    && o.st.dev == Replay(Replay(z, tail), head)
    && (if |img| >= SPAN then AllCopy(tail, img, SPAN, |img|) else tail == [])
    && AllCopy(head, img, 0, SPAN)
    && (forall i :: 0 <= i < |head| ==> head[i].at == 0)
    && (head != [] || o.ok ==> |img| < SPAN || Right(Replay(z, tail), img, SPAN, |img|))
    && (o.ok ==> Matches(o.st.dev, img, 0))
    && (o.ok && !Matches(Replay(z, tail), img, 0) ==> head != [])
  }

  /** A run that gets past its checks, taken apart. */
  lemma RunParts(d: string, img: string, tr: Transport, script: Script) returns (tail: seq<Write>, head: seq<Write>)
    requires Acceptable(img) && |d| >= Bytes(LOG_SLOT_A)
    ensures Parts(Zeroed(d), img, Run(d, img, true, tr, script), tail, head)
    ensures AllNeeded(tail, Zeroed(d), img, script)
    ensures head != [] ==> Needed(Zeroed(d), img, script, 0)
  {
    var st := State(Zeroed(d), []);
    tail := TrailingEffect(st, img, tr, script, 1);
    var o := Trailing(st, img, tr, script, 1);
    head := [];
    if o.ok {
      head := ChunkEffect(o.st, img, tr, script, 0);
      ChunkZeroNeeded(st.dev, img, script, tail);
      assert o.st.writes == tail;
    } else {
      assert tail + head == tail;
    }
  }

  lemma ChunkZeroNeeded(z: string, img: string, script: Script, tail: seq<Write>)
    requires |img| <= |z| && if |img| >= SPAN then AllCopy(tail, img, SPAN, |img|) else tail == []
    ensures Needed(Replay(z, tail), img, script, 0) == Needed(z, img, script, 0)
  {
    if |img| >= SPAN {
      ReplayOutside(z, tail, img, SPAN, |img|);
      MatchesUntouched(z, Replay(z, tail), img, SPAN, |img|, 0);
    }
  }

  /** Exit status 0 means the device holds the image, whatever was truncated or lost on the way. It is
      never returned for an image shorter than a chunk. */
  lemma ExitZeroMeansImage(d: string, img: string, guards: bool, tr: Transport, script: Script)
    requires |d| >= Bytes(LOG_SLOT_A)
    ensures var o := Run(d, img, guards, tr, script);
            o.ok ==> |img| >= 33554432 && |o.st.dev| == |d| && o.st.dev[..|img|] == img
  {
    var o := Run(d, img, guards, tr, script);
    if o.ok {
      var tail, head := RunParts(d, img, tr, script);
      var z := Zeroed(d);
      if |img| >= SPAN {
        ReplayOutside(z, tail, img, SPAN, |img|);
      }
      var mid := Replay(z, tail);
      ReplayOutside(mid, head, img, 0, SPAN);
      assert |ReadAt(o.st.dev, 0, SPAN)| == SPAN;
      StillRight(mid, o.st.dev, img, 0, SPAN, SPAN, |img|);
      assert Right(o.st.dev, img, 0, SPAN);
      RightJoins(o.st.dev, img, 0, SPAN, |img|);
      assert o.st.dev[..|img|] == o.st.dev[0..|img|] && img[0..|img|] == img;
    }
  }

  predicate MagicSet(d: string)
    requires MAGIC_OFFSET + 2 <= |d|
  {
    d[1080..1082] != "\0\0"
  }

  /** The device `j` bytes into its `i`th write, or when the run is over. */
  function Moment(d: string, o: Outcome, i: nat, j: nat): string
    requires MAGIC_OFFSET + 2 <= |d|
  {
    if i < |o.st.writes| then Midway(Zeroed(d), o.st.writes, i, j) else o.st.dev
  }

  /** From the zeroing of the magic on, at every moment, a device that shows a magic at all already
      holds every block of the image past the first chunk. */
  lemma MagicMeansTheRestIsThere(d: string, img: string, tr: Transport, script: Script, i: nat, j: nat)
    requires Acceptable(img) && |d| >= Bytes(LOG_SLOT_A) && |img| >= 33554432
    ensures var x := Moment(d, Run(d, img, true, tr, script), i, j);
            |x| == |d| && (MagicSet(x) ==> Right(x, img, 33554432, |img|))
  {
    hide Run, Matches, AllNeeded, Apply;
    var z, o := Zeroed(d), Run(d, img, true, tr, script);
    var tail, head := RunParts(d, img, tr, script);
    var ws := tail + head;
    ReplayJoins(z, tail, head);
    var x := Moment(d, o, i, j);
    var mid := Replay(z, tail);
    ReplayOutside(z, tail, img, SPAN, |img|);
    if i < |tail| {
      assert ws[..i] == tail[..i];
      MidwayOutside(z, tail, i, j, img, SPAN, |img|);
      SliceOutside(z, x, SPAN, |img|, MAGIC_OFFSET, MAGIC_OFFSET + 2);
    } else if head == [] {
      SliceOutside(z, mid, SPAN, |img|, MAGIC_OFFSET, MAGIC_OFFSET + 2);
      assert x == mid;
      assert o.ok || !MagicSet(x);
    } else {
      if i < |ws| {
        var h := i - |tail|;
        assert ws[..i] == tail + head[..h];
        ReplayJoins(z, tail, head[..h]);
        MidwayOutside(mid, head, h, j, img, 0, SPAN);
      } else {
        ReplayOutside(mid, head, img, 0, SPAN);
      }
      StillRight(mid, x, img, 0, SPAN, SPAN, |img|);
    }
  }

  /** As far as a run may write: the image, and the magic, which alone is past the end of an empty image. */
  function Reach(img: string): nat {
    if img == "" then MAGIC_OFFSET + 2 else |img|
  }

  lemma OutsideWider(d: string, d': string, from: nat, to: nat, to': nat)
    requires from <= to <= to' <= |d| && SameOutside(d, d', from, to)
    ensures SameOutside(d, d', 0, to')
  {
    assert d'[to'..] == d'[to..][to' - to..] && d[to'..] == d[to..][to' - to..];
  }

  /** At every moment nothing past the image has changed; an empty image is accepted too, and costs the
      two bytes of the magic. */
  lemma NothingPastTheImage(d: string, img: string, tr: Transport, script: Script, i: nat, j: nat)
    requires Acceptable(img) && |d| >= Bytes(LOG_SLOT_A)
    ensures SameOutside(d, Moment(d, Run(d, img, true, tr, script), i, j), 0, Reach(img))
  {
    var z, o := Zeroed(d), Run(d, img, true, tr, script);
    var to := Reach(img);
    OutsideWider(d, z, MAGIC_OFFSET, MAGIC_OFFSET + 2, to);
    var tail, head := RunParts(d, img, tr, script);
    var ws := tail + head;
    ReplayJoins(z, tail, head);
    assert AllCopy(ws, img, 0, to);
    if i < |ws| {
      MidwayOutside(z, ws, i, j, img, 0, to);
    } else {
      ReplayOutside(z, ws, img, 0, to);
    }
  }

  /** At every moment of a run with any acceptable image the log ring is as it was. */
  lemma LogRingUntouched(d: string, img: string, tr: Transport, script: Script, i: nat, j: nat)
    requires Acceptable(img) && |d| >= Bytes(LOG_SLOT_A)
    ensures var x := Moment(d, Run(d, img, true, tr, script), i, j);
            |x| == |d| && x[Bytes(LOG_SLOT_A)..] == d[Bytes(LOG_SLOT_A)..]
  {
    NothingPastTheImage(d, img, tr, script, i, j);
    OutsideWider(d, Moment(d, Run(d, img, true, tr, script), i, j), 0, Reach(img), Bytes(LOG_SLOT_A));
  }

  /** Whatever the log reader would have said before a deploy, it says at every moment of it. */
  lemma LogReadsTheSame(d: string, img: string, tr: Transport, script: Script, i: nat, j: nat)
    requires Acceptable(img) && |d| >= Bytes(LOG_SLOT_A)
    ensures BringupLog.Read(Moment(d, Run(d, img, true, tr, script), i, j)) == BringupLog.Read(d)
  {
    LogRingUntouched(d, img, tr, script, i, j);
    BringupLog.ReadSeesOnlyTheRing(d, Moment(d, Run(d, img, true, tr, script), i, j));
  }

  /** Every bulk write went to a chunk that was wrong after the magic was zeroed, or whose first hash
      did not come back; and if the image carries a magic, chunk 0 is among them whenever the run succeeds. */
  lemma OnlyWrongChunksAreWritten(d: string, img: string, tr: Transport, script: Script)
    requires Acceptable(img) && |d| >= Bytes(LOG_SLOT_A)
    ensures AllNeeded(Run(d, img, true, tr, script).st.writes, Zeroed(d), img, script)
  {
    var tail, head := RunParts(d, img, tr, script);
    forall i | 0 <= i < |head| ensures head[i].at == Offset(ChunkOf(head[i])) && ChunkOf(head[i]) == 0 {
    }
  }

  /** If the image carries a magic, every run that succeeds wrote chunk 0. */
  lemma ChunkZeroIsAlwaysWritten(d: string, img: string, tr: Transport, script: Script)
    requires Acceptable(img) && |d| >= Bytes(LOG_SLOT_A)
    requires |img| >= SPAN && MagicSet(img)
    ensures var o := Run(d, img, true, tr, script);
            o.ok ==> exists i :: 0 <= i < |o.st.writes| && o.st.writes[i].at == 0
  {
    var z, o := Zeroed(d), Run(d, img, true, tr, script);
    var tail, head := RunParts(d, img, tr, script);
    var mid := Replay(z, tail);
    ReplayOutside(z, tail, img, SPAN, |img|);
    SliceOutside(z, mid, SPAN, |img|, MAGIC_OFFSET, MAGIC_OFFSET + 2);
    assert ReadAt(mid, 0, SPAN)[MAGIC_OFFSET..MAGIC_OFFSET + 2] == mid[MAGIC_OFFSET..MAGIC_OFFSET + 2];
    assert Chunk(img, 0, SPAN)[MAGIC_OFFSET..MAGIC_OFFSET + 2] == img[MAGIC_OFFSET..MAGIC_OFFSET + 2];
    assert !Matches(mid, img, 0);
    if o.ok {
      assert o.st.writes[|tail|] == head[0];
    }
  }

  // ---------------------------------------------------------------- when a run succeeds

  predicate Survives(tr: Transport, t: Try) {
    tr.Adb? ==> t.before && t.after
  }

  /** The most bytes any of the first `k` tries lands. */
  function Longest(tries: seq<Try>, k: nat): nat
    requires k <= |tries|
  {
    if k == 0 then 0
    else
      var rest := Longest(tries[1..], k - 1);
      if tries[0].landed > rest then tries[0].landed else rest
  }

  /** What was read has the wanted size, and the wanted bytes from the `m`th on. */
  ghost predicate RightFrom(read: string, wanted: string, m: nat) {
    |read| == |wanted| && forall j :: m <= j < |wanted| ==> read[j] == wanted[j]
  }

  /** The transport holds through the `k`th try, which says faithfully what is there, and by then some try
      has covered every byte that was wrong. */
  ghost predicate VerifiedAt(read: string, wanted: string, tr: Transport, tries: seq<Try>, k: nat)
    requires k < |tries|
  {
    && (forall i :: 0 <= i <= k ==> Survives(tr, tries[i]))
    && tries[k].reply.Faithful? && !(tr.Ssh? && tries[k].reported)
    && RightFrom(read, wanted, Longest(tries, k + 1))
  }

  ghost predicate Verified(read: string, wanted: string, tr: Transport, tries: seq<Try>) {
    exists k :: 0 <= k < |tries| && VerifiedAt(read, wanted, tr, tries, k)
  }

  /** The `k`th chunk is right and says so, or is made right. */
  ghost predicate Done(d: string, img: string, tr: Transport, script: Script, k: nat) {
    && (tr.Adb? ==> script(k).up)
    && ((Matches(d, img, k) && script(k).first.Faithful?)
        || Verified(ReadAt(d, Offset(k), Length(img, k)), Chunk(img, Offset(k), Length(img, k)), tr, script(k).tries))
  }

  /** A write of the first bytes of what is wanted. */
  ghost predicate Rewrites(read: string, read': string, wanted: string, landed: nat) {
    |wanted| <= |read| && read' == Take(wanted, landed) + read[|Take(wanted, landed)|..]
  }

  lemma SentRewrites(d: string, img: string, at: nat, n: nat, t: Try)
    requires |img| <= |d| && at < |d|
    ensures Rewrites(ReadAt(d, at, n), ReadAt(Apply(d, Sent(img, at, n, t)), at, n), Chunk(img, at, n), t.landed)
  {
    var w := Sent(img, at, n, t);
    var d' := Apply(d, w);
    var to := if at + n >= |d| then |d| else at + n;
    var mid := at + |w.bytes|;
    assert ReadAt(d, at, n) == d[at..to] && ReadAt(d', at, n) == d'[at..to];
    assert d'[at..to] == d'[at..mid] + d'[mid..to];
    assert d'[mid..to] == d'[mid..][..to - mid] && d[mid..to] == d[mid..][..to - mid];
    assert d[at..to][|w.bytes|..] == d[mid..to];
  }

  lemma RewritesMean(read: string, read': string, wanted: string, landed: nat, m: nat)
    requires Rewrites(read, read', wanted, landed)
    ensures RightFrom(read', wanted, m) <==> RightFrom(read, wanted, if landed > m then landed else m)
  {
    var c := Take(wanted, landed);
    assert forall j :: 0 <= j < |read| ==> read'[j] == if j < |c| then wanted[j] else read[j];
  }

  /** A first try that survives but does not verify leaves it to the others. */
  lemma VerifiedLater(read: string, read': string, wanted: string, tr: Transport, tries: seq<Try>)
    requires tries != [] && Survives(tr, tries[0]) && !VerifiedAt(read, wanted, tr, tries, 0)
    requires Rewrites(read, read', wanted, tries[0].landed)
    ensures Verified(read, wanted, tr, tries) <==> Verified(read', wanted, tr, tries[1..])
  {
    hide RightFrom, Rewrites, Survives;
    var rest := tries[1..];
    forall k | 0 <= k < |rest| ensures VerifiedAt(read, wanted, tr, tries, k + 1) <==> VerifiedAt(read', wanted, tr, rest, k) {
      RewritesMean(read, read', wanted, tries[0].landed, Longest(rest, k + 1));
      assert forall i :: 0 <= i <= k ==> rest[i] == tries[i + 1];
      assert forall i :: 0 < i <= k + 1 ==> tries[i] == rest[i - 1];
    }
    if k :| 0 <= k < |tries| && VerifiedAt(read, wanted, tr, tries, k) {
      assert VerifiedAt(read', wanted, tr, rest, k - 1);
    }
  }

  lemma {:induction false} TriesSucceedExactlyWhen(st: State, img: string, at: nat, n: nat, tr: Transport, tries: seq<Try>)
    requires |img| <= |st.dev| && at < |st.dev|
    ensures Tries(st, img, at, n, tr, tries).ok <==> Verified(ReadAt(st.dev, at, n), Chunk(img, at, n), tr, tries)
    decreases |tries|
  {
    hide Chunk, ReadAt, Sent, Rewrites;
    if tries != [] && (tr.Adb? ==> tries[0].before) {
      var t, wanted := tries[0], Chunk(img, at, n);
      var st' := Log(st, Sent(img, at, n, t));
      var read, read' := ReadAt(st.dev, at, n), ReadAt(st'.dev, at, n);
      SentRewrites(st.dev, img, at, n, t);
      RewritesMean(read, read', wanted, t.landed, 0);
      assert Longest(tries, 1) == t.landed;
      assert read' == wanted <==> RightFrom(read', wanted, 0);
      if Judge(st'.dev, img, at, n, tr, t).Again? {
        VerifiedLater(read, read', wanted, tr, tries);
        TriesSucceedExactlyWhen(st', img, at, n, tr, tries[1..]);
      } else if Judge(st'.dev, img, at, n, tr, t).Good? {
        assert VerifiedAt(read, wanted, tr, tries, 0);
      }
    }
  }

  lemma ChunkSucceedsExactlyWhen(st: State, img: string, tr: Transport, script: Script, k: nat)
    requires Offset(k) < |st.dev| && |img| <= |st.dev|
    ensures OneChunk(st, img, tr, script, k).ok <==> Done(st.dev, img, tr, script, k)
  {
    TriesSucceedExactlyWhen(st, img, Offset(k), Length(img, k), tr, script(k).tries);
  }

  lemma DoneUntouched(d: string, d': string, img: string, from: nat, to: nat, tr: Transport, script: Script, k: nat)
    requires from <= to <= |d| && SameOutside(d, d', from, to)
    requires Offset(k) + Length(img, k) <= from || to <= Offset(k)
    ensures Done(d', img, tr, script, k) <==> Done(d, img, tr, script, k)
  {
    ReadUntouched(d, d', from, to, Offset(k), Length(img, k));
  }

  /** The trailing chunks all succeed exactly when each would on the device as it was. */
  lemma {:induction false} TrailingSucceedsExactlyWhen(st: State, img: string, tr: Transport, script: Script, k: nat)
    requires k >= 1 && |img| <= |st.dev|
    ensures Trailing(st, img, tr, script, k).ok
       <==> forall i :: i >= k && Offset(i) < |img| ==> Done(st.dev, img, tr, script, i)
    decreases |img| - Offset(k)
  {
    hide Done, OneChunk;
    if Offset(k) < |img| {
      ChunkSucceedsExactlyWhen(st, img, tr, script, k);
      var added := ChunkEffect(st, img, tr, script, k);
      var o := OneChunk(st, img, tr, script, k);
      ReplayOutside(st.dev, added, img, Offset(k), Offset(k) + Length(img, k));
      forall i | i >= k + 1 && Offset(i) < |img| ensures Done(o.st.dev, img, tr, script, i) <==> Done(st.dev, img, tr, script, i) {
        DoneUntouched(st.dev, o.st.dev, img, Offset(k), Offset(k) + Length(img, k), tr, script, i);
      }
      TrailingSucceedsExactlyWhen(o.st, img, tr, script, k + 1);
    }
  }

  /** Exit status 0 comes exactly when the image is at least a chunk and each of its chunks, on the device
      with its magic zeroed, either matches and says so or is covered and verified by one of its tries. */
  lemma SucceedsExactlyWhen(d: string, img: string, tr: Transport, script: Script)
    requires |img| % 4096 == 0 && |img| <= 4096 * 4194304 <= |d|
    ensures Run(d, img, true, tr, script).ok
       <==> |img| >= 33554432 && forall k: nat :: 33554432 * k < |img| ==> Done(Zeroed(d), img, tr, script, k)
  {
    hide Done, OneChunk;
    ExitZeroMeansImage(d, img, true, tr, script);
    if |img| >= SPAN {
      var st := State(Zeroed(d), []);
      var tail := TrailingEffect(st, img, tr, script, 1);
      var o := Trailing(st, img, tr, script, 1);
      ReplayOutside(st.dev, tail, img, SPAN, |img|);
      TrailingSucceedsExactlyWhen(st, img, tr, script, 1);
      ChunkSucceedsExactlyWhen(o.st, img, tr, script, 0);
      DoneUntouched(st.dev, o.st.dev, img, SPAN, |img|, tr, script, 0);
    }
  }

  // ---------------------------------------------------------------- the magic after a failed run

  /** A write to chunk 0 reached the superblock's magic. */
  ghost predicate ReachesMagic(w: Write) {
    w.at == 0 && |w.bytes| > MAGIC_OFFSET
  }

  lemma MagicSetMeans(d: string)
    requires MAGIC_OFFSET + 2 <= |d|
    ensures MagicSet(d) <==> d[1080] != '\0' || d[1081] != '\0'
  {
    assert d[1080..1082] == [d[1080], d[1081]];
  }

  /** A write to chunk 0 puts the image's magic in place or leaves the magic alone. */
  lemma WriteAndMagic(d: string, w: Write, img: string)
    requires |d| >= SPAN && |img| >= MAGIC_OFFSET + 2 && w.at == 0 && Copies(w, img, 0, SPAN)
    ensures var d' := Apply(d, w);
            && |d'| == |d|
            && (if ReachesMagic(w) then d'[1080] == img[1080] else d'[1080] == d[1080] && d'[1081] == d[1081])
  {
    var d', n := Apply(d, w), |w.bytes|;
    if ReachesMagic(w) {
      assert d'[1080] == d'[0..n][1080];
    } else {
      assert d'[1080] == d'[n..][1080 - n] && d[1080] == d[n..][1080 - n];
      assert d'[1081] == d'[n..][1081 - n] && d[1081] == d[n..][1081 - n];
    }
  }

  lemma {:induction false} HeadAndMagic(d: string, img: string, head: seq<Write>)
    requires |d| >= SPAN && |img| >= MAGIC_OFFSET + 2 && !MagicSet(d) && img[MAGIC_OFFSET] != '\0'
    requires AllCopy(head, img, 0, SPAN) && forall i :: 0 <= i < |head| ==> head[i].at == 0
    ensures |Replay(d, head)| == |d|
    ensures if exists i :: 0 <= i < |head| && ReachesMagic(head[i]) then Replay(d, head)[MAGIC_OFFSET] == img[MAGIC_OFFSET]
            else !MagicSet(Replay(d, head))
  {
    MagicSetMeans(d);
    if head != [] {
      var init, w := head[..|head| - 1], head[|head| - 1];
      HeadAndMagic(d, img, init);
      var x, x' := Replay(d, init), Replay(d, head);
      WriteAndMagic(x, w, img);
      MagicSetMeans(x);
      MagicSetMeans(x');
      hide MagicSet, ReachesMagic, Apply, Copies;
      if i :| 0 <= i < |head| && ReachesMagic(head[i]) {
        assert i < |init| ==> init[i] == head[i];
      }
      if i :| 0 <= i < |init| && ReachesMagic(init[i]) {
        assert head[i] == init[i];
      }
    }
  }

  /** The `k`th try happens, unless one before it succeeds, and its write gets as far as the magic. */
  ghost predicate LandsAt(tr: Transport, tries: seq<Try>, k: nat)
    requires k < |tries|
  {
    && (forall i :: 0 <= i < k ==> Survives(tr, tries[i]))
    && (tr.Adb? ==> tries[k].before) && tries[k].landed > 1080
  }

  ghost predicate Lands(tr: Transport, tries: seq<Try>) {
    exists k :: 0 <= k < |tries| && LandsAt(tr, tries, k)
  }

  /** A first try that gets past its write without reaching the magic leaves it to the others. */
  lemma LandsLater(tr: Transport, tries: seq<Try>)
    requires tries != [] && Survives(tr, tries[0]) && tries[0].landed <= MAGIC_OFFSET
    ensures Lands(tr, tries) <==> Lands(tr, tries[1..])
  {
    var rest := tries[1..];
    if k :| 0 <= k < |tries| && LandsAt(tr, tries, k) {
      assert forall i :: 0 <= i < k - 1 ==> rest[i] == tries[i + 1];
      assert LandsAt(tr, rest, k - 1);
    }
    if k :| 0 <= k < |rest| && LandsAt(tr, rest, k) {
      assert forall i :: 0 < i < k + 1 ==> tries[i] == rest[i - 1];
      assert LandsAt(tr, tries, k + 1);
    }
  }

  /** What some of the writes made since there were `n` did. */
  ghost predicate Reached(o: Outcome, n: nat) {
    exists i :: n <= i < |o.st.writes| && ReachesMagic(o.st.writes[i])
  }

  lemma ShortWriteLeavesMagic(st: State, img: string, t: Try)
    requires |st.dev| >= SPAN && |img| >= MAGIC_OFFSET + 2 && !MagicSet(st.dev) && img[MAGIC_OFFSET] != '\0' && t.landed <= MAGIC_OFFSET
    ensures var w := Sent(img, 0, SPAN, t);
            !ReachesMagic(w) && |Apply(st.dev, w)| == |st.dev| && !MagicSet(Apply(st.dev, w))
  {
    var w := Sent(img, 0, SPAN, t);
    SentCopies(img, 0, SPAN, t);
    HeadAndMagic(st.dev, img, [w]);
    assert [w][..0] == [];
  }

  /** With the magic at zero the first chunk does not match. */
  lemma NoMagicNoMatch(d: string, img: string)
    requires |d| >= SPAN && |img| >= MAGIC_OFFSET + 2 && !MagicSet(d) && img[MAGIC_OFFSET] != '\0'
    ensures ReadAt(d, 0, SPAN) != Chunk(img, 0, SPAN)
  {
    assert d[MAGIC_OFFSET] == d[MAGIC_OFFSET..MAGIC_OFFSET + 2][0];
    assert ReadAt(d, 0, SPAN)[MAGIC_OFFSET] == d[MAGIC_OFFSET] && Chunk(img, 0, SPAN)[MAGIC_OFFSET] == img[MAGIC_OFFSET];
  }

  lemma {:induction false} TriesKeepWrites(st: State, img: string, tr: Transport, tries: seq<Try>)
    ensures st.writes <= Tries(st, img, 0, SPAN, tr, tries).st.writes
    decreases |tries|
  {
    if tries != [] {
      TriesKeepWrites(Log(st, Sent(img, 0, SPAN, tries[0])), img, tr, tries[1..]);
    }
  }

  lemma {:induction false} TriesReachExactlyWhen(st: State, img: string, tr: Transport, tries: seq<Try>)
    requires |st.dev| >= SPAN && |img| >= MAGIC_OFFSET + 2 && !MagicSet(st.dev) && img[MAGIC_OFFSET] != '\0'
    ensures Reached(Tries(st, img, 0, SPAN, tr, tries), |st.writes|) <==> Lands(tr, tries)
    decreases |tries|
  {
    if tries == [] || (tr.Adb? && !tries[0].before) {
      return;
    }
    var t := tries[0];
    var w := Sent(img, 0, SPAN, t);
    var st' := Log(st, w);
    var o := Tries(st, img, 0, SPAN, tr, tries);
    if t.landed > MAGIC_OFFSET {
      assert LandsAt(tr, tries, 0);
      TriesKeepWrites(st', img, tr, tries[1..]);
      assert o.st.writes[|st.writes|] == w;
    } else {
      ShortWriteLeavesMagic(st, img, t);
      NoMagicNoMatch(st'.dev, img);
      if Judge(st'.dev, img, 0, SPAN, tr, t).Again? {
        LandsLater(tr, tries);
        TriesReachExactlyWhen(st', img, tr, tries[1..]);
        TriesKeepWrites(st', img, tr, tries[1..]);
        assert o.st.writes[|st.writes|] == w;
      }
    }
  }

  /** The tools say a failed run leaves the magic at zero. A run, failed or not, leaves it set exactly when
      the trailing chunks are done and some try at chunk 0 that the transport lets happen lands more than
      the bytes before the magic. */
  lemma MagicZeroExactlyWhen(d: string, img: string, tr: Transport, script: Script)
    requires Acceptable(img) && |d| >= Bytes(LOG_SLOT_A)
    requires img != "" && img[MAGIC_OFFSET] != '\0'
    ensures var o := Run(d, img, true, tr, script);
            && |o.st.dev| == |d|
            && (MagicSet(o.st.dev) <==>
                && (forall k :: k >= 1 && Offset(k) < |img| ==> Done(Zeroed(d), img, tr, script, k))
                && (tr.Adb? ==> script(0).up) && Lands(tr, script(0).tries))
  {
    hide Lands, Replay, OneChunk, Trailing, Reached, Done;
    var st := State(Zeroed(d), []);
    var tail := TrailingEffect(st, img, tr, script, 1);
    var o1, o := Trailing(st, img, tr, script, 1), Run(d, img, true, tr, script);
    TrailingSucceedsExactlyWhen(st, img, tr, script, 1);
    TrailingKeepsMagic(st.dev, tail, img);
    MagicSetOnlyByReaching(d, img, tr, script);
    if o1.ok {
      ChunkZeroReachesExactlyWhen(o1.st, img, tr, script);
    } else {
      NoneReached(o, |tail|);
    }
    ReachedInTail(o, tail, img);
  }

  lemma NoneReached(o: Outcome, n: nat)
    requires |o.st.writes| == n
    ensures !Reached(o, n)
  {
  }

  lemma ChunkZeroReachesExactlyWhen(st: State, img: string, tr: Transport, script: Script)
    requires |st.dev| >= SPAN && |img| >= MAGIC_OFFSET + 2 && !MagicSet(st.dev) && img[MAGIC_OFFSET] != '\0'
    ensures var o := OneChunk(st, img, tr, script, 0);
            st.writes <= o.st.writes && (Reached(o, |st.writes|) <==> (tr.Adb? ==> script(0).up) && Lands(tr, script(0).tries))
  {
    NoMagicNoMatch(st.dev, img);
    hide Lands, Tries, Chunk, ReadAt;
    if !tr.Adb? || script(0).up {
      TriesReachExactlyWhen(st, img, tr, script(0).tries);
      TriesKeepWrites(st, img, tr, script(0).tries);
    }
  }

  lemma TrailingKeepsMagic(d: string, tail: seq<Write>, img: string)
    requires MAGIC_OFFSET + 2 <= |d| && |img| <= |d| && if |img| >= SPAN then AllCopy(tail, img, SPAN, |img|) else tail == []
    ensures var d' := Replay(d, tail);
            |d'| == |d| && d'[MAGIC_OFFSET..MAGIC_OFFSET + 2] == d[MAGIC_OFFSET..MAGIC_OFFSET + 2]
  {
    if |img| >= SPAN {
      ReplayOutside(d, tail, img, SPAN, |img|);
      SliceOutside(d, Replay(d, tail), SPAN, |img|, MAGIC_OFFSET, MAGIC_OFFSET + 2);
    }
  }

  /** The trailing writes are all past the magic. */
  lemma ReachedInTail(o: Outcome, tail: seq<Write>, img: string)
    requires (tail != [] ==> AllCopy(tail, img, SPAN, |img|)) && tail <= o.st.writes
    ensures Reached(o, 0) <==> Reached(o, |tail|)
  {
    forall i | 0 <= i < |tail| ensures !ReachesMagic(o.st.writes[i]) {
      assert Copies(tail[i], img, SPAN, |img|);
    }
  }

  /** The magic is set after a run exactly when some write to chunk 0 got as far as it. */
  lemma MagicSetOnlyByReaching(d: string, img: string, tr: Transport, script: Script)
    requires Acceptable(img) && |d| >= Bytes(LOG_SLOT_A)
    requires img != "" && img[MAGIC_OFFSET] != '\0'
    ensures var o := Run(d, img, true, tr, script);
            && |o.st.dev| == |d|
            && (MagicSet(o.st.dev) <==> Reached(o, 0))
  {
    var z, o := Zeroed(d), Run(d, img, true, tr, script);
    var tail, head := RunParts(d, img, tr, script);
    var mid := Replay(z, tail);
    TrailingKeepsMagic(z, tail, img);
    HeadAndMagic(mid, img, head);
    var x := o.st.dev;
    assert x[MAGIC_OFFSET] == x[MAGIC_OFFSET..MAGIC_OFFSET + 2][0];
    if i :| 0 <= i < |head| && ReachesMagic(head[i]) {
      assert o.st.writes[|tail| + i] == head[i];
    }
    ReachedInTail(o, tail, img);
    if i :| |tail| <= i < |o.st.writes| && ReachesMagic(o.st.writes[i]) {
      assert head[i - |tail|] == o.st.writes[i];
    }
  }

  // ---------------------------------------------------------------- progress

  /** Some try delivers the chunk and brings its hash back, and the transport holds until then. */
  ghost predicate Delivers(tr: Transport, tries: seq<Try>) {
    exists k :: 0 <= k < |tries| && DeliversAt(tr, tries, k)
  }

  ghost predicate DeliversAt(tr: Transport, tries: seq<Try>, k: nat)
    requires k < |tries|
  {
    && (forall i :: 0 <= i <= k ==> Survives(tr, tries[i]))
    && tries[k].landed >= SPAN && tries[k].reply.Faithful? && !(tr.Ssh? && tries[k].reported)
  }

  /** The chunk needs no writing and says so, or is delivered. */
  ghost predicate Served(d: string, img: string, tr: Transport, script: Script, k: nat) {
    && (tr.Adb? ==> script(k).up)
    && (Delivers(tr, script(k).tries) || (Matches(d, img, k) && script(k).first.Faithful?))
  }

  /** A try that lands the whole chunk covers whatever was wrong. */
  lemma ServedIsDone(d: string, img: string, tr: Transport, script: Script, k: nat)
    requires Served(d, img, tr, script, k) && Offset(k) + Length(img, k) <= |img| <= |d|
    ensures Done(d, img, tr, script, k)
  {
    var tries := script(k).tries;
    if Delivers(tr, tries) {
      var i :| 0 <= i < |tries| && DeliversAt(tr, tries, i);
      LongestIsLongest(tries, i + 1, i);
      assert VerifiedAt(ReadAt(d, Offset(k), Length(img, k)), Chunk(img, Offset(k), Length(img, k)), tr, tries, i);
    }
  }

  lemma {:induction false} LongestIsLongest(tries: seq<Try>, k: nat, i: nat)
    requires i < k <= |tries|
    ensures Longest(tries, k) >= tries[i].landed
  {
    if i > 0 {
      LongestIsLongest(tries[1..], k - 1, i - 1);
    }
  }

  /** What a run within the size limits leaves: the image before the old rest if it succeeded, and the old
      log ring in any case. */
  lemma WhatARunLeaves(d: string, img: string, tr: Transport, script: Script)
    requires |img| % 4096 == 0 && |img| <= 4096 * 4194304 <= |d|
    ensures var o := Run(d, img, true, tr, script);
            && |o.st.dev| == |d|
            && (o.ok ==> o.st.dev == img + d[|img|..])
            && o.st.dev[4096 * 4194304..] == d[4096 * 4194304..]
  {
    var r := Run(d, img, true, tr, script);
    ExitZeroMeansImage(d, img, true, tr, script);
    LogRingUntouched(d, img, tr, script, |r.st.writes|, 0);
    if r.ok {
      NothingPastTheImage(d, img, tr, script, |r.st.writes|, 0);
      assert r.st.dev == r.st.dev[..|img|] + r.st.dev[|img|..];
    }
  }

  /** From any device contents, what an interrupted run left included: if every chunk that needs writing
      is delivered and verified within its five tries, the run exits 0, unless the image is shorter
      than a chunk, when nothing could have made it. */
  lemma DeliveredRunFinishes(d: string, img: string, tr: Transport, script: Script)
    requires |img| % 4096 == 0 && |img| <= 4096 * 4194304 <= |d|
    requires forall k: nat :: 33554432 * k < |img| ==> Served(Zeroed(d), img, tr, script, k)
    ensures var o := Run(d, img, true, tr, script);
            && (o.ok <==> |img| >= 33554432)
            && (o.ok ==> o.st.dev == img + d[|img|..])
  {
    hide Served, Done;
    if |img| >= SPAN {
      forall k | Offset(k) < |img| ensures Done(Zeroed(d), img, tr, script, k) {
        ServedIsDone(Zeroed(d), img, tr, script, k);
      }
    }
    SucceedsExactlyWhen(d, img, tr, script);
    WhatARunLeaves(d, img, tr, script);
  }

  // ---------------------------------------------------------------- failing with the magic set

  /** A try whose bytes all land, with no verification coming back, and one that brings it back. */
  function Unheard(): FiveTries {
    seq(TRIES, _ => Try(true, SPAN, false, true, Nothing))
  }

  function Heard(): FiveTries {
    seq(TRIES, _ => Try(true, SPAN, false, true, Faithful))
  }

  /** Over either transport and for any image with anything in it, a run can fail with the magic
      set: the trailing chunks go through, chunk 0 lands and no verification of it ever comes back. */
  lemma FailureCanLeaveTheMagic(d: string, img: string, tr: Transport)
    requires Acceptable(img) && img != "" && |d| >= Bytes(LOG_SLOT_A) && img[MAGIC_OFFSET] != '\0'
    ensures var o := Run(d, img, true, tr, (k: nat) => ChunkScript(true, Nothing, if k == 0 then Unheard() else Heard()));
            !o.ok && |o.st.dev| == |d| && MagicSet(o.st.dev)
  {
    var script: Script := (k: nat) => ChunkScript(true, Nothing, if k == 0 then Unheard() else Heard());
    var st := State(Zeroed(d), []);
    forall k | k >= 1 && Offset(k) < |img| ensures Done(st.dev, img, tr, script, k) {
      assert DeliversAt(tr, Heard(), 0);
      ServedIsDone(st.dev, img, tr, script, k);
    }
    assert LandsAt(tr, Unheard(), 0);
    MagicZeroExactlyWhen(d, img, tr, script);
    UnheardTriesFail(Trailing(st, img, tr, script, 1).st, img, tr, Unheard());
  }

  lemma {:induction false} UnheardTriesFail(st: State, img: string, tr: Transport, tries: seq<Try>)
    requires forall i :: 0 <= i < |tries| ==> tries[i].reply.Nothing?
    ensures !Tries(st, img, 0, SPAN, tr, tries).ok
    decreases |tries|
  {
    if tries != [] {
      UnheardTriesFail(Log(st, Sent(img, 0, SPAN, tries[0])), img, tr, tries[1..]);
    }
  }

  // ---------------------------------------------------------------- five tries

  /** A chunk that only the fifth try delivers is done, and one that none of the five delivers is given up,
      after five writes. */
  lemma FifthTryIsTheLast(st: State, img: string, tr: Transport, k: nat)
    requires 33554432 * k < |img| <= |st.dev| && (k == 0 ==> |img| >= 33554432)
    ensures var lost, heard := Try(true, 0, false, true, Nothing), Try(true, 33554432, false, true, Faithful);
            var late: Script := (i: nat) => ChunkScript(true, Nothing, [lost, lost, lost, lost, heard]);
            var never: Script := (i: nat) => ChunkScript(true, Nothing, [lost, lost, lost, lost, lost]);
            && OneChunk(st, img, tr, late, k).ok
            && !OneChunk(st, img, tr, never, k).ok
            && |OneChunk(st, img, tr, never, k).st.writes| == |st.writes| + 5
  {
    var lost, heard := Try(true, 0, false, true, Nothing), Try(true, 33554432, false, true, Faithful);
    var tries := [lost, lost, lost, lost, heard];
    var late: Script := (i: nat) => ChunkScript(true, Nothing, tries);
    assert tries[4] == heard && forall i :: 0 <= i < 4 ==> tries[i] == lost;
    assert DeliversAt(tr, tries, 4);
    ServedIsDone(st.dev, img, tr, late, k);
    ChunkSucceedsExactlyWhen(st, img, tr, late, k);
    var none := [lost, lost, lost, lost, lost];
    LostTriesAllHappen(st, img, Offset(k), Length(img, k), tr, none);
  }

  lemma {:induction false} LostTriesAllHappen(st: State, img: string, at: nat, n: nat, tr: Transport, tries: seq<Try>)
    requires forall i :: 0 <= i < |tries| ==> tries[i] == Try(true, 0, false, true, Nothing)
    ensures var o := Tries(st, img, at, n, tr, tries); !o.ok && |o.st.writes| == |st.writes| + |tries|
    decreases |tries|
  {
    if tries != [] {
      LostTriesAllHappen(Log(st, Sent(img, at, n, tries[0])), img, at, n, tr, tries[1..]);
    }
  }
}
