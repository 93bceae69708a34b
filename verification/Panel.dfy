/**
 * The panel's repaint: only lines that differ from the last frame are sent, and the terminal ends up
 * showing exactly the new one.
 *
 * Assumed: no line is wider than the terminal, and what one repaint emits fits its output buffer.
 */
module Panel {
  import opened Terminal
  import opened Frame

  /** Every physical row shows its line of the frame, and rows below the frame are blank. */
  ghost predicate Shows(t: Term, s: Screen) {
    forall i :: 0 <= i < |t.rows| ==> t.rows[i] == Seen(LineOf(s, i), t.cols)
  }

  function Max(a: nat, b: nat): nat {
    if a > b then a else b
  }

  /** The last row looked at: the taller of the two frames, clamped to the physical screen. */
  function LastRow(cur: Screen, prev: Screen, height: nat): nat
    requires height >= 1
  {
    if Max(cur.n, prev.n) > height - 1 then height - 1 else Max(cur.n, prev.n)
  }

  /** What is sent for the first `k` rows. */
  function RowOps(cur: Screen, prev: Screen, force: bool, k: nat): seq<Op> {
    if k == 0 then []
    else
      var i := k - 1;
      RowOps(cur, prev, force, i) + (if !force && LineOf(cur, i) == LineOf(prev, i) then [] else LineOps(i, LineOf(cur, i)))
  }

  /** What is sent for the rows below the frame. */
  function TailOps(cur: Screen, prev: Screen, force: bool, height: nat): seq<Op> {
    if (force || cur.n < prev.n) && cur.n + 2 <= height then BelowOps(cur.n + 1) else []
  }

  function RenderOps(cur: Screen, prev: Screen, force: bool, height: nat): seq<Op>
    requires height >= 1
  {
    RowOps(cur, prev, force, LastRow(cur, prev, height) + 1) + TailOps(cur, prev, force, height)
  }

  function Painted(t: Term, cur: Screen, prev: Screen, force: bool): Term
    requires Valid(t)
  {
    DoAll(t, RenderOps(cur, prev, force, |t.rows|))
  }

  // ---------------------------------------------------------------- one repaint

  ghost predicate RowsShown(t: Term, t': Term, cur: Screen, k: nat) {
    && |t'.rows| == |t.rows| && t'.cols == t.cols
    && forall i :: 0 <= i < |t.rows| ==> t'.rows[i] == if i < k then Seen(LineOf(cur, i), t.cols) else t.rows[i]
  }

  lemma {:induction false} RowsPainted(t: Term, cur: Screen, prev: Screen, force: bool, k: nat)
    requires Valid(t) && k <= |t.rows| && (force || Shows(t, prev))
    ensures RowsShown(t, DoAll(t, RowOps(cur, prev, force, k)), cur, k)
  {
    hide Do, LineOps;
    if k > 0 {
      var i := k - 1;
      var before := RowOps(cur, prev, force, i);
      RowsPainted(t, cur, prev, force, i);
      if !force && LineOf(cur, i) == LineOf(prev, i) {
        assert before + [] == before;
      } else {
        RowAdded(t, DoAll(t, before), cur, i);
        DoAllJoins(t, before, LineOps(i, LineOf(cur, i)));
      }
    }
  }

  lemma RowAdded(t: Term, t1: Term, cur: Screen, i: nat)
    requires Valid(t1) && i < |t.rows| && RowsShown(t, t1, cur, i)
    ensures RowsShown(t, DoAll(t1, LineOps(i, LineOf(cur, i))), cur, i + 1)
  {
    LineShows(t1, i, LineOf(cur, i));
  }

  /** With nothing sent below the rows, what is there is already blank. */
  lemma NothingBelow(t: Term, t1: Term, cur: Screen, prev: Screen, force: bool)
    requires |t.rows| >= 1 && (force || Shows(t, prev)) && RowsShown(t, t1, cur, LastRow(cur, prev, |t.rows|) + 1)
    requires (!force && cur.n >= prev.n) || cur.n + 2 > |t.rows|
    ensures Shows(t1, cur)
  {
    forall i | 0 <= i < |t1.rows| ensures t1.rows[i] == Seen(LineOf(cur, i), t.cols) {
      if i > LastRow(cur, prev, |t.rows|) {
        assert t.rows[i] == LineOf(prev, i);
      }
    }
  }

  /** Erasing below the frame leaves it alone. */
  lemma ErasedBelow(t: Term, t1: Term, t2: Term, cur: Screen, k: nat)
    requires RowsShown(t, t1, cur, k) && k > cur.n && cur.n + 2 <= |t.rows|
    requires BlankFrom(t1, t2, cur.n + 1)
    ensures Shows(t2, cur)
  {
  }

  lemma NothingSent(t: Term)
    requires Valid(t)
    ensures DoAll(t, []) == t
  {
  }

  lemma TailPainted(t: Term, t1: Term, cur: Screen, prev: Screen, force: bool)
    requires Valid(t1) && |t.rows| >= 1 && (force || Shows(t, prev))
    requires RowsShown(t, t1, cur, LastRow(cur, prev, |t.rows|) + 1)
    ensures Shows(DoAll(t1, TailOps(cur, prev, force, |t.rows|)), cur)
  {
    hide DoAll, Shows, Seen, Columns;
    if (force || cur.n < prev.n) && cur.n + 2 <= |t.rows| {
      assert TailOps(cur, prev, force, |t.rows|) == BelowOps(cur.n + 1);
      BelowErased(t1, cur.n + 1);
      ErasedBelow(t, t1, DoAll(t1, BelowOps(cur.n + 1)), cur, LastRow(cur, prev, |t.rows|) + 1);
    } else {
      assert TailOps(cur, prev, force, |t.rows|) == [];
      NothingSent(t1);
      NothingBelow(t, t1, cur, prev, force);
    }
  }

  /** An unforced repaint over a terminal that shows the last frame, or a forced one over anything,
      leaves every physical row showing the new frame, however much shorter, longer or taller than the
      screen either frame is. */
  lemma RepaintShowsFrame(t: Term, cur: Screen, prev: Screen, force: bool)
    requires Valid(t) && (force || Shows(t, prev))
    ensures Shows(Painted(t, cur, prev, force), cur)
  {
    var k := LastRow(cur, prev, |t.rows|) + 1;
    var rows, tail := RowOps(cur, prev, force, k), TailOps(cur, prev, force, |t.rows|);
    RowsPainted(t, cur, prev, force, k);
    TailPainted(t, DoAll(t, rows), cur, prev, force);
    DoAllJoins(t, rows, tail);
  }

  // ---------------------------------------------------------------- what is not sent

  /** Unforced, only rows that differ are addressed. */
  lemma {:induction false} OnlyDifferencesAreSent(cur: Screen, prev: Screen, k: nat)
    ensures forall op :: op in RowOps(cur, prev, false, k) && op.Cup? ==>
              1 <= op.row <= k && LineOf(cur, op.row - 1) != LineOf(prev, op.row - 1)
  {
    if k > 0 {
      OnlyDifferencesAreSent(cur, prev, k - 1);
    }
  }

  lemma {:induction false} SameRowsSendNothing(cur: Screen, prev: Screen, k: nat)
    requires forall i :: 0 <= i < k ==> LineOf(cur, i) == LineOf(prev, i)
    ensures RowOps(cur, prev, false, k) == []
  {
    if k > 0 {
      SameRowsSendNothing(cur, prev, k - 1);
    }
  }

  /** A frame that is the last one over again costs nothing. */
  lemma SameFrameSendsNothing(cur: Screen, prev: Screen, height: nat)
    requires height >= 1 && SameFrame(cur, prev)
    ensures RenderOps(cur, prev, false, height) == []
  {
    forall i | 0 <= i <= cur.n ensures LineOf(cur, i) == LineOf(prev, i) {
      assert cur.line[i] == Lines(cur)[i] && prev.line[i] == Lines(prev)[i];
    }
    SameRowsSendNothing(cur, prev, LastRow(cur, prev, height) + 1);
  }

  // ---------------------------------------------------------------- any run of frames

  datatype Repaint = Repaint(frame: Screen, force: bool)

  function PaintAll(t: Term, prev: Screen, run: seq<Repaint>): Term
    requires Valid(t)
    decreases |run|
  {
    if run == [] then t
    else PaintAll(Painted(t, run[0].frame, prev, run[0].force), run[0].frame, run[1..])
  }

  lemma {:induction false} RunShowsLastFrame(t: Term, prev: Screen, run: seq<Repaint>)
    requires Valid(t) && run != [] && (run[0].force || Shows(t, prev))
    ensures Shows(PaintAll(t, prev, run), run[|run| - 1].frame)
    ensures |PaintAll(t, prev, run).rows| == |t.rows| && PaintAll(t, prev, run).cols == t.cols
    decreases |run|
  {
    hide Shows, RenderOps;
    RepaintShowsFrame(t, run[0].frame, prev, run[0].force);
    var t' := Painted(t, run[0].frame, prev, run[0].force);
    if |run| == 1 {
      assert run[1..] == [] && PaintAll(t', run[0].frame, []) == t';
    } else {
      assert run[1..][|run| - 2] == run[|run| - 1];
      RunShowsLastFrame(t', run[0].frame, run[1..]);
    }
  }

  function AllForced(run: seq<Repaint>): seq<Repaint> {
    seq(|run|, i requires 0 <= i < |run| => Repaint(run[i].frame, true))
  }

  /** Repainting differences is as good as repainting everything: after any run of frames that starts
      with a forced one, the screen is the one that full repaints would have left, whatever either
      terminal showed to begin with. */
  lemma DifferencesAreEnough(t: Term, t': Term, prev: Screen, prev': Screen, run: seq<Repaint>)
    requires Valid(t) && Valid(t') && |t.rows| == |t'.rows| && t.cols == t'.cols && run != [] && run[0].force
    ensures PaintAll(t, prev, run).rows == PaintAll(t', prev', AllForced(run)).rows
  {
    RunShowsLastFrame(t, prev, run);
    RunShowsLastFrame(t', prev', AllForced(run));
  }

  /** The screen depends only on the frame, not on stale lines of the buffer it is in. */
  lemma SameFrameSameScreen(t: Term, t': Term, a: Screen, b: Screen)
    requires |t.rows| == |t'.rows| && t.cols == t'.cols && SameFrame(a, b) && Shows(t, a) && Shows(t', b)
    ensures t.rows == t'.rows
  {
    forall i | 0 <= i < |t.rows| ensures t.rows[i] == t'.rows[i] {
      if i <= a.n {
        assert a.line[i] == Lines(a)[i] && b.line[i] == Lines(b)[i];
      }
    }
  }

  // ---------------------------------------------------------------- rows that fill the width

  ghost predicate NoColumn(text: string) {
    Columns(text) == 0 && !InSequence(text)
  }

  lemma OneColour(text: string, body: string)
    requires text == [ESC] + body + "m" && forall c :: c in body ==> '0' <= c <= '9' || c == '[' || c == ';'
    ensures NoColumn(text)
  {
    ColourTakesNoColumn(body);
  }

  lemma TwoColours(text: string, a: string, b: string)
    requires text == a + b && NoColumn(a) && NoColumn(b)
    ensures NoColumn(text)
  {
    ColumnsJoin(a, b);
  }

  lemma BandsTakeNoColumn(band: nat)
    ensures NoColumn(FireBand(band)) && NoColumn(FrostBand(band)) && NoColumn(RST)
  {
    hide NoColumn;
    OneColour(RST, "[0");
    OneColour("\U{1B}[1m", "[1");
    OneColour("\U{1B}[31m", "[31");
    OneColour("\U{1B}[33m", "[33");
    OneColour("\U{1B}[34m", "[34");
    OneColour("\U{1B}[35m", "[35");
    OneColour("\U{1B}[36m", "[36");
    OneColour("\U{1B}[1;37m", "[1;37");
    TwoColours("\U{1B}[1m\U{1B}[33m", "\U{1B}[1m", "\U{1B}[33m");
    TwoColours("\U{1B}[1m\U{1B}[31m", "\U{1B}[1m", "\U{1B}[31m");
    TwoColours("\U{1B}[1m\U{1B}[36m", "\U{1B}[1m", "\U{1B}[36m");
    TwoColours("\U{1B}[1m\U{1B}[34m", "\U{1B}[1m", "\U{1B}[34m");
  }

  /** The logo is drawn as wide as the terminal, so it never shows edge to edge: every row of either half
      is seen without its last character. */
  lemma LogoLosesLastColumn(r: nat, rows: nat, cols: nat, frame: nat)
    requires r < rows && 1 <= cols <= LOGO_ROW_BUF
    ensures var k, glyphs := rows - 1 - r, LogoRow(cols, Shift(frame) + (rows - 1 - r) * 3);
            Seen(TopText(r, rows, cols, frame), cols) == FireBand(Band(k, rows)) + glyphs[..cols - 1] + RST
    ensures var glyphs := LogoRow(cols, -Shift(frame) + r * 3);
            Seen(BottomText(r, rows, cols, frame), cols) == FrostBand(Band(r, rows)) + glyphs[..cols - 1] + RST
  {
    hide LogoRow, FireBand, FrostBand, Band, Seen;
    BandsTakeNoColumn(Band(rows - 1 - r, rows));
    BandsTakeNoColumn(Band(r, rows));
    LogoRowIsPrintable(cols, Shift(frame) + (rows - 1 - r) * 3);
    LogoRowIsPrintable(cols, -Shift(frame) + r * 3);
    FullRowLosesLastColumn(FireBand(Band(rows - 1 - r, rows)), LogoRow(cols, Shift(frame) + (rows - 1 - r) * 3), RST);
    FullRowLosesLastColumn(FrostBand(Band(r, rows)), LogoRow(cols, -Shift(frame) + r * 3), RST);
  }

  // ---------------------------------------------------------------- the panel itself

  class Display {
    var cur: Screen
    var prev: Screen
    var bodyCache: Screen
    var bodyCacheValid: bool
    var animFrame: nat
    var term: Term
    const height: nat
    const cols: nat

    /** The terminal is as tall and as wide as the panel takes it to be. */
    ghost predicate Ready()
      reads this
    {
      1 <= height && Terminal.Valid(term) && |term.rows| == height && term.cols == cols
    }

    ghost predicate Synced()
      reads this
    {
      Ready() && Shows(term, prev)
    }

    method Print(text: string)
      modifies this`cur
      ensures cur == Out(old(cur), text)
    {
      var tmp := Formatted(text);
      for i := 0 to |tmp|
        invariant cur == PutAll(old(cur), tmp[..i])
      {
        assert tmp[..i + 1][..i] == tmp[..i];
        if tmp[i] == '\n' {
          if cur.n + 1 < MAX_ROWS {
            cur := Buffer(cur.line[cur.n + 1 := ""], cur.n + 1);
          }
          continue;
        }
        var dst := cur.line[cur.n];
        if |dst| + 2 < MAX_LINE {
          cur := Buffer(cur.line[cur.n := dst + [tmp[i]]], cur.n);
        }
      }
      assert tmp[..|tmp|] == tmp;
    }

    /** Differing rows, then what lies below. */
    method Emit(force: bool) returns (sent: seq<Op>)
      requires Ready()
      ensures sent == RenderOps(cur, prev, force, height)
    {
      hide LineOps, BelowOps;
      var rows := if cur.n > prev.n then cur.n else prev.n;
      if rows > height - 1 {
        rows := height - 1;
      }
      sent := [];
      var i := 0;
      while i <= rows && i < MAX_ROWS
        invariant i <= rows + 1 <= MAX_ROWS
        invariant sent == RowOps(cur, prev, force, i)
      {
        var a := if i <= cur.n then cur.line[i] else "";
        var b := if i <= prev.n then prev.line[i] else "";
        if force || a != b {
          sent := sent + LineOps(i, a);
        } else {
          assert sent + [] == sent;
        }
        i := i + 1;
      }
      if (force || cur.n < prev.n) && cur.n + 2 <= height {
        sent := sent + BelowOps(cur.n + 1);
      } else {
        assert sent + [] == sent;
      }
    }

    /** One repaint, after which the buffers have changed places. */
    method Render(force: bool)
      requires Ready()
      modifies this`cur, this`prev, this`term
      ensures term == Painted(old(term), old(cur), old(prev), force)
      ensures prev == old(cur) && cur == Reset(old(prev))
      ensures Ready() && (force || old(Synced()) ==> Synced())
    {
      var sent := Emit(force);
      if force || Shows(term, prev) {
        RepaintShowsFrame(term, cur, prev, force);
      }
      term := DoAll(term, sent);
      cur, prev := prev, cur;
      cur := Reset(cur);
    }

    method LogoGap()
      modifies this`cur
      ensures cur == Frame.LogoGap(old(cur))
    {
      for i := 0 to LOGO_GAP
        invariant cur == Newlines(old(cur), i)
      {
        Print("\n");
      }
    }

    method PrintTexts(texts: seq<string>)
      modifies this`cur
      ensures cur == PrintLines(old(cur), texts)
    {
      for r := 0 to |texts|
        invariant cur == PrintLines(old(cur), texts[..r])
      {
        assert texts[..r + 1][..r] == texts[..r];
        Print(texts[r] + "\n");
      }
      assert texts[..|texts|] == texts;
    }

    method Halves(upper: seq<string>, lower: seq<string>)
      modifies this`cur
      ensures cur == Frame.Halves(old(cur), upper, lower)
    {
      PrintTexts(upper);
      LogoGap();
      PrintTexts(lower);
    }

    method Logo()
      modifies this`cur, this`animFrame
      ensures cur == Frame.Logo(old(cur), height, ArtOf(cols, old(animFrame)))
      ensures animFrame == old(animFrame) + 1
    {
      var frame := animFrame;
      animFrame := animFrame + 1;
      var split := LogoSplit(cur.n, height);
      var topRows := split / 2;
      var art := ArtOf(cols, frame);
      Halves(art.top(topRows), art.bottom(split - topRows));
    }

    method Tagline(ghost frame: nat)
      requires height <= MAX_ROWS
      modifies this`cur
      ensures cur == Frame.Tagline(old(cur), height, ArtOf(cols, frame))
    {
      while cur.n + 1 < height
        invariant ToLastRow(cur, height) == ToLastRow(old(cur), height)
        decreases height - cur.n
      {
        BlankAfterNewline(cur);
        Print("\n");
      }
      Print(TagText(cols) + "\n");
    }

    method FinishDashboard()
      requires height <= MAX_ROWS
      modifies this`cur, this`animFrame
      ensures cur == Layout(old(cur), height, ArtOf(cols, old(animFrame)))
      ensures animFrame == old(animFrame) + 1
    {
      LogoGap();
      Logo();
      LogoGap();
      Tagline(old(animFrame));
    }

    method FinishAndRender(force: bool)
      requires Ready() && height <= MAX_ROWS
      modifies this`cur, this`prev, this`animFrame, this`term
      ensures prev == Layout(old(cur), height, ArtOf(cols, old(animFrame)))
      ensures animFrame == old(animFrame) + 1
      ensures Ready() && (force || old(Synced()) ==> Synced())
    {
      FinishDashboard();
      Render(force);
    }

    /** A full repaint of the dashboard, its body given as the texts it prints. */
    method RepaintDashboard(body: seq<string>, force: bool)
      requires Ready() && height <= MAX_ROWS
      modifies this
      ensures prev == Dashboard(old(cur), body, height, ArtOf(cols, old(animFrame)))
      ensures bodyCacheValid && bodyCache == OutAll(Reset(old(cur)), body)
      ensures animFrame == old(animFrame) + 1
      ensures Ready() && (force || old(Synced()) ==> Synced())
    {
      cur := Reset(cur);
      for i := 0 to |body|
        invariant cur == OutAll(Reset(old(cur)), body[..i])
        invariant unchanged(`prev) && unchanged(`term) && unchanged(`animFrame)
      {
        assert body[..i + 1][..i] == body[..i];
        Print(body[i]);
      }
      assert body[..|body|] == body;
      bodyCache := cur;
      bodyCacheValid := true;
      FinishAndRender(force);
    }

    /** The animation tick: the cached body again, nothing resampled. Before there is a cache it is a full repaint. */
    method RepaintLogoOnly(body: seq<string>)
      requires Ready() && height <= MAX_ROWS
      modifies this
      ensures prev == if old(bodyCacheValid) then Layout(old(bodyCache), height, ArtOf(cols, old(animFrame)))
                      else Dashboard(old(cur), body, height, ArtOf(cols, old(animFrame)))
      ensures bodyCacheValid && (old(bodyCacheValid) ==> bodyCache == old(bodyCache))
      ensures animFrame == old(animFrame) + 1
      ensures Ready() && (old(Synced()) ==> Synced())
    {
      if !bodyCacheValid {
        RepaintDashboard(body, false);
        return;
      }
      cur := bodyCache;
      FinishAndRender(false);
    }
  }

  /** After an animation tick the screen is the one a full repaint of the same body at the same animation
      frame would show, whatever stale lines either buffer holds. */
  lemma LogoOnlyEqualsFullRepaint(t: Term, t': Term, cache: Screen, stale: Screen, other: Screen, body: seq<string>, height: nat, art: Art)
    requires height <= MAX_ROWS && cache == OutAll(Reset(stale), body)
    requires |t.rows| == |t'.rows| && t.cols == t'.cols
    requires Shows(t, Layout(cache, height, art)) && Shows(t', Dashboard(other, body, height, art))
    ensures t.rows == t'.rows
  {
    CachedBodyIsEnough(cache, stale, other, body, height, art);
    SameFrameSameScreen(t, t', Layout(cache, height, art), Dashboard(other, body, height, art));
  }
}
