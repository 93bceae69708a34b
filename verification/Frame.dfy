/**
 * The panel's frame buffer: how text is laid into it within its caps, and the dashboard's animated
 * lower half down to the tagline on the last row.
 */
module Frame {
  import opened Common

  const MAX_ROWS := 128
  const MAX_LINE := 2048

  /** Lines past `n` are stale: left over from earlier frames. */
  datatype Buffer = Buffer(line: seq<string>, n: nat)

  type Screen = s: Buffer | |s.line| == MAX_ROWS && s.n < MAX_ROWS witness Buffer(seq(MAX_ROWS, _ => ""), 0)

  function Reset(s: Screen): Screen {
    Buffer(s.line[0 := ""], 0)
  }

  /** The lines of the frame itself. */
  function Lines(s: Screen): seq<string> {
    s.line[..s.n + 1]
  }

  function LineOf(s: Screen, i: nat): string {
    if i <= s.n then s.line[i] else ""
  }

  // ---------------------------------------------------------------- printing

  /** A newline past the row cap and a character past the line cap are dropped. */
  function PutChar(s: Screen, c: char): Screen {
    if c == '\n' then
      if s.n + 1 < MAX_ROWS then Buffer(s.line[s.n + 1 := ""], s.n + 1) else s
    else if |s.line[s.n]| + 2 < MAX_LINE then
      Buffer(s.line[s.n := s.line[s.n] + [c]], s.n)
    else s
  }

  function PutAll(s: Screen, text: string): Screen {
    if text == "" then s else PutChar(PutAll(s, text[..|text| - 1]), text[|text| - 1])
  }

  /** One call formats at most so many characters. */
  function Formatted(text: string): (r: string)
    ensures |text| < 2 * MAX_LINE ==> r == text
  {
    Take(text, 2 * MAX_LINE - 1)
  }

  function Out(s: Screen, text: string): Screen {
    PutAll(s, Formatted(text))
  }

  /** Printing a concatenation is printing its parts in turn. */
  lemma {:induction false} PutAllJoins(s: Screen, a: string, b: string)
    ensures PutAll(s, a + b) == PutAll(PutAll(s, a), b)
  {
    if b == "" {
      assert a + b == a;
    } else {
      var init := b[..|b| - 1];
      assert (a + b)[..|a + b| - 1] == a + init;
      PutAllJoins(s, a, init);
    }
  }

  lemma PutOneMore(s: Screen, text: string, c: char)
    ensures PutAll(s, text + [c]) == PutChar(PutAll(s, text), c)
  {
    assert (text + [c])[..|text|] == text;
  }

  /** A text cut at its newlines. */
  function Split(text: string): (r: seq<string>)
    ensures r != []
  {
    if text == "" then [""]
    else Longer(Split(text[..|text| - 1]), text[|text| - 1])
  }

  ghost predicate WithinCaps(lines: seq<string>) {
    |lines| <= 128 && forall i :: 0 <= i < |lines| ==> |lines[i]| <= 2046
  }

  /** The lines after one more character. */
  function Longer(lines: seq<string>, c: char): seq<string>
    requires lines != []
  {
    if c == '\n' then lines + [""] else lines[..|lines| - 1] + [lines[|lines| - 1] + [c]]
  }

  lemma CapsBefore(lines: seq<string>, c: char)
    requires lines != [] && WithinCaps(Longer(lines, c))
    ensures WithinCaps(lines)
  {
    var all := Longer(lines, c);
    forall i | 0 <= i < |lines| ensures |lines[i]| <= MAX_LINE - 2 {
      assert |all[i]| <= MAX_LINE - 2;
      assert all[i] == lines[i] || all[i] == lines[i] + [c];
    }
  }

  lemma LongerFrame(b: Screen, c: char)
    requires WithinCaps(Longer(Lines(b), c))
    ensures Lines(PutChar(b, c)) == Longer(Lines(b), c)
  {
    assert Lines(b)[b.n] == b.line[b.n] && |Lines(b)| == b.n + 1;
    if c == '\n' {
      assert |Longer(Lines(b), c)| == b.n + 2;
    } else {
      assert |Longer(Lines(b), c)[b.n]| == |b.line[b.n]| + 1;
      assert Lines(PutChar(b, c)) == b.line[..b.n] + [b.line[b.n] + [c]];
    }
  }

  /** Within the caps nothing is lost: the frame is the text printed since the reset, cut at its newlines. */
  lemma {:induction false} PrintingIsLossless(s: Screen, text: string)
    requires WithinCaps(Split(text))
    ensures Lines(PutAll(Reset(s), text)) == Split(text)
  {
    if text == "" {
      assert Lines(Reset(s)) == [""];
    } else {
      var before, c := text[..|text| - 1], text[|text| - 1];
      CapsBefore(Split(before), c);
      PrintingIsLossless(s, before);
      LongerFrame(PutAll(Reset(s), before), c);
    }
  }

  function OutAll(s: Screen, texts: seq<string>): Screen {
    if texts == [] then s else Out(OutAll(s, texts[..|texts| - 1]), texts[|texts| - 1])
  }

  lemma {:induction false} CallsJoin(s: Screen, texts: seq<string>)
    requires forall i :: 0 <= i < |texts| ==> |texts[i]| < 2 * MAX_LINE
    ensures OutAll(s, texts) == PutAll(s, Concat(texts))
  {
    if texts != [] {
      var init := texts[..|texts| - 1];
      assert forall i :: 0 <= i < |init| ==> init[i] == texts[i];
      CallsJoin(s, init);
      PutAllJoins(s, Concat(init), texts[|texts| - 1]);
    }
  }

  /** A frame printed in any number of calls, each within what one call formats and all of them within
      the caps, is the concatenated text cut at its newlines: nothing is lost and nothing of the
      buffer's past shows. */
  lemma FrameIsItsText(s: Screen, texts: seq<string>)
    requires forall i :: 0 <= i < |texts| ==> |texts[i]| < 2 * MAX_LINE
    requires WithinCaps(Split(Concat(texts)))
    ensures Lines(OutAll(Reset(s), texts)) == Split(Concat(texts))
  {
    CallsJoin(Reset(s), texts);
    PrintingIsLossless(s, Concat(texts));
  }

  /** As much of a line as a row holds. */
  function Fitted(text: string): string {
    Take(text, 2046)
  }

  function FittedAll(lines: seq<string>): seq<string> {
    seq(|lines|, i requires 0 <= i < |lines| => Fitted(lines[i]))
  }

  lemma FittedLonger(b: Screen, lines: seq<string>, c: char)
    requires lines != [] && |Longer(lines, c)| <= 128 && Lines(b) == FittedAll(lines)
    ensures Lines(PutChar(b, c)) == FittedAll(Longer(lines, c))
  {
    assert Lines(b)[b.n] == b.line[b.n] && |Lines(b)| == |lines| == b.n + 1;
    assert b.line[b.n] == Fitted(lines[b.n]);
    var b', more := PutChar(b, c), Longer(lines, c);
    forall i | 0 <= i < |more| ensures i <= b'.n && b'.line[i] == Fitted(more[i]) {
      if i < b.n {
        assert b.line[i] == Lines(b)[i] == Fitted(lines[i]);
      }
    }
  }

  /** Up to 128 lines, every line is kept and a line past 2046 characters is cut there, the rest of it
      lost without touching the next. */
  lemma {:induction false} LongLinesAreCut(s: Screen, text: string)
    requires |Split(text)| <= 128
    ensures Lines(PutAll(Reset(s), text)) == FittedAll(Split(text))
  {
    if text == "" {
      assert Lines(Reset(s)) == [""];
    } else {
      var before, c := text[..|text| - 1], text[|text| - 1];
      LongLinesAreCut(s, before);
      FittedLonger(PutAll(Reset(s), before), Split(before), c);
    }
  }

  /** Two buffers that hold the same frame, whatever is stale in them. */
  ghost predicate SameFrame(a: Screen, b: Screen) {
    a.n == b.n && Lines(a) == Lines(b)
  }

  lemma PutCharKeepsFrames(a: Screen, b: Screen, c: char)
    requires SameFrame(a, b)
    ensures SameFrame(PutChar(a, c), PutChar(b, c))
  {
    var a', b' := PutChar(a, c), PutChar(b, c);
    assert a.line[a.n] == Lines(a)[a.n] && b.line[b.n] == Lines(b)[b.n];
    forall i | 0 <= i < a'.n + 1 ensures Lines(a')[i] == Lines(b')[i] {
      if i <= a.n {
        assert a.line[i] == Lines(a)[i] && b.line[i] == Lines(b)[i];
      }
    }
  }

  lemma {:induction false} PutAllKeepsFrames(a: Screen, b: Screen, text: string)
    requires SameFrame(a, b)
    ensures SameFrame(PutAll(a, text), PutAll(b, text))
  {
    if text != "" {
      PutAllKeepsFrames(a, b, text[..|text| - 1]);
      PutCharKeepsFrames(PutAll(a, text[..|text| - 1]), PutAll(b, text[..|text| - 1]), text[|text| - 1]);
    }
  }

  lemma {:induction false} OutAllKeepsFrames(a: Screen, b: Screen, texts: seq<string>)
    requires SameFrame(a, b)
    ensures SameFrame(OutAll(a, texts), OutAll(b, texts))
  {
    if texts != [] {
      var init := texts[..|texts| - 1];
      OutAllKeepsFrames(a, b, init);
      PutAllKeepsFrames(OutAll(a, init), OutAll(b, init), Formatted(texts[|texts| - 1]));
    }
  }

  // ---------------------------------------------------------------- rows

  function Capped(n: nat): nat {
    if n < MAX_ROWS then n else MAX_ROWS - 1
  }

  /** A text without newlines stays on its row. */
  lemma {:induction false} NoNewlineNoRow(s: Screen, text: string)
    requires '\n' !in text
    ensures PutAll(s, text).n == s.n
  {
    if text != "" {
      assert text[|text| - 1] in text && forall c :: c in text[..|text| - 1] ==> c in text;
      NoNewlineNoRow(s, text[..|text| - 1]);
    }
  }

  /** A line of text takes the frame one row down. */
  lemma OneRowDown(s: Screen, text: string)
    requires '\n' !in text && |text| + 1 < 2 * MAX_LINE
    ensures Out(s, text + "\n").n == Capped(s.n + 1)
  {
    assert (text + "\n")[..|text + "\n"| - 1] == text;
    NoNewlineNoRow(s, text);
  }

  // ---------------------------------------------------------------- logo and tagline

  const RST := "\U{1B}[0m"
  const DIM := "\U{1B}[2m"
  const LOGO_RAMP_START := 33
  const LOGO_ROW_BUF := MAX_LINE - 1
  const LOGO_GAP := 2

  function Newlines(s: Screen, k: nat): Screen {
    if k == 0 then s else Out(Newlines(s, k - 1), "\n")
  }

  function LogoGap(s: Screen): Screen {
    Newlines(s, LOGO_GAP)
  }

  /** Every printable character in turn, shifted by the row and the animation. */
  function LogoRow(width: nat, offset: int): string {
    seq(width, c requires 0 <= c < width => (LOGO_RAMP_START + (c + offset) % 94) as char)
  }

  function Width(cols: nat): nat {
    if cols > LOGO_ROW_BUF then LOGO_ROW_BUF else cols
  }

  /** Bright to dark: the fire of the top half and the frost of the bottom half. */
  function FireBand(band: nat): string {
    if band == 0 then "\U{1B}[1m\U{1B}[33m" else if band == 1 then "\U{1B}[33m" else if band == 2 then "\U{1B}[31m"
    else if band == 3 then "\U{1B}[1m\U{1B}[31m" else "\U{1B}[35m"
  }

  function FrostBand(band: nat): string {
    if band == 0 then "\U{1B}[1;37m" else if band == 1 then "\U{1B}[1m\U{1B}[36m" else if band == 2 then "\U{1B}[36m"
    else if band == 3 then "\U{1B}[1m\U{1B}[34m" else "\U{1B}[34m"
  }

  /** How far into its half a row is, in fifths. */
  function Band(r: nat, rows: nat): nat {
    if rows > 1 then r * 5 / rows else 0
  }

  /** `frame * 2` as the animation's unsigned counter gives it to a signed offset. */
  function Shift(frame: nat): int {
    var u := frame * 2 % 0x1_0000_0000;
    if u < 0x8000_0000 then u else u - 0x1_0000_0000
  }

  function TopText(r: nat, rows: nat, cols: nat, frame: nat): string
    requires r < rows
  {
    var ad := rows - 1 - r;
    FireBand(Band(ad, rows)) + LogoRow(Width(cols), Shift(frame) + ad * 3) + RST
  }

  function BottomText(r: nat, rows: nat, cols: nat, frame: nat): string
    requires r < rows
  {
    FrostBand(Band(r, rows)) + LogoRow(Width(cols), -Shift(frame) + r * 3) + RST
  }

  function TopTexts(rows: nat, cols: nat, frame: nat): (ts: seq<string>)
    ensures |ts| == rows
  {
    seq(rows, r requires 0 <= r < rows => TopText(r, rows, cols, frame))
  }

  function BottomTexts(rows: nat, cols: nat, frame: nat): (ts: seq<string>)
    ensures |ts| == rows
  {
    seq(rows, r requires 0 <= r < rows => BottomText(r, rows, cols, frame))
  }

  function PrintLines(s: Screen, texts: seq<string>): Screen {
    if texts == [] then s else Out(PrintLines(s, texts[..|texts| - 1]), texts[|texts| - 1] + "\n")
  }

  /** Rows left for the two halves of the logo, once their gap and the tagline's are set aside. */
  function LogoSplit(n: nat, height: nat): nat {
    var avail := height - 1 - n - LOGO_GAP;
    if avail > LOGO_GAP then avail - LOGO_GAP else 0
  }

  /** The two halves around their gap. */
  function Halves(s: Screen, upper: seq<string>, lower: seq<string>): Screen {
    PrintLines(LogoGap(PrintLines(s, upper)), lower)
  }

  const TAG := "\"break my feelings with your violence...\""

  function TagText(cols: nat): string {
    var left := if cols > |TAG| then (cols - |TAG|) / 2 else 0;
    seq(left, _ => ' ') + DIM + TAG + RST
  }

  /** What is drawn below the body: so many rows for either half of the logo, and the tagline. */
  datatype Art = Art(top: nat -> seq<string>, bottom: nat -> seq<string>, tag: string)

  function ArtOf(cols: nat, frame: nat): Art {
    Art((rows: nat) => TopTexts(rows, cols, frame), (rows: nat) => BottomTexts(rows, cols, frame), TagText(cols))
  }

  function Logo(s: Screen, height: nat, art: Art): Screen {
    var split := LogoSplit(s.n, height);
    var top := split / 2;
    Halves(s, art.top(top), art.bottom(split - top))
  }

  lemma BlankAfterNewline(s: Screen)
    requires s.n + 1 < MAX_ROWS
    ensures var s' := Out(s, "\n"); s'.n == s.n + 1 && s'.line[s'.n] == ""
  {
    assert "\n"[..0] == "";
    assert PutAll(s, "\n") == PutChar(PutAll(s, ""), '\n');
  }

  /** Blank lines down to the last row. */
  function ToLastRow(s: Screen, height: nat): Screen
    requires height <= MAX_ROWS
    decreases height - s.n
  {
    if s.n + 1 < height then BlankAfterNewline(s); ToLastRow(Out(s, "\n"), height) else s
  }

  function Tagline(s: Screen, height: nat, art: Art): Screen
    requires height <= MAX_ROWS
  {
    Out(ToLastRow(s, height), art.tag + "\n")
  }

  /** The dashboard down to the second gap. */
  function AboveTagline(s: Screen, height: nat, art: Art): Screen {
    LogoGap(Logo(LogoGap(s), height, art))
  }

  /** The dashboard below its body. */
  function Layout(s: Screen, height: nat, art: Art): Screen
    requires height <= MAX_ROWS
  {
    Tagline(AboveTagline(s, height, art), height, art)
  }

  // ---------------------------------------------------------------- where the tagline lands

  lemma {:induction false} NewlinesRows(s: Screen, k: nat)
    ensures Newlines(s, k).n == Capped(s.n + k)
  {
    hide Out;
    if k > 0 {
      NewlinesRows(s, k - 1);
      OneRowDown(Newlines(s, k - 1), "");
      assert "" + "\n" == "\n";
    }
  }

  lemma LogoRowIsPrintable(width: nat, offset: int)
    ensures |LogoRow(width, offset)| == width && forall c :: c in LogoRow(width, offset) ==> '!' <= c <= '~'
  {
  }

  lemma TopTextIsALine(r: nat, rows: nat, cols: nat, frame: nat)
    requires r < rows
    ensures '\n' !in TopText(r, rows, cols, frame) && |TopText(r, rows, cols, frame)| + 1 < 2 * MAX_LINE
  {
    LogoRowIsPrintable(Width(cols), Shift(frame) + (rows - 1 - r) * 3);
  }

  lemma BottomTextIsALine(r: nat, rows: nat, cols: nat, frame: nat)
    requires r < rows
    ensures '\n' !in BottomText(r, rows, cols, frame) && |BottomText(r, rows, cols, frame)| + 1 < 2 * MAX_LINE
  {
    LogoRowIsPrintable(Width(cols), -Shift(frame) + r * 3);
  }

  ghost predicate AllLines(texts: seq<string>) {
    forall i :: 0 <= i < |texts| ==> '\n' !in texts[i] && |texts[i]| + 1 < 2 * MAX_LINE
  }

  lemma LogoTextsAreLines(rows: nat, cols: nat, frame: nat)
    ensures AllLines(TopTexts(rows, cols, frame)) && AllLines(BottomTexts(rows, cols, frame))
  {
    var top, bottom := TopTexts(rows, cols, frame), BottomTexts(rows, cols, frame);
    forall r | 0 <= r < rows ensures '\n' !in top[r] && |top[r]| + 1 < 2 * MAX_LINE {
      TopTextIsALine(r, rows, cols, frame);
    }
    forall r | 0 <= r < rows ensures '\n' !in bottom[r] && |bottom[r]| + 1 < 2 * MAX_LINE {
      BottomTextIsALine(r, rows, cols, frame);
    }
  }

  /** Both halves have as many rows as asked for, each of them one line. */
  ghost predicate WellDrawn(art: Art) {
    forall rows: nat :: |art.top(rows)| == rows && AllLines(art.top(rows)) && |art.bottom(rows)| == rows && AllLines(art.bottom(rows))
  }

  lemma ArtIsWellDrawn(cols: nat, frame: nat)
    ensures WellDrawn(ArtOf(cols, frame))
  {
    var art := ArtOf(cols, frame);
    forall rows: nat
      ensures |art.top(rows)| == rows && AllLines(art.top(rows)) && |art.bottom(rows)| == rows && AllLines(art.bottom(rows))
    {
      LogoTextsAreLines(rows, cols, frame);
    }
  }

  lemma {:induction false} PrintLinesRows(s: Screen, texts: seq<string>)
    requires AllLines(texts)
    ensures PrintLines(s, texts).n == Capped(s.n + |texts|)
  {
    if texts != [] {
      var init := texts[..|texts| - 1];
      assert forall i :: 0 <= i < |init| ==> init[i] == texts[i];
      PrintLinesRows(s, init);
      OneRowDown(PrintLines(s, init), texts[|texts| - 1]);
    }
  }

  lemma HalvesRows(s: Screen, upper: seq<string>, lower: seq<string>)
    requires AllLines(upper) && AllLines(lower)
    ensures Halves(s, upper, lower).n == Capped(s.n + |upper| + LOGO_GAP + |lower|)
  {
    PrintLinesRows(s, upper);
    NewlinesRows(PrintLines(s, upper), LOGO_GAP);
    PrintLinesRows(LogoGap(PrintLines(s, upper)), lower);
  }

  lemma LogoRows(s: Screen, height: nat, art: Art)
    requires WellDrawn(art)
    ensures Logo(s, height, art).n == Capped(s.n + LogoSplit(s.n, height) + LOGO_GAP)
  {
    var split := LogoSplit(s.n, height);
    var top := split / 2;
    HalvesRows(s, art.top(top), art.bottom(split - top));
  }

  lemma AboveTaglineRows(s: Screen, height: nat, art: Art)
    requires WellDrawn(art)
    ensures AboveTagline(s, height, art).n
         == Capped(Capped(s.n + LOGO_GAP) + LogoSplit(Capped(s.n + LOGO_GAP), height) + 2 * LOGO_GAP)
  {
    NewlinesRows(s, LOGO_GAP);
    LogoRows(LogoGap(s), height, art);
    NewlinesRows(Logo(LogoGap(s), height, art), LOGO_GAP);
  }

  lemma {:induction false} ToLastRowRows(s: Screen, height: nat)
    requires height <= MAX_ROWS
    ensures ToLastRow(s, height).n == if s.n + 1 < height then height - 1 else s.n
    ensures s.n + 1 < height ==> ToLastRow(s, height).line[height - 1] == ""
    decreases height - s.n
  {
    if s.n + 1 < height {
      assert Newlines(s, 0) == s && Newlines(s, 1) == Out(s, "\n");
      NewlinesRows(s, 1);
      BlankAfterNewline(s);
      ToLastRowRows(Out(s, "\n"), height);
    }
  }

  /** The tagline is printed on the last physical row exactly when the body leaves room for it: at
      least two rows beyond the gaps, or a screen as tall as the buffer, which cannot grow past it. */
  lemma TaglineOnLastRow(s: Screen, height: nat, cols: nat, frame: nat)
    requires 1 <= height <= MAX_ROWS
    ensures ToLastRow(AboveTagline(s, height, ArtOf(cols, frame)), height).n == height - 1
       <==> height - s.n - 5 >= 2 || height == MAX_ROWS
  {
    ArtIsWellDrawn(cols, frame);
    AboveTaglineRows(s, height, ArtOf(cols, frame));
    ToLastRowRows(AboveTagline(s, height, ArtOf(cols, frame)), height);
  }

  /** With the room for it, the last physical row of the laid-out dashboard is the tagline and nothing else. */
  lemma TaglineIsTheLastLine(s: Screen, height: nat, cols: nat, frame: nat)
    requires height <= MAX_ROWS && height - s.n - 5 >= 2 && |TagText(cols)| <= MAX_LINE - 2
    ensures LineOf(Layout(s, height, ArtOf(cols, frame)), height - 1) == TagText(cols)
  {
    LayoutLies(s, height, cols, frame);
  }

  lemma TagIsOneLine(cols: nat)
    ensures '\n' !in TagText(cols)
  {
  }

  // ---------------------------------------------------------------- which row shows what

  /** From `s` to `s'` nothing above row `k` has changed, and `s'` is at the start of row `n`. */
  ghost predicate Below(s: Screen, s': Screen, k: nat, n: nat) {
    s'.n == n && s'.line[n] == "" && forall i :: 0 <= i < k && i < MAX_ROWS ==> s'.line[i] == s.line[i]
  }

  lemma {:induction false} FillsRow(s: Screen, text: string)
    requires s.line[s.n] == "" && '\n' !in text
    ensures PutAll(s, text) == Buffer(s.line[s.n := Fitted(text)], s.n)
  {
    if text != "" {
      var init, c := text[..|text| - 1], text[|text| - 1];
      assert c in text && forall x :: x in init ==> x in text;
      FillsRow(s, init);
      assert init + [c] == text;
      assert Fitted(text) == if |init| < 2046 then Fitted(init) + [c] else Fitted(init);
      assert s.line[s.n := Fitted(init)][s.n := Fitted(init) + [c]] == s.line[s.n := Fitted(init) + [c]];
    } else {
      assert s.line[s.n := ""] == s.line;
    }
  }

  lemma PrintedLine(s: Screen, text: string)
    requires s.line[s.n] == "" && '\n' !in text && |text| + 1 < 2 * MAX_LINE && s.n + 1 < MAX_ROWS
    ensures var s' := Out(s, text + "\n"); Below(s, s', s.n, s.n + 1) && s'.line[s.n] == Fitted(text)
  {
    FillsRow(s, text);
    PutOneMore(s, text, '\n');
  }

  lemma {:induction false} PrintedLines(s: Screen, texts: seq<string>)
    requires s.line[s.n] == "" && AllLines(texts) && s.n + |texts| < MAX_ROWS
    ensures var s' := PrintLines(s, texts);
            Below(s, s', s.n, s.n + |texts|) && forall r :: 0 <= r < |texts| ==> s'.line[s.n + r] == Fitted(texts[r])
  {
    hide Out, Fitted;
    if texts != [] {
      var init := texts[..|texts| - 1];
      assert forall i :: 0 <= i < |init| ==> init[i] == texts[i];
      PrintedLines(s, init);
      PrintedLine(PrintLines(s, init), texts[|texts| - 1]);
    }
  }

  lemma GapLeft(s: Screen)
    requires s.n + 2 < MAX_ROWS
    ensures Below(s, LogoGap(s), s.n + 1, s.n + 2) && LogoGap(s).line[s.n + 1] == ""
  {
    assert Newlines(s, 0) == s && Newlines(s, 1) == Out(s, "\n") && Newlines(s, 2) == Out(Out(s, "\n"), "\n");
    OneNewline(s);
    OneNewline(Out(s, "\n"));
  }

  lemma OneNewline(s: Screen)
    requires s.n + 1 < MAX_ROWS
    ensures Out(s, "\n") == Buffer(s.line[s.n + 1 := ""], s.n + 1)
  {
    assert "\n"[..0] == "";
    assert PutAll(s, "\n") == PutChar(PutAll(s, ""), '\n');
  }

  /** The two halves of the logo: the upper texts from the row on, two blank rows, the lower texts. */
  lemma HalvesLie(s: Screen, upper: seq<string>, lower: seq<string>)
    requires s.line[s.n] == "" && AllLines(upper) && AllLines(lower) && s.n + |upper| + 2 + |lower| < MAX_ROWS
    ensures var s' := Halves(s, upper, lower);
            var mid := s.n + |upper|;
            && Below(s, s', s.n, mid + 2 + |lower|)
            && (forall r :: 0 <= r < |upper| ==> s'.line[s.n + r] == Fitted(upper[r]))
            && s'.line[mid] == "" && s'.line[mid + 1] == ""
            && (forall r :: 0 <= r < |lower| ==> s'.line[mid + 2 + r] == Fitted(lower[r]))
  {
    hide PrintLines, LogoGap, Fitted, AllLines;
    PrintedLines(s, upper);
    GapLeft(PrintLines(s, upper));
    PrintedLines(LogoGap(PrintLines(s, upper)), lower);
  }

  /** The body on its rows, then a blank row, the upper half, two blank rows, the lower half, two blank rows. */
  ghost predicate LaidOut(s: Screen, f: Screen, upper: seq<string>, lower: seq<string>) {
    var fire := s.n + 2;
    var frost := fire + |upper| + 2;
    && (forall i :: 0 <= i <= s.n ==> LineOf(f, i) == s.line[i])
    && LineOf(f, s.n + 1) == ""
    && (forall r :: 0 <= r < |upper| ==> LineOf(f, fire + r) == Fitted(upper[r]))
    && LineOf(f, fire + |upper|) == "" && LineOf(f, fire + |upper| + 1) == ""
    && (forall r :: 0 <= r < |lower| ==> LineOf(f, frost + r) == Fitted(lower[r]))
    && LineOf(f, frost + |lower|) == "" && LineOf(f, frost + |lower| + 1) == ""
  }

  /** What lies between the body and the tagline, in the order it is drawn. */
  ghost predicate Between(s: Screen, a: Screen, upper: seq<string>, lower: seq<string>) {
    var fire := s.n + 2;
    var frost := fire + |upper| + 2;
    && frost + |lower| + 2 < MAX_ROWS
    && Below(s, a, s.n + 1, frost + |lower| + 2)
    && a.line[s.n + 1] == ""
    && (forall r :: 0 <= r < |upper| ==> a.line[fire + r] == Fitted(upper[r]))
    && a.line[fire + |upper|] == "" && a.line[fire + |upper| + 1] == ""
    && (forall r :: 0 <= r < |lower| ==> a.line[frost + r] == Fitted(lower[r]))
    && a.line[frost + |lower|] == "" && a.line[frost + |lower| + 1] == ""
  }

  lemma GapsAndHalvesLie(s: Screen, upper: seq<string>, lower: seq<string>)
    requires AllLines(upper) && AllLines(lower) && s.n + |upper| + |lower| + 6 < MAX_ROWS
    ensures var a := LogoGap(Halves(LogoGap(s), upper, lower));
            Between(s, a, upper, lower) && a.n == s.n + |upper| + |lower| + 6 && a.line[a.n] == ""
  {
    hide LogoGap, Halves, Fitted, AllLines;
    GapLeft(s);
    HalvesLie(LogoGap(s), upper, lower);
    GapLeft(Halves(LogoGap(s), upper, lower));
  }

  lemma AboveTaglineIs(s: Screen, height: nat, art: Art)
    requires height <= MAX_ROWS && height - s.n - 5 >= 2
    ensures var rows := height - s.n - 7;
            AboveTagline(s, height, art) == LogoGap(Halves(LogoGap(s), art.top(rows / 2), art.bottom(rows - rows / 2)))
  {
    hide LogoGap, Halves;
    GapLeft(s);
    assert LogoSplit(LogoGap(s).n, height) == height - s.n - 7;
  }

  lemma LayoutIs(s: Screen, height: nat, art: Art)
    requires height <= MAX_ROWS && AboveTagline(s, height, art).n + 1 == height
    ensures Layout(s, height, art) == Out(AboveTagline(s, height, art), art.tag + "\n")
  {
    hide AboveTagline;
  }

  /** With room for the tagline on the last row everything below the body lands in its place: the fire half
      of the logo above the frost half, the tagline at the bottom, and the body as it was. */
  lemma LayoutLies(s: Screen, height: nat, cols: nat, frame: nat)
    requires height <= MAX_ROWS && height - s.n - 5 >= 2
    ensures var rows := height - s.n - 7;
            var f := Layout(s, height, ArtOf(cols, frame));
            && LaidOut(s, f, TopTexts(rows / 2, cols, frame), BottomTexts(rows - rows / 2, cols, frame))
            && LineOf(f, height - 1) == Fitted(TagText(cols))
  {
    var rows, art := height - s.n - 7, ArtOf(cols, frame);
    LogoTextsAreLines(rows / 2, cols, frame);
    LogoTextsAreLines(rows - rows / 2, cols, frame);
    TagIsOneLine(cols);
    ArtIs(rows / 2, cols, frame);
    ArtIs(rows - rows / 2, cols, frame);
    hide AllLines, Layout, LaidOut, Fitted, ArtOf, TopTexts, BottomTexts, TagText;
    ArtLies(s, height, art, TopTexts(rows / 2, cols, frame), BottomTexts(rows - rows / 2, cols, frame));
  }

  lemma ArtIs(rows: nat, cols: nat, frame: nat)
    ensures var art := ArtOf(cols, frame);
            art.top(rows) == TopTexts(rows, cols, frame) && art.bottom(rows) == BottomTexts(rows, cols, frame) && art.tag == TagText(cols)
  {
  }

  lemma ArtLies(s: Screen, height: nat, art: Art, upper: seq<string>, lower: seq<string>)
    requires height <= MAX_ROWS && height - s.n - 5 >= 2 && '\n' !in art.tag
    requires var rows := height - s.n - 7; upper == art.top(rows / 2) && lower == art.bottom(rows - rows / 2) && |upper| + |lower| == rows
    requires AllLines(upper) && AllLines(lower)
    ensures var f := Layout(s, height, art); LaidOut(s, f, upper, lower) && LineOf(f, height - 1) == Fitted(art.tag)
  {
    hide AboveTagline, Fitted, Out, LogoGap, Halves, Layout, LaidOut, AllLines, Between;
    var a := AboveTagline(s, height, art);
    AboveTaglineIs(s, height, art);
    GapsAndHalvesLie(s, upper, lower);
    LayoutIs(s, height, art);
    TaglinePrinted(a, art.tag);
    RowsLie(s, a, Layout(s, height, art), upper, lower);
  }

  /** The finished frame shows what lies above its tagline. */
  lemma RowsLie(s: Screen, a: Screen, f: Screen, upper: seq<string>, lower: seq<string>)
    requires Between(s, a, upper, lower) && f.n >= a.n && forall i :: 0 <= i < a.n ==> f.line[i] == a.line[i]
    ensures LaidOut(s, f, upper, lower)
  {
    hide Fitted;
  }

  /** The tagline fills its row and disturbs none above it. */
  lemma TaglinePrinted(s: Screen, tag: string)
    requires s.line[s.n] == "" && '\n' !in tag
    ensures var f := Out(s, tag + "\n");
            && f.n >= s.n && f.line[s.n] == Fitted(tag) && forall i :: 0 <= i < s.n ==> f.line[i] == s.line[i]
  {
    if |tag| + 1 < 2 * MAX_LINE {
      FillsRow(s, tag);
      PutOneMore(s, tag, '\n');
    } else {
      var cut := tag[..2 * MAX_LINE - 1];
      assert (tag + "\n")[..2 * MAX_LINE - 1] == cut;
      FillsRow(s, cut);
    }
  }

  /** The tagline is centred to within a column, or starts at the edge if there is no room. */
  lemma TagIsCentred(cols: nat) returns (left: nat)
    ensures TagText(cols) == seq(left, _ => ' ') + "\U{1B}[2m" + TAG + "\U{1B}[0m"
    ensures if cols > |TAG| then 2 * left <= cols - |TAG| <= 2 * left + 1 else left == 0
  {
    left := if cols > |TAG| then (cols - |TAG|) / 2 else 0;
  }

  /** The glyphs of a row of either half. */
  function FireGlyphs(r: nat, rows: nat, cols: nat, frame: nat): string
    requires r < rows
  {
    LogoRow(Width(cols), Shift(frame) + (rows - 1 - r) * 3)
  }

  function FrostGlyphs(r: nat, rows: nat, cols: nat, frame: nat): string {
    LogoRow(Width(cols), -Shift(frame) + r * 3)
  }

  lemma TextsHoldGlyphs(r: nat, rows: nat, cols: nat, frame: nat)
    requires r < rows
    ensures TopText(r, rows, cols, frame) == FireBand(Band(rows - 1 - r, rows)) + FireGlyphs(r, rows, cols, frame) + RST
    ensures BottomText(r, rows, cols, frame) == FrostBand(Band(r, rows)) + FrostGlyphs(r, rows, cols, frame) + RST
  {
  }

  lemma ShiftsByTwo(frame: nat)
    ensures Shift(frame + 1) == Shift(frame) + 2 <==> frame % 0x8000_0000 != 0x3FFF_FFFF
  {
    var m := frame % 0x8000_0000;
    assert frame * 2 % 0x1_0000_0000 == 2 * m by {
      assert frame * 2 == 0x1_0000_0000 * (frame / 0x8000_0000) + 2 * m;
    }
    assert (frame + 1) * 2 % 0x1_0000_0000 == if m == 0x7FFF_FFFF then 0 else 2 * m + 2 by {
      assert (frame + 1) * 2 == 0x1_0000_0000 * (frame / 0x8000_0000) + 2 * m + 2;
    }
  }

  /** From one animation frame to the next the fire half moves two columns to the left and the frost half
      two to the right, but for the one frame at which the counter's sign turns over. */
  lemma HalvesScroll(r: nat, rows: nat, cols: nat, frame: nat, c: nat)
    requires r < rows && c + 2 < Width(cols) && frame % 0x8000_0000 != 0x3FFF_FFFF
    ensures FireGlyphs(r, rows, cols, frame + 1)[c] == FireGlyphs(r, rows, cols, frame)[c + 2]
    ensures FrostGlyphs(r, rows, cols, frame + 1)[c + 2] == FrostGlyphs(r, rows, cols, frame)[c]
  {
    ShiftsByTwo(frame);
  }

  /** Along a row every printable character comes in turn, '!' after '~'. */
  lemma RampRuns(width: nat, offset: int, c: nat)
    requires c + 1 < width
    ensures var row := LogoRow(width, offset); row[c + 1] == if row[c] == '~' then '!' else (row[c] as int + 1) as char
  {
    assert (c + 1 + offset) % 94 == if (c + offset) % 94 == 93 then 0 else (c + offset) % 94 + 1;
  }

  /** Both halves are brightest where they meet. */
  lemma HorizonIsBrightest(rows: nat, cols: nat, frame: nat)
    requires rows >= 1
    ensures "\U{1B}[1m\U{1B}[33m" <= TopText(rows - 1, rows, cols, frame)
    ensures "\U{1B}[1;37m" <= BottomText(0, rows, cols, frame)
  {
  }

  /** The padding loop ends exactly on screens no taller than the buffer: past that, newlines no longer
      move the frame and the loop's guard holds forever. */
  lemma PaddingEndsExactlyWhen(s: Screen, height: nat)
    ensures (exists k: nat :: Newlines(s, k).n >= height - 1) <==> height <= MAX_ROWS
  {
    if height <= MAX_ROWS {
      NewlinesRows(s, MAX_ROWS);
      assert Newlines(s, MAX_ROWS).n >= height - 1;
    } else {
      forall k: nat ensures Newlines(s, k).n < height - 1 {
        NewlinesRows(s, k);
      }
    }
  }

  // ---------------------------------------------------------------- stale lines do not show

  lemma {:induction false} NewlinesKeepFrames(a: Screen, b: Screen, k: nat)
    requires SameFrame(a, b)
    ensures SameFrame(Newlines(a, k), Newlines(b, k))
  {
    if k > 0 {
      NewlinesKeepFrames(a, b, k - 1);
      PutAllKeepsFrames(Newlines(a, k - 1), Newlines(b, k - 1), Formatted("\n"));
    }
  }

  lemma {:induction false} PrintLinesKeepFrames(a: Screen, b: Screen, texts: seq<string>)
    requires SameFrame(a, b)
    ensures SameFrame(PrintLines(a, texts), PrintLines(b, texts))
  {
    if texts != [] {
      var init := texts[..|texts| - 1];
      PrintLinesKeepFrames(a, b, init);
      PutAllKeepsFrames(PrintLines(a, init), PrintLines(b, init), Formatted(texts[|texts| - 1] + "\n"));
    }
  }

  lemma {:induction false} ToLastRowKeepsFrames(a: Screen, b: Screen, height: nat)
    requires SameFrame(a, b) && height <= MAX_ROWS
    ensures SameFrame(ToLastRow(a, height), ToLastRow(b, height))
    decreases height - a.n
  {
    if a.n + 1 < height {
      PutAllKeepsFrames(a, b, Formatted("\n"));
      BlankAfterNewline(a);
      ToLastRowKeepsFrames(Out(a, "\n"), Out(b, "\n"), height);
    }
  }

  lemma LogoKeepsFrames(a: Screen, b: Screen, height: nat, art: Art)
    requires SameFrame(a, b)
    ensures SameFrame(Logo(a, height, art), Logo(b, height, art))
  {
    var split := LogoSplit(a.n, height);
    var top := split / 2;
    var upper, lower := art.top(top), art.bottom(split - top);
    assert Logo(a, height, art) == Halves(a, upper, lower);
    assert Logo(b, height, art) == Halves(b, upper, lower);
    HalvesKeepFrames(a, b, upper, lower);
  }

  lemma HalvesKeepFrames(a: Screen, b: Screen, upper: seq<string>, lower: seq<string>)
    requires SameFrame(a, b)
    ensures SameFrame(Halves(a, upper, lower), Halves(b, upper, lower))
  {
    PrintLinesKeepFrames(a, b, upper);
    var a1, b1 := PrintLines(a, upper), PrintLines(b, upper);
    NewlinesKeepFrames(a1, b1, LOGO_GAP);
    PrintLinesKeepFrames(LogoGap(a1), LogoGap(b1), lower);
  }

  lemma LayoutKeepsFrames(a: Screen, b: Screen, height: nat, art: Art)
    requires SameFrame(a, b) && height <= MAX_ROWS
    ensures SameFrame(Layout(a, height, art), Layout(b, height, art))
  {
    NewlinesKeepFrames(a, b, LOGO_GAP);
    var a1, b1 := LogoGap(a), LogoGap(b);
    LogoKeepsFrames(a1, b1, height, art);
    var a2, b2 := Logo(a1, height, art), Logo(b1, height, art);
    NewlinesKeepFrames(a2, b2, LOGO_GAP);
    ToLastRowKeepsFrames(LogoGap(a2), LogoGap(b2), height);
    PutAllKeepsFrames(ToLastRow(LogoGap(a2), height), ToLastRow(LogoGap(b2), height), Formatted(art.tag + "\n"));
  }

  /** A whole dashboard over a buffer with anything stale in it. */
  function Dashboard(stale: Screen, body: seq<string>, height: nat, art: Art): Screen
    requires height <= MAX_ROWS
  {
    Layout(OutAll(Reset(stale), body), height, art)
  }

  /** The frame does not depend on what the buffer held before, so replaying a cached body gives the
      frame a full rebuild of the same body would. */
  lemma StaleLinesDoNotShow(stale1: Screen, stale2: Screen, body: seq<string>, height: nat, art: Art)
    requires height <= MAX_ROWS
    ensures SameFrame(Dashboard(stale1, body, height, art), Dashboard(stale2, body, height, art))
  {
    assert Lines(Reset(stale1)) == [""] && Lines(Reset(stale2)) == [""];
    OutAllKeepsFrames(Reset(stale1), Reset(stale2), body);
    LayoutKeepsFrames(OutAll(Reset(stale1), body), OutAll(Reset(stale2), body), height, art);
  }

  /** The body as it is cached, finished later, against a full rebuild. */
  lemma CachedBodyIsEnough(cache: Screen, stale: Screen, other: Screen, body: seq<string>, height: nat, art: Art)
    requires height <= MAX_ROWS && cache == OutAll(Reset(stale), body)
    ensures SameFrame(Layout(cache, height, art), Dashboard(other, body, height, art))
  {
    StaleLinesDoNotShow(stale, other, body, height, art);
  }
}
