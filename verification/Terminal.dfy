/**
 * As much of a terminal as the panel drives: cursor position, text, erase to the end of the line and
 * erase to the end of the screen (CUP, EL and ED, sections 8.3.21, 8.3.41 and 8.3.39 of ECMA-48).
 * A row is the text on it; colour sequences are part of that text and take no column. No text put on a
 * row is wider than the terminal. One exactly as wide leaves the cursor on the last column, the wrap
 * deferred, so that an erase from there takes that column too.
 */
module Terminal {
  import opened Common

  datatype Op = Cup(row: nat) | Put(text: string) | El | Ed

  /** `col` counts characters of the row's text. */
  datatype Term = Term(rows: seq<string>, row: nat, col: nat, cols: nat)

  ghost predicate Valid(t: Term) {
    t.row < |t.rows|
  }

  function Pad(s: string, n: nat): string {
    if |s| < n then s + seq(n - |s|, _ => ' ') else s[..n]
  }

  /** A row address past the last physical row is clamped onto it. */
  function RowOf(row: nat, height: nat): nat
    requires height > 0
  {
    if row == 0 then 0 else if row <= height then row - 1 else height - 1
  }

  // ---------------------------------------------------------------- columns

  const ESC := '\U{1B}'

  /** A text that ends inside a colour sequence. */
  predicate InSequence(text: string) {
    text != "" &&
    var c := text[|text| - 1];
    if InSequence(text[..|text| - 1]) then !('a' <= c <= 'z' || 'A' <= c <= 'Z') else c == ESC
  }

  /** The last character is one that shows. */
  predicate EndsInGlyph(text: string)
    requires text != ""
  {
    !InSequence(text[..|text| - 1]) && text[|text| - 1] != ESC
  }

  /** How many columns a text takes. */
  function Columns(text: string): nat {
    if text == "" then 0 else Columns(text[..|text| - 1]) + (if EndsInGlyph(text) then 1 else 0)
  }

  function WithoutLastGlyph(text: string): string {
    if text == "" then ""
    else if EndsInGlyph(text) then text[..|text| - 1]
    else WithoutLastGlyph(text[..|text| - 1]) + [text[|text| - 1]]
  }

  /** What is left of a text when the row is erased from just past it. */
  function Seen(text: string, cols: nat): string {
    if Columns(text) == cols then WithoutLastGlyph(text) else text
  }

  lemma {:induction false} GlyphIsLost(text: string)
    ensures WithoutLastGlyph(text) == text <==> Columns(text) == 0
  {
    if text != "" && !EndsInGlyph(text) {
      GlyphIsLost(text[..|text| - 1]);
      assert text == text[..|text| - 1] + [text[|text| - 1]];
    }
  }

  /** A text no wider than the terminal is seen whole exactly if it leaves the last column free. */
  lemma {:induction false} SeenWholeExactlyWhen(text: string, cols: nat)
    requires Columns(text) <= cols && cols >= 1
    ensures Seen(text, cols) == text <==> Columns(text) < cols
  {
    GlyphIsLost(text);
  }

  lemma {:induction false} ColumnsJoin(a: string, b: string)
    requires !InSequence(a)
    ensures Columns(a + b) == Columns(a) + Columns(b) && InSequence(a + b) == InSequence(b)
  {
    if b == "" {
      assert a + b == a;
    } else {
      assert (a + b)[..|a + b| - 1] == a + b[..|b| - 1];
      ColumnsJoin(a, b[..|b| - 1]);
    }
  }

  /** Printable characters outside any sequence take a column each. */
  lemma {:induction false} PrintableColumns(text: string)
    requires forall c :: c in text ==> '!' <= c <= '~'
    ensures Columns(text) == |text| && !InSequence(text)
  {
    if text != "" {
      var init := text[..|text| - 1];
      assert text[|text| - 1] in text && forall c :: c in init ==> c in text;
      PrintableColumns(init);
    }
  }

  lemma {:induction false} UnfinishedSequence(body: string)
    requires forall c :: c in body ==> '0' <= c <= '9' || c == '[' || c == ';'
    ensures InSequence([ESC] + body) && Columns([ESC] + body) == 0
  {
    if body == "" {
      assert [ESC][..0] == "" && [ESC] + body == [ESC];
    } else {
      var init := body[..|body| - 1];
      assert body[|body| - 1] in body && forall c :: c in init ==> c in body;
      UnfinishedSequence(init);
      assert ([ESC] + body)[..|body|] == [ESC] + init;
    }
  }

  /** A colour sequence takes no column. */
  lemma ColourTakesNoColumn(body: string)
    requires forall c :: c in body ==> '0' <= c <= '9' || c == '[' || c == ';'
    ensures !InSequence([ESC] + body + "m") && Columns([ESC] + body + "m") == 0
  {
    UnfinishedSequence(body);
    assert ([ESC] + body + "m")[..|body| + 1] == [ESC] + body;
  }

  lemma {:induction false} GlyphLostBefore(a: string, b: string)
    requires !InSequence(a) && Columns(b) == 0
    ensures WithoutLastGlyph(a + b) == WithoutLastGlyph(a) + b
  {
    hide InSequence;
    if b == "" {
      assert a + b == a;
    } else {
      var init := b[..|b| - 1];
      assert (a + b)[..|a + b| - 1] == a + init;
      ColumnsJoin(a, init);
      GlyphLostBefore(a, init);
      assert b == init + [b[|b| - 1]];
    }
  }

  /** A row of glyphs as wide as the terminal, between two colours, is seen without its last one. */
  lemma FullRowLosesLastColumn(on: string, glyphs: string, off: string)
    requires !InSequence(on) && Columns(on) == 0 && Columns(off) == 0
    requires glyphs != "" && forall c :: c in glyphs ==> '!' <= c <= '~'
    ensures Columns(on + glyphs + off) == |glyphs|
    ensures Seen(on + glyphs + off, |glyphs|) == on + glyphs[..|glyphs| - 1] + off
  {
    PrintableColumns(glyphs);
    ColumnsJoin(on, glyphs);
    ColumnsJoin(on + glyphs, off);
    GlyphLostBefore(on + glyphs, off);
    var init := glyphs[..|glyphs| - 1];
    assert glyphs[|glyphs| - 1] in glyphs && forall c :: c in init ==> c in glyphs;
    PrintableColumns(init);
    ColumnsJoin(on, init);
    assert (on + glyphs)[..|on + glyphs| - 1] == on + init;
  }

  lemma BlankIsSeenBlank(cols: nat)
    ensures Seen("", cols) == ""
  {
  }

  // ---------------------------------------------------------------- operations

  function Do(t: Term, op: Op): (t': Term)
    requires Valid(t)
    ensures Valid(t') && |t'.rows| == |t.rows| && t'.cols == t.cols
  {
    var line := t.rows[t.row];
    match op
    case Cup(row) => t.(row := RowOf(row, |t.rows|), col := 0)
    case Put(text) =>
      var end := t.col + |text|;
      var rest := if end <= |line| then line[end..] else "";
      t.(rows := t.rows[t.row := Pad(line, t.col) + text + rest], col := end)
    case El => t.(rows := t.rows[t.row := Seen(Take(line, t.col), t.cols)])
    case Ed => t.(rows := t.rows[..t.row] + [Seen(Take(line, t.col), t.cols)] + seq(|t.rows| - t.row - 1, _ => ""))
  }

  function DoAll(t: Term, ops: seq<Op>): (t': Term)
    requires Valid(t)
    ensures Valid(t') && |t'.rows| == |t.rows| && t'.cols == t.cols
  {
    if ops == [] then t else Do(DoAll(t, ops[..|ops| - 1]), ops[|ops| - 1])
  }

  lemma {:induction false} DoAllJoins(t: Term, a: seq<Op>, b: seq<Op>)
    requires Valid(t)
    ensures DoAll(t, a + b) == DoAll(DoAll(t, a), b)
  {
    if b == [] {
      assert a + b == a;
    } else {
      var init := b[..|b| - 1];
      assert (a + b)[..|a + b| - 1] == a + init;
      DoAllJoins(t, a, init);
    }
  }

  /** One line put in place: addressed, written over, the rest of it erased. */
  function LineOps(i: nat, text: string): seq<Op> {
    [Cup(i + 1), Put(text), El]
  }

  lemma OneOp(t: Term, op: Op)
    requires Valid(t)
    ensures DoAll(t, [op]) == Do(t, op)
  {
    assert [op][..0] == [];
  }

  lemma ThreeOps(t: Term, a: Op, b: Op, c: Op)
    requires Valid(t)
    ensures DoAll(t, [a, b, c]) == Do(Do(Do(t, a), b), c)
  {
    hide Do;
    assert [a, b, c] == [a, b] + [c] && [a, b] == [a] + [b];
    DoAllJoins(t, [a, b], [c]);
    DoAllJoins(t, [a], [b]);
    OneOp(t, a);
    OneOp(Do(t, a), b);
    OneOp(Do(Do(t, a), b), c);
  }

  lemma LineShows(t: Term, i: nat, text: string)
    requires Valid(t) && i < |t.rows|
    ensures DoAll(t, LineOps(i, text)).rows == t.rows[i := Seen(text, t.cols)]
  {
    hide Seen, DoAll;
    ThreeOps(t, Cup(i + 1), Put(text), El);
    var t1 := Do(t, Cup(i + 1));
    PutFromStart(t1, text);
  }

  /** Text put from the start of a row is what an erase then leaves of it. */
  lemma PutFromStart(t: Term, text: string)
    requires Valid(t) && t.col == 0
    ensures Do(Do(t, Put(text)), El).rows == t.rows[t.row := Seen(text, t.cols)]
  {
    hide Seen;
    var t' := Do(t, Put(text));
    assert Pad(t.rows[t.row], 0) == "";
    assert Take(t'.rows[t.row], |text|) == text;
  }

  function BelowOps(i: nat): seq<Op> {
    [Cup(i + 1), Ed]
  }

  /** Rows from `i` on are blank, the others as they were. */
  ghost predicate BlankFrom(t: Term, t': Term, i: nat) {
    |t'.rows| == |t.rows| && t'.cols == t.cols && forall j :: 0 <= j < |t.rows| ==> t'.rows[j] == if j < i then t.rows[j] else ""
  }

  lemma BelowErased(t: Term, i: nat)
    requires Valid(t) && i < |t.rows|
    ensures BlankFrom(t, DoAll(t, BelowOps(i)), i)
  {
    hide DoAll;
    assert BelowOps(i) == [Cup(i + 1)] + [Ed];
    DoAllJoins(t, [Cup(i + 1)], [Ed]);
    OneOp(t, Cup(i + 1));
    var t1 := Do(t, Cup(i + 1));
    OneOp(t1, Ed);
    ErasedFromRow(t1);
  }

  lemma ErasedFromRow(t: Term)
    requires Valid(t) && t.col == 0
    ensures BlankFrom(t, Do(t, Ed), t.row)
  {
    BlankIsSeenBlank(t.cols);
    hide Seen;
    assert Take(t.rows[t.row], 0) == "";
  }
}
