/**
 * The LZW layer of the firmware index: the decoder as the tool runs it, a greedy encoder that is its
 * partner, and what the decoder guarantees on any code sequence.
 *
 * The dictionary cap is a parameter. The tool uses DICT_CAP; every result holds for any cap of at
 * least 257, the least value for which the first insertion does not already overrun the table.
 */
module Lzw {
  import opened Common

  type Phrase = seq<Byte>

  const DICT_CAP := 262143

  datatype Decoder = Decoder(table: map<nat, Phrase>, nxt: nat, out: Phrase, prev: Option<Phrase>)

  function Singles(): map<nat, Phrase> {
    map b: Byte | 0 <= b < 256 :: b as nat := [b]
  }

  function Start(): Decoder {
    Decoder(Singles(), 256, [], None)
  }

  /** One code consumed. The error is the code that could not be resolved. */
  function Advance(d: Decoder, code: nat, cap: nat): Result<Decoder, nat> {
    if code !in d.table && d.prev.None? then
      Err(code)
    else
      var entry := if code in d.table then d.table[code] else d.prev.value + Head(d.prev.value);
      if d.prev.None? then
        Ok(Decoder(d.table, d.nxt, d.out + entry, Some(entry)))
      else if d.nxt + 1 >= cap then
        Ok(Decoder(Singles(), 256, d.out + entry, Some(entry)))
      else
        Ok(Decoder(d.table[d.nxt := d.prev.value + Head(entry)], d.nxt + 1, d.out + entry, Some(entry)))
  }

  function Head(w: Phrase): Phrase {
    if w == [] then [] else w[..1]
  }

  function Run(d: Decoder, codes: seq<nat>, cap: nat): Result<Decoder, nat>
    decreases |codes|
  {
    if codes == [] then Ok(d)
    else
      match Advance(d, codes[0], cap)
      case Err(e) => Err(e)
      case Ok(d') => Run(d', codes[1..], cap)
  }

  function Decode(codes: seq<nat>, cap: nat): Result<Phrase, nat> {
    match Run(Start(), codes, cap)
    case Err(e) => Err(e)
    case Ok(d) => Ok(d.out)
  }

  /** The decoding loop with its four variables, as the tool runs it. */
  method LzwDecode(sequence: seq<nat>, cap: nat) returns (r: Result<Phrase, nat>)
    ensures r == Decode(sequence, cap)
    ensures cap >= 257 && (sequence == [] || sequence[0] < 256) ==> r == Ok(Pieces(sequence, |sequence|, cap))
  {
    if cap >= 257 && (sequence == [] || sequence[0] < 256) {
      DecodesToPieces(sequence, cap);
    }
    var table: map<nat, Phrase> := Singles();
    var nxt: nat := 256;
    var out: Phrase := [];
    var prev: Option<Phrase> := None;
    for i := 0 to |sequence|
      invariant Run(Start(), sequence, cap) == Run(Decoder(table, nxt, out, prev), sequence[i..], cap)
    {
      var code := sequence[i];
      assert sequence[i..][0] == code && sequence[i..][1..] == sequence[i + 1..];
      var entry: Phrase;
      if code in table {
        entry := table[code];
      } else if prev.Some? {
        entry := prev.value + Head(prev.value);
      } else {
        return Err(code);
      }
      out := out + entry;
      if prev.Some? {
        table := table[nxt := prev.value + Head(entry)];
        nxt := nxt + 1;
        if nxt >= cap {
          table := Singles();
          nxt := 256;
        }
      }
      prev := Some(entry);
    }
    return Ok(out);
  }

  // ---------------------------------------------------------------- the greedy encoder

  /** The encoder looks phrases up, so its dictionary maps a phrase to its code. */
  type Dictionary = map<Phrase, nat>

  function SinglesDictionary(): Dictionary {
    map b: Byte | 0 <= b < 256 :: [b] := b as nat
  }

  /** The longest prefix of `text`, of at most `k` bytes, that is in the dictionary. */
  function LongestMatch(dict: Dictionary, text: Phrase, k: nat): (r: nat)
    requires 1 <= k <= |text| && text[..1] in dict
    ensures 1 <= r <= k && text[..r] in dict
    ensures forall j :: r < j <= k ==> text[..j] !in dict
  {
    if text[..k] in dict then k else LongestMatch(dict, text, k - 1)
  }

  predicate HasSingles(dict: Dictionary) {
    forall b: Byte :: [b] in dict
  }

  /** What the encoder's dictionary becomes once `w` is emitted and `c` is seen to follow it: a full
      dictionary is dropped only now, after the emission that could still use its last entry. */
  function Grow(dict: Dictionary, next: nat, w: Phrase, c: Byte, cap: nat): (Dictionary, nat) {
    if next >= cap then (SinglesDictionary()[w + [c] := 256], 257) else (dict[w + [c] := next], next + 1)
  }

  lemma GrowKeepsSingles(dict: Dictionary, next: nat, w: Phrase, c: Byte, cap: nat)
    requires HasSingles(dict)
    ensures HasSingles(Grow(dict, next, w, c, cap).0)
  {
    forall b: Byte ensures [b] in SinglesDictionary() {
      assert 0 <= b < 256;
    }
  }

  function EncodeFrom(dict: Dictionary, next: nat, text: Phrase, cap: nat): seq<nat>
    requires HasSingles(dict)
    decreases |text|
  {
    if text == [] then []
    else
      assert text[..1] == [text[0]];
      var k := LongestMatch(dict, text, |text|);
      var code := dict[text[..k]];
      if k == |text| then [code]
      else
        GrowKeepsSingles(dict, next, text[..k], text[k], cap);
        var (dict', next') := Grow(dict, next, text[..k], text[k], cap);
        [code] + EncodeFrom(dict', next', text[k..], cap)
  }

  lemma SinglesAreInDictionary()
    ensures HasSingles(SinglesDictionary())
  {
    forall b: Byte ensures [b] in SinglesDictionary() {
      assert 0 <= b < 256;
    }
  }

  function Encode(text: Phrase, cap: nat): seq<nat> {
    SinglesAreInDictionary();
    EncodeFrom(SinglesDictionary(), 256, text, cap)
  }

  // ---------------------------------------------------------------- decode after encode

  /** Every dictionary entry resolves to its phrase in the decoder's table, except the newest one,
      which the decoder will only learn from the phrase that comes next. */
  ghost predicate Sync(dict: Dictionary, next: nat, d: Decoder, text: Phrase, cap: nat) {
    && 256 <= d.nxt < cap
    && (forall c :: c in d.table ==> c < d.nxt)
    && match d.prev
       case None =>
         && next == d.nxt
         && forall w :: w in dict ==> Resolves(dict, w, d)
       case Some(p) =>
         && next == d.nxt + 1
         && p != [] && text != []
         && forall w :: w in dict ==> Resolves(dict, w, d) || (dict[w] == d.nxt && w == p + [text[0]])
  }

  ghost predicate Resolves(dict: Dictionary, w: Phrase, d: Decoder)
    requires w in dict
  {
    dict[w] in d.table && d.table[dict[w]] == w
  }

  /** Any dictionary phrase that starts the remaining text is decoded as itself, whichever length the
      encoder settled on, even when the code is the one the decoder has not inserted yet. */
  lemma EmittedPhraseDecodes(dict: Dictionary, next: nat, d: Decoder, text: Phrase, cap: nat, k: nat)
    requires Sync(dict, next, d, text, cap)
    requires 1 <= k <= |text| && text[..k] in dict
    ensures dict[text[..k]] < cap
    ensures var r := Advance(d, dict[text[..k]], cap);
            r.Ok? && r.value.out == d.out + text[..k] && r.value.prev == Some(text[..k])
  {
    var w := text[..k];
    if dict[w] !in d.table {
      var p := d.prev.value;
      assert w == p + [text[0]] && p[0] == w[0] == text[0];
      assert Head(p) == [text[0]];
    }
  }

  /** The lock step: after the emission both sides grow, or drop their dictionaries, together. */
  lemma StepKeepsSync(dict: Dictionary, next: nat, d: Decoder, text: Phrase, cap: nat, k: nat)
    requires cap >= 257 && Sync(dict, next, d, text, cap)
    requires 1 <= k < |text| && text[..k] in dict
    ensures var r := Advance(d, dict[text[..k]], cap);
            var (dict', next') := Grow(dict, next, text[..k], text[k], cap);
            r.Ok? && Sync(dict', next', r.value, text[k..], cap)
  {
    var w := text[..k];
    EmittedPhraseDecodes(dict, next, d, text, cap, k);
    var d' := Advance(d, dict[w], cap).value;
    var (dict', next') := Grow(dict, next, w, text[k], cap);
    assert text[k..][0] == text[k];
    if next < cap {
      assert Head(w) == [text[0]];
      forall v | v in dict' ensures Resolves(dict', v, d') || (dict'[v] == d'.nxt && v == w + [text[k]]) {
        if v != w + [text[k]] {
          assert v in dict && dict'[v] == dict[v];
        }
      }
    } else {
      forall v | v in dict' ensures Resolves(dict', v, d') || (dict'[v] == d'.nxt && v == w + [text[k]]) {
        if v != w + [text[k]] {
          assert v in SinglesDictionary();
        }
      }
    }
  }

  lemma {:induction false} EncodedTextDecodes(dict: Dictionary, next: nat, d: Decoder, text: Phrase, cap: nat)
    requires cap >= 257 && HasSingles(dict)
    requires text != [] ==> Sync(dict, next, d, text, cap)
    ensures var r := Run(d, EncodeFrom(dict, next, text, cap), cap); r.Ok? && r.value.out == d.out + text
    ensures forall c :: c in EncodeFrom(dict, next, text, cap) ==> c < cap
    decreases |text|
  {
    hide Sync, Advance;
    if text != [] {
      assert text[..1] == [text[0]];
      var k := LongestMatch(dict, text, |text|);
      EmittedPhraseDecodes(dict, next, d, text, cap, k);
      var d' := Advance(d, dict[text[..k]], cap).value;
      if k < |text| {
        StepKeepsSync(dict, next, d, text, cap, k);
        GrowKeepsSingles(dict, next, text[..k], text[k], cap);
        var (dict', next') := Grow(dict, next, text[..k], text[k], cap);
        EncodedTextDecodes(dict', next', d', text[k..], cap);
        assert d.out + text == (d.out + text[..k]) + text[k..];
        var codes := EncodeFrom(dict, next, text, cap);
        assert codes[1..] == EncodeFrom(dict', next', text[k..], cap);
      } else {
        assert text[..k] == text;
        assert EncodeFrom(dict, next, text, cap)[1..] == [];
      }
    }
  }

  /** Decoding undoes greedy encoding, across any number of dictionary resets, and the encoder stays
      within the code space the cap leaves it. */
  lemma RoundTrip(text: Phrase, cap: nat)
    requires cap >= 257
    ensures Decode(Encode(text, cap), cap) == Ok(text)
    ensures forall c :: c in Encode(text, cap) ==> c < cap
  {
    SinglesAreInDictionary();
    EncodedTextDecodes(SinglesDictionary(), 256, Start(), text, cap);
    assert [] + text == text;
  }

  // ---------------------------------------------------------------- any code sequence

  /** 1 + 2 + ... + n */
  function Sum(n: nat): nat {
    if n == 0 then 0 else Sum(n - 1) + n
  }

  lemma {:induction false} SumIsTriangular(n: nat)
    ensures 2 * Sum(n) == n * (n + 1)
  {
    if n > 0 {
      SumIsTriangular(n - 1);
    }
  }

  ghost predicate Factor(w: Phrase, out: Phrase) {
    exists i: nat :: FactorAt(w, out, i)
  }

  ghost predicate FactorAt(w: Phrase, out: Phrase, i: nat) {
    i + |w| <= |out| && out[i..i + |w|] == w
  }

  /** The table after `n` codes that yielded `out`: bytes stand for themselves and every longer phrase
      occurs in the output. */
  ghost predicate SoundTable(table: map<nat, Phrase>, nxt: nat, out: Phrase, n: nat) {
    && 256 <= nxt
    && (forall c: nat :: c in table <==> c < nxt)
    && (forall c: nat :: c < 256 ==> c in table && table[c] == [c])
    && (forall c :: c in table ==> SoundPhrase(table[c], out, n))
  }

  ghost predicate SoundPhrase(w: Phrase, out: Phrase, n: nat) {
    |w| == 1 || (2 <= |w| <= n && Factor(w, out))
  }

  /** What holds of the decoder after `n` codes. */
  ghost predicate Sound(d: Decoder, n: nat, cap: nat) {
    && d.nxt < cap
    && SoundTable(d.table, d.nxt, d.out, n)
    && |d.out| <= Sum(n)
    && match d.prev
       case None => n == 0 && d.out == []
       case Some(p) => 1 <= |p| <= n && |p| <= |d.out| && d.out[|d.out| - |p|..] == p
  }

  lemma FactorGrows(w: Phrase, out: Phrase, more: Phrase)
    requires Factor(w, out)
    ensures Factor(w, out + more)
  {
    var i: nat :| FactorAt(w, out, i);
    assert (out + more)[i..i + |w|] == out[i..i + |w|];
    assert FactorAt(w, out + more, i);
  }

  /** A phrase added to the table is what the output now ends with, less the rest of the entry. */
  lemma NewPhraseIsFactor(out: Phrase, p: Phrase, entry: Phrase)
    requires p != [] && entry != [] && |p| <= |out| && out[|out| - |p|..] == p
    ensures Factor(p + entry[..1], out + entry)
  {
    var i := |out| - |p|;
    assert (out + entry)[i..i + |p| + 1] == out[i..] + entry[..1];
    assert FactorAt(p + entry[..1], out + entry, i);
  }

  lemma SumStep(n: nat)
    ensures Sum(n + 1) == Sum(n) + n + 1
  {
  }

  lemma FreshTable(out: Phrase, n: nat)
    ensures SoundTable(Singles(), 256, out, n)
  {
  }

  lemma TableKept(table: map<nat, Phrase>, nxt: nat, out: Phrase, entry: Phrase, n: nat)
    requires SoundTable(table, nxt, out, n)
    ensures SoundTable(table, nxt, out + entry, n + 1)
  {
    hide Factor;
    forall c | c in table ensures SoundPhrase(table[c], out + entry, n + 1) {
      assert SoundPhrase(table[c], out, n);
      if |table[c]| > 1 {
        FactorGrows(table[c], out, entry);
      }
    }
  }

  lemma TableGrown(table: map<nat, Phrase>, nxt: nat, out: Phrase, w: Phrase, n: nat)
    requires SoundTable(table, nxt, out, n) && SoundPhrase(w, out, n)
    ensures SoundTable(table[nxt := w], nxt + 1, out, n)
  {
    hide SoundPhrase;
  }

  /** The phrase a code resolves to is at most one byte longer than any before it. */
  lemma EntryLength(d: Decoder, code: nat, n: nat, cap: nat)
    requires Sound(d, n, cap) && (n == 0 ==> code < 256)
    ensures var r := Advance(d, code, cap);
            && r.Ok? && r.value.prev.Some? && 1 <= |r.value.prev.value| <= n + 1
            && r.value.out == d.out + r.value.prev.value
  {
    if code in d.table {
      assert SoundPhrase(d.table[code], d.out, n);
    }
  }

  /** What becomes of the table in one step. */
  lemma AdvanceTable(d: Decoder, code: nat, cap: nat)
    requires Advance(d, code, cap).Ok?
    ensures var d' := Advance(d, code, cap).value;
            && d'.prev.Some?
            && (d.prev.None? ==> d'.table == d.table && d'.nxt == d.nxt)
            && (d.prev.Some? && d.nxt + 1 >= cap ==> d'.table == Singles() && d'.nxt == 256)
            && (d.prev.Some? && d.nxt + 1 < cap ==>
                  d'.table == d.table[d.nxt := d.prev.value + Head(d'.prev.value)] && d'.nxt == d.nxt + 1)
  {
    hide Singles, Head;
  }

  lemma AdvanceKeepsTable(d: Decoder, code: nat, n: nat, cap: nat)
    requires cap >= 257 && Sound(d, n, cap)
    requires n == 0 ==> code < 256
    ensures var r := Advance(d, code, cap);
            r.Ok? && r.value.nxt < cap && SoundTable(r.value.table, r.value.nxt, r.value.out, n + 1)
  {
    EntryLength(d, code, n, cap);
    AdvanceTable(d, code, cap);
    hide Advance, SoundTable, SoundPhrase, Singles, Sum, Head;
    var d' := Advance(d, code, cap).value;
    var entry := d'.prev.value;
    TableKept(d.table, d.nxt, d.out, entry, n);
    FreshTable(d'.out, n + 1);
    if d.prev.Some? {
      NewPhraseIsSound(d.out, d.prev.value, entry, n);
      TableGrown(d.table, d.nxt, d'.out, d.prev.value + Head(entry), n + 1);
    }
  }

  lemma AdvanceKeepsSound(d: Decoder, code: nat, n: nat, cap: nat)
    requires cap >= 257 && Sound(d, n, cap)
    requires n == 0 ==> code < 256
    ensures var r := Advance(d, code, cap); r.Ok? && Sound(r.value, n + 1, cap)
  {
    EntryLength(d, code, n, cap);
    AdvanceKeepsTable(d, code, n, cap);
    SumStep(n);
    hide SoundTable, Sum, Advance;
    var d' := Advance(d, code, cap).value;
    assert d'.out[|d'.out| - |d'.prev.value|..] == d'.prev.value;
  }

  lemma NewPhraseIsSound(out: Phrase, p: Phrase, entry: Phrase, n: nat)
    requires 1 <= |p| <= n && entry != [] && |p| <= |out| && out[|out| - |p|..] == p
    ensures SoundPhrase(p + Head(entry), out + entry, n + 1)
  {
    NewPhraseIsFactor(out, p, entry);
  }

  lemma {:induction false} RunKeepsSound(d: Decoder, codes: seq<nat>, n: nat, cap: nat)
    requires cap >= 257 && Sound(d, n, cap)
    requires n == 0 && codes != [] ==> codes[0] < 256
    ensures var r := Run(d, codes, cap); r.Ok? && Sound(r.value, n + |codes|, cap)
    decreases |codes|
  {
    hide Sound, Advance;
    if codes != [] {
      AdvanceKeepsSound(d, codes[0], n, cap);
      var d' := Advance(d, codes[0], cap).value;
      assert Run(d, codes, cap) == Run(d', codes[1..], cap);
      RunKeepsSound(d', codes[1..], n + 1, cap);
    }
  }

  /** Decoding fails exactly on a first code outside the byte alphabet, and then names that code. */
  lemma FailsExactlyOnFirstCode(codes: seq<nat>, cap: nat)
    requires cap >= 257
    ensures Decode(codes, cap).Err? <==> codes != [] && codes[0] >= 256
    ensures Decode(codes, cap).Err? ==> Decode(codes, cap).error == codes[0]
  {
    StartIsSound(cap);
    if codes == [] || codes[0] < 256 {
      RunKeepsSound(Start(), codes, 0, cap);
    }
  }

  /** The state after any prefix of any decodable sequence. */
  lemma DecoderInvariant(codes: seq<nat>, cap: nat)
    requires cap >= 257
    requires codes != [] ==> codes[0] < 256
    ensures var r := Run(Start(), codes, cap);
            && r.Ok?
            && 256 <= r.value.nxt < cap
            && (forall c: nat :: c in r.value.table <==> c < r.value.nxt)
            && (forall c :: c in r.value.table && |r.value.table[c]| >= 2 ==> Factor(r.value.table[c], r.value.out))
            && 2 * |r.value.out| <= |codes| * (|codes| + 1)
  {
    StartIsSound(cap);
    RunKeepsSound(Start(), codes, 0, cap);
    SumIsTriangular(|codes|);
    var d := Run(Start(), codes, cap).value;
    forall c | c in d.table && |d.table[c]| >= 2 ensures Factor(d.table[c], d.out) {
      assert SoundPhrase(d.table[c], d.out, |codes|);
    }
  }

  lemma StartIsSound(cap: nat)
    requires cap >= 257
    ensures Sound(Start(), 0, cap)
  {
    FreshTable([], 0);
  }

  /** A byte followed by codes the table can never hold: each one repeats the last phrase and adds a
      byte to it. */
  function Longest(n: nat, cap: nat): seq<nat> {
    if n == 0 then [] else [0] + seq(n - 1, _ => cap)
  }

  lemma OneUnknownCode(d: Decoder, n: nat, cap: nat)
    requires cap >= 257 && Sound(d, n, cap) && n >= 1 && d.prev.Some? && |d.prev.value| == n && |d.out| == Sum(n)
    ensures var r := Advance(d, cap, cap);
            && r.Ok? && Sound(r.value, n + 1, cap)
            && r.value.prev.Some? && |r.value.prev.value| == n + 1 && |r.value.out| == Sum(n + 1)
  {
    AdvanceKeepsSound(d, cap, n, cap);
    SumStep(n);
  }

  lemma {:induction false} UnknownCodesGrow(d: Decoder, m: nat, n: nat, cap: nat)
    requires cap >= 257 && Sound(d, n, cap) && n >= 1 && d.prev.Some? && |d.prev.value| == n && |d.out| == Sum(n)
    ensures var r := Run(d, seq(m, _ => cap), cap);
            r.Ok? && |r.value.out| == Sum(n + m)
    decreases m
  {
    hide Sound, Advance, Sum;
    if m > 0 {
      var codes: seq<nat> := seq(m, _ => cap);
      OneUnknownCode(d, n, cap);
      UnknownCodesGrow(Advance(d, cap, cap).value, m - 1, n + 1, cap);
      assert codes[0] == cap && codes[1..] == seq(m - 1, _ => cap);
    }
  }

  /** The bound of DecoderInvariant is attained for every length, by codes no larger than the cap. */
  lemma BoundIsAttained(n: nat, cap: nat)
    requires cap >= 257
    ensures |Longest(n, cap)| == n
    ensures forall c :: c in Longest(n, cap) ==> c <= cap
    ensures var r := Decode(Longest(n, cap), cap); r.Ok? && 2 * |r.value| == n * (n + 1)
  {
    SumIsTriangular(n);
    LongestDecodes(n, cap);
  }

  lemma LongestDecodes(n: nat, cap: nat)
    requires cap >= 257
    ensures var r := Decode(Longest(n, cap), cap); r.Ok? && |r.value| == Sum(n)
  {
    if n > 0 {
      StartIsSound(cap);
      AdvanceKeepsSound(Start(), 0, 0, cap);
      var d := Advance(Start(), 0, cap).value;
      assert d.prev.value == [0] && d.out == [0] && Sum(1) == 1;
      UnknownCodesGrow(d, n - 1, 1, cap);
      assert Longest(n, cap)[1..] == seq(n - 1, _ => cap);
    }
  }

  // ---------------------------------------------------------------- what every code stands for

  /** Insertions since the table was last dropped, once `n` codes have followed the first. */
  function Since(n: nat, cap: nat): nat
    requires cap >= 257
  {
    n % (cap - 256)
  }

  lemma OneMoreInsertion(n: nat, cap: nat)
    requires cap >= 257
    ensures Since(n, cap) < cap - 256 && Since(n, cap) <= n
    ensures Since(n + 1, cap) == if Since(n, cap) + 1 == cap - 256 then 0 else Since(n, cap) + 1
  {
    var p := cap - 256;
    ModStep(n, p);
    if n < p {
      SmallMod(n, p);
    }
  }

  lemma ModStep(n: nat, p: nat)
    requires p >= 1
    ensures (n + 1) % p == if n % p + 1 == p then 0 else n % p + 1
  {
    var q, r := n / p, n % p;
    assert n == p * q + r;
    if r + 1 == p {
      assert n + 1 == p * (q + 1) by {
        assert p * (q + 1) == p * q + p;
      }
      QuotientIs(n + 1, p, q + 1, 0);
    } else {
      QuotientIs(n + 1, p, q, r + 1);
    }
  }

  lemma QuotientIs(n: nat, p: nat, q: nat, r: nat)
    requires r < p && n == p * q + r
    ensures n % p == r
  {
    var q', r' := n / p, n % p;
    assert p * q + r == p * q' + r';
    if q < q' {
      TimesLess(p, q, q');
    } else if q > q' {
      TimesLess(p, q', q);
    }
  }

  lemma {:induction false} TimesLess(p: nat, a: nat, b: nat)
    requires a < b
    ensures p * a + p <= p * b
  {
    if a + 1 < b {
      TimesLess(p, a, b - 1);
    }
  }

  lemma SmallMod(n: nat, p: nat)
    requires n < p
    ensures n % p == n
  {
  }

  /** What the `i`th code adds to the output, told from what the codes before it added: a byte is itself;
      the `e`th code past the bytes is the `e`th addition since the table was last dropped and the first
      byte of the one after it; any other code repeats the last addition and its first byte. */
  function Piece(codes: seq<nat>, i: nat, cap: nat): (w: Phrase)
    requires i < |codes| && codes[0] < 256 && cap >= 257
    ensures w != []
    decreases i
  {
    var code := codes[i];
    if code < 256 then [code]
    else
      OneMoreInsertion(i - 1, cap);
      var base := i - 1 - Since(i - 1, cap);
      if code - 256 < Since(i - 1, cap) then
        Piece(codes, base + code - 256, cap) + Piece(codes, base + code - 255, cap)[..1]
      else Piece(codes, i - 1, cap) + Piece(codes, i - 1, cap)[..1]
  }

  /** What the first `n` codes add up to. */
  function Pieces(codes: seq<nat>, n: nat, cap: nat): Phrase
    requires n <= |codes| && cap >= 257 && (codes != [] ==> codes[0] < 256)
  {
    if n == 0 then [] else Pieces(codes, n - 1, cap) + Piece(codes, n - 1, cap)
  }

  /** The decoder holds, of the history, exactly the additions since the table was last dropped. */
  ghost predicate Remembers(d: Decoder, codes: seq<nat>, n: nat, cap: nat)
    requires n <= |codes| && cap >= 257 && (codes != [] ==> codes[0] < 256)
  {
    && d.out == Pieces(codes, n, cap)
    && if n == 0 then d == Start()
       else
         && d.prev == Some(Piece(codes, n - 1, cap))
         && d.nxt == 256 + Since(n - 1, cap)
         && Since(n - 1, cap) <= n - 1
         && Holds(d.table, codes, n - 1 - Since(n - 1, cap), Since(n - 1, cap), cap)
  }

  ghost predicate Holds(table: map<nat, Phrase>, codes: seq<nat>, base: nat, count: nat, cap: nat)
    requires base + count < |codes| && cap >= 257 && codes[0] < 256
  {
    && (forall c: nat :: c in table <==> c < 256 + count)
    && (forall c: nat :: c < 256 ==> c in table && table[c] == [c])
    && (forall c: nat :: c in table && c >= 256 ==>
          table[c] == Piece(codes, base + c - 256, cap) + Piece(codes, base + c - 255, cap)[..1])
  }

  lemma HoldsOneMore(table: map<nat, Phrase>, codes: seq<nat>, base: nat, count: nat, cap: nat)
    requires base + count + 1 < |codes| && cap >= 257 && codes[0] < 256 && Holds(table, codes, base, count, cap)
    ensures Holds(table[256 + count := Piece(codes, base + count, cap) + Piece(codes, base + count + 1, cap)[..1]], codes, base, count + 1, cap)
  {
    hide Piece;
  }

  lemma HoldsNothing(codes: seq<nat>, base: nat, cap: nat)
    requires base < |codes| && cap >= 257 && codes[0] < 256
    ensures Holds(Singles(), codes, base, 0, cap)
  {
  }

  lemma FirstRemembers(codes: seq<nat>, cap: nat)
    requires codes != [] && cap >= 257 && codes[0] < 256
    ensures var r := Advance(Start(), codes[0], cap); r.Ok? && Remembers(r.value, codes, 1, cap)
  {
    HoldsNothing(codes, 0, cap);
    SmallMod(0, cap - 256);
    hide Holds;
    assert Pieces(codes, 1, cap) == Pieces(codes, 0, cap) + Piece(codes, 0, cap) == [codes[0]];
  }

  lemma NextRemembers(d: Decoder, codes: seq<nat>, n: nat, cap: nat)
    requires 0 < n < |codes| && cap >= 257 && codes[0] < 256 && Remembers(d, codes, n, cap)
    ensures var r := Advance(d, codes[n], cap); r.Ok? && Remembers(r.value, codes, n + 1, cap)
  {
    hide Piece, Since, Holds, Singles;
    OneMoreInsertion(n - 1, cap);
    EntryIsPiece(d, codes, n, cap);
    var count := Since(n - 1, cap);
    assert Pieces(codes, n + 1, cap) == Pieces(codes, n, cap) + Piece(codes, n, cap);
    hide Pieces;
    if count + 1 < cap - 256 {
      HoldsOneMore(d.table, codes, n - 1 - count, count, cap);
    } else {
      HoldsNothing(codes, n, cap);
    }
  }

  /** The entry a code resolves to is its piece. */
  lemma EntryIsPiece(d: Decoder, codes: seq<nat>, n: nat, cap: nat)
    requires 0 < n < |codes| && cap >= 257 && codes[0] < 256 && Remembers(d, codes, n, cap)
    ensures var r := Advance(d, codes[n], cap);
            r.Ok? && r.value.prev == Some(Piece(codes, n, cap)) && r.value.out == d.out + Piece(codes, n, cap)
  {
    PieceByTable(d.table, codes, n, cap);
    hide Piece, Since, Holds, Singles, Pieces;
  }

  lemma PieceByTable(table: map<nat, Phrase>, codes: seq<nat>, n: nat, cap: nat)
    requires 0 < n < |codes| && cap >= 257 && codes[0] < 256 && Since(n - 1, cap) <= n - 1
    requires Holds(table, codes, n - 1 - Since(n - 1, cap), Since(n - 1, cap), cap)
    ensures var last := Piece(codes, n - 1, cap);
            Piece(codes, n, cap) == if codes[n] in table then table[codes[n]] else last + last[..1]
  {
    hide Since;
  }

  lemma {:induction false} RunOneMore(d: Decoder, codes: seq<nat>, c: nat, cap: nat)
    ensures Run(d, codes + [c], cap) ==
            match Run(d, codes, cap) case Err(e) => Err(e) case Ok(d') => Advance(d', c, cap)
    decreases |codes|
  {
    hide Advance;
    var all := codes + [c];
    if codes == [] {
      assert all[0] == c && all[1..] == [];
    } else {
      assert all[0] == codes[0] && all[1..] == codes[1..] + [c];
      match Advance(d, codes[0], cap)
      case Err(_) =>
      case Ok(d') => RunOneMore(d', codes[1..], c, cap);
    }
  }

  lemma {:induction false} RunRemembers(codes: seq<nat>, n: nat, cap: nat)
    requires n <= |codes| && cap >= 257 && (codes != [] ==> codes[0] < 256)
    ensures var r := Run(Start(), codes[..n], cap); r.Ok? && Remembers(r.value, codes, n, cap)
  {
    hide Advance, Singles, Piece;
    if n > 0 {
      RunRemembers(codes, n - 1, cap);
      if n == 1 {
        assert codes[..0] == [];
        FirstRemembers(codes, cap);
      } else {
        NextRemembers(Run(Start(), codes[..n - 1], cap).value, codes, n - 1, cap);
      }
      RunOneMore(Start(), codes[..n - 1], codes[n - 1], cap);
      assert codes[..n] == codes[..n - 1] + [codes[n - 1]];
    } else {
      assert codes[..0] == [];
    }
  }

  /** Decoding any codes that start with a byte, under any cap and over any number of drops of the table,
      yields exactly the pieces they stand for. */
  lemma DecodesToPieces(codes: seq<nat>, cap: nat)
    requires cap >= 257 && (codes != [] ==> codes[0] < 256)
    ensures Decode(codes, cap) == Ok(Pieces(codes, |codes|, cap))
  {
    RunRemembers(codes, |codes|, cap);
    assert codes[..|codes|] == codes;
  }

  /** Codes that are bytes decode to themselves. */
  lemma {:induction false} BytesAreThemselves(codes: seq<nat>, n: nat, cap: nat)
    requires n <= |codes| && cap >= 257 && forall i :: 0 <= i < |codes| ==> codes[i] < 256
    ensures |Pieces(codes, n, cap)| == n && forall i :: 0 <= i < n ==> Pieces(codes, n, cap)[i] == codes[i]
  {
    if n > 0 {
      BytesAreThemselves(codes, n - 1, cap);
    }
  }

  /** What one more code adds, told from outputs alone. */
  function Added(codes: seq<nat>, i: nat, cap: nat): Phrase
    requires i < |codes|
  {
    match (Decode(codes[..i], cap), Decode(codes[..i + 1], cap))
    case (Ok(before), Ok(after)) => if |before| <= |after| then after[|before|..] else []
    case _ => []
  }

  lemma {:induction false} PiecesOfPrefix(codes: seq<nat>, more: seq<nat>, n: nat, cap: nat)
    requires n <= |codes| && cap >= 257 && codes != [] && codes[0] < 256
    ensures Pieces(codes + more, n, cap) == Pieces(codes, n, cap)
  {
    if n > 0 {
      PiecesOfPrefix(codes, more, n - 1, cap);
      PieceOfPrefix(codes, more, n - 1, cap);
    }
  }

  lemma {:induction false} PieceOfPrefix(codes: seq<nat>, more: seq<nat>, i: nat, cap: nat)
    requires i < |codes| && cap >= 257 && codes[0] < 256
    ensures Piece(codes + more, i, cap) == Piece(codes, i, cap)
    decreases i
  {
    if codes[i] >= 256 {
      OneMoreInsertion(i - 1, cap);
      var base := i - 1 - Since(i - 1, cap);
      hide Since;
      if codes[i] - 256 < Since(i - 1, cap) {
        PieceOfPrefix(codes, more, base + codes[i] - 256, cap);
        PieceOfPrefix(codes, more, base + codes[i] - 256 + 1, cap);
      } else {
        PieceOfPrefix(codes, more, i - 1, cap);
      }
    }
  }

  lemma AddedIsPiece(codes: seq<nat>, i: nat, cap: nat)
    requires i < |codes| && cap >= 257 && codes[0] < 256
    ensures Added(codes, i, cap) == Piece(codes, i, cap)
  {
    hide Piece, Run;
    RunRemembers(codes, i, cap);
    RunRemembers(codes, i + 1, cap);
    var before, w := Pieces(codes, i, cap), Piece(codes, i, cap);
    assert (before + w)[|before|..] == w;
  }

  lemma DecodesOneMore(codes: seq<nat>, c: nat, cap: nat)
    requires cap >= 257 && codes != [] && codes[0] < 256
    ensures Decode(codes, cap).Ok?
    ensures Decode(codes + [c], cap) == Ok(Decode(codes, cap).value + Piece(codes + [c], |codes|, cap))
  {
    DecodesToPieces(codes, cap);
    DecodesToPieces(codes + [c], cap);
    PiecesOfPrefix(codes, [c], |codes|, cap);
  }

  /** Until the table is full, the code learnt with the `i`th one repeats what the code before that added
      and the first byte of what it added itself. */
  lemma LearntPhraseIsUsable(codes: seq<nat>, i: nat, cap: nat)
    requires 1 <= i < |codes| && codes[0] < 256 && 255 + |codes| < cap
    ensures Decode(codes, cap).Ok? && Added(codes, i, cap) != []
    ensures Decode(codes + [255 + i], cap)
         == Ok(Decode(codes, cap).value + Added(codes, i - 1, cap) + Added(codes, i, cap)[..1])
  {
    var n := |codes|;
    DecodesOneMore(codes, 255 + i, cap);
    SmallMod(n - 1, cap - 256);
    AddedIsPiece(codes, i - 1, cap);
    AddedIsPiece(codes, i, cap);
    PieceOfPrefix(codes, [255 + i], i - 1, cap);
    PieceOfPrefix(codes, [255 + i], i, cap);
    hide Piece, Decode, Added;
    var out, a, b := Decode(codes, cap).value, Added(codes, i - 1, cap), Added(codes, i, cap)[..1];
    assert out + (a + b) == out + a + b;
  }

  /** The code that fills the table drops it: the first code past the bytes is then unknown again. */
  lemma FullTableIsDropped(codes: seq<nat>, cap: nat)
    requires cap >= 257 && codes != [] && codes[0] < 256 && 255 + |codes| == cap
    ensures Decode(codes, cap).Ok?
    ensures var last := Added(codes, |codes| - 1, cap);
            last != [] && Decode(codes + [256], cap) == Ok(Decode(codes, cap).value + last + last[..1])
  {
    var n := |codes|;
    DecodesOneMore(codes, 256, cap);
    assert (n - 1) % (cap - 256) == 0;
    AddedIsPiece(codes, n - 1, cap);
    PieceOfPrefix(codes, [256], n - 1, cap);
    var out, last := Decode(codes, cap).value, Added(codes, n - 1, cap);
    assert Piece(codes + [256], n, cap) == last + last[..1];
    assert out + (last + last[..1]) == out + last + last[..1];
  }
}
