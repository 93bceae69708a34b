/**
 * The firmware index as downloaded: sextet triples over LZW over a byte shift, and the encoder that
 * writes it. Parsing the decoded bytes as JSON is not part of this model.
 */
module FirmwareIndex {
  import opened Common
  import opened Lzw

  /** Section 5 of RFC 4648 gives the order of the alphabet; the packing of its values is this format's own. */
  const UPPER := "ABCDEFGHIJKLMNOPQRSTUVWXYZ"
  const LOWER := "abcdefghijklmnopqrstuvwxyz"
  const OTHER := "0123456789-_"
  const BYTE_SHIFT := 24

  function Alphabet(): string {
    UPPER + LOWER + OTHER
  }

  type Code = c: nat | c < 0x40000

  /** A payload either runs out of triples or stops at a character outside the alphabet. */
  datatype Failure = BadSymbol | Unresolvable(code: nat)

  function Sextet(ch: char): (r: Option<nat>)
    ensures r.Some? ==> r.value < 64
  {
    if 'A' <= ch <= 'Z' then Some(ch as int - 'A' as int)
    else if 'a' <= ch <= 'z' then Some(ch as int - 'a' as int + 26)
    else if '0' <= ch <= '9' then Some(ch as int - '0' as int + 52)
    else if ch == '-' then Some(62)
    else if ch == '_' then Some(63)
    else None
  }

  function Symbol(i: nat): char
    requires i < 64
  {
    if i < 26 then ('A' as int + i) as char
    else if i < 52 then ('a' as int + i - 26) as char
    else if i < 62 then ('0' as int + i - 52) as char
    else if i == 62 then '-' else '_'
  }

  lemma UpperAt(i: nat)
    requires i < 26
    ensures UPPER[i] == ('A' as int + i) as char
  {
  }

  lemma LowerAt(i: nat)
    requires i < 26
    ensures LOWER[i] == ('a' as int + i) as char
  {
  }

  lemma OtherAt(i: nat)
    requires i < 12
    ensures OTHER[i] == if i < 10 then ('0' as int + i) as char else if i == 10 then '-' else '_'
  {
  }

  lemma AlphabetIs()
    ensures Alphabet() == "ABCDEFGHIJKLMNOPQRSTUVWXYZabcdefghijklmnopqrstuvwxyz0123456789-_"
  {
  }

  /** The symbols are the alphabet's, and the lookup table inverts them, both ways. */
  lemma SextetInvertsAlphabet(i: nat, ch: char)
    ensures |Alphabet()| == 64
    ensures i < 64 ==> Alphabet()[i] == Symbol(i) && Sextet(Symbol(i)) == Some(i)
    ensures Sextet(ch).Some? ==> Symbol(Sextet(ch).value) == ch
  {
    if i < 26 {
      UpperAt(i);
    } else if i < 52 {
      LowerAt(i - 26);
    } else if i < 64 {
      OtherAt(i - 52);
    }
  }

  // ---------------------------------------------------------------- putting sextets together

  /** `a | b`, a bit at a time. */
  function Or(a: nat, b: nat): nat {
    if a == 0 && b == 0 then 0 else (if a % 2 == 1 || b % 2 == 1 then 1 else 0) + 2 * Or(a / 2, b / 2)
  }

  /** `m << k` */
  function ShiftLeft(m: nat, k: nat): nat {
    if k == 0 then m else 2 * ShiftLeft(m, k - 1)
  }

  lemma {:induction false} OrNothing(m: nat)
    ensures Or(0, m) == m
  {
    if m > 0 {
      OrNothing(m / 2);
    }
  }

  /** Below its lowest possible bit a shifted number can be added to. */
  lemma {:induction false} OrBelowShift(a: nat, m: nat, k: nat)
    requires a < ShiftLeft(1, k)
    ensures Or(a, ShiftLeft(m, k)) == a + ShiftLeft(m, k)
  {
    if k == 0 {
      OrNothing(m);
    } else {
      OrBelowShift(a / 2, m, k - 1);
    }
  }

  lemma ThreeMore(m: nat, k: nat)
    ensures ShiftLeft(m, k + 3) == 8 * ShiftLeft(m, k)
  {
    assert ShiftLeft(m, k + 2) == 2 * ShiftLeft(m, k + 1);
  }

  lemma Shifts(m: nat)
    ensures ShiftLeft(m, 6) == 64 * m && ShiftLeft(m, 12) == 4096 * m
  {
    ThreeMore(m, 0);
    ThreeMore(m, 3);
    ThreeMore(m, 6);
    ThreeMore(m, 9);
  }

  /** The three sextets occupy disjoint bits, so the tool's OR is a sum. */
  lemma OrIsSum(c0: nat, c1: nat, c2: nat)
    requires c0 < 64 && c1 < 64 && c2 < 64
    ensures Or(Or(c0, ShiftLeft(c1, 6)), ShiftLeft(c2, 12)) == c0 + 64 * c1 + 4096 * c2 < 0x40000
  {
    Shifts(1);
    Shifts(c1);
    Shifts(c2);
    OrBelowShift(c0, c1, 6);
    OrBelowShift(c0 + 64 * c1, c2, 12);
  }

  /** A sextet is at most six bits. */
  type Six = c: nat | c < 64

  /** `c0 | c1 << 6 | c2 << 12` */
  function Join(c0: Six, c1: Six, c2: Six): Code {
    OrIsSum(c0, c1, c2);
    Or(Or(c0, ShiftLeft(c1, 6)), ShiftLeft(c2, 12))
  }

  function CodeOf(triple: string): Option<Code>
    requires |triple| == 3
  {
    match (Sextet(triple[0]), Sextet(triple[1]), Sextet(triple[2]))
    case (Some(c0), Some(c1), Some(c2)) => Some(Join(c0, c1, c2))
    case _ => None
  }

  /** The codes yielded before the generator ends, and whether it ends by failing. A last group of one
      or two characters is ignored. */
  function Codes(payload: string): (seq<Code>, bool)
    decreases |payload|
  {
    if |payload| < 3 then ([], false)
    else
      match CodeOf(payload[..3])
      case None => ([], true)
      case Some(c) => var (rest, bad) := Codes(payload[3..]); ([c] + rest, bad)
  }

  function Triple(c: Code): string {
    [Symbol(c % 64), Symbol(c / 64 % 64), Symbol(c / 4096)]
  }

  function Write(codes: seq<Code>): string {
    if codes == [] then "" else Triple(codes[0]) + Write(codes[1..])
  }

  /** Python's whitespace. */
  predicate IsSpace(ch: char) {
    var c := ch as int;
    || 9 <= c <= 13 || 28 <= c <= 32 || c == 0x85 || c == 0xA0 || c == 0x1680 || 0x2000 <= c <= 0x200A
    || c == 0x2028 || c == 0x2029 || c == 0x202F || c == 0x205F || c == 0x3000
  }

  function StripLeft(s: string): string {
    if s != [] && IsSpace(s[0]) then StripLeft(s[1..]) else s
  }

  function StripRight(s: string): string {
    if s != [] && IsSpace(s[|s| - 1]) then StripRight(s[..|s| - 1]) else s
  }

  function Strip(s: string): string {
    StripRight(StripLeft(s))
  }

  function Unshift(b: Byte): Byte {
    (b - BYTE_SHIFT) % 256
  }

  function Shift(b: Byte): Byte {
    (b + BYTE_SHIFT) % 256
  }

  function MapBytes(f: Byte -> Byte, s: Phrase): Phrase {
    seq(|s|, i requires 0 <= i < |s| => f(s[i]))
  }

  /** The generator is consumed lazily, so a code the decoder rejects is reported before a bad symbol
      further on. */
  function DecodeIndex(payload: string): Result<Phrase, Failure> {
    var (codes, bad) := Codes(Strip(payload));
    match Lzw.Decode(Widen(codes), DICT_CAP)
    case Err(code) => Err(Unresolvable(code))
    case Ok(raw) => if bad then Err(BadSymbol) else Ok(MapBytes(Unshift, raw))
  }

  function EncodeIndex(plain: Phrase): string {
    var codes := Lzw.Encode(MapBytes(Shift, plain), DICT_CAP);
    Lzw.RoundTrip(MapBytes(Shift, plain), DICT_CAP);
    Write(Narrow(codes))
  }

  function Narrow(codes: seq<nat>): (r: seq<Code>)
    requires forall c :: c in codes ==> c < DICT_CAP
    ensures r == codes
  {
    if codes == [] then [] else
    assert codes[0] in codes && forall c :: c in codes[1..] ==> c in codes;
    var first: Code := codes[0];
    [first] + Narrow(codes[1..])
  }

  function Widen(codes: seq<Code>): (r: seq<nat>)
    ensures r == codes
  {
    seq(|codes|, i requires 0 <= i < |codes| => codes[i])
  }

  // ---------------------------------------------------------------- the code layer is a bijection

  /** A code's digits in base 64, joined, are the code. */
  lemma JoinOfDigits(c: Code)
    ensures Join(c % 64, c / 64 % 64, c / 4096) == c
  {
    OrIsSum(c % 64, c / 64 % 64, c / 4096);
    assert c / 4096 == c / 64 / 64;
  }

  lemma DigitsOfJoin(c0: Six, c1: Six, c2: Six)
    ensures var c := Join(c0, c1, c2); c % 64 == c0 && c / 64 % 64 == c1 && c / 4096 == c2
  {
    OrIsSum(c0, c1, c2);
    Digits(c0, c1, c2);
  }

  lemma Digits(c0: Six, c1: Six, c2: Six)
    ensures var c := c0 + 64 * c1 + 4096 * c2; c % 64 == c0 && c / 64 % 64 == c1 && c / 4096 == c2
  {
    var c := c0 + 64 * c1 + 4096 * c2;
    assert c / 64 == c1 + 64 * c2;
  }

  lemma TripleRoundTrip(c: Code)
    ensures CodeOf(Triple(c)) == Some(c)
  {
    SextetInvertsAlphabet(c % 64, 'A');
    SextetInvertsAlphabet(c / 64 % 64, 'A');
    SextetInvertsAlphabet(c / 4096, 'A');
    hide Symbol, Sextet, Join;
    JoinOfDigits(c);
  }

  lemma CodeRoundTrip(t: string)
    requires |t| == 3 && CodeOf(t).Some?
    ensures Triple(CodeOf(t).value) == t
  {
    SextetInvertsAlphabet(0, t[0]);
    SextetInvertsAlphabet(0, t[1]);
    SextetInvertsAlphabet(0, t[2]);
    hide Symbol, Sextet, Join;
    DigitsOfJoin(Sextet(t[0]).value, Sextet(t[1]).value, Sextet(t[2]).value);
    assert t == [t[0], t[1], t[2]];
  }

  lemma {:induction false} WriteThenRead(codes: seq<Code>)
    ensures Codes(Write(codes)) == (codes, false)
  {
    if codes != [] {
      TripleRoundTrip(codes[0]);
      WriteThenRead(codes[1..]);
      var s := Write(codes);
      assert s[..3] == Triple(codes[0]) && s[3..] == Write(codes[1..]);
      assert codes == [codes[0]] + codes[1..];
      assert Codes(s) == ([codes[0]] + codes[1..], false);
    }
  }

  lemma {:induction false} ReadThenWrite(payload: string)
    requires |payload| % 3 == 0 && !Codes(payload).1
    ensures Write(Codes(payload).0) == payload
    decreases |payload|
  {
    hide Triple, Symbol, Sextet, Join;
    if payload != [] {
      var t := payload[..3];
      var c := CodeOf(t).value;
      ReadThenWrite(payload[3..]);
      CodeRoundTrip(t);
      var rest := Codes(payload[3..]).0;
      assert Codes(payload).0 == [c] + rest;
      assert ([c] + rest)[0] == c && ([c] + rest)[1..] == rest;
      assert payload == t + payload[3..];
    }
  }

  /** The payload fails on its symbols exactly when some complete triple holds a foreign character. */
  lemma {:induction false} BadExactlyOnForeignSymbol(payload: string)
    ensures Codes(payload).1 <==> exists i :: 0 <= i < |payload| / 3 * 3 && Sextet(payload[i]).None?
    decreases |payload|
  {
    hide Sextet, Join;
    if |payload| >= 3 {
      var rest := payload[3..];
      BadExactlyOnForeignSymbol(rest);
      assert |payload| / 3 * 3 == 3 + |rest| / 3 * 3;
      var t := payload[..3];
      assert t[0] == payload[0] && t[1] == payload[1] && t[2] == payload[2];
      if CodeOf(t).Some? {
        if i :| 0 <= i < |rest| / 3 * 3 && Sextet(rest[i]).None? {
          assert payload[i + 3] == rest[i];
        }
        if i :| 0 <= i < |payload| / 3 * 3 && Sextet(payload[i]).None? {
          assert i >= 3 && rest[i - 3] == payload[i];
        }
      } else {
        assert Codes(payload).1;
      }
    }
  }

  // ---------------------------------------------------------------- the stacked codec

  ghost predicate AllSpace(s: string) {
    forall i :: 0 <= i < |s| ==> IsSpace(s[i])
  }

  lemma {:induction false} StripLeftDrops(a: string, s: string)
    requires AllSpace(a) && (s != [] ==> !IsSpace(s[0]))
    ensures StripLeft(a + s) == s
  {
    if a == [] {
      assert a + s == s;
    } else {
      assert (a + s)[1..] == a[1..] + s;
      StripLeftDrops(a[1..], s);
    }
  }

  lemma {:induction false} StripRightDrops(s: string, b: string)
    requires AllSpace(b) && (s != [] ==> !IsSpace(s[|s| - 1]))
    ensures StripRight(s + b) == s
  {
    if b == [] {
      assert s + b == s;
    } else {
      assert (s + b)[..|s + b| - 1] == s + b[..|b| - 1];
      StripRightDrops(s, b[..|b| - 1]);
    }
  }

  lemma {:induction false} AllSpaceStripsAway(s: string)
    requires AllSpace(s)
    ensures StripLeft(s) == ""
  {
    if s != [] {
      AllSpaceStripsAway(s[1..]);
    }
  }

  lemma {:induction false} WrittenSymbols(codes: seq<Code>)
    ensures forall ch :: ch in Write(codes) ==> Sextet(ch).Some?
  {
    if codes != [] {
      WrittenSymbols(codes[1..]);
      TripleRoundTrip(codes[0]);
      forall ch | ch in Triple(codes[0]) ensures Sextet(ch).Some? {
      }
    }
  }

  lemma StripUndoesPadding(before: string, s: string, after: string)
    requires AllSpace(before) && AllSpace(after)
    requires forall ch :: ch in s ==> Sextet(ch).Some?
    ensures Strip(before + s + after) == s
  {
    if s == [] {
      AllSpaceStripsAway(before + s + after);
    } else {
      assert before + s + after == before + (s + after);
      assert s[0] in s && s[|s| - 1] in s;
      StripLeftDrops(before, s + after);
      StripRightDrops(s, after);
    }
  }

  lemma ShiftUndone(plain: Phrase)
    ensures MapBytes(Unshift, MapBytes(Shift, plain)) == plain
  {
    forall i | 0 <= i < |plain| ensures Unshift(Shift(plain[i])) == plain[i] {
    }
  }

  /** Any bytes survive being shifted, compressed and written, whatever whitespace surrounds the file. */
  lemma StackRoundTrip(plain: Phrase, before: string, after: string)
    requires AllSpace(before) && AllSpace(after)
    ensures DecodeIndex(before + EncodeIndex(plain) + after) == Ok(plain)
  {
    var shifted := MapBytes(Shift, plain);
    Lzw.RoundTrip(shifted, DICT_CAP);
    var codes := Narrow(Lzw.Encode(shifted, DICT_CAP));
    WrittenSymbols(codes);
    StripUndoesPadding(before, Write(codes), after);
    WriteThenRead(codes);
    ShiftUndone(plain);
  }

  // ---------------------------------------------------------------- what a payload says

  /** What the tool makes of the bytes the codes decode to. */
  function Plain(raw: Phrase): Phrase {
    seq(|raw|, i requires 0 <= i < |raw| => (raw[i] as int + 232) % 256)
  }

  lemma WrittenDecodes(codes: seq<Code>)
    requires codes != [] ==> codes[0] < 256
    ensures Decode(codes, 262143).Ok?
    ensures DecodeIndex(Write(codes)) == Ok(Plain(Decode(codes, 262143).value))
  {
    WrittenSymbols(codes);
    StripUndoesPadding("", Write(codes), "");
    assert "" + Write(codes) + "" == Write(codes);
    WriteThenRead(codes);
    DecodesToPieces(codes, 262143);
    assert Widen(codes) == codes;
    hide Decode, Codes, Write;
    UnshiftIsPlain(Decode(codes, 262143).value);
  }

  lemma UnshiftIsPlain(raw: Phrase)
    ensures MapBytes(Unshift, raw) == Plain(raw)
  {
    forall i | 0 <= i < |raw| ensures Unshift(raw[i]) == Plain(raw)[i] {
      assert raw[i] as int + 232 == raw[i] as int - 24 + 256;
    }
  }

  /** A payload of codes below 256 is those bytes, each less 24. */
  lemma BytesInThePayload(codes: seq<Code>)
    requires forall i :: 0 <= i < |codes| ==> codes[i] < 256
    ensures DecodeIndex(Write(codes)) == Ok(seq(|codes|, i requires 0 <= i < |codes| => (codes[i] as int + 232) % 256))
  {
    hide Decode, Codes, Write, Pieces, DecodeIndex;
    WrittenDecodes(codes);
    DecodesToPieces(codes, 262143);
    BytesAreThemselves(codes, |codes|, 262143);
    var raw := Decode(codes, 262143).value;
    var said: Phrase := seq(|codes|, i requires 0 <= i < |codes| => (codes[i] as int + 232) % 256);
    assert Plain(raw) == said;
  }

  lemma PlainJoins(a: Phrase, b: Phrase)
    ensures Plain(a + b) == Plain(a) + Plain(b)
  {
  }

  lemma PlainHead(w: Phrase)
    requires w != []
    ensures Plain(w) != [] && Plain(w[..1]) == Plain(w)[..1]
  {
  }

  /** What the `i`th code of a payload adds to what it says. */
  function Said(codes: seq<Code>, i: nat): Phrase
    requires i < |codes|
  {
    match (DecodeIndex(Write(codes[..i])), DecodeIndex(Write(codes[..i + 1])))
    case (Ok(before), Ok(after)) => if |before| <= |after| then after[|before|..] else []
    case _ => []
  }

  lemma SaidIsAdded(codes: seq<Code>, i: nat)
    requires i < |codes| && codes[0] < 256
    ensures Said(codes, i) == Plain(Added(codes, i, 262143)) && Added(codes, i, 262143) != []
  {
    hide DecodeIndex, Write, Decode, Piece;
    AddedIsPiece(codes, i, 262143);
    WrittenDecodes(codes[..i]);
    WrittenDecodes(codes[..i + 1]);
    var before, after := Decode(codes[..i], 262143).value, Decode(codes[..i + 1], 262143).value;
    assert Plain(after)[|before|..] == Plain(after[|before|..]);
  }

  /** Until the table is full, the code learnt with the `i`th one says again what the code before it said
      and the first byte of what it said itself. */
  lemma LearntPhraseInThePayload(codes: seq<Code>, i: nat)
    requires 1 <= i < |codes| && codes[0] < 256 && 255 + |codes| < 262143
    ensures DecodeIndex(Write(codes)).Ok? && Said(codes, i) != []
    ensures DecodeIndex(Write(codes + [255 + i]))
         == Ok(DecodeIndex(Write(codes)).value + Said(codes, i - 1) + Said(codes, i)[..1])
  {
    hide DecodeIndex, Write, Decode, Added, Said, Plain;
    LearntPhraseIsUsable(codes, i, 262143);
    WrittenDecodes(codes);
    WrittenDecodes(codes + [255 + i]);
    SaidIsAdded(codes, i - 1);
    SaidIsAdded(codes, i);
    var out, a, b := Decode(codes, 262143).value, Added(codes, i - 1, 262143), Added(codes, i, 262143);
    PlainJoins(out, a);
    PlainJoins(out + a, b[..1]);
    PlainHead(b);
  }

  /** The code that fills the table drops it, and 256 after it is unknown. */
  lemma FullTableInThePayload(codes: seq<Code>)
    requires codes != [] && codes[0] < 256 && 255 + |codes| == 262143
    ensures DecodeIndex(Write(codes)).Ok?
    ensures var last := Said(codes, |codes| - 1);
            last != [] && DecodeIndex(Write(codes + [256])) == Ok(DecodeIndex(Write(codes)).value + last + last[..1])
  {
    hide DecodeIndex, Write, Decode, Added, Said, Plain;
    FullTableIsDropped(codes, 262143);
    WrittenDecodes(codes);
    WrittenDecodes(codes + [256]);
    SaidIsAdded(codes, |codes| - 1);
    var out, last := Decode(codes, 262143).value, Added(codes, |codes| - 1, 262143);
    PlainJoins(out, last);
    PlainJoins(out + last, last[..1]);
    PlainHead(last);
  }

  /** Of the ASCII characters these are the ones stripped. */
  lemma AsciiSpaces(ch: char)
    requires ch as int < 128
    ensures IsSpace(ch) <==> ch in " \t\n\r\U{0B}\U{0C}\U{1C}\U{1D}\U{1E}\U{1F}"
  {
  }

  /** The tool's `decode` up to the bytes it hands to the JSON parser. */
  method DecodePayload(payload: string) returns (r: Result<Phrase, Failure>)
    ensures r == DecodeIndex(payload)
    ensures var (codes, bad) := Codes(Strip(payload));
            !bad && (codes == [] || codes[0] < 256) ==> r == Ok(Plain(Pieces(codes, |codes|, 262143)))
    ensures forall plain: Phrase | payload == EncodeIndex(plain) :: r == Ok(plain)
  {
    forall plain: Phrase | payload == EncodeIndex(plain) ensures DecodeIndex(payload) == Ok(plain) {
      StackRoundTrip(plain, "", "");
      assert "" + EncodeIndex(plain) + "" == payload;
    }
    var (codes, bad) := Codes(Strip(payload));
    var raw := LzwDecode(Widen(codes), DICT_CAP);
    if raw.Err? {
      return Err(Unresolvable(raw.error));
    }
    if bad {
      return Err(BadSymbol);
    }
    UnshiftIsPlain(raw.value);
    return Ok(MapBytes(Unshift, raw.value));
  }
}
