/**
 * UPDATE.APP as its writer lays it out, and the inspector as the exact inverse of that writer: it
 * accepts the files made of a magic-free lead-in and whole packets, and only those.
 */
module Container {
  import opened Common
  import opened UpdateApp

  /** A packet with nothing left out. */
  datatype Raw = Raw(
    unknown: Bytes, hardwareId: Bytes, sequence: Bytes, date: Bytes, time: Bytes, name: Bytes, extra: Bytes, payload: Bytes)

  ghost predicate WellFormed(r: Raw) {
    && |r.unknown| == 4 && |r.hardwareId| == 8 && |r.sequence| == 4 && |r.date| == 16 && |r.time| == 16
    && |r.name| == NAME_SIZE
    && 76 + |r.extra| < 0x1_0000_0000 && |r.payload| < 0x1_0000_0000
  }

  /** Four bytes, least significant first. */
  function LittleEndian(n: nat): (b: Bytes)
    requires n < 0x1_0000_0000
    ensures |b| == 4
  {
    [n % 0x100, n / 0x100 % 0x100, n / 0x10000 % 0x100, n / 0x1000000]
  }

  lemma WordOfLittleEndian(n: nat)
    requires n < 0x1_0000_0000
    ensures Word(LittleEndian(n)) == n
  {
    assert n / 0x10000 == n / 0x100 / 0x100 && n / 0x1000000 == n / 0x10000 / 0x100;
  }

  lemma LittleEndianOfWord(b: Bytes)
    requires |b| == 4
    ensures Word(b) < 0x1_0000_0000 && LittleEndian(Word(b)) == b
  {
    var n := Word(b);
    assert n / 0x100 == b[1] as int + 0x100 * (b[2] as int) + 0x10000 * (b[3] as int);
    assert n / 0x10000 == b[2] as int + 0x100 * (b[3] as int);
    assert n / 0x1000000 == b[3] as int;
  }

  function Fixed(r: Raw): (b: Bytes)
    requires WellFormed(r)
    ensures |b| == FIXED_HEADER_SIZE
  {
    MAGIC + LittleEndian(76 + |r.extra|) + r.unknown + r.hardwareId + r.sequence + LittleEndian(|r.payload|) + r.date + r.time
  }

  function Size(r: Raw): nat {
    76 + |r.extra| + |r.payload|
  }

  function Zeros(n: nat): Bytes {
    seq(n, _ => 0)
  }

  /** The packet's bytes at offset `at`, which the padding depends on. */
  function Serialise(r: Raw, at: nat): (b: Bytes)
    requires WellFormed(r)
    ensures |b| == Size(r) + Padding(at + Size(r))
  {
    Fixed(r) + r.name + r.extra + r.payload + Zeros(Padding(at + Size(r)))
  }

  function Next(r: Raw, at: nat): nat {
    at + Size(r) + Padding(at + Size(r))
  }

  ghost predicate AllWellFormed(rs: seq<Raw>) {
    forall i :: 0 <= i < |rs| ==> WellFormed(rs[i])
  }

  function SerialiseAll(rs: seq<Raw>, at: nat): Bytes
    requires AllWellFormed(rs)
  {
    if rs == [] then [] else Serialise(rs[0], at) + SerialiseAll(rs[1..], Next(rs[0], at))
  }

  /** What the inspector should report of a packet. */
  function Entry(r: Raw, at: nat): Packet
    requires WellFormed(r)
  {
    Packet(at, 76 + |r.extra|, Word(r.unknown), r.hardwareId, r.sequence, |r.payload|, Field(r.date), Field(r.time),
           Field(r.name), r.payload, Padding(at + Size(r)))
  }

  function Entries(rs: seq<Raw>, at: nat): (es: seq<Packet>)
    requires AllWellFormed(rs)
    ensures |es| == |rs|
  {
    if rs == [] then [] else [Entry(rs[0], at)] + Entries(rs[1..], Next(rs[0], at))
  }

  // ---------------------------------------------------------------- one packet

  /** The bytes from `i` on are `part`, then `rest`. */
  lemma Splits(s: Bytes, part: Bytes, rest: Bytes, i: nat)
    requires i <= |s| && s[i..] == part + rest
    ensures i + |part| <= |s| && s[i..i + |part|] == part && s[i + |part|..] == rest
  {
    assert s[i..i + |part|] == s[i..][..|part|];
    assert s[i + |part|..] == s[i..][|part|..];
  }

  lemma FixedFields(r: Raw)
    requires WellFormed(r)
    ensures var f := Fixed(r);
            && f[0..4] == MAGIC && f[4..8] == LittleEndian(76 + |r.extra|) && f[8..12] == r.unknown
            && f[12..20] == r.hardwareId && f[20..24] == r.sequence && f[24..28] == LittleEndian(|r.payload|)
            && f[28..44] == r.date && f[44..60] == r.time
  {
    var f := Fixed(r);
    var t0 := r.time + [];
    var t1 := r.date + t0;
    var t2 := LittleEndian(|r.payload|) + t1;
    var t3 := r.sequence + t2;
    var t4 := r.hardwareId + t3;
    var t5 := r.unknown + t4;
    var t6 := LittleEndian(76 + |r.extra|) + t5;
    assert f[0..] == MAGIC + t6;
    Splits(f, MAGIC, t6, 0);
    Splits(f, LittleEndian(76 + |r.extra|), t5, 4);
    Splits(f, r.unknown, t4, 8);
    Splits(f, r.hardwareId, t3, 12);
    Splits(f, r.sequence, t2, 20);
    Splits(f, LittleEndian(|r.payload|), t1, 24);
    Splits(f, r.date, t0, 28);
    Splits(f, r.time, [], 44);
  }

  lemma Associates(a: Bytes, b: Bytes, c: Bytes, d: Bytes, e: Bytes, f: Bytes)
    ensures a + b + c + d + e + f == a + (b + (c + (d + (e + f))))
  {
  }

  /** Where the packet's bytes lie when the file continues with them. */
  lemma PacketLies(data: Bytes, r: Raw, at: nat, rest: Bytes)
    requires WellFormed(r) && at <= |data| && data[at..] == Serialise(r, at) + rest
    ensures Next(r, at) <= |data| && data[Next(r, at)..] == rest
    ensures data[at..at + 60] == Fixed(r) && data[at + 60..at + 76] == r.name && data[at + 76..at + 76 + |r.extra|] == r.extra
    ensures var body := at + 76 + |r.extra|;
            && data[body..at + Size(r)] == r.payload
            && data[at + Size(r)..Next(r, at)] == Zeros(Padding(at + Size(r)))
  {
    hide AllZero;
    var zeros := Zeros(Padding(at + Size(r)));
    Associates(Fixed(r), r.name, r.extra, r.payload, zeros, rest);
    Splits(data, Fixed(r), r.name + (r.extra + (r.payload + (zeros + rest))), at);
    Splits(data, r.name, r.extra + (r.payload + (zeros + rest)), at + 60);
    Splits(data, r.extra, r.payload + (zeros + rest), at + 76);
    Splits(data, r.payload, zeros + rest, at + 76 + |r.extra|);
    Splits(data, zeros, rest, at + Size(r));
  }

  /** A written packet is read back as its entry. */
  lemma WrittenPacketIsRead(data: Bytes, size: nat, r: Raw, at: nat, rest: Bytes)
    requires WellFormed(r) && at <= |data| && data[at..] == Serialise(r, at) + rest
    requires at + Size(r) <= size
    ensures PacketAt(data, size, at) == Ok(Entry(r, at))
    ensures MagicAt(data, at)
  {
    hide Word, Fixed, LittleEndian, Serialise, Described, Entry, Field;
    PacketLies(data, r, at, rest);
    FixedFields(r);
    WordOfLittleEndian(76 + |r.extra|);
    WordOfLittleEndian(|r.payload|);
    assert data[at..at + 4] == data[at..at + 60][0..4];
    DescribesEntry(r, at);
  }

  lemma DescribesEntry(r: Raw, at: nat)
    requires WellFormed(r)
    ensures Described(at, Fixed(r), r.name, r.payload) == Entry(r, at)
  {
    hide Word, Fixed, LittleEndian, Field;
    FixedFields(r);
    WordOfLittleEndian(76 + |r.extra|);
    WordOfLittleEndian(|r.payload|);
  }

  /** The packet a file holds at an offset. */
  function RawAt(data: Bytes, p: Packet): Raw
    requires p.offset + 76 <= p.offset + p.headerLength <= |data|
  {
    var at := p.offset;
    Raw(data[at + 8..at + 12], data[at + 12..at + 20], data[at + 20..at + 24], data[at + 28..at + 44], data[at + 44..at + 60],
        data[at + 60..at + 76], data[at + 76..at + p.headerLength], p.payload)
  }

  /** An accepted packet is one the writer makes. */
  lemma ReadPacketIsWritten(data: Bytes, size: nat, at: nat) returns (r: Raw)
    requires MagicAt(data, at) && PacketAt(data, size, at).Ok?
    ensures WellFormed(r) && PacketAt(data, size, at).value == Entry(r, at)
    ensures Next(r, at) <= |data| && data[at..Next(r, at)] == Serialise(r, at) && at + Size(r) <= size
  {
    hide Word, Fixed, LittleEndian, Serialise;
    var p := PacketAt(data, size, at).value;
    r := RawAt(data, p);
    RawOfFixed(data, at, p);
    assert AllZero(data[at + Size(r)..Next(r, at)]);
    PartsMakePacket(data, r, at);
  }

  /** The fixed header determines its packet's own fields, and is what the writer puts for them. */
  lemma RawOfFixed(data: Bytes, at: nat, p: Packet)
    requires MagicAt(data, at) && at + 76 <= at + p.headerLength <= |data| && at + p.headerLength + p.dataLength <= |data|
    requires p == Described(at, data[at..at + 60], data[at + 60..at + 76], data[at + p.headerLength..at + p.headerLength + p.dataLength])
    ensures var r := RawAt(data, p); WellFormed(r) && data[at..at + 60] == Fixed(r) && p == Entry(r, at)
  {
    var fixed := data[at..at + 60];
    LittleEndianOfWord(fixed[4..8]);
    LittleEndianOfWord(fixed[24..28]);
    FixedSlices(data, at);
    FixedJoins(fixed);
  }

  lemma PartsMakePacket(data: Bytes, r: Raw, at: nat)
    requires WellFormed(r) && Next(r, at) <= |data|
    requires data[at..at + 60] == Fixed(r) && data[at + 60..at + 76] == r.name
    requires data[at + 76..at + 76 + |r.extra|] == r.extra && data[at + 76 + |r.extra|..at + Size(r)] == r.payload
    requires AllZero(data[at + Size(r)..Next(r, at)])
    ensures data[at..Next(r, at)] == Serialise(r, at)
  {
    var end := at + Size(r);
    assert data[end..Next(r, at)] == Zeros(Padding(end));
    FiveParts(data, at, at + 60, at + 76, at + 76 + |r.extra|, end, Next(r, at));
  }

  lemma SliceOfSlice(d: Bytes, a: nat, b: nat, i: nat, j: nat)
    requires i <= j && a + j <= b <= |d|
    ensures d[a..b][i..j] == d[a + i..a + j]
  {
    var s, t := d[a..b][i..j], d[a + i..a + j];
    forall k | 0 <= k < j - i ensures s[k] == t[k] {
      assert s[k] == d[a..b][i + k];
    }
  }

  lemma FixedSlices(data: Bytes, at: nat)
    requires at + 60 <= |data|
    ensures var f := data[at..at + 60];
            && f[0..4] == data[at..at + 4] && f[8..12] == data[at + 8..at + 12] && f[12..20] == data[at + 12..at + 20]
            && f[20..24] == data[at + 20..at + 24] && f[28..44] == data[at + 28..at + 44] && f[44..60] == data[at + 44..at + 60]
  {
    SliceOfSlice(data, at, at + 60, 0, 4);
    SliceOfSlice(data, at, at + 60, 8, 12);
    SliceOfSlice(data, at, at + 60, 12, 20);
    SliceOfSlice(data, at, at + 60, 20, 24);
    SliceOfSlice(data, at, at + 60, 28, 44);
    SliceOfSlice(data, at, at + 60, 44, 60);
  }

  lemma FixedJoins(f: Bytes)
    requires |f| == 60
    ensures f == f[0..4] + f[4..8] + f[8..12] + f[12..20] + f[20..24] + f[24..28] + f[28..44] + f[44..60]
  {
  }

  lemma FiveParts(d: Bytes, a: nat, b: nat, c: nat, e: nat, g: nat, h: nat)
    requires a <= b <= c <= e <= g <= h <= |d|
    ensures d[a..h] == d[a..b] + d[b..c] + d[c..e] + d[e..g] + d[g..h]
  {
    TwoParts(d, a, b, c);
    TwoParts(d, a, c, e);
    TwoParts(d, a, e, g);
    TwoParts(d, a, g, h);
  }

  lemma TwoParts(d: Bytes, a: nat, b: nat, c: nat)
    requires a <= b <= c <= |d|
    ensures d[a..c] == d[a..b] + d[b..c]
  {
  }

  // ---------------------------------------------------------------- whole files

  lemma {:induction false} WrittenPacketsAreRead(data: Bytes, size: nat, rs: seq<Raw>, at: nat, rest: Bytes)
    requires AllWellFormed(rs) && rs != [] && at <= |data|
    requires data[at..] == SerialiseAll(rs, at) + rest && size == at + |SerialiseAll(rs, at)|
    ensures PacketsFrom(data, size, at) == Ok(Entries(rs, at)) && MagicAt(data, at)
    decreases |rs|
  {
    var next := Next(rs[0], at);
    var more := SerialiseAll(rs[1..], next);
    FirstPacketIsRead(data, size, rs[0], at, more, rest);
    if |rs| == 1 {
      assert rs[1..] == [];
      assert Entries(rs, at) == [Entry(rs[0], at)];
    } else {
      WrittenPacketsAreRead(data, size, rs[1..], next, rest);
      assert MagicAt(data, next) && next < size;
      assert ReadAt(data, next, 4) == MAGIC;
      assert Entries(rs, at) == [Entry(rs[0], at)] + Entries(rs[1..], next);
    }
  }

  lemma FirstPacketIsRead(data: Bytes, size: nat, r: Raw, at: nat, more: Bytes, rest: Bytes)
    requires WellFormed(r) && at <= |data|
    requires data[at..] == (Serialise(r, at) + more) + rest && size == at + |Serialise(r, at) + more|
    ensures PacketAt(data, size, at) == Ok(Entry(r, at)) && MagicAt(data, at) && End(Entry(r, at)) == Next(r, at)
    ensures Next(r, at) <= |data| && data[Next(r, at)..] == more + rest
  {
    assert (Serialise(r, at) + more) + rest == Serialise(r, at) + (more + rest);
    WrittenPacketIsRead(data, size, r, at, more + rest);
    PacketLies(data, r, at, more + rest);
  }

  /** No packet magic can straddle the end of a magic-free lead-in: no proper prefix of it is also its suffix. */
  lemma MagicDoesNotOverlap(lead: Bytes, data: Bytes)
    requires MagicFree(lead) && |lead| <= |data| && data[..|lead|] == lead && MagicAt(data, |lead|)
    ensures FirstMagic(data, |lead|)
  {
    var n := |lead|;
    assert data[n..n + 4][0] == data[n] && data[n..n + 4][1] == data[n + 1] && data[n..n + 4][2] == data[n + 2];
    forall j | 0 <= j < n ensures !MagicAt(data, j) {
      if MagicAt(data, j) {
        var w := data[j..j + 4];
        assert w[0] == data[j] && w[1] == data[j + 1] && w[2] == data[j + 2] && w[3] == data[j + 3];
        if j + 4 <= n {
          assert lead[j..j + 4] == data[j..j + 4];
          assert MagicAt(lead, j);
        }
      }
    }
  }

  lemma SearchFinds(data: Bytes, i: nat)
    requires FirstMagic(data, i)
    ensures Search(data, 0) == Some(i)
  {
  }

  /** Any packets, written after any magic-free lead-in and before anything at all, are what the
      inspection returns. */
  lemma WrittenFileIsRead(lead: Bytes, rs: seq<Raw>, rest: Bytes)
    requires MagicFree(lead) && AllWellFormed(rs) && rs != []
    ensures var body := SerialiseAll(rs, |lead|);
            Inspect(lead + body + rest, |lead + body|) == Ok(Report(|lead|, Entries(rs, |lead|)))
  {
    var body := SerialiseAll(rs, |lead|);
    var data := lead + body + rest;
    assert data[|lead|..] == body + rest;
    WrittenPacketsAreRead(data, |lead + body|, rs, |lead|, rest);
    MagicDoesNotOverlap(lead, data);
    SearchFinds(data, |lead|);
  }

  lemma {:induction false} EntryOfItsPacket(rs: seq<Raw>, at: nat, k: nat)
    requires AllWellFormed(rs) && k < |rs|
    ensures Entries(rs, at)[k].name == Field(rs[k].name) && Entries(rs, at)[k].payload == rs[k].payload
    decreases k
  {
    if k > 0 {
      EntryOfItsPacket(rs[1..], Next(rs[0], at), k - 1);
    }
  }

  /** A packet written under a name padded with zeros is reported under that name, with its payload. */
  lemma WrittenNameIsReported(lead: Bytes, rs: seq<Raw>, rest: Bytes, k: nat, name: Bytes)
    requires MagicFree(lead) && AllWellFormed(rs) && k < |rs|
    requires 0 !in name && |name| <= 16 && rs[k].name == name + Zeros(16 - |name|)
    ensures var body := SerialiseAll(rs, |lead|);
            var r := Inspect(lead + body + rest, |lead + body|);
            r.Ok? && |r.value.packets| == |rs| && r.value.packets[k].name == name && r.value.packets[k].payload == rs[k].payload
  {
    WrittenFileIsRead(lead, rs, rest);
    EntryOfItsPacket(rs, |lead|, k);
    PaddedName(name);
  }

  lemma ZerosOneMore(n: nat)
    ensures Zeros(n + 1) == [0] + Zeros(n)
  {
  }

  lemma PaddedName(name: Bytes)
    requires 0 !in name && |name| <= 16
    ensures Field(name + Zeros(16 - |name|)) == name
  {
    hide Field;
    if |name| == 16 {
      FieldStopsAtNul(name, []);
      assert name + Zeros(0) == name;
    } else {
      hide Zeros;
      FieldStopsAtNul(name, Zeros(15 - |name|));
      ZerosOneMore(15 - |name|);
      assert name + ([0] + Zeros(15 - |name|)) == name + [0] + Zeros(15 - |name|);
    }
  }

  lemma {:induction false} ReadPacketsAreWritten(data: Bytes, size: nat, at: nat) returns (rs: seq<Raw>)
    requires at <= |data| && MagicAt(data, at) && PacketsFrom(data, size, at).Ok?
    ensures AllWellFormed(rs) && rs != [] && PacketsFrom(data, size, at).value == Entries(rs, at)
    ensures at <= size <= |data| && data[at..size] == SerialiseAll(rs, at)
    decreases |data| - at
  {
    hide PacketAt;
    var r := ReadPacketIsWritten(data, size, at);
    var next := Next(r, at);
    assert End(Entry(r, at)) == next;
    var rest: seq<Raw> := [];
    if next != size {
      assert ReadAt(data, next, 4) == MAGIC;
      assert MagicAt(data, next);
      rest := ReadPacketsAreWritten(data, size, next);
    } else {
      assert data[next..size] == [];
    }
    rs := [r] + rest;
    OneMore(r, rest, at);
    assert data[at..size] == data[at..next] + data[next..size];
  }

  lemma OneMore(r: Raw, rest: seq<Raw>, at: nat)
    requires WellFormed(r) && AllWellFormed(rest)
    ensures AllWellFormed([r] + rest)
    ensures SerialiseAll([r] + rest, at) == Serialise(r, at) + SerialiseAll(rest, Next(r, at))
    ensures Entries([r] + rest, at) == [Entry(r, at)] + Entries(rest, Next(r, at))
  {
    assert ([r] + rest)[1..] == rest;
  }

  /** Every accepted file is a lead-in with no magic before the reported offset, then exactly the
      packets reported, each with its padding, up to the size claimed. */
  lemma AcceptedFileIsWritten(data: Bytes, size: nat) returns (rs: seq<Raw>)
    requires Inspect(data, size).Ok?
    ensures var report := Inspect(data, size).value;
            && AllWellFormed(rs) && rs != []
            && FirstMagic(data, report.leadingBytes)
            && report.packets == Entries(rs, report.leadingBytes)
            && report.leadingBytes <= size <= |data|
            && data[report.leadingBytes..size] == SerialiseAll(rs, report.leadingBytes)
  {
    var lead := Search(data, 0).value;
    rs := ReadPacketsAreWritten(data, size, lead);
  }

  /** The entries tile the file: each starts where the one before ends, and all but the first on a
      multiple of four. */
  lemma {:induction false} EntriesTile(rs: seq<Raw>, at: nat, i: nat)
    requires AllWellFormed(rs) && i < |rs|
    ensures var es := Entries(rs, at);
            && es[0].offset == at
            && (i > 0 ==> es[i].offset == End(es[i - 1]) && es[i].offset % 4 == 0)
            && es[i].paddingLength < 4 && End(es[i]) % 4 == 0
            && End(es[|es| - 1]) == at + |SerialiseAll(rs, at)|
    decreases |rs|
  {
    var next := Next(rs[0], at);
    var es := Entries(rs, at);
    assert es[0] == Entry(rs[0], at) && es[1..] == Entries(rs[1..], next);
    assert End(es[0]) == next && next % 4 == 0;
    if |rs| == 1 {
      assert SerialiseAll(rs[1..], next) == [];
    } else {
      EntriesTile(rs[1..], next, if i > 0 then i - 1 else 0);
      assert es[1] == es[1..][0];
      if i > 1 {
        assert es[i] == es[1..][i - 1] && es[i - 1] == es[1..][i - 2];
      }
    }
  }
}
