/**
 * The Huawei UPDATE.APP container: the inspector that checks it, read against what the container is,
 * and the writer that is its inverse. SHA-256 stands for the bytes it is taken of.
 */
module UpdateApp {
  import opened Common

  type Bytes = seq<Byte>

  const MAGIC: Bytes := [0x55, 0xAA, 0x5A, 0xA5]
  const FIXED_HEADER_SIZE := 60
  const NAME_SIZE := 16
  const BUFFER_SIZE := 1048576

  datatype Failure =
    | NoMagic
    | TruncatedHeader(at: nat)
    | BadHeaderLength(at: nat)
    | ExceedsSize(at: nat)
    | TruncatedPayload(at: nat)
    | TruncatedPadding(at: nat)
    | NonZeroPadding(at: nat)
    | BadMagic(at: nat)

  /** What the inspection reports of a packet. */
  datatype Packet = Packet(
    offset: nat, headerLength: nat, unknown: nat, hardwareId: Bytes, sequence: Bytes, dataLength: nat,
    date: Bytes, time: Bytes, name: Bytes, payload: Bytes, paddingLength: nat)

  datatype Report = Report(leadingBytes: nat, packets: seq<Packet>)

  // ---------------------------------------------------------------- bytes

  /** `struct.unpack_from("<I", ...)` */
  function Word(b: Bytes): nat
    requires |b| == 4
  {
    b[0] as int + 0x100 * (b[1] as int) + 0x10000 * (b[2] as int) + 0x1000000 * (b[3] as int)
  }

  /** A text field ends at its first NUL. Its bytes are kept; decoding them as ASCII is not modelled. */
  function Field(b: Bytes): Bytes {
    if b == [] || b[0] == 0 then [] else [b[0]] + Field(b[1..])
  }

  function Padding(end: nat): nat {
    if end % 4 == 0 then 0 else 4 - end % 4
  }

  predicate AllZero(b: Bytes) {
    forall i :: 0 <= i < |b| ==> b[i] == 0
  }

  // ---------------------------------------------------------------- finding the first packet

  ghost predicate MagicAt(data: Bytes, i: nat) {
    i + 4 <= |data| && data[i..i + 4] == MAGIC
  }

  /** The least offset at which the magic occurs. */
  ghost predicate FirstMagic(data: Bytes, i: nat) {
    MagicAt(data, i) && forall j :: 0 <= j < i ==> !MagicAt(data, j)
  }

  ghost predicate MagicFree(data: Bytes) {
    forall i :: 0 <= i < |data| ==> !MagicAt(data, i)
  }

  function Search(data: Bytes, i: nat): (r: Option<nat>)
    requires i <= |data|
    ensures r.Some? ==> i <= r.value && MagicAt(data, r.value) && forall j :: i <= j < r.value ==> !MagicAt(data, j)
    ensures r.None? ==> forall j :: i <= j < |data| ==> !MagicAt(data, j)
    decreases |data| - i
  {
    if i == |data| then None
    else if i + 4 <= |data| && data[i..i + 4] == MAGIC then Some(i)
    else Search(data, i + 1)
  }

  // ---------------------------------------------------------------- the inspector

  /** The report entry of a packet whose fixed header, name field and payload are these. */
  function Described(at: nat, fixed: Bytes, name: Bytes, payload: Bytes): Packet
    requires |fixed| == FIXED_HEADER_SIZE
  {
    var headerLength, dataLength := Word(fixed[4..8]), Word(fixed[24..28]);
    Packet(
      at, headerLength, Word(fixed[8..12]), fixed[12..20], fixed[20..24], dataLength, Field(fixed[28..44]),
      Field(fixed[44..60]), Field(name), payload, Padding(at + headerLength + dataLength))
  }

  /** One round of the inspector's loop, the magic at `at` already read. */
  function PacketAt(data: Bytes, size: nat, at: nat): Result<Packet, Failure> {
    if at + FIXED_HEADER_SIZE > |data| then Err(TruncatedHeader(at))
    else
      var fixed := data[at..at + FIXED_HEADER_SIZE];
      var headerLength, dataLength := Word(fixed[4..8]), Word(fixed[24..28]);
      var end := at + headerLength + dataLength;
      if headerLength < FIXED_HEADER_SIZE + NAME_SIZE then Err(BadHeaderLength(at))
      else if end > size then Err(ExceedsSize(at))
      else if at + headerLength > |data| then Err(TruncatedHeader(at))
      else if end > |data| then Err(TruncatedPayload(at))
      else if end + Padding(end) > |data| then Err(TruncatedPadding(end))
      else if !AllZero(data[end..end + Padding(end)]) then Err(NonZeroPadding(end))
      else Ok(Described(at, fixed, data[at + 60..at + 76], data[at + headerLength..end]))
  }

  function End(p: Packet): nat {
    p.offset + p.headerLength + p.dataLength + p.paddingLength
  }

  function PacketsFrom(data: Bytes, size: nat, at: nat): Result<seq<Packet>, Failure>
    requires at <= |data|
    decreases |data| - at
  {
    match PacketAt(data, size, at)
    case Err(e) => Err(e)
    case Ok(p) =>
      if End(p) == size then Ok([p])
      else if ReadAt(data, End(p), 4) != MAGIC then Err(BadMagic(End(p)))
      else
        match PacketsFrom(data, size, End(p))
        case Err(e) => Err(e)
        case Ok(rest) => Ok([p] + rest)
  }

  function Inspect(data: Bytes, size: nat): Result<Report, Failure> {
    match Search(data, 0)
    case None => Err(NoMagic)
    case Some(lead) =>
      match PacketsFrom(data, size, lead)
      case Err(e) => Err(e)
      case Ok(packets) => Ok(Report(lead, packets))
  }

  /** `window.find(MAGIC)`, or -1. */
  method Find(window: Bytes) returns (index: int)
    ensures index >= 0 ==> FirstMagic(window, index)
    ensures index < 0 ==> MagicFree(window)
  {
    for i := 0 to |window|
      invariant forall j :: 0 <= j < i ==> !MagicAt(window, j)
    {
      if i + 4 <= |window| && window[i..i + 4] == MAGIC {
        return i;
      }
    }
    return -1;
  }

  /** A readable, seekable stream. A short read is allowed anywhere before the end; `Read` is the
      buffered read, which is short only at the end. */
  class Stream {
    const data: Bytes
    var pos: nat

    constructor (data: Bytes)
      ensures this.data == data && pos == 0
    {
      this.data := data;
      pos := 0;
    }

    method Read(n: nat) returns (block: Bytes)
      modifies this`pos
      ensures block == ReadAt(data, old(pos), n)
      ensures pos == old(pos) + |block|
    {
      block := ReadAt(data, pos, n);
      pos := pos + |block|;
    }

    /** Some nonempty block of at most `n` bytes, as long as any are left. */
    method ReadSome(n: nat) returns (block: Bytes)
      requires n >= 1
      modifies this`pos
      ensures pos == old(pos) + |block|
      ensures |block| <= n && (block == [] <==> old(pos) >= |data|)
      ensures block != [] ==> pos <= |data| && block == data[old(pos)..pos]
    {
      if pos >= |data| {
        return [];
      }
      var k: nat :| 1 <= k <= n && pos + k <= |data|;
      block := data[pos..pos + k];
      pos := pos + k;
    }

    method Seek(at: nat)
      modifies this`pos
      ensures pos == at
    {
      pos := at;
    }

    /** The windowed search: a block at a time, however the blocks fall, with the last three bytes of
        each window carried into the next. */
    method FindMagic() returns (r: Result<nat, Failure>)
      requires pos == 0
      modifies this`pos
      ensures r.Ok? ==> FirstMagic(data, r.value)
      ensures r.Err? ==> MagicFree(data) && r.error == NoMagic
    {
      var offset: nat, overlap: Bytes := 0, [];
      while true
        invariant pos == offset <= |data| && |overlap| <= 3 && |overlap| <= offset
        invariant |overlap| == offset || |overlap| == 3
        invariant overlap == data[offset - |overlap|..offset]
        invariant forall j :: 0 <= j && j + 4 <= offset ==> !MagicAt(data, j)
        decreases |data| - offset
      {
        var block := ReadSome(BUFFER_SIZE);
        if block == [] {
          return Err(NoMagic);
        }
        var window := overlap + block;
        ghost var start := offset - |overlap|;
        SlicesJoin(data, start, offset, pos);
        assert window == data[start..pos];
        var index := Find(window);
        WindowSeesMagic(data, start, pos);
        if index >= 0 {
          return Ok(offset - |overlap| + index);
        }
        overlap := if |window| <= 3 then window else window[|window| - 3..];
        offset := offset + |block|;
      }
    }

    /** The first `limit` bytes, gathered a block at a time. */
    method DigestStream(limit: nat, at: nat) returns (r: Result<Bytes, Failure>)
      modifies this`pos
      ensures r == if old(pos) + limit <= |data| || limit == 0 then Ok(ReadAt(data, old(pos), limit)) else Err(TruncatedPayload(at))
      ensures r.Ok? ==> pos == old(pos) + limit
    {
      var digest: Bytes, size: nat := [], 0;
      while size < limit
        invariant size == |digest| <= limit && pos == old(pos) + size
        invariant size > 0 ==> pos <= |data| && digest == data[old(pos)..pos]
      {
        var block := ReadSome(if BUFFER_SIZE <= limit - size then BUFFER_SIZE else limit - size);
        if block == [] {
          return Err(TruncatedPayload(at));
        }
        digest := digest + block;
        size := size + |block|;
      }
      assert digest == ReadAt(data, old(pos), limit);
      return Ok(digest);
    }

    method InspectPacket(size: nat, offset: nat) returns (r: Result<Packet, Failure>)
      requires pos == offset + 4 && MagicAt(data, offset)
      modifies this`pos
      ensures r == PacketAt(data, size, offset)
      ensures r.Ok? ==> pos == End(r.value) && offset < pos <= |data|
    {
      var fixedTail := Read(FIXED_HEADER_SIZE - 4);
      if |fixedTail| != FIXED_HEADER_SIZE - 4 {
        return Err(TruncatedHeader(offset));
      }
      var fixed := MAGIC + fixedTail;
      assert fixed == data[offset..offset + FIXED_HEADER_SIZE];
      var headerLength, dataLength := Word(fixed[4..8]), Word(fixed[24..28]);
      if headerLength < FIXED_HEADER_SIZE + NAME_SIZE {
        return Err(BadHeaderLength(offset));
      }
      if offset + headerLength + dataLength > size {
        return Err(ExceedsSize(offset));
      }
      var headerTail := Read(headerLength - FIXED_HEADER_SIZE);
      if |headerTail| != headerLength - FIXED_HEADER_SIZE {
        return Err(TruncatedHeader(offset));
      }
      var name := headerTail[..NAME_SIZE];
      assert name == data[offset + 60..offset + 76];
      var body := InspectBody(offset, headerLength, dataLength);
      if body.Err? {
        return Err(body.error);
      }
      return Ok(Described(offset, fixed, name, body.value));
    }

    /** The payload and the padding after it. */
    method InspectBody(offset: nat, headerLength: nat, dataLength: nat) returns (r: Result<Bytes, Failure>)
      requires pos == offset + headerLength <= |data|
      modifies this`pos
      ensures var end := offset + headerLength + dataLength;
              && r == (if end > |data| then Err(TruncatedPayload(offset))
                       else if end + Padding(end) > |data| then Err(TruncatedPadding(end))
                       else if !AllZero(data[end..end + Padding(end)]) then Err(NonZeroPadding(end))
                       else Ok(data[offset + headerLength..end]))
              && (r.Ok? ==> pos == end + Padding(end))
    {
      hide AllZero, Padding;
      var payload := DigestStream(dataLength, offset);
      if payload.Err? {
        return Err(payload.error);
      }
      var packetEnd := offset + headerLength + dataLength;
      assert payload.value == data[offset + headerLength..packetEnd];
      var paddingLength := Padding(packetEnd);
      var padding := Read(paddingLength);
      if |padding| != paddingLength {
        return Err(TruncatedPadding(packetEnd));
      }
      assert padding == data[packetEnd..packetEnd + paddingLength];
      if !AllZero(padding) {
        return Err(NonZeroPadding(packetEnd));
      }
      return Ok(payload.value);
    }

    method InspectUpdateApp(size: nat) returns (r: Result<Report, Failure>)
      requires pos == 0
      modifies this`pos
      ensures r == Inspect(data, size)
      ensures r.Ok? ==> forall p :: p in r.value.packets ==> SaidBy(data, p)
    {
      hide PacketAt, SaidBy;
      if Inspect(data, size).Ok? {
        ReportIsSaid(data, size);
      }
      var found := FindMagic();
      if found.Err? {
        return Err(found.error);
      }
      var lead := found.value;
      Seek(lead);
      var magic := Read(4);
      var packets: seq<Packet>, offset := [], lead;
      PrependNothing(PacketsFrom(data, size, lead));
      while true
        invariant pos == offset + 4 && MagicAt(data, offset)
        invariant PacketsFrom(data, size, lead) == Prepend(packets, PacketsFrom(data, size, offset))
        decreases |data| - offset
      {
        var p := InspectPacket(size, offset);
        if p.Err? {
          return Err(p.error);
        }
        ghost var before := packets;
        packets := packets + [p.value];
        offset := End(p.value);
        if offset == size {
          break;
        }
        magic := Read(4);
        if magic != MAGIC {
          return Err(BadMagic(offset));
        }
        PrependStep(before, p.value, PacketsFrom(data, size, offset));
      }
      return Ok(Report(lead, packets));
    }
  }

  function Prepend(done: seq<Packet>, rest: Result<seq<Packet>, Failure>): Result<seq<Packet>, Failure> {
    match rest
    case Err(e) => Err(e)
    case Ok(ps) => Ok(done + ps)
  }

  lemma PrependNothing(rest: Result<seq<Packet>, Failure>)
    ensures Prepend([], rest) == rest
  {
    if rest.Ok? {
      assert [] + rest.value == rest.value;
    }
  }

  lemma PrependStep(done: seq<Packet>, p: Packet, rest: Result<seq<Packet>, Failure>)
    ensures Prepend(done, Prepend([p], rest)) == Prepend(done + [p], rest)
  {
    if rest.Ok? {
      assert done + ([p] + rest.value) == (done + [p]) + rest.value;
    }
  }

  lemma SlicesJoin(data: Bytes, i: nat, j: nat, k: nat)
    requires i <= j <= k <= |data|
    ensures data[i..j] + data[j..k] == data[i..k]
  {
  }

  /** An occurrence in a window is one in the data, at the same place. */
  lemma WindowSeesMagic(data: Bytes, start: nat, end: nat)
    requires start <= end <= |data|
    ensures forall j: nat {:trigger MagicAt(data[start..end], j)} :: MagicAt(data[start..end], j) <==> j + 4 <= end - start && MagicAt(data, start + j)
    ensures forall i: nat :: start <= i && i + 4 <= end && MagicAt(data, i) ==> MagicAt(data[start..end], i - start)
  {
    forall j: nat ensures MagicAt(data[start..end], j) <==> j + 4 <= end - start && MagicAt(data, start + j) {
      if j + 4 <= end - start {
        var w := data[start..end];
        assert w[j..j + 4] == [w[j], w[j + 1], w[j + 2], w[j + 3]];
        assert data[start + j..start + j + 4] == [data[start + j], data[start + j + 1], data[start + j + 2], data[start + j + 3]];
      }
    }
    forall i: nat | start <= i && i + 4 <= end && MagicAt(data, i) ensures MagicAt(data[start..end], i - start) {
      assert MagicAt(data[start..end], i - start) <==> MagicAt(data, start + (i - start));
    }
  }

  // ---------------------------------------------------------------- the report against the bytes

  /** What precedes the first NUL, or all of it. */
  ghost predicate UpToNul(t: Bytes, b: Bytes) {
    t <= b && 0 !in t && (|t| == |b| || b[|t|] == 0)
  }

  lemma {:induction false} FieldIsUpToNul(b: Bytes)
    ensures UpToNul(Field(b), b)
  {
    if b != [] && b[0] != 0 {
      FieldIsUpToNul(b[1..]);
      assert b == [b[0]] + b[1..];
    }
  }

  lemma OneTextUpToNul(a: Bytes, t: Bytes, b: Bytes)
    requires UpToNul(a, b) && UpToNul(t, b)
    ensures a == t
  {
    forall i | 0 <= i < |a| ensures a[i] != 0 && a[i] == b[i] {
    }
    forall i | 0 <= i < |t| ensures t[i] != 0 && t[i] == b[i] {
    }
  }

  /** A text without NULs is its own field, alone or before a NUL and anything. */
  lemma FieldStopsAtNul(t: Bytes, rest: Bytes)
    requires 0 !in t
    ensures Field(t + [0] + rest) == t && Field(t) == t
  {
    FieldIsUpToNul(t + [0] + rest);
    FieldIsUpToNul(t);
    OneTextUpToNul(Field(t + [0] + rest), t, t + [0] + rest);
    OneTextUpToNul(Field(t), t, t);
  }

  function LittleEndianAt(data: Bytes, i: nat): nat
    requires i + 4 <= |data|
  {
    data[i] as int + 256 * (data[i + 1] as int) + 65536 * (data[i + 2] as int) + 16777216 * (data[i + 3] as int)
  }

  /** The report entry says what the file does at the packet's own offset. */
  ghost predicate SaidBy(data: Bytes, p: Packet) {
    var o := p.offset;
    && o + 76 <= o + p.headerLength && o + p.headerLength + p.dataLength <= |data|
    && data[o..o + 4] == [0x55, 0xAA, 0x5A, 0xA5]
    && p.headerLength == LittleEndianAt(data, o + 4)
    && p.unknown == LittleEndianAt(data, o + 8)
    && p.hardwareId == data[o + 12..o + 20]
    && p.sequence == data[o + 20..o + 24]
    && p.dataLength == LittleEndianAt(data, o + 24)
    && UpToNul(p.date, data[o + 28..o + 44])
    && UpToNul(p.time, data[o + 44..o + 60])
    && UpToNul(p.name, data[o + 60..o + 76])
    && p.payload == data[o + p.headerLength..o + p.headerLength + p.dataLength]
  }

  lemma WordInPlace(data: Bytes, at: nat, i: nat)
    requires at + 60 <= |data| && i + 4 <= 60
    ensures Word(data[at..at + 60][i..i + 4]) == LittleEndianAt(data, at + i)
  {
    var fixed := data[at..at + 60];
    assert fixed[i..i + 4][0] == fixed[i] && fixed[i..i + 4][1] == fixed[i + 1];
    assert fixed[i..i + 4][2] == fixed[i + 2] && fixed[i..i + 4][3] == fixed[i + 3];
  }

  lemma PacketIsSaid(data: Bytes, size: nat, at: nat)
    requires MagicAt(data, at) && PacketAt(data, size, at).Ok?
    ensures SaidBy(data, PacketAt(data, size, at).value)
  {
    WordInPlace(data, at, 4);
    WordInPlace(data, at, 8);
    WordInPlace(data, at, 24);
    FieldIsUpToNul(data[at + 28..at + 44]);
    FieldIsUpToNul(data[at + 44..at + 60]);
    FieldIsUpToNul(data[at + 60..at + 76]);
    hide Word, Field, UpToNul, LittleEndianAt;
    SliceInPlace(data, at, 12, 20);
    SliceInPlace(data, at, 20, 24);
    SliceInPlace(data, at, 28, 44);
    SliceInPlace(data, at, 44, 60);
  }

  lemma SliceInPlace(data: Bytes, at: nat, i: nat, j: nat)
    requires at + 60 <= |data| && i <= j <= 60
    ensures data[at..at + 60][i..j] == data[at + i..at + j]
  {
    var a, b := data[at..at + 60][i..j], data[at + i..at + j];
    forall k | 0 <= k < j - i ensures a[k] == b[k] {
      assert a[k] == data[at..at + 60][i + k] == data[at + i + k];
    }
  }

  lemma {:induction false} PacketsAreSaid(data: Bytes, size: nat, at: nat)
    requires at <= |data| && MagicAt(data, at) && PacketsFrom(data, size, at).Ok?
    ensures forall p :: p in PacketsFrom(data, size, at).value ==> SaidBy(data, p)
    decreases |data| - at
  {
    hide PacketAt, SaidBy;
    PacketIsSaid(data, size, at);
    EndIsPast(data, size, at);
    var p := PacketAt(data, size, at).value;
    if End(p) != size {
      PacketsAreSaid(data, size, End(p));
    }
  }

  lemma EndIsPast(data: Bytes, size: nat, at: nat)
    requires PacketAt(data, size, at).Ok?
    ensures var end := End(PacketAt(data, size, at).value);
            at < end <= |data| && (ReadAt(data, end, 4) == MAGIC ==> MagicAt(data, end))
  {
  }

  /** Why a packet is refused, in the order the reasons are looked for. */
  lemma RefusedExactlyWhen(data: Bytes, size: nat, at: nat)
    ensures at + 60 > |data| <==> PacketAt(data, size, at) == Err(TruncatedHeader(at)) && at + 60 > |data|
    ensures at + 60 <= |data| ==>
              var header, length := LittleEndianAt(data, at + 4), LittleEndianAt(data, at + 24);
              var end := at + header + length;
              var padded := if end % 4 == 0 then end else end + 4 - end % 4;
              && (header < 76 <==> PacketAt(data, size, at) == Err(BadHeaderLength(at)))
              && (header >= 76 && end > size <==> PacketAt(data, size, at) == Err(ExceedsSize(at)))
              && (header >= 76 && end <= size && at + header > |data| <==> PacketAt(data, size, at) == Err(TruncatedHeader(at)))
              && (header >= 76 && end <= size && at + header <= |data| < end <==> PacketAt(data, size, at) == Err(TruncatedPayload(at)))
              && (header >= 76 && end <= size && end <= |data| < padded <==> PacketAt(data, size, at) == Err(TruncatedPadding(end)))
              && (header >= 76 && end <= size && padded <= |data| && (exists i :: end <= i < padded && data[i] != 0)
                  <==> PacketAt(data, size, at) == Err(NonZeroPadding(end)))
  {
    if at + 60 <= |data| {
      WordInPlace(data, at, 4);
      WordInPlace(data, at, 24);
      hide Word;
      var end := at + LittleEndianAt(data, at + 4) + LittleEndianAt(data, at + 24);
      if end + Padding(end) <= |data| {
        NotAllZero(data, end, end + Padding(end));
      }
    }
  }

  lemma NotAllZero(data: Bytes, from: nat, to: nat)
    requires from <= to <= |data|
    ensures !AllZero(data[from..to]) <==> exists i :: from <= i < to && data[i] != 0
  {
    if i :| from <= i < to && data[i] != 0 {
      assert data[from..to][i - from] != 0;
    }
    if i :| 0 <= i < to - from && data[from..to][i] != 0 {
      assert data[from + i] != 0;
    }
  }

  /** Of an accepted file every entry of the report says what the file does, field by field. */
  lemma ReportIsSaid(data: Bytes, size: nat)
    requires Inspect(data, size).Ok?
    ensures forall p :: p in Inspect(data, size).value.packets ==> SaidBy(data, p)
  {
    PacketsAreSaid(data, size, Search(data, 0).value);
  }
}
