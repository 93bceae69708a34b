/**
 * The extractor's own walk over UPDATE.APP: a generator that re-seeks after every packet, and the
 * extraction that consumes it. On every file the inspector accepts the two agree.
 */
module Walk {
  import opened Common
  import opened UpdateApp
  import opened Container

  datatype Item = Item(name: Bytes, payloadOffset: nat, dataLength: nat)

  /** What a step of the generator comes to: a packet and where the next starts, the error it raises,
      or the end. */
  datatype Step = Yield(item: Item, next: nat) | Raise(error: Failure) | Stop(at: nat)

  // ---------------------------------------------------------------- the generator

  /** The walk at a packet that starts at `at`. It checks neither the payload, nor the padding, nor the size. */
  function HeaderAt(data: Bytes, at: nat): Step {
    var fixed := ReadAt(data, at, FIXED_HEADER_SIZE);
    if |fixed| != FIXED_HEADER_SIZE || fixed[..4] != MAGIC then Raise(BadMagic(at))
    else
      var headerLength, dataLength := Word(fixed[4..8]), Word(fixed[24..28]);
      if headerLength < FIXED_HEADER_SIZE + NAME_SIZE then Raise(BadHeaderLength(at))
      else if at + headerLength > |data| then Raise(TruncatedHeader(at))
      else
        var end := at + headerLength + dataLength;
        Yield(Item(Field(data[at + 60..at + 76]), at + headerLength, dataLength), end + Padding(end))
  }

  /** Everything the walk yields from `at` on, and how it ends. */
  datatype Listing = Listing(items: seq<Item>, ending: Step)

  function WalkFrom(data: Bytes, size: nat, at: nat): Listing
    decreases if at <= |data| then |data| - at else 0
  {
    match HeaderAt(data, at)
    case Yield(item, next) =>
      var later := if next >= size then Listing([], Stop(next)) else WalkFrom(data, size, next);
      Listing([item] + later.items, later.ending)
    case end => Listing([], end)
  }

  function WalkAll(data: Bytes, size: nat): Listing {
    match Search(data, 0)
    case None => Listing([], Raise(NoMagic))
    case Some(lead) => WalkFrom(data, size, lead)
  }

  /** The generator object: between two yields the consumer may leave the stream anywhere. */
  class Walker {
    const stream: Stream
    const size: nat
    var offset: nat
    var started: bool

    constructor (stream: Stream, size: nat)
      ensures this.stream == stream && this.size == size && !started
    {
      this.stream := stream;
      this.size := size;
      offset := 0;
      started := false;
    }

    /** The first `next()`, from the start of the stream. */
    method First() returns (s: Step)
      requires !started && stream.pos == 0
      modifies this, stream`pos
      ensures started
      ensures match Search(stream.data, 0)
              case None => s == Raise(NoMagic)
              case Some(lead) => s == HeaderAt(stream.data, lead) && (s.Yield? ==> offset == s.next)
    {
      started := true;
      var found := stream.FindMagic();
      if found.Err? {
        return Raise(found.error);
      }
      SearchFinds(stream.data, found.value);
      offset := found.value;
      s := Header();
    }

    /** A later `next()`, wherever the consumer has left the stream. */
    method Next() returns (s: Step)
      requires started
      modifies this, stream`pos
      ensures started
      ensures s == (if old(offset) >= size then Stop(old(offset)) else HeaderAt(stream.data, old(offset)))
      ensures s.Yield? ==> offset == s.next
    {
      if offset >= size {
        return Stop(offset);
      }
      s := Header();
    }

    method Header() returns (s: Step)
      modifies this`offset, stream`pos
      ensures s == HeaderAt(stream.data, old(offset))
      ensures s.Yield? ==> offset == s.next
    {
      stream.Seek(offset);
      var fixed := stream.Read(FIXED_HEADER_SIZE);
      if |fixed| != FIXED_HEADER_SIZE || fixed[..4] != MAGIC {
        return Raise(BadMagic(offset));
      }
      var headerLength, dataLength := Word(fixed[4..8]), Word(fixed[24..28]);
      if headerLength < FIXED_HEADER_SIZE + NAME_SIZE {
        return Raise(BadHeaderLength(offset));
      }
      var headerTail := stream.Read(headerLength - FIXED_HEADER_SIZE);
      if |headerTail| != headerLength - FIXED_HEADER_SIZE {
        return Raise(TruncatedHeader(offset));
      }
      assert headerTail[..NAME_SIZE] == stream.data[offset + 60..offset + 76];
      var item := Item(Field(headerTail[..NAME_SIZE]), offset + headerLength, dataLength);
      var packetEnd := offset + headerLength + dataLength;
      offset := packetEnd + Padding(packetEnd);
      return Yield(item, offset);
    }
  }

  // ---------------------------------------------------------------- extraction

  datatype Extracted = Extracted(name: Bytes, offset: nat, size: nat, payload: Bytes)

  datatype Trouble = Raised(error: Failure) | Missing(names: set<Bytes>)

  type Extraction = Result<seq<Extracted>, Trouble>

  function PayloadAt(data: Bytes, item: Item): Result<Bytes, Failure> {
    if item.dataLength > 0 && item.payloadOffset + item.dataLength > |data| then Err(TruncatedPayload(item.payloadOffset))
    else Ok(ReadAt(data, item.payloadOffset, item.dataLength))
  }

  /** What extraction makes of what is left of a listing. It stops as soon as everything wanted has been
      seen, so later trouble in the file does not reach it. An empty `wanted` means every packet. */
  function ExtractFrom(data: Bytes, l: Listing, wanted: set<Bytes>, seen: set<Bytes>): Extraction
    decreases |l.items|
  {
    if l.items == [] then
      if l.ending.Raise? then Err(Raised(l.ending.error))
      else if wanted <= seen then Ok([]) else Err(Missing(wanted - seen))
    else
      var item, rest := l.items[0], Listing(l.items[1..], l.ending);
      if wanted != {} && item.name !in wanted then ExtractFrom(data, rest, wanted, seen)
      else
        match PayloadAt(data, item)
        case Err(e) => Err(Raised(e))
        case Ok(payload) =>
          var e := Extracted(item.name, item.payloadOffset, item.dataLength, payload);
          if wanted != {} && wanted <= seen + {item.name} then Ok([e])
          else After([e], ExtractFrom(data, rest, wanted, seen + {item.name}))
  }

  function After(done: seq<Extracted>, rest: Extraction): Extraction {
    match rest
    case Err(t) => Err(t)
    case Ok(es) => Ok(done + es)
  }

  lemma AfterTwice(a: seq<Extracted>, b: seq<Extracted>, rest: Extraction)
    ensures After(a, After(b, rest)) == After(a + b, rest)
    ensures After([], rest) == rest
  {
    if rest.Ok? {
      assert a + (b + rest.value) == (a + b) + rest.value;
      assert [] + rest.value == rest.value;
    }
  }

  function Extract(data: Bytes, size: nat, wanted: set<Bytes>): Extraction {
    ExtractFrom(data, WalkAll(data, size), wanted, {})
  }

  /** `copy_payload`: count down what is still to come. */
  method CopyPayload(stream: Stream, item: Item) returns (r: Result<Bytes, Failure>)
    requires stream.pos == item.payloadOffset
    modifies stream`pos
    ensures r == PayloadAt(stream.data, item)
  {
    var copied: Bytes, remaining: nat := [], item.dataLength;
    while remaining != 0
      invariant |copied| + remaining == item.dataLength && stream.pos == item.payloadOffset + |copied|
      invariant copied != [] ==> stream.pos <= |stream.data| && copied == stream.data[item.payloadOffset..stream.pos]
    {
      var block := stream.ReadSome(if BUFFER_SIZE <= remaining then BUFFER_SIZE else remaining);
      if block == [] {
        return Err(TruncatedPayload(item.payloadOffset));
      }
      copied := copied + block;
      remaining := remaining - |block|;
    }
    assert copied == ReadAt(stream.data, item.payloadOffset, item.dataLength);
    return Ok(copied);
  }

  method ExtractPackets(stream: Stream, size: nat, wanted: set<Bytes>) returns (r: Extraction)
    requires stream.pos == 0
    modifies stream`pos
    ensures r == Extract(stream.data, size, wanted)
  {
    var results: seq<Extracted>, seen := [], {};
    var walker := new Walker(stream, size);
    var step := walker.First();
    ghost var data := stream.data;
    ghost var left := WalkAll(data, size);
    AfterTwice([], [], ExtractFrom(data, left, wanted, {}));
    while step.Yield?
      invariant walker.stream == stream && walker.size == size && walker.started && fresh(walker)
      invariant left == Upcoming(data, size, step)
      invariant step.Yield? ==> walker.offset == step.next
      invariant After(results, ExtractFrom(data, left, wanted, seen)) == Extract(data, size, wanted)
      decreases |left.items|
    {
      var item := step.item;
      ghost var later := if step.next >= size then Listing([], Stop(step.next)) else WalkFrom(data, size, step.next);
      UpcomingSteps(data, size, step);
      if wanted == {} || item.name in wanted {
        seen := seen + {item.name};
        stream.Seek(item.payloadOffset);
        var payload := CopyPayload(stream, item);
        if payload.Err? {
          return Err(Raised(payload.error));
        }
        var e := Extracted(item.name, item.payloadOffset, item.dataLength, payload.value);
        AfterTwice(results, [e], ExtractFrom(data, later, wanted, seen));
        results := results + [e];
        if wanted != {} && wanted <= seen {
          return Ok(results);
        }
      }
      step := walker.Next();
      left := later;
    }
    if step.Raise? {
      return Err(Raised(step.error));
    }
    if !(wanted <= seen) {
      return Err(Missing(wanted - seen));
    }
    assert results + [] == results;
    return Ok(results);
  }

  /** What is still to come, the step already taken included. */
  function Upcoming(data: Bytes, size: nat, s: Step): Listing {
    match s
    case Yield(item, next) =>
      var later := if next >= size then Listing([], Stop(next)) else WalkFrom(data, size, next);
      Listing([item] + later.items, later.ending)
    case end => Listing([], end)
  }

  lemma UpcomingSteps(data: Bytes, size: nat, s: Step)
    requires s.Yield?
    ensures var later := if s.next >= size then Listing([], Stop(s.next)) else WalkFrom(data, size, s.next);
            && Upcoming(data, size, s).items[0] == s.item
            && Listing(Upcoming(data, size, s).items[1..], Upcoming(data, size, s).ending) == later
            && later == Upcoming(data, size, if s.next >= size then Stop(s.next) else HeaderAt(data, s.next))
  {
  }

  // ---------------------------------------------------------------- agreement with the inspector

  function ItemOf(p: Packet): Item {
    Item(p.name, p.offset + p.headerLength, p.dataLength)
  }

  function ItemsOf(ps: seq<Packet>): seq<Item> {
    if ps == [] then [] else [ItemOf(ps[0])] + ItemsOf(ps[1..])
  }

  lemma HeaderAgrees(data: Bytes, size: nat, at: nat)
    requires MagicAt(data, at) && PacketAt(data, size, at).Ok?
    ensures var p := PacketAt(data, size, at).value; HeaderAt(data, at) == Yield(ItemOf(p), End(p))
  {
    assert data[at..at + 60][..4] == data[at..at + 4];
    assert ReadAt(data, at, 60) == data[at..at + 60];
  }

  /** One round of the inspection, as far as the walk can tell. */
  lemma InspectionSteps(data: Bytes, size: nat, at: nat) returns (p: Packet, rest: seq<Packet>)
    requires at <= |data| && MagicAt(data, at) && PacketsFrom(data, size, at).Ok?
    ensures PacketsFrom(data, size, at).value == [p] + rest
    ensures HeaderAt(data, at) == Yield(ItemOf(p), End(p)) && at < End(p)
    ensures if rest == [] then End(p) == size
            else && End(p) < size && End(p) <= |data| && MagicAt(data, End(p))
                 && PacketsFrom(data, size, End(p)) == Ok(rest)
  {
    HeaderAgrees(data, size, at);
    p := PacketAt(data, size, at).value;
    rest := [];
    if End(p) != size {
      assert ReadAt(data, End(p), 4) == MAGIC;
      assert PacketAt(data, size, End(p)).Ok?;
      rest := PacketsFrom(data, size, End(p)).value;
    }
  }

  lemma {:induction false} WalkAgreesFrom(data: Bytes, size: nat, at: nat)
    requires at <= |data| && MagicAt(data, at) && PacketsFrom(data, size, at).Ok?
    ensures WalkFrom(data, size, at) == Listing(ItemsOf(PacketsFrom(data, size, at).value), Stop(size))
    decreases |data| - at
  {
    var p, rest := InspectionSteps(data, size, at);
    assert ([p] + rest)[1..] == rest;
    if rest != [] {
      WalkAgreesFrom(data, size, End(p));
    }
  }

  /** On every file the inspector accepts, the walk yields the same names, payload offsets and lengths
      in the same order, and stops where the file does. */
  lemma WalkAgrees(data: Bytes, size: nat)
    requires Inspect(data, size).Ok?
    ensures WalkAll(data, size) == Listing(ItemsOf(Inspect(data, size).value.packets), Stop(size))
  {
    WalkAgreesFrom(data, size, Search(data, 0).value);
  }

  lemma PayloadAgrees(data: Bytes, size: nat, at: nat)
    requires PacketAt(data, size, at).Ok?
    ensures var p := PacketAt(data, size, at).value; PayloadAt(data, ItemOf(p)) == Ok(p.payload)
  {
    var p := PacketAt(data, size, at).value;
    var from, to := at + p.headerLength, at + p.headerLength + p.dataLength;
    assert ReadAt(data, from, p.dataLength) == data[from..to];
  }

  /** Of an accepted file each packet's payload is where the walk says it is. */
  lemma {:induction false} PayloadsAgree(data: Bytes, size: nat, at: nat)
    requires at <= |data| && PacketsFrom(data, size, at).Ok?
    ensures forall p :: p in PacketsFrom(data, size, at).value ==> PayloadAt(data, ItemOf(p)) == Ok(p.payload)
    decreases |data| - at
  {
    PayloadAgrees(data, size, at);
    var p := PacketAt(data, size, at).value;
    if End(p) != size {
      PayloadsAgree(data, size, End(p));
    }
  }

  function Names(ps: seq<Packet>): set<Bytes> {
    if ps == [] then {} else {ps[0].name} + Names(ps[1..])
  }

  function ExtractedOf(p: Packet): Extracted {
    Extracted(p.name, p.offset + p.headerLength, p.dataLength, p.payload)
  }

  /** The packets extraction keeps: those wanted, up to the one that completes the set. */
  function Keep(ps: seq<Packet>, wanted: set<Bytes>, seen: set<Bytes>): seq<Packet> {
    if ps == [] then []
    else if wanted != {} && ps[0].name !in wanted then Keep(ps[1..], wanted, seen)
    else if wanted != {} && wanted <= seen + {ps[0].name} then [ps[0]]
    else [ps[0]] + Keep(ps[1..], wanted, seen + {ps[0].name})
  }

  function AllExtracted(ps: seq<Packet>): seq<Extracted> {
    if ps == [] then [] else [ExtractedOf(ps[0])] + AllExtracted(ps[1..])
  }

  function Kept(ps: seq<Packet>, wanted: set<Bytes>, seen: set<Bytes>): Extraction {
    if wanted <= seen + Names(ps) then Ok(AllExtracted(Keep(ps, wanted, seen))) else Err(Missing(wanted - seen - Names(ps)))
  }

  lemma KeptAfterUnwanted(ps: seq<Packet>, wanted: set<Bytes>, seen: set<Bytes>)
    requires ps != [] && wanted != {} && ps[0].name !in wanted
    ensures Kept(ps, wanted, seen) == Kept(ps[1..], wanted, seen)
  {
    assert wanted - seen - Names(ps) == wanted - seen - Names(ps[1..]);
  }

  lemma KeptEndsWithLastWanted(ps: seq<Packet>, wanted: set<Bytes>, seen: set<Bytes>)
    requires ps != [] && ps[0].name in wanted && wanted <= seen + {ps[0].name}
    ensures Kept(ps, wanted, seen) == Ok([ExtractedOf(ps[0])])
  {
    assert [ps[0]][1..] == [] && AllExtracted([]) == [];
    assert AllExtracted([ps[0]]) == [ExtractedOf(ps[0])];
    assert wanted <= seen + Names(ps);
  }

  lemma KeptAfterWanted(ps: seq<Packet>, wanted: set<Bytes>, seen: set<Bytes>)
    requires ps != [] && (wanted == {} || (ps[0].name in wanted && !(wanted <= seen + {ps[0].name})))
    ensures Kept(ps, wanted, seen) == After([ExtractedOf(ps[0])], Kept(ps[1..], wanted, seen + {ps[0].name}))
  {
    var p, rest := ps[0], ps[1..];
    assert wanted - seen - Names(ps) == wanted - (seen + {p.name}) - Names(rest);
    assert seen + Names(ps) == (seen + {p.name}) + Names(rest);
    var kept := Keep(rest, wanted, seen + {p.name});
    assert ([p] + kept)[1..] == kept;
  }

  lemma {:induction false} ExtractionKeeps(data: Bytes, size: nat, ps: seq<Packet>, wanted: set<Bytes>, seen: set<Bytes>)
    requires forall p :: p in ps ==> PayloadAt(data, ItemOf(p)) == Ok(p.payload)
    requires wanted == {} || !(wanted <= seen)
    ensures ExtractFrom(data, Listing(ItemsOf(ps), Stop(size)), wanted, seen) == Kept(ps, wanted, seen)
    decreases |ps|
  {
    if ps == [] {
      assert wanted - seen - {} == wanted - seen;
    } else {
      hide PayloadAt, Kept, After;
      var p, rest := ps[0], ps[1..];
      assert p in ps && forall q :: q in rest ==> q in ps;
      assert ItemsOf(ps)[1..] == ItemsOf(rest);
      if wanted != {} && p.name !in wanted {
        ExtractionKeeps(data, size, rest, wanted, seen);
        KeptAfterUnwanted(ps, wanted, seen);
      } else if wanted != {} && wanted <= seen + {p.name} {
        KeptEndsWithLastWanted(ps, wanted, seen);
      } else {
        ExtractionKeeps(data, size, rest, wanted, seen + {p.name});
        KeptAfterWanted(ps, wanted, seen);
      }
    }
  }

  /** From an accepted file extraction succeeds exactly when every wanted name is in it, names precisely
      the absent ones otherwise, and copies the very bytes the inspection reported. */
  lemma ExtractionMatchesInspection(data: Bytes, size: nat, wanted: set<Bytes>)
    requires Inspect(data, size).Ok?
    ensures var ps := Inspect(data, size).value.packets;
            Extract(data, size, wanted) ==
            if wanted <= Names(ps) then Ok(AllExtracted(Keep(ps, wanted, {}))) else Err(Missing(wanted - Names(ps)))
  {
    var ps := Inspect(data, size).value.packets;
    var lead := Search(data, 0).value;
    WalkAgrees(data, size);
    PayloadsAgree(data, size, lead);
    ExtractionKeeps(data, size, ps, wanted, {});
    assert {} + Names(ps) == Names(ps) && wanted - {} == wanted;
  }

  /** What is kept: everything if nothing in particular is wanted, and otherwise only wanted packets,
      with every wanted name among them if the file has them all. */
  lemma {:induction false} KeptPackets(ps: seq<Packet>, wanted: set<Bytes>, seen: set<Bytes>)
    ensures wanted == {} ==> Keep(ps, wanted, seen) == ps
    ensures wanted != {} ==> Names(Keep(ps, wanted, seen)) <= wanted
    ensures forall p :: p in Keep(ps, wanted, seen) ==> p in ps
    ensures wanted <= seen + Names(ps) ==> wanted <= seen + Names(Keep(ps, wanted, seen))
    decreases |ps|
  {
    if ps != [] {
      var p, rest := ps[0], ps[1..];
      if wanted != {} && p.name !in wanted {
        KeptPackets(rest, wanted, seen);
      } else if wanted != {} && wanted <= seen + {p.name} {
        assert [p][1..] == [];
      } else {
        KeptPackets(rest, wanted, seen + {p.name});
        var kept := Keep(rest, wanted, seen + {p.name});
        assert ([p] + kept)[1..] == kept;
      }
    }
  }

  lemma {:induction false} FirstOfItsName(ps: seq<Packet>, name: Bytes, k: nat)
    requires k < |ps| && ps[k].name == name && forall j :: 0 <= j < k ==> ps[j].name != name
    ensures Keep(ps, {name}, {}) == [ps[k]] && name in Names(ps)
    decreases k
  {
    if k == 0 {
      assert {name} <= {} + {ps[0].name};
    } else {
      assert ps[0].name !in {name};
      FirstOfItsName(ps[1..], name, k - 1);
    }
  }

  /** From an accepted file, asking for a name finds the first packet whose name field holds it padded
      with zeros, and copies the bytes the file has as its payload. */
  lemma ExtractsByName(data: Bytes, size: nat, k: nat, name: Bytes)
    requires Inspect(data, size).Ok? && k < |Inspect(data, size).value.packets|
    requires 0 !in name && |name| <= 16
    requires var ps := Inspect(data, size).value.packets;
             && ps[k].offset + 76 <= |data|
             && data[ps[k].offset + 60..ps[k].offset + 76] == name + seq(16 - |name|, _ => 0)
             && forall j :: 0 <= j < k ==> ps[j].name != name
    ensures var p := Inspect(data, size).value.packets[k];
            && p.offset + p.headerLength + p.dataLength <= |data|
            && Extract(data, size, {name}) == Ok([Extracted(name, p.offset + p.headerLength, p.dataLength,
                                                            data[p.offset + p.headerLength..p.offset + p.headerLength + p.dataLength])])
  {
    hide Inspect, Extract, Keep, Names, UpToNul, LittleEndianAt;
    var ps := Inspect(data, size).value.packets;
    ReportIsSaid(data, size);
    assert SaidBy(data, ps[k]);
    var field := data[ps[k].offset + 60..ps[k].offset + 76];
    SameUpToNul(ps[k].name, name, field);
    FirstOfItsName(ps, name, k);
    ExtractionMatchesInspection(data, size, {name});
    assert [ps[k]][1..] == [] && AllExtracted([ps[k]]) == [ExtractedOf(ps[k])];
  }

  lemma SameUpToNul(a: Bytes, b: Bytes, field: Bytes)
    requires UpToNul(a, field) && 0 !in b && |b| <= |field| && field == b + seq(|field| - |b|, _ => 0)
    ensures a == b
  {
    OneTextUpToNul(a, b, field);
  }
}
