/**
 * The connectivity loader's answer to the kernel's patch searches: which files are announced, in which
 * order, and how the calls for one search relate to those for the next. Calls into the kernel are a
 * trace of what was issued and whether it succeeded.
 */
module WmtLoader {
  import opened Common

  const NAME_MAX := 255
  const MAX_PATCH_NUM := 10

  // ---------------------------------------------------------------- which files, in which order

  predicate Contains(s: string, infix: string)
    decreases |s|
  {
    infix <= s || (s != "" && Contains(s[1..], infix))
  }

  predicate Matches(name: string, infix: string) {
    && |name| <= NAME_MAX
    && "soc" <= name
    && Contains(name, infix)
    && |name| >= 8 && name[|name| - 8..] == "_hdr.bin"
  }

  /** The order of `strcmp`. */
  predicate Leq(a: string, b: string) {
    a == "" || (b != "" && (a[0] < b[0] || (a[0] == b[0] && Leq(a[1..], b[1..]))))
  }

  lemma {:induction false} LeqIsTotal(a: string, b: string)
    ensures Leq(a, b) || Leq(b, a)
    ensures Leq(a, a)
    decreases |a| + |b|, |a|
  {
    if a != "" {
      LeqIsTotal(a[1..], if b == "" then "" else b[1..]);
    }
  }

  lemma {:induction false} LeqIsAntisymmetric(a: string, b: string)
    requires Leq(a, b) && Leq(b, a)
    ensures a == b
  {
    if a != "" {
      LeqIsAntisymmetric(a[1..], b[1..]);
      assert a == [a[0]] + a[1..] && b == [b[0]] + b[1..];
    }
  }

  lemma {:induction false} LeqIsTransitive(a: string, b: string, c: string)
    requires Leq(a, b) && Leq(b, c)
    ensures Leq(a, c)
  {
    if a != "" && a[0] == b[0] && b[0] == c[0] {
      LeqIsTransitive(a[1..], b[1..], c[1..]);
    }
  }

  ghost predicate Ascending(xs: seq<string>) {
    forall i, j :: 0 <= i < j < |xs| ==> Leq(xs[i], xs[j])
  }

  function Filter(listing: seq<string>, infix: string): seq<string> {
    if listing == [] then []
    else
      var rest, name := Filter(listing[..|listing| - 1], infix), listing[|listing| - 1];
      if Matches(name, infix) then rest + [name] else rest
  }

  function Insert(x: string, xs: seq<string>): seq<string> {
    if xs == [] then [x]
    else if Leq(x, xs[0]) then [x] + xs
    else [xs[0]] + Insert(x, xs[1..])
  }

  function Sort(xs: seq<string>): seq<string> {
    if xs == [] then [] else Insert(xs[|xs| - 1], Sort(xs[..|xs| - 1]))
  }

  lemma {:induction false} InsertKeepsNames(x: string, xs: seq<string>)
    ensures multiset(Insert(x, xs)) == multiset(xs) + multiset{x}
  {
    if xs != [] {
      assert xs == [xs[0]] + xs[1..];
      InsertKeepsNames(x, xs[1..]);
    }
  }

  lemma {:induction false} InsertKeepsOrder(x: string, xs: seq<string>)
    requires Ascending(xs)
    ensures Ascending(Insert(x, xs))
  {
    if xs != [] {
      if Leq(x, xs[0]) {
        forall j | 0 <= j < |xs| ensures Leq(x, xs[j]) {
          LeqIsTotal(xs[0], xs[0]);
          LeqIsTransitive(x, xs[0], xs[j]);
        }
      } else {
        InsertKeepsOrder(x, xs[1..]);
        InsertKeepsNames(x, xs[1..]);
        AboveFirst(x, xs, Insert(x, xs[1..]));
      }
    }
  }

  lemma AboveFirst(x: string, xs: seq<string>, rest: seq<string>)
    requires Ascending(xs) && xs != [] && !Leq(x, xs[0])
    requires multiset(rest) == multiset(xs[1..]) + multiset{x}
    ensures forall j :: 0 <= j < |rest| ==> Leq(xs[0], rest[j])
  {
    LeqIsTotal(x, xs[0]);
    forall j | 0 <= j < |rest| ensures Leq(xs[0], rest[j]) {
      assert rest[j] in multiset(rest);
      assert rest[j] == x || rest[j] in xs[1..];
    }
  }

  lemma {:induction false} SortSorts(xs: seq<string>)
    ensures Ascending(Sort(xs)) && multiset(Sort(xs)) == multiset(xs) && |Sort(xs)| == |xs|
  {
    if xs != [] {
      var init := xs[..|xs| - 1];
      assert xs == init + [xs[|xs| - 1]];
      SortSorts(init);
      InsertKeepsOrder(xs[|xs| - 1], Sort(init));
      InsertKeepsNames(xs[|xs| - 1], Sort(init));
    }
    assert |multiset(Sort(xs))| == |Sort(xs)| && |multiset(xs)| == |xs|;
  }

  lemma LeastComesFirst(a: seq<string>, b: seq<string>)
    requires Ascending(a) && Ascending(b) && a != [] && b != []
    requires a[0] in b && b[0] in a
    ensures a[0] == b[0]
  {
    var i :| 0 <= i < |b| && b[i] == a[0];
    var j :| 0 <= j < |a| && a[j] == b[0];
    LeqIsTotal(a[0], a[0]);
    LeqIsTotal(b[0], b[0]);
    LeqIsAntisymmetric(a[0], b[0]);
  }

  /** There is only one ascending arrangement of the same names. */
  lemma {:induction false} AscendingIsUnique(a: seq<string>, b: seq<string>)
    requires Ascending(a) && Ascending(b) && multiset(a) == multiset(b)
    ensures a == b
  {
    assert |multiset(a)| == |a| && |multiset(b)| == |b|;
    if a != [] {
      assert a[0] in multiset(b) && b[0] in multiset(a);
      LeastComesFirst(a, b);
      RestMultiset(a);
      RestMultiset(b);
      AscendingIsUnique(a[1..], b[1..]);
      assert a == [a[0]] + a[1..] && b == [b[0]] + b[1..];
    }
  }

  lemma RestMultiset(a: seq<string>)
    requires a != []
    ensures multiset(a[1..]) == multiset(a) - multiset{a[0]}
  {
    assert a == [a[0]] + a[1..];
  }

  lemma {:induction false} FilterCounts(listing: seq<string>, infix: string, name: string)
    ensures multiset(Filter(listing, infix))[name] == if Matches(name, infix) then multiset(listing)[name] else 0
  {
    if listing != [] {
      var init := listing[..|listing| - 1];
      assert listing == init + [listing[|listing| - 1]];
      FilterCounts(init, infix, name);
    }
  }

  /** `collect`: the matching names in order, or an error if there is no directory or no room. */
  function Collected(listing: Option<seq<string>>, infix: string, max: nat): Option<seq<string>> {
    if listing.None? || |Filter(listing.value, infix)| > max then None
    else Some(Sort(Filter(listing.value, infix)))
  }

  /** The announced names do not depend on the order the directory is read in. */
  lemma OrderDoesNotMatter(listing: seq<string>, other: seq<string>, infix: string, max: nat)
    requires multiset(listing) == multiset(other)
    ensures Collected(Some(listing), infix, max) == Collected(Some(other), infix, max)
  {
    var a, b := Filter(listing, infix), Filter(other, infix);
    forall name ensures multiset(a)[name] == multiset(b)[name] {
      FilterCounts(listing, infix, name);
      FilterCounts(other, infix, name);
    }
    assert multiset(a) == multiset(b);
    assert |multiset(a)| == |a| && |multiset(b)| == |b|;
    SortSorts(a);
    SortSorts(b);
    AscendingIsUnique(Sort(a), Sort(b));
  }

  /** What is announced is exactly what matches, each name as often as it is listed, in ascending order;
      of names all different, in strictly ascending order. */
  lemma AnnouncedExactly(listing: seq<string>, infix: string, max: nat)
    requires Collected(Some(listing), infix, max).Some?
    ensures var names := Collected(Some(listing), infix, max).value;
            && |names| <= max && Ascending(names)
            && (forall name :: multiset(names)[name] == if Matches(name, infix) then multiset(listing)[name] else 0)
            && ((forall name :: multiset(listing)[name] <= 1) ==> forall i, j :: 0 <= i < j < |names| ==> names[i] != names[j])
  {
    var names := Collected(Some(listing), infix, max).value;
    SortSorts(Filter(listing, infix));
    forall name ensures multiset(names)[name] == if Matches(name, infix) then multiset(listing)[name] else 0 {
      FilterCounts(listing, infix, name);
    }
    if forall name :: multiset(listing)[name] <= 1 {
      forall i, j | 0 <= i < j < |names| ensures names[i] != names[j] {
        assert multiset(names)[names[i]] <= 1;
        if names[i] == names[j] {
          TwiceCounts(names, i, j);
        }
      }
    }
  }

  lemma TwiceCounts(xs: seq<string>, i: nat, j: nat)
    requires i < j < |xs| && xs[i] == xs[j]
    ensures multiset(xs)[xs[i]] >= 2
  {
    assert xs == xs[..j] + [xs[j]] + xs[j + 1..];
    assert xs[i] in xs[..j];
  }

  /** More matches than room is an error, whatever subset would have fitted. */
  method Collect(listing: Option<seq<string>>, infix: string, names: array<string>) returns (found: int)
    modifies names
    ensures match Collected(listing, infix, names.Length)
            case None => found == -1
            case Some(ns) => found == |ns| <= names.Length && names[..found] == ns
  {
    if listing.None? {
      return -1;
    }
    var entries := listing.value;
    var n, matched := 0, 0;
    for k := 0 to |entries|
      invariant matched == |Filter(entries[..k], infix)|
      invariant n == if matched <= names.Length then matched else names.Length
      invariant matched <= names.Length ==> names[..n] == Filter(entries[..k], infix)
    {
      assert entries[..k + 1][..k] == entries[..k];
      if !Matches(entries[k], infix) {
        continue;
      }
      matched := matched + 1;
      if n < names.Length {
        names[n] := entries[k];
        n := n + 1;
      }
    }
    assert entries[..|entries|] == entries;
    if matched > names.Length {
      return -1;
    }
    QSort(names, n);
    return n;
  }

  /** The library sort, on the first `n` names. */
  method QSort(names: array<string>, n: nat)
    requires n <= names.Length
    modifies names
    ensures names[..n] == Sort(old(names[..n]))
  {
    var sorted := Sort(names[..n]);
    SortSorts(names[..n]);
    for i := 0 to n
      invariant forall j :: 0 <= j < i ==> names[j] == sorted[j]
    {
      names[i] := sorted[i];
    }
  }

  // ---------------------------------------------------------------- the calls

  datatype Ioctl =
    | SetPatchNum(count: nat, ok: bool)
    | SetPatchInfo(downloadSeq: nat, name: string, ok: bool)
    | SetRomPatchInfo(name: string, ok: bool)

  /** What the directory and the kernel will say to a search. */
  datatype World = World(listing: Option<seq<string>>, numOk: bool, headerOk: nat -> bool, infoOk: nat -> bool)

  datatype Command = SearchRomPatch(w: World) | SearchPatch(w: World) | Acknowledge | Unknown

  datatype State = State(announced: bool, trace: seq<Ioctl>)

  datatype Reply = Reply(st: State, ok: bool)

  /** From the `i`th name on, until a header cannot be read or a call fails. */
  function Inform(st: State, names: seq<string>, i: nat, rom: bool, w: World): Reply
    requires i <= |names|
    decreases |names| - i
  {
    if i == |names| then Reply(st, true)
    else if !w.headerOk(i) then Reply(st, false)
    else
      var call := if rom then SetRomPatchInfo(names[i], w.infoOk(i)) else SetPatchInfo(i + 1, names[i], w.infoOk(i));
      var st' := st.(trace := st.trace + [call]);
      if !w.infoOk(i) then Reply(st', false) else Inform(st', names, i + 1, rom, w)
  }

  function Handle(st: State, c: Command): Reply {
    match c
    case Acknowledge => Reply(st, true)
    case Unknown => Reply(st, false)
    case SearchRomPatch(w) =>
      (match Collected(w.listing, "_ram_", MAX_PATCH_NUM)
       case None => Reply(st, false)
       case Some(names) => if names == [] then Reply(st, false) else Inform(st, names, 0, true, w))
    case SearchPatch(w) =>
      (match Collected(w.listing, "_patch_", MAX_PATCH_NUM)
       case None => Reply(st, false)
       case Some(names) =>
         if names == [] then Reply(st, false)
         else if st.announced then Inform(st, names, 0, false, w)
         else
           var st' := State(w.numOk, st.trace + [SetPatchNum(|names|, w.numOk)]);
           if !w.numOk then Reply(st', false) else Inform(st', names, 0, false, w))
  }

  function HandleAll(st: State, cs: seq<Command>): State {
    if cs == [] then st else Handle(HandleAll(st, cs[..|cs| - 1]), cs[|cs| - 1]).st
  }

  class Loader {
    var announced: bool
    ghost var trace: seq<Ioctl>

    ghost function Now(): State
      reads this
    {
      State(announced, trace)
    }

    constructor ()
      ensures Now() == State(false, [])
    {
      announced, trace := false, [];
    }

    method InformAll(names: seq<string>, rom: bool, w: World) returns (ok: bool)
      modifies this
      ensures Reply(Now(), ok) == Inform(old(Now()), names, 0, rom, w)
    {
      for i := 0 to |names|
        invariant Inform(Now(), names, i, rom, w) == Inform(old(Now()), names, 0, rom, w)
      {
        if !w.headerOk(i) {
          return false;
        }
        ghost var call := if rom then SetRomPatchInfo(names[i], w.infoOk(i)) else SetPatchInfo(i + 1, names[i], w.infoOk(i));
        trace := trace + [call];
        if !w.infoOk(i) {
          return false;
        }
      }
      return true;
    }

    method HandleCommand(c: Command) returns (ok: bool)
      modifies this
      ensures Reply(Now(), ok) == Handle(old(Now()), c)
    {
      if c.Acknowledge? || c.Unknown? {
        return c.Acknowledge?;
      }
      var names := new string[MAX_PATCH_NUM];
      var rom := c.SearchRomPatch?;
      var count := Collect(c.w.listing, if rom then "_ram_" else "_patch_", names);
      if count <= 0 {
        return false;
      }
      if !rom && !announced {
        trace := trace + [SetPatchNum(count, c.w.numOk)];
        if !c.w.numOk {
          return false;
        }
        announced := true;
      }
      ok := InformAll(names[..count], rom, c.w);
    }
  }

  // ---------------------------------------------------------------- any sequence of commands

  predicate Announces(call: Ioctl) {
    call.SetPatchNum? && call.ok
  }

  function Announcements(trace: seq<Ioctl>): nat {
    if trace == [] then 0 else Announcements(trace[..|trace| - 1]) + (if Announces(trace[|trace| - 1]) then 1 else 0)
  }

  /** Every patch is announced after the one successful count. */
  ghost predicate Inv(st: State) {
    && Announcements(st.trace) == (if st.announced then 1 else 0)
    && forall i :: 0 <= i < |st.trace| && st.trace[i].SetPatchInfo? ==> Announcements(st.trace[..i]) == 1
  }

  lemma OneMoreCall(st: State, call: Ioctl, announced: bool)
    requires Inv(st) && (call.SetPatchInfo? ==> st.announced)
    requires announced == (st.announced || Announces(call)) && !(st.announced && Announces(call))
    ensures Inv(State(announced, st.trace + [call]))
  {
    var trace := st.trace + [call];
    assert trace[..|trace| - 1] == st.trace;
    forall i | 0 <= i < |trace| && trace[i].SetPatchInfo? ensures Announcements(trace[..i]) == 1 {
      if i < |st.trace| {
        assert trace[..i] == st.trace[..i];
      }
    }
  }

  lemma {:induction false} InformKeepsInv(st: State, names: seq<string>, i: nat, rom: bool, w: World)
    requires i <= |names| && Inv(st) && (rom || st.announced)
    ensures Inv(Inform(st, names, i, rom, w).st)
    decreases |names| - i
  {
    hide Inv;
    if i < |names| && w.headerOk(i) {
      var call := if rom then SetRomPatchInfo(names[i], w.infoOk(i)) else SetPatchInfo(i + 1, names[i], w.infoOk(i));
      OneMoreCall(st, call, st.announced);
      if w.infoOk(i) {
        InformKeepsInv(st.(trace := st.trace + [call]), names, i + 1, rom, w);
      }
    }
  }

  /** Over any commands, whatever fails, the count is accepted at most once and before any patch. */
  lemma {:induction false} CountedOnceBeforeAnyPatch(cs: seq<Command>)
    ensures Inv(HandleAll(State(false, []), cs))
  {
    if cs != [] {
      CountedOnceBeforeAnyPatch(cs[..|cs| - 1]);
      var st := HandleAll(State(false, []), cs[..|cs| - 1]);
      var c := cs[|cs| - 1];
      if c.SearchRomPatch? {
        var names := Collected(c.w.listing, "_ram_", MAX_PATCH_NUM);
        if names.Some? {
          InformKeepsInv(st, names.value, 0, true, c.w);
        }
      } else if c.SearchPatch? {
        var names := Collected(c.w.listing, "_patch_", MAX_PATCH_NUM);
        if names.Some? && names.value != [] {
          if !st.announced {
            OneMoreCall(st, SetPatchNum(|names.value|, c.w.numOk), c.w.numOk);
          }
          var st' := if st.announced then st else State(c.w.numOk, st.trace + [SetPatchNum(|names.value|, c.w.numOk)]);
          if st'.announced {
            InformKeepsInv(st', names.value, 0, false, c.w);
          }
        }
      }
    }
  }

  /** The calls that tell the kernel of every name in turn. */
  function Sequence(names: seq<string>, i: nat): seq<Ioctl>
    requires i <= |names|
    decreases |names| - i
  {
    if i == |names| then [] else [SetPatchInfo(i + 1, names[i], true)] + Sequence(names, i + 1)
  }

  lemma {:induction false} InformedInSequence(st: State, names: seq<string>, i: nat, w: World)
    requires i <= |names| && Inform(st, names, i, false, w).ok
    ensures Inform(st, names, i, false, w).st.trace == st.trace + Sequence(names, i)
    decreases |names| - i
  {
    if i < |names| {
      var call := SetPatchInfo(i + 1, names[i], true);
      InformedInSequence(st.(trace := st.trace + [call]), names, i + 1, w);
      assert st.trace + [call] + Sequence(names, i + 1) == st.trace + ([call] + Sequence(names, i + 1));
    }
  }

  /** A search answered with success has told the kernel of every matching file, in ascending order,
      numbered from one, and the answer is the same for any order of the directory. */
  lemma SearchTellsAll(st: State, w: World, other: seq<string>)
    requires w.listing.Some? && multiset(w.listing.value) == multiset(other)
    requires Handle(st, SearchPatch(w)).ok
    ensures var names := Collected(w.listing, "_patch_", MAX_PATCH_NUM);
            && names.Some?
            && (var calls := if st.announced then [] else [SetPatchNum(|names.value|, true)];
                Handle(st, SearchPatch(w)).st.trace == st.trace + calls + Sequence(names.value, 0))
            && Handle(st, SearchPatch(w.(listing := Some(other)))) == Handle(st, SearchPatch(w))
  {
    var names := Collected(w.listing, "_patch_", MAX_PATCH_NUM).value;
    OrderDoesNotMatter(w.listing.value, other, "_patch_", MAX_PATCH_NUM);
    var st' := if st.announced then st else State(true, st.trace + [SetPatchNum(|names|, true)]);
    InformedInSequence(st', names, 0, w);
    InformIgnoresListing(st', names, 0, w, w.(listing := Some(other)));
  }

  lemma {:induction false} InformIgnoresListing(st: State, names: seq<string>, i: nat, w: World, w': World)
    requires i <= |names| && w' == w.(listing := w'.listing)
    ensures Inform(st, names, i, false, w') == Inform(st, names, i, false, w)
    decreases |names| - i
  {
    if i < |names| {
      InformIgnoresListing(st.(trace := st.trace + [SetPatchInfo(i + 1, names[i], w.infoOk(i))]), names, i + 1, w, w');
    }
  }

  // ---------------------------------------------------------------- exactly when a search succeeds

  /** Every header can be read and every call is accepted. */
  ghost predicate AllAccepted(n: nat, w: World) {
    forall i: nat :: i < n ==> w.headerOk(i) && w.infoOk(i)
  }

  lemma {:induction false} InformsExactlyWhen(st: State, names: seq<string>, i: nat, rom: bool, w: World)
    requires i <= |names|
    ensures Inform(st, names, i, rom, w).ok <==> forall k: nat :: i <= k < |names| ==> w.headerOk(k) && w.infoOk(k)
    ensures Inform(st, names, i, rom, w).st.announced == st.announced
    decreases |names| - i
  {
    if i < |names| {
      var call := if rom then SetRomPatchInfo(names[i], w.infoOk(i)) else SetPatchInfo(i + 1, names[i], w.infoOk(i));
      InformsExactlyWhen(st.(trace := st.trace + [call]), names, i + 1, rom, w);
    }
  }

  /** A patch search succeeds exactly when one to ten files match, the count has been or is accepted, and
      every header is read and every call accepted. */
  lemma SearchSucceedsExactlyWhen(st: State, w: World)
    ensures Handle(st, SearchPatch(w)).ok <==>
            && w.listing.Some? && 1 <= |Filter(w.listing.value, "_patch_")| <= 10
            && (st.announced || w.numOk) && AllAccepted(|Filter(w.listing.value, "_patch_")|, w)
  {
    hide Filter, Sort, Inform, RomSequence;
    var names := Collected(w.listing, "_patch_", 10);
    if names.Some? {
      SortSorts(Filter(w.listing.value, "_patch_"));
      InformsExactlyWhen(st, names.value, 0, false, w);
      InformsExactlyWhen(State(w.numOk, st.trace + [SetPatchNum(|names.value|, w.numOk)]), names.value, 0, false, w);
    }
  }

  /** The calls of a ROM search: one for each name in turn, none of them numbered. */
  function RomSequence(names: seq<string>, i: nat): seq<Ioctl>
    requires i <= |names|
    decreases |names| - i
  {
    if i == |names| then [] else [SetRomPatchInfo(names[i], true)] + RomSequence(names, i + 1)
  }

  lemma {:induction false} RomInformedInSequence(st: State, names: seq<string>, i: nat, w: World)
    requires i <= |names| && Inform(st, names, i, true, w).ok
    ensures Inform(st, names, i, true, w).st.trace == st.trace + RomSequence(names, i)
    decreases |names| - i
  {
    if i < |names| {
      var call := SetRomPatchInfo(names[i], true);
      RomInformedInSequence(st.(trace := st.trace + [call]), names, i + 1, w);
      assert st.trace + [call] + RomSequence(names, i + 1) == st.trace + ([call] + RomSequence(names, i + 1));
    }
  }

  lemma {:induction false} RomSequenceIs(names: seq<string>, i: nat)
    requires i <= |names|
    ensures |RomSequence(names, i)| == |names| - i
    ensures forall k :: i <= k < |names| ==> RomSequence(names, i)[k - i] == SetRomPatchInfo(names[k], true)
    decreases |names| - i
  {
    if i < |names| {
      var rest := RomSequence(names, i + 1);
      RomSequenceIs(names, i + 1);
      forall k | i <= k < |names| ensures ([SetRomPatchInfo(names[i], true)] + rest)[k - i] == SetRomPatchInfo(names[k], true) {
        if k > i {
          assert rest[k - (i + 1)] == SetRomPatchInfo(names[k], true);
        }
      }
    }
  }

  /** A ROM search succeeds exactly when one to ten files match and every header is read and every call
      accepted. It then has told the kernel of every matching file, once and in ascending order, and has
      neither needed nor made a count. */
  lemma RomSearchSucceedsExactlyWhen(st: State, w: World)
    ensures var r := Handle(st, SearchRomPatch(w));
            && (r.ok <==> && w.listing.Some? && 1 <= |Filter(w.listing.value, "_ram_")| <= 10
                          && AllAccepted(|Filter(w.listing.value, "_ram_")|, w))
            && (r.ok ==> r.st == State(st.announced, st.trace + RomSequence(Sort(Filter(w.listing.value, "_ram_")), 0)))
  {
    hide Filter, Sort, Inform, RomSequence;
    var names := Collected(w.listing, "_ram_", 10);
    if names.Some? {
      SortSorts(Filter(w.listing.value, "_ram_"));
      InformsExactlyWhen(st, names.value, 0, true, w);
      if Inform(st, names.value, 0, true, w).ok {
        RomInformedInSequence(st, names.value, 0, w);
      }
    }
  }

  // ---------------------------------------------------------------- names, spelt out

  ghost predicate OccursAt(s: string, infix: string, i: nat) {
    i + |infix| <= |s| && s[i..i + |infix|] == infix
  }

  lemma {:induction false} ContainsMeans(s: string, infix: string)
    ensures Contains(s, infix) <==> exists i: nat :: OccursAt(s, infix, i)
    decreases |s|
  {
    assert infix <= s <==> OccursAt(s, infix, 0);
    if s != "" {
      var rest := s[1..];
      ContainsMeans(rest, infix);
      forall i: nat ensures OccursAt(rest, infix, i) <==> OccursAt(s, infix, i + 1) {
        if i + 1 + |infix| <= |s| {
          assert rest[i..i + |infix|] == s[i + 1..i + 1 + |infix|];
        }
      }
      if i: nat :| OccursAt(s, infix, i) {
        assert i == 0 || OccursAt(rest, infix, i - 1);
      }
    }
  }

  /** Which names count: at most 255 characters, "soc" at the start, "_hdr.bin" at the end, and the infix
      somewhere. */
  lemma MatchesMeans(name: string, infix: string)
    ensures Matches(name, infix) <==>
            && 8 <= |name| <= 255 && name[..3] == "soc" && name[|name| - 8..] == "_hdr.bin"
            && exists i: nat :: OccursAt(name, infix, i)
  {
    ContainsMeans(name, infix);
    hide Contains, OccursAt;
    assert "soc" <= name <==> |name| >= 3 && name[..3] == "soc";
    if 8 <= |name| <= 255 && name[..3] == "soc" && name[|name| - 8..] == "_hdr.bin" {
      assert Matches(name, infix) <==> Contains(name, infix);
    } else {
      assert !Matches(name, infix);
    }
  }

  ghost predicate LessAt(a: string, b: string, i: nat) {
    i < |a| && i < |b| && a[..i] == b[..i] && a[i] < b[i]
  }

  lemma LessAtNext(a: string, b: string, i: nat)
    requires a != "" && b != "" && a[0] == b[0]
    ensures LessAt(a[1..], b[1..], i) <==> LessAt(a, b, i + 1)
  {
    if i + 1 <= |a| && i + 1 <= |b| {
      assert a[..i + 1] == [a[0]] + a[1..][..i] && b[..i + 1] == [b[0]] + b[1..][..i];
      assert a[1..][..i] == a[..i + 1][1..] && b[1..][..i] == b[..i + 1][1..];
    }
  }

  /** The order is that of the first character in which two names differ, or of their lengths. */
  lemma {:induction false} LeqMeans(a: string, b: string)
    ensures Leq(a, b) <==> a <= b || exists i: nat :: LessAt(a, b, i)
  {
    if a != "" && b != "" {
      assert LessAt(a, b, 0) <==> a[0] < b[0];
      if a[0] == b[0] {
        LeqMeans(a[1..], b[1..]);
        assert a == [a[0]] + a[1..] && b == [b[0]] + b[1..];
        assert a <= b <==> a[1..] <= b[1..];
        forall i: nat ensures LessAt(a[1..], b[1..], i) <==> LessAt(a, b, i + 1) {
          LessAtNext(a, b, i);
        }
        if i: nat :| LessAt(a, b, i) {
          assert i > 0 && LessAt(a[1..], b[1..], i - 1);
        }
      } else {
        forall i: nat | i > 0 ensures !LessAt(a, b, i) {
          if i < |a| && i < |b| {
            assert a[..i][0] == a[0] && b[..i][0] == b[0];
          }
        }
      }
    }
  }
}
