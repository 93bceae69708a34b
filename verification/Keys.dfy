/**
 * The hardware keys: presses, releases and timeouts in, clicks, holds and volume steps out. A hold is
 * announced when its threshold passes, and the volume keys repeat. The backlight is lit or dark.
 */
module Keys {
  import opened Common

  datatype Key = Power | VolUp | VolDown | OtherKey

  /** `linked` says whether a write to the client, if there is one, would succeed. */
  datatype Event =
    | KeyEvent(key: Key, value: int, now: int, linked: bool)
    | Timeout(now: int, linked: bool)
    | Attach
    | Detach

  /** What the decoder makes of the keys, before the wake guard. */
  datatype Decoded = Decoded(key: Key, isHold: bool)

  datatype Timing = Timing(holdMs: int, repeatMs: int)

  datatype State = State(
    held: Option<Key>, heldRepeats: bool, announced: bool, pending: bool, dueMs: int,
    lit: bool, client: bool, decoded: seq<Decoded>, sent: string)

  predicate Repeats(key: Key) {
    key.VolUp? || key.VolDown?
  }

  function Token(key: Key, isHold: bool): char {
    match key
    case Power => if isHold then 'm' else '.'
    case VolUp => '+'
    case VolDown => '-'
    case OtherKey => '\0'
  }

  /** A dark panel spends a click on waking up; a hold goes through. Without a client the power key is
      the on/off switch. */
  function Deliver(s: State, key: Key, isHold: bool, linked: bool): State {
    var s1 := s.(decoded := s.decoded + [Decoded(key, isHold)], lit := true);
    if !s.lit && !isHold then s1
    else if s.client && linked then s1.(sent := s.sent + [Token(key, isHold)])
    else s1.(client := false, lit := if key.Power? && !isHold then false else true)
  }

  function OnTimeout(s: State, now: int, linked: bool, t: Timing): State {
    if s.held.None? || !s.pending then s
    else if s.heldRepeats then Deliver(s.(dueMs := now + t.repeatMs), s.held.value, false, linked)
    else Deliver(s.(announced := true, pending := false), s.held.value, true, linked)
  }

  function OnKey(s: State, key: Key, value: int, now: int, linked: bool, t: Timing): State {
    if key.OtherKey? then s
    else if value == 1 then
      var s1 := s.(held := Some(key), heldRepeats := Repeats(key), announced := false, pending := true, dueMs := now + t.holdMs);
      if Repeats(key) then Deliver(s1, key, false, linked) else s1
    else if value == 0 && s.held == Some(key) then
      var s1 := if !s.heldRepeats && !s.announced then Deliver(s, key, false, linked) else s;
      s1.(held := None, pending := false)
    else s
  }

  function Step(s: State, e: Event, t: Timing): State {
    match e
    case KeyEvent(key, value, now, linked) => OnKey(s, key, value, now, linked, t)
    case Timeout(now, linked) => OnTimeout(s, now, linked, t)
    case Attach => s.(client := true)
    case Detach => s.(client := false)
  }

  function Run(s: State, es: seq<Event>, t: Timing): State {
    if es == [] then s else Step(Run(s, es[..|es| - 1], t), es[|es| - 1], t)
  }

  function Start(lit: bool): State {
    State(None, false, false, false, 0, lit, false, [], "")
  }

  // ---------------------------------------------------------------- the daemon's own variables

  class Daemon {
    const timing: Timing
    var held: Option<Key>
    var heldRepeats: bool
    var announced: bool
    var pending: bool
    var dueMs: int
    var lit: bool
    var client: bool
    var sent: string
    ghost var decoded: seq<Decoded>

    ghost function Now(): State
      reads this
    {
      State(held, heldRepeats, announced, pending, dueMs, lit, client, decoded, sent)
    }

    constructor (timing: Timing, lit: bool)
      ensures Now() == Start(lit) && this.timing == timing
    {
      this.timing := timing;
      held, heldRepeats, announced, pending, dueMs := None, false, false, false, 0;
      this.lit, client, sent, decoded := lit, false, "", [];
    }

    method ClientAttached()
      modifies this`client
      ensures Now() == old(Now()).(client := true)
    {
      client := true;
    }

    method ClientGone()
      modifies this`client
      ensures Now() == old(Now()).(client := false)
    {
      client := false;
    }

    method WakeGuard(isHold: bool) returns (through: bool)
      modifies this`lit
      ensures lit && through == (old(lit) || isHold)
    {
      if lit {
        return true;
      }
      lit := true;
      return isHold;
    }

    method KeysDeliver(key: Key, isHold: bool, linked: bool)
      requires !key.OtherKey?
      modifies this
      ensures Now() == Deliver(old(Now()), key, isHold, linked)
    {
      decoded := decoded + [Decoded(key, isHold)];
      var through := WakeGuard(isHold);
      if !through {
        return;
      }
      var token := Token(key, isHold);
      if client && linked {
        sent := sent + [token];
      } else {
        client := false;
        if token == '.' {
          lit := !lit;
        }
      }
    }

    method KeysTimeout(now: int, linked: bool)
      requires held != Some(OtherKey)
      modifies this
      ensures Now() == OnTimeout(old(Now()), now, linked, timing)
    {
      if held.None? || !pending {
        return;
      }
      if heldRepeats {
        dueMs := now + timing.repeatMs;
        KeysDeliver(held.value, false, linked);
      } else {
        announced := true;
        pending := false;
        KeysDeliver(held.value, true, linked);
      }
    }

    method KeysReadable(key: Key, value: int, now: int, linked: bool)
      modifies this
      ensures Now() == OnKey(old(Now()), key, value, now, linked, timing)
    {
      var repeats := key.VolUp? || key.VolDown?;
      if !key.Power? && !repeats {
        return;
      }
      if value == 1 {
        held := Some(key);
        heldRepeats := repeats;
        announced := false;
        pending := true;
        dueMs := now + timing.holdMs;
        if repeats {
          KeysDeliver(key, false, linked);
        }
      } else if value == 0 && held == Some(key) {
        if !heldRepeats && !announced {
          KeysDeliver(key, false, linked);
        }
        held := None;
        pending := false;
      }
    }
  }

  // ---------------------------------------------------------------- any interleaving

  /** `pending` is armed exactly while a key is held that is repeating or not announced yet. */
  ghost predicate Inv(s: State) {
    && (s.pending <==> s.held.Some? && (s.heldRepeats || !s.announced))
    && (s.held.Some? ==> !s.held.value.OtherKey? && s.heldRepeats == Repeats(s.held.value))
    && (s.held.Some? && s.heldRepeats ==> !s.announced)
  }

  lemma StepKeepsInv(s: State, e: Event, t: Timing)
    requires Inv(s)
    ensures Inv(Step(s, e, t))
  {
  }

  lemma {:induction false} InvHolds(lit: bool, es: seq<Event>, t: Timing)
    ensures Inv(Run(Start(lit), es, t))
  {
    if es != [] {
      InvHolds(lit, es[..|es| - 1], t);
      StepKeepsInv(Run(Start(lit), es[..|es| - 1], t), es[|es| - 1], t);
    }
  }

  // ---------------------------------------------------------------- one press

  predicate IsPress(e: Event) {
    e.KeyEvent? && !e.key.OtherKey? && e.value == 1
  }

  predicate IsReleaseOf(e: Event, key: Key) {
    e.KeyEvent? && e.key == key && e.value == 0
  }

  /** While the key stays down: no other press takes its place. */
  ghost predicate Undisturbed(es: seq<Event>, key: Key) {
    forall i :: 0 <= i < |es| ==> !IsPress(es[i]) && !IsReleaseOf(es[i], key)
  }

  function Timeouts(es: seq<Event>): nat {
    if es == [] then 0 else Timeouts(es[..|es| - 1]) + (if es[|es| - 1].Timeout? then 1 else 0)
  }

  /** A power key held undisturbed has delivered its hold once a timeout has passed, and nothing before. */
  lemma {:induction false} PowerHeld(s: State, now: int, linked: bool, es: seq<Event>, t: Timing)
    requires Undisturbed(es, Power)
    ensures var s' := Run(Step(s, KeyEvent(Power, 1, now, linked), t), es, t);
            && s'.held == Some(Power) && !s'.heldRepeats
            && s'.announced == (Timeouts(es) > 0) && s'.pending == (Timeouts(es) == 0)
            && s'.decoded == if Timeouts(es) > 0 then s.decoded + [Decoded(Power, true)] else s.decoded
  {
    if es != [] {
      var init := es[..|es| - 1];
      assert forall i :: 0 <= i < |init| ==> init[i] == es[i];
      PowerHeld(s, now, linked, init, t);
      var e := es[|es| - 1];
      assert !IsPress(e) && !IsReleaseOf(e, Power);
    }
  }

  /** An undisturbed power press comes to exactly one outcome by its release: a hold if the threshold
      passed in between, else a click. */
  lemma PowerPressDecodesOnce(s: State, now: int, linked: bool, es: seq<Event>, release: Event, t: Timing)
    requires Undisturbed(es, Power) && IsReleaseOf(release, Power)
    ensures var s' := Step(Run(Step(s, KeyEvent(Power, 1, now, linked), t), es, t), release, t);
            s'.decoded == s.decoded + [Decoded(Power, Timeouts(es) > 0)] && s'.held == None
  {
    PowerHeld(s, now, linked, es, t);
  }

  /** How many outcomes of a key have been decoded. */
  function Count(ds: seq<Decoded>, key: Key): nat {
    if ds == [] then 0 else Count(ds[..|ds| - 1], key) + (if ds[|ds| - 1].key == key then 1 else 0)
  }

  function Presses(es: seq<Event>, key: Key): nat {
    if es == [] then 0
    else Presses(es[..|es| - 1], key) + (if IsPress(es[|es| - 1]) && es[|es| - 1].key == key then 1 else 0)
  }

  lemma CountOneMore(ds: seq<Decoded>, d: Decoded, key: Key)
    ensures Count(ds + [d], key) == Count(ds, key) + if d.key == key then 1 else 0
  {
    assert (ds + [d])[..|ds|] == ds;
  }

  /** What the power key has decoded, and what it still may. */
  function Credit(s: State): nat {
    Count(s.decoded, Power) + (if s.held == Some(Power) && s.pending then 1 else 0)
  }

  lemma DeliverDecodes(s: State, key: Key, isHold: bool, linked: bool)
    ensures var s' := Deliver(s, key, isHold, linked);
            && s'.decoded == s.decoded + [Decoded(key, isHold)] && s'.held == s.held && s'.pending == s.pending
            && Count(s'.decoded, Power) == Count(s.decoded, Power) + if key.Power? then 1 else 0
  {
    CountOneMore(s.decoded, Decoded(key, isHold), Power);
  }

  lemma StepCredit(s: State, e: Event, t: Timing)
    requires Inv(s)
    ensures Credit(Step(s, e, t)) <= Credit(s) + if IsPress(e) && e.key.Power? then 1 else 0
  {
    hide Count;
    match e
    case Attach =>
    case Detach =>
    case Timeout(now, linked) =>
      if s.held.Some? && s.pending {
        if s.heldRepeats {
          DeliverDecodes(s.(dueMs := now + t.repeatMs), s.held.value, false, linked);
        } else {
          DeliverDecodes(s.(announced := true, pending := false), s.held.value, true, linked);
        }
      }
    case KeyEvent(key, value, now, linked) =>
      if !key.OtherKey? && value == 1 && Repeats(key) {
        var s1 := s.(held := Some(key), heldRepeats := true, announced := false, pending := true, dueMs := now + t.holdMs);
        DeliverDecodes(s1, key, false, linked);
      } else if value == 0 && s.held == Some(key) && !s.heldRepeats && !s.announced {
        DeliverDecodes(s, key, false, linked);
      }
  }

  lemma {:induction false} CreditUntilNextPress(s: State, es: seq<Event>, t: Timing)
    requires Inv(s) && Presses(es, Power) == 0
    ensures Inv(Run(s, es, t)) && Credit(Run(s, es, t)) <= Credit(s)
  {
    hide Step, Inv, Credit;
    if es != [] {
      var init, e := es[..|es| - 1], es[|es| - 1];
      CreditUntilNextPress(s, init, t);
      StepKeepsInv(Run(s, init, t), e, t);
      StepCredit(Run(s, init, t), e, t);
    }
  }

  /** From one press of the power key up to the next, whatever comes in between, it decodes at most once.
      That holds of a press that interrupts another one too. */
  lemma PowerNeverDecodesTwice(s: State, now: int, linked: bool, es: seq<Event>, t: Timing)
    requires Inv(s) && Presses(es, Power) == 0
    ensures Count(Run(Step(s, KeyEvent(Power, 1, now, linked), t), es, t).decoded, Power) <= Count(s.decoded, Power) + 1
  {
    CreditUntilNextPress(Step(s, KeyEvent(Power, 1, now, linked), t), es, t);
  }

  /** Under any interleaving at all, presses lost and holds cut short included, the power key decodes no
      more often than it was pressed. */
  lemma {:induction false} PowerDecodesNoMoreThanPresses(lit: bool, es: seq<Event>, t: Timing)
    ensures Count(Run(Start(lit), es, t).decoded, Power) <= Credit(Run(Start(lit), es, t)) <= Presses(es, Power)
  {
    if es != [] {
      var init, e := es[..|es| - 1], es[|es| - 1];
      PowerDecodesNoMoreThanPresses(lit, init, t);
      InvHolds(lit, init, t);
      StepCredit(Run(Start(lit), init, t), e, t);
    }
  }

  // ---------------------------------------------------------------- holding a volume key

  /** Events in order of time, none after `end`, and no timeout before it is due. */
  ghost predicate OnTime(s: State, es: seq<Event>, end: int, t: Timing) {
    forall i :: 0 <= i < |es| && es[i].Timeout? ==> Run(s, es[..i], t).dueMs <= es[i].now <= end
  }

  lemma {:induction false} VolumeHeld(s: State, key: Key, now: int, linked: bool, es: seq<Event>, end: int, t: Timing)
    requires Repeats(key) && Undisturbed(es, key) && t.repeatMs > 0
    requires OnTime(Step(s, KeyEvent(key, 1, now, linked), t), es, end, t)
    ensures var s' := Run(Step(s, KeyEvent(key, 1, now, linked), t), es, t);
            && s'.held == Some(key) && s'.heldRepeats && s'.pending
            && |s'.decoded| == |s.decoded| + 1 + Timeouts(es)
            && s'.dueMs >= now + t.holdMs + Timeouts(es) * t.repeatMs
            && (Timeouts(es) > 0 ==> now + t.holdMs + (Timeouts(es) - 1) * t.repeatMs <= end)
  {
    if es != [] {
      var s0 := Step(s, KeyEvent(key, 1, now, linked), t);
      var init, e := es[..|es| - 1], es[|es| - 1];
      assert forall i :: 0 <= i < |init| ==> init[i] == es[i] && init[..i] == es[..i];
      VolumeHeld(s, key, now, linked, init, end, t);
      assert !IsPress(e) && !IsReleaseOf(e, key);
      if e.Timeout? {
        assert Run(s0, es[..|es| - 1], t).dueMs <= e.now <= end;
        assert (Timeouts(init) + 1) * t.repeatMs == Timeouts(init) * t.repeatMs + t.repeatMs;
      }
    }
  }

  /** A volume key held undisturbed for `length` decodes one step if released before the threshold, and
      otherwise at most two and one more for each full repeat interval past it. */
  lemma VolumeHoldIsBounded(s: State, key: Key, now: int, linked: bool, es: seq<Event>, length: nat, release: Event, t: Timing)
    requires (key == VolUp || key == VolDown) && Undisturbed(es, key) && IsReleaseOf(release, key) && t.repeatMs > 0
    requires OnTime(Step(s, KeyEvent(key, 1, now, linked), t), es, now + length, t)
    ensures var s' := Step(Run(Step(s, KeyEvent(key, 1, now, linked), t), es, t), release, t);
            && s'.held == None
            && 1 <= |s'.decoded| - |s.decoded|
            && |s'.decoded| - |s.decoded| <= if length < t.holdMs then 1 else 2 + (length - t.holdMs) / t.repeatMs
  {
    VolumeHeld(s, key, now, linked, es, now + length, t);
    RepeatingKeyReleased(Run(Step(s, KeyEvent(key, 1, now, linked), t), es, t), key, release, t);
    hide Step, Run;
    if Timeouts(es) > 0 {
      QuotientBound(Timeouts(es) - 1, t.repeatMs, length - t.holdMs);
    }
  }

  /** The first `m` timeouts of a hold, each at the moment it is due. */
  function OnDue(first: int, m: nat, linked: bool, t: Timing): seq<Event> {
    if m == 0 then [] else OnDue(first, m - 1, linked, t) + [Timeout(NextDue(first, m - 1, t), linked)]
  }

  /** When the next of them is due after `m` of them. */
  function NextDue(first: int, m: nat, t: Timing): int {
    if m == 0 then first else NextDue(first, m - 1, t) + t.repeatMs
  }

  lemma {:induction false} NextDueIs(first: int, m: nat, t: Timing)
    ensures NextDue(first, m, t) == first + m * t.repeatMs
  {
    if m > 0 {
      NextDueIs(first, m - 1, t);
      assert m * t.repeatMs == (m - 1) * t.repeatMs + t.repeatMs;
    }
  }

  lemma OnTimeGrows(s: State, es: seq<Event>, e: Event, end: int, t: Timing)
    requires OnTime(s, es, end, t) && (e.Timeout? ==> Run(s, es, t).dueMs <= e.now <= end)
    ensures OnTime(s, es + [e], end, t)
  {
    var all := es + [e];
    forall i | 0 <= i < |all| && all[i].Timeout? ensures Run(s, all[..i], t).dueMs <= all[i].now <= end {
      assert all[..i] == if i < |es| then es[..i] else es;
    }
  }

  /** Pressed and repeating, the next repeat due at `due`. */
  ghost predicate Repeating(s: State, key: Key, due: int) {
    s.held == Some(key) && s.heldRepeats && s.pending && s.dueMs == due
  }

  lemma RepeatTakesItsTime(s: State, key: Key, now: int, linked: bool, t: Timing)
    requires Repeating(s, key, now)
    ensures Repeating(Step(s, Timeout(now, linked), t), key, now + t.repeatMs)
  {
  }

  lemma OneMoreEvent(s: State, es: seq<Event>, e: Event, t: Timing)
    ensures Run(s, es + [e], t) == Step(Run(s, es, t), e, t)
    ensures Timeouts(es + [e]) == Timeouts(es) + if e.Timeout? then 1 else 0
  {
    assert (es + [e])[..|es|] == es;
  }

  lemma {:induction false} DueTimeouts(key: Key, first: int, linked: bool, m: nat, t: Timing)
    ensures var es := OnDue(first, m, linked, t);
            |es| == m && Undisturbed(es, key) && forall i :: 0 <= i < m ==> es[i].Timeout?
  {
    if m > 0 {
      DueTimeouts(key, first, linked, m - 1, t);
    }
  }

  lemma {:induction false} DueRepeats(s: State, key: Key, first: int, linked: bool, m: nat, t: Timing)
    requires Repeating(s, key, first)
    ensures Repeating(Run(s, OnDue(first, m, linked, t), t), key, NextDue(first, m, t))
    ensures Timeouts(OnDue(first, m, linked, t)) == m
  {
    if m > 0 {
      var init, now := OnDue(first, m - 1, linked, t), NextDue(first, m - 1, t);
      DueRepeats(s, key, first, linked, m - 1, t);
      hide Step, Repeating;
      RepeatTakesItsTime(Run(s, init, t), key, now, linked, t);
      OneMoreEvent(s, init, Timeout(now, linked), t);
    }
  }

  lemma {:induction false} DueInTurn(s: State, key: Key, first: int, linked: bool, m: nat, end: int, t: Timing)
    requires Repeating(s, key, first) && t.repeatMs > 0 && (m > 0 ==> NextDue(first, m - 1, t) <= end)
    ensures OnTime(s, OnDue(first, m, linked, t), end, t)
  {
    if m > 0 {
      DueInTurn(s, key, first, linked, m - 1, end, t);
      DueRepeats(s, key, first, linked, m - 1, t);
      hide Step, OnTime, Run;
      OnTimeGrows(s, OnDue(first, m - 1, linked, t), Timeout(NextDue(first, m - 1, t), linked), end, t);
    }
  }

  /** The timeouts that fall due while a key is held for `length`. */
  function DueWithin(length: nat, t: Timing): nat
    requires t.repeatMs > 0
  {
    if length < t.holdMs then 0 else 1 + (length - t.holdMs) / t.repeatMs
  }

  /** The last timeout that falls due in time does so. */
  lemma LastIsInTime(first: int, length: nat, t: Timing)
    requires t.repeatMs > 0 && DueWithin(length, t) > 0
    ensures NextDue(first, DueWithin(length, t) - 1, t) <= first - t.holdMs + length
  {
    NextDueIs(first, DueWithin(length, t) - 1, t);
    assert (length - t.holdMs) / t.repeatMs * t.repeatMs <= length - t.holdMs;
  }

  lemma HeldOnDue(s: State, key: Key, now: int, linked: bool, m: nat, end: int, t: Timing)
    requires Repeats(key) && t.repeatMs > 0 && (m > 0 ==> NextDue(now + t.holdMs, m - 1, t) <= end)
    ensures var s0, es := Step(s, KeyEvent(key, 1, now, linked), t), OnDue(now + t.holdMs, m, linked, t);
            && Undisturbed(es, key) && OnTime(s0, es, end, t)
            && Run(s0, es, t).held == Some(key) && Run(s0, es, t).heldRepeats
            && |Run(s0, es, t).decoded| == |s.decoded| + 1 + m
  {
    var first := now + t.holdMs;
    var s0 := Step(s, KeyEvent(key, 1, now, linked), t);
    assert Repeating(s0, key, first);
    hide Step, Run, OnTime, Undisturbed, NextDue, OnDue, Timeouts;
    DueTimeouts(key, first, linked, m, t);
    DueRepeats(s0, key, first, linked, m, t);
    DueInTurn(s0, key, first, linked, m, end, t);
    VolumeHeld(s, key, now, linked, OnDue(first, m, linked, t), end, t);
  }

  /** For every length of a hold the bound is attained: by a timeout exactly when each falls due. */
  lemma VolumeHoldAttainsBound(s: State, key: Key, now: int, linked: bool, length: nat, release: Event, t: Timing)
    requires (key == VolUp || key == VolDown) && IsReleaseOf(release, key) && t.repeatMs > 0
    ensures var s0, es := Step(s, KeyEvent(key, 1, now, linked), t), OnDue(now + t.holdMs, DueWithin(length, t), linked, t);
            && Undisturbed(es, key) && OnTime(s0, es, now + length, t)
            && |Step(Run(s0, es, t), release, t).decoded| - |s.decoded|
               == if length < t.holdMs then 1 else 2 + (length - t.holdMs) / t.repeatMs
  {
    hide Step, Run, OnTime, Undisturbed, NextDue, OnDue, IsReleaseOf;
    var m, first := DueWithin(length, t), now + t.holdMs;
    if m > 0 {
      LastIsInTime(first, length, t);
    }
    HeldOnDue(s, key, now, linked, m, now + length, t);
    RepeatingKeyReleased(Run(Step(s, KeyEvent(key, 1, now, linked), t), OnDue(first, m, linked, t), t), key, release, t);
  }

  lemma RepeatingKeyReleased(s: State, key: Key, release: Event, t: Timing)
    requires Repeats(key) && s.held == Some(key) && s.heldRepeats && IsReleaseOf(release, key)
    ensures Step(s, release, t) == s.(held := None, pending := false)
  {
  }

  lemma QuotientBound(m: nat, d: int, x: int)
    requires d > 0 && m * d <= x
    ensures m <= x / d
  {
    if m > x / d {
      TimesMonotone(x / d + 1, m, d);
    }
  }

  lemma TimesMonotone(a: int, b: int, d: int)
    requires a <= b && d > 0
    ensures a * d <= b * d
  {
  }

  // ---------------------------------------------------------------- the power key as a switch

  /** Short taps: each press is followed by its release before anything else happens. */
  function Taps(times: seq<(int, int)>): seq<Event> {
    if times == [] then []
    else
      var (down, up) := times[|times| - 1];
      Taps(times[..|times| - 1]) + [KeyEvent(Power, 1, down, false), KeyEvent(Power, 0, up, false)]
  }

  /** With nobody attached, `n` undisturbed short taps flip the panel between lit and dark `n` times. */
  lemma {:induction false} TapsToggle(s: State, times: seq<(int, int)>, t: Timing)
    requires !s.client
    ensures var s' := Run(s, Taps(times), t);
            !s'.client && s'.lit == (if |times| % 2 == 0 then s.lit else !s.lit) && s'.sent == s.sent
  {
    if times != [] {
      var init := times[..|times| - 1];
      var (down, up) := times[|times| - 1];
      TapsToggle(s, init, t);
      var es := Taps(times);
      assert es[..|es| - 1][..|es| - 2] == Taps(init);
      assert es[..|es| - 1][|es| - 2] == KeyEvent(Power, 1, down, false);
      OneTap(Run(s, Taps(init), t), down, up, t);
    }
  }

  lemma OneTap(s: State, down: int, up: int, t: Timing)
    requires !s.client
    ensures var s' := Step(Step(s, KeyEvent(Power, 1, down, false), t), KeyEvent(Power, 0, up, false), t);
            !s'.client && s'.lit == !s.lit && s'.sent == s.sent
  {
  }

  // ---------------------------------------------------------------- what a client hears

  /** The character a client is sent for a key. */
  function Heard(key: Key, isHold: bool): string {
    if key == Power && isHold then "m" else if key == Power then "." else if key == VolUp then "+" else "-"
  }

  /** An attached client that can be written to hears of everything, except that a click on a dark panel
      only wakes it; and the panel ends up lit. */
  lemma ClientHears(s: State, key: Key, isHold: bool)
    requires s.client && !key.OtherKey?
    ensures var s' := Deliver(s, key, isHold, true);
            && s'.client && s'.lit
            && s'.sent == s.sent + if s.lit || isHold then Heard(key, isHold) else ""
  {
  }

  /** With nobody to hear, only the power key's click does anything, and that only to a lit panel beyond
      waking it: it goes dark. */
  lemma NobodyHears(s: State, key: Key, isHold: bool, linked: bool)
    requires !key.OtherKey? && (!s.client || !linked)
    ensures var s' := Deliver(s, key, isHold, linked);
            && s'.sent == s.sent
            && (s'.lit <==> !s.lit || !(key.Power? && !isHold))
  {
  }

  /** Nothing that happens meanwhile cuts the client off. */
  ghost predicate Connected(es: seq<Event>) {
    forall i :: 0 <= i < |es| ==> !es[i].Detach? && (es[i].Timeout? || es[i].KeyEvent? ==> es[i].linked)
  }

  lemma {:induction false} PowerHeldIsHeard(s: State, now: int, es: seq<Event>, t: Timing)
    requires s.client && s.lit && Undisturbed(es, Power) && Connected(es)
    ensures var s' := Run(Step(s, KeyEvent(Power, 1, now, true), t), es, t);
            && s'.client && s'.lit && s'.sent == s.sent + if Timeouts(es) > 0 then "m" else ""
  {
    if es != [] {
      var init, e := es[..|es| - 1], es[|es| - 1];
      assert forall i :: 0 <= i < |init| ==> init[i] == es[i];
      PowerHeldIsHeard(s, now, init, t);
      PowerHeld(s, now, true, init, t);
      assert !IsPress(e) && !IsReleaseOf(e, Power) && (e.Timeout? ==> e.linked) && !e.Detach?;
    }
  }

  /** A client hears "m" for a held power key and "." for a click, once for each press of a lit panel. */
  lemma PowerPressIsHeard(s: State, now: int, es: seq<Event>, later: int, t: Timing)
    requires s.client && s.lit && Undisturbed(es, Power) && Connected(es)
    ensures var s' := Step(Run(Step(s, KeyEvent(Power, 1, now, true), t), es, t), KeyEvent(Power, 0, later, true), t);
            s'.client && s'.lit && s'.sent == s.sent + if Timeouts(es) > 0 then "m" else "."
  {
    PowerHeldIsHeard(s, now, es, t);
    PowerHeld(s, now, true, es, t);
  }

  /** What a client hears of a volume key: its character at once and again at every repeat. */
  lemma {:induction false} VolumeIsHeard(s: State, key: Key, now: int, es: seq<Event>, t: Timing)
    requires s.client && s.lit && (key == VolUp || key == VolDown) && Undisturbed(es, key) && Connected(es)
    ensures var s' := Run(Step(s, KeyEvent(key, 1, now, true), t), es, t);
            && s'.client && s'.lit && s'.held == Some(key) && s'.heldRepeats && s'.pending
            && s'.sent == s.sent + seq(1 + Timeouts(es), _ => if key == VolUp then '+' else '-')
  {
    if es != [] {
      var init, e := es[..|es| - 1], es[|es| - 1];
      assert forall i :: 0 <= i < |init| ==> init[i] == es[i];
      VolumeIsHeard(s, key, now, init, t);
      assert !IsPress(e) && !IsReleaseOf(e, key) && (e.Timeout? ==> e.linked) && !e.Detach?;
    }
  }
}
