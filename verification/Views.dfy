/**
 * The panel's views: the dashboard, the menu and the pager, driven by the characters that the keys and
 * an ssh session send. Log sources are whatever lists of lines they turn out to be.
 */
module Views {
  datatype View = Dash | Menu | Pager

  datatype Action = Up | Down | Select | OpenMenu | Quit | Other

  const MENU_N := 9

  datatype State = State(
    view: View, menuSel: int, text: seq<string>, top: int, live: bool, parent: View,
    lit: bool, torch: bool, quitting: bool)

  function Start(lit: bool, torch: bool): State {
    State(Dash, 0, [], 0, false, Menu, lit, torch, false)
  }

  /** Rows of text in the pager, never fewer than five. */
  function PagerRows(screenRows: int, topMargin: int): (rows: int)
    ensures rows >= 5
    ensures if screenRows - topMargin >= 8 then topMargin + rows + 3 == screenRows else rows == 5
  {
    var rows := screenRows - topMargin - 3;
    if rows < 5 then 5 else rows
  }

  function Clamped(top: int, n: int, rows: int): int {
    var t := if top > n - rows then n - rows else top;
    if t < 0 then 0 else t
  }

  /** A freshly opened or refreshed pager shows the end of its text. */
  function Loaded(s: State, text: seq<string>, rows: int): State {
    s.(text := text, top := Clamped(|text| - rows, |text|, rows))
  }

  function Opened(s: State, text: seq<string>, parent: View, live: bool, rows: int): State {
    Loaded(s, text, rows).(live := live, parent := parent, view := Pager)
  }

  /** The nine entries: backlight, torch, five logs, reboot, back. */
  function Activated(s: State, text: seq<string>, rows: int): State {
    if s.menuSel == 0 then s.(lit := !s.lit)
    else if s.menuSel == 1 then s.(torch := !s.torch)
    else if 2 <= s.menuSel <= 6 then Opened(s, text, Menu, false, rows)
    else if s.menuSel == 8 then s.(view := Dash)
    else s
  }

  function Act(s: State, a: Action, text: seq<string>, rows: int): State {
    match s.view
    case Dash =>
      (match a
       case OpenMenu => s.(view := Menu, menuSel := 0)
       case Select => s.(lit := !s.lit)
       case Quit => s.(quitting := true)
       case _ => s)
    case Menu =>
      (match a
       case Up => s.(menuSel := (s.menuSel + MENU_N - 1) % MENU_N)
       case Down => s.(menuSel := (s.menuSel + 1) % MENU_N)
       case Select => Activated(s, text, rows)
       case OpenMenu => s.(view := Dash)
       case Quit => s.(view := Dash)
       case _ => s)
    case Pager =>
      (match a
       case Up => s.(top := Clamped(s.top - rows / 2, |s.text|, rows))
       case Down => s.(top := Clamped(s.top + rows / 2, |s.text|, rows))
       case _ => s.(view := s.parent, live := false))
  }

  function ActionOf(c: char): Action {
    if c == '+' || c == 'k' then Up
    else if c == '-' || c == 'j' then Down
    else if c == '.' || c == '\r' || c == '\n' then Select
    else if c == 'm' || c == 'q' then OpenMenu
    else Other
  }

  /** `text` is what the log source yields, should this character open one. */
  function Char(s: State, c: char, text: seq<string>, rows: int): State {
    if s.view.Dash? then
      if c in "bekun" then Opened(s, text, Dash, false, rows)
      else if c in "tj" then Opened(s, text, Dash, true, rows)
      else if c == 'd' || c == '.' then s.(lit := !s.lit)
      else if c == 'm' then Act(s, OpenMenu, text, rows)
      else if c == 'q' then Act(s, Quit, text, rows)
      else s
    else Act(s, ActionOf(c), text, rows)
  }

  /** The stats interval: a live pager reads its source again. */
  function Tick(s: State, text: seq<string>, rows: int): State {
    if s.view.Pager? && s.live then Loaded(s, text, rows) else s
  }

  // ---------------------------------------------------------------- the panel's own variables

  class Panel {
    const screenRows: int
    const topMargin: int
    var view: View
    var menuSel: int
    var pagerText: seq<string>
    var pagerTop: int
    var pagerLive: bool
    var pagerParent: View
    var lit: bool
    var torch: bool
    var quitting: bool

    ghost function Now(): State
      reads this
    {
      State(view, menuSel, pagerText, pagerTop, pagerLive, pagerParent, lit, torch, quitting)
    }

    function Rows(): int {
      PagerRows(screenRows, topMargin)
    }

    constructor (screenRows: int, topMargin: int, lit: bool, torch: bool)
      ensures Now() == Start(lit, torch) && this.screenRows == screenRows && this.topMargin == topMargin
    {
      this.screenRows, this.topMargin := screenRows, topMargin;
      view, menuSel, pagerText, pagerTop, pagerLive, pagerParent := Dash, 0, [], 0, false, Menu;
      this.lit, this.torch, quitting := lit, torch, false;
    }

    method PagerClamp()
      modifies this`pagerTop
      ensures pagerTop == Clamped(old(pagerTop), |pagerText|, Rows())
    {
      var rows := Rows();
      if pagerTop > |pagerText| - rows {
        pagerTop := |pagerText| - rows;
      }
      if pagerTop < 0 {
        pagerTop := 0;
      }
    }

    method PagerOpen(text: seq<string>, parent: View, live: bool)
      modifies this
      ensures Now() == Opened(old(Now()), text, parent, live, Rows())
    {
      pagerText := text;
      pagerLive := live;
      pagerParent := parent;
      pagerTop := |pagerText| - Rows();
      PagerClamp();
      view := Pager;
    }

    method PagerRefresh(text: seq<string>)
      modifies this
      ensures Now() == if old(pagerLive) then Loaded(old(Now()), text, Rows()) else old(Now())
    {
      if !pagerLive {
        return;
      }
      pagerText := text;
      pagerTop := |pagerText| - Rows();
      PagerClamp();
    }

    method OnTick(text: seq<string>)
      modifies this
      ensures Now() == Tick(old(Now()), text, Rows())
    {
      if view.Pager? && pagerLive {
        PagerRefresh(text);
      }
    }

    method MenuActivate(text: seq<string>)
      modifies this
      ensures Now() == Activated(old(Now()), text, Rows())
    {
      if menuSel == 0 {
        lit := !lit;
      } else if menuSel == 1 {
        torch := !torch;
      } else if 2 <= menuSel <= 6 {
        PagerOpen(text, Menu, false);
      } else if menuSel == 8 {
        view := Dash;
      }
    }

    method HandleAction(a: Action, text: seq<string>)
      modifies this
      ensures Now() == Act(old(Now()), a, text, Rows())
    {
      match view {
        case Dash =>
          match a {
            case OpenMenu =>
              view := Menu;
              menuSel := 0;
            case Select => lit := !lit;
            case Quit => quitting := true;
            case _ =>
          }
        case Menu =>
          match a {
            case Up => menuSel := (menuSel + MENU_N - 1) % MENU_N;
            case Down => menuSel := (menuSel + 1) % MENU_N;
            case Select => MenuActivate(text);
            case OpenMenu => view := Dash;
            case Quit => view := Dash;
            case _ =>
          }
        case Pager =>
          match a {
            case Up =>
              pagerTop := pagerTop - Rows() / 2;
              PagerClamp();
            case Down =>
              pagerTop := pagerTop + Rows() / 2;
              PagerClamp();
            case _ =>
              view := pagerParent;
              pagerLive := false;
          }
      }
    }

    method HandleChar(c: char, text: seq<string>)
      modifies this
      ensures Now() == Char(old(Now()), c, text, Rows())
    {
      if view.Dash? {
        if c == 'b' || c == 'e' || c == 'k' || c == 'u' || c == 'n' {
          PagerOpen(text, Dash, false);
        } else if c == 't' || c == 'j' {
          PagerOpen(text, Dash, true);
        } else if c == 'd' || c == '.' {
          lit := !lit;
        } else if c == 'm' {
          HandleAction(OpenMenu, text);
        } else if c == 'q' {
          HandleAction(Quit, text);
        }
        return;
      }
      HandleAction(ActionOf(c), text);
    }
  }

  // ---------------------------------------------------------------- every reachable state

  datatype Input = Typed(c: char, text: seq<string>) | Ticked(text: seq<string>)

  function Step(s: State, i: Input, rows: int): State {
    match i
    case Typed(c, text) => Char(s, c, text, rows)
    case Ticked(text) => Tick(s, text, rows)
  }

  function Run(s: State, inputs: seq<Input>, rows: int): State {
    if inputs == [] then s else Step(Run(s, inputs[..|inputs| - 1], rows), inputs[|inputs| - 1], rows)
  }

  ghost predicate Inv(s: State, rows: int) {
    && 0 <= s.menuSel < MENU_N
    && 0 <= s.top <= (if |s.text| > rows then |s.text| - rows else 0)
    && (s.live ==> s.view.Pager?)
    && !s.parent.Pager?
  }

  lemma ActKeepsInv(s: State, a: Action, text: seq<string>, rows: int)
    requires rows >= 5 && Inv(s, rows)
    ensures Inv(Act(s, a, text, rows), rows)
  {
  }

  lemma StepKeepsInv(s: State, i: Input, rows: int)
    requires rows >= 5 && Inv(s, rows)
    ensures Inv(Step(s, i, rows), rows)
  {
    if i.Typed? {
      ActKeepsInv(s, if s.view.Dash? then (if i.c == 'm' then OpenMenu else Quit) else ActionOf(i.c), i.text, rows);
    }
  }

  /** In every view state any inputs can lead to, the selection is an entry, the pager's window lies on
      its text, a live source is only kept inside the pager, and leaving the pager really leaves it. */
  lemma {:induction false} InvHolds(lit: bool, torch: bool, inputs: seq<Input>, rows: int)
    requires rows >= 5
    ensures Inv(Run(Start(lit, torch), inputs, rows), rows)
  {
    if inputs != [] {
      var init := inputs[..|inputs| - 1];
      InvHolds(lit, torch, init, rows);
      StepKeepsInv(Run(Start(lit, torch), init, rows), inputs[|inputs| - 1], rows);
    }
  }

  /** From anywhere, at most two menu tokens lead back to the dashboard. */
  lemma TwoTokensReachDashboard(s: State, t1: seq<string>, t2: seq<string>, rows: int)
    requires rows >= 5 && Inv(s, rows) && !s.view.Dash?
    ensures var s1 := Char(s, 'm', t1, rows);
            s1.view.Dash? || (s1.view.Menu? && Char(s1, 'm', t2, rows).view.Dash?)
  {
  }

  /** In the menu, up undoes down and down undoes up, the wrap at either end included. */
  lemma MenuMovesInvert(s: State, t1: seq<string>, t2: seq<string>, rows: int)
    requires rows >= 5 && Inv(s, rows) && s.view.Menu?
    ensures Char(Char(s, '-', t1, rows), '+', t2, rows) == s
    ensures Char(Char(s, '+', t1, rows), '-', t2, rows) == s
  {
  }

  // ---------------------------------------------------------------- scrolling

  /** The line is in the window. */
  predicate Shown(s: State, line: nat, rows: int) {
    s.top <= line < s.top + rows && line < |s.text|
  }

  /** After `k` presses of volume-down. */
  function ScrolledDown(s: State, k: nat, rows: int): State {
    if k == 0 then s else Char(ScrolledDown(s, k - 1, rows), '-', [], rows)
  }

  lemma ScrollsByHalf(s: State, rows: int)
    requires s.view.Pager?
    ensures Char(s, '-', [], rows) == s.(top := Clamped(s.top + rows / 2, |s.text|, rows))
  {
  }

  lemma ClampedOnTheWay(x: int, d: int, n: int, rows: int)
    requires x >= 0 && d >= 0
    ensures Clamped(Clamped(x, n, rows) + d, n, rows) == Clamped(x + d, n, rows)
  {
  }

  /** How far `k` presses go if nothing stops them. */
  function Reach(k: nat, rows: int): int {
    if k == 0 then 0 else Reach(k - 1, rows) + rows / 2
  }

  lemma {:induction false} ReachIs(k: nat, rows: int)
    requires rows >= 5
    ensures Reach(k, rows) == k * (rows / 2) >= 0
  {
    if k > 0 {
      ReachIs(k - 1, rows);
      OneMoreTime(k - 1, rows / 2);
    }
  }

  lemma {:induction false} ScrollPosition(s: State, k: nat, rows: int)
    requires rows >= 5 && Inv(s, rows) && s.view.Pager? && s.top == 0
    ensures var s' := ScrolledDown(s, k, rows);
            s'.view.Pager? && s'.text == s.text && s'.top == Clamped(Reach(k, rows), |s.text|, rows)
  {
    ClampedAtTheTop(|s.text|, rows);
    hide Char, Inv, Clamped;
    if k > 0 {
      ScrollPosition(s, k - 1, rows);
      ScrollsByHalf(ScrolledDown(s, k - 1, rows), rows);
      ReachIs(k - 1, rows);
      ClampedOnTheWay(Reach(k - 1, rows), rows / 2, |s.text|, rows);
    }
  }

  lemma ClampedAtTheTop(n: nat, rows: int)
    ensures Clamped(0, n, rows) == 0
  {
  }

  lemma OneMoreTime(k: nat, d: nat)
    ensures k * d >= 0 && k * d + d == (k + 1) * d
  {
  }

  /** Scrolling down from the top shows every line of any text, each within a number of presses that
      depends only on how far below the first window it lies. */
  lemma ScrollingShowsEveryLine(s: State, line: nat, rows: int) returns (k: nat)
    requires rows >= 5 && Inv(s, rows) && s.view.Pager? && s.top == 0 && line < |s.text|
    ensures Shown(ScrolledDown(s, k, rows), line, rows)
    ensures if line < rows then k == 0 else (k - 1) * (rows / 2) <= line - rows
  {
    if line < rows {
      k := 0;
    } else {
      var step := rows / 2;
      k := (line - rows) / step + 1;
      hide ScrolledDown;
      StepCovers(line - rows, step);
      ReachIs(k, rows);
      ScrollPosition(s, k, rows);
      WindowCovers(line, k * step, |s.text|, rows);
    }
  }

  lemma WindowCovers(line: nat, x: int, n: nat, rows: int)
    requires rows >= 5 && line < n && line - rows < x <= line - rows + rows / 2
    ensures Clamped(x, n, rows) <= line < Clamped(x, n, rows) + rows
  {
  }

  /** The least number of steps that passes `x`. */
  lemma StepCovers(x: nat, step: int)
    requires step > 0
    ensures var k := x / step + 1; (k - 1) * step <= x < k * step && k * step <= x + step
  {
    assert x == x / step * step + x % step;
    assert (x / step + 1) * step == x / step * step + step;
  }

  // ---------------------------------------------------------------- what the keys do

  function Moved(s: State, k: nat, rows: int): State {
    if k == 0 then s else Char(Moved(s, k - 1, rows), '-', [], rows)
  }

  lemma {:induction false} MovesDown(s: State, k: nat, rows: int)
    requires s.view.Menu? && s.menuSel == 0 && k < 9
    ensures Moved(s, k, rows) == s.(menuSel := k)
  {
    if k > 0 {
      MovesDown(s, k - 1, rows);
    }
  }

  /** From the dashboard, opening the menu, going down `k` entries and selecting does exactly what that
      entry is for: the backlight, the torch, five logs, the reboot, and back. */
  lemma MenuByKeys(s: State, k: nat, text: seq<string>, rows: int)
    requires rows >= 5 && s.view.Dash? && k < 9
    ensures var s' := Char(Moved(Char(s, 'm', [], rows), k, rows), '.', text, rows);
            && s'.quitting == s.quitting
            && s'.lit == (if k == 0 then !s.lit else s.lit)
            && s'.torch == (if k == 1 then !s.torch else s.torch)
            && s'.view == (if 2 <= k <= 6 then Pager else if k == 8 then Dash else Menu)
            && (2 <= k <= 6 ==> s'.text == text && !s'.live && s'.parent == Menu)
            && (!(2 <= k <= 6) ==> s'.text == s.text && s'.menuSel == k)
  {
    MovesDown(Char(s, 'm', [], rows), k, rows);
    hide Moved, Clamped;
  }

  /** What a character does on the dashboard. */
  lemma DashboardKeys(s: State, c: char, text: seq<string>, rows: int)
    requires rows >= 5 && s.view.Dash?
    ensures var s' := Char(s, c, text, rows);
            && (s'.lit != s.lit <==> c == 'd' || c == '.')
            && (s'.view.Menu? <==> c == 'm')
            && (s'.view.Pager? <==> c in "bekuntj")
            && (s'.view.Pager? ==> s'.text == text && s'.parent == Dash && (s'.live <==> c in "tj"))
            && (s'.quitting <==> s.quitting || c == 'q')
            && s'.torch == s.torch
  {
  }

  /** A pager just opened or refreshed shows the last line, as low as it goes. */
  lemma OpenedShowsEnd(s: State, text: seq<string>, parent: View, live: bool, rows: int)
    requires rows >= 5
    ensures var s' := Opened(s, text, parent, live, rows);
            && s'.view.Pager? && s'.text == text
            && (text != [] ==> Shown(s', |text| - 1, rows))
            && (|text| >= rows ==> s'.top + rows == |text|) && (|text| < rows ==> s'.top == 0)
  {
  }

  /** Away from the ends down moves half a window and up moves back. */
  lemma PagerMovesInvert(s: State, t1: seq<string>, t2: seq<string>, rows: int)
    requires rows >= 5 && s.view.Pager? && s.top >= 0
    ensures s.top + rows / 2 <= |s.text| - rows ==>
              && Char(s, '-', t1, rows) == s.(top := s.top + rows / 2)
              && Char(Char(s, '-', t1, rows), '+', t2, rows) == s
    ensures rows / 2 <= s.top <= |s.text| - rows ==>
              && Char(s, '+', t1, rows) == s.(top := s.top - rows / 2)
              && Char(Char(s, '+', t1, rows), '-', t2, rows) == s
  {
  }

  /** Outside the dashboard an ssh session's letters are the keys' characters, and Return is select. */
  lemma LettersAreKeys(s: State, text: seq<string>, rows: int)
    requires rows >= 5 && !s.view.Dash?
    ensures Char(s, 'k', text, rows) == Char(s, '+', text, rows) && Char(s, 'j', text, rows) == Char(s, '-', text, rows)
    ensures Char(s, '\r', text, rows) == Char(s, '\n', text, rows) == Char(s, '.', text, rows)
    ensures Char(s, 'q', text, rows) == Char(s, 'm', text, rows)
    ensures forall c :: c !in "+-.kjmq\r\n" && s.view.Menu? ==> Char(s, c, text, rows) == s
  {
  }

  /** Any other character leaves the pager for where it was opened from, and lets its source go. */
  lemma LeavesPager(s: State, c: char, text: seq<string>, rows: int)
    requires rows >= 5 && Inv(s, rows) && s.view.Pager?
    ensures var s' := Char(s, c, text, rows);
            if c in "+-kj" then s'.view.Pager? && s'.live == s.live
            else s' == s.(view := s.parent, live := false)
  {
  }
}
