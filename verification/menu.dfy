/** The pause menu: a list of options per context, a cursor moved by the
    arrow buttons on the frame they are pressed, and actions triggered by
    START or A.  Pressing "DISK OPTIONS" opens a nested context; "BACK"
    returns to the option it was opened from. */
module Menu {
  import opened JsNumbers
  import opened Constants

  datatype Context = Default | Disk

  /** The options of each context, in display order. */
  const DEFAULT_OPTIONS: seq<string> := ["CONTINUE", "SAVE STATE", "LOAD STATE", "DISK OPTIONS", "LOAD CART", "RESET CART"]
  const DISK_OPTIONS: seq<string> := ["BACK", "EXPORT DISK", "IMPORT DISK", "CLEAR DISK"]

  const CONTINUE: int := 0
  const SAVE_STATE: int := 1
  const LOAD_STATE: int := 2
  const OPEN_DISK: int := 3
  const LOAD_CART: int := 4
  const RESET_CART: int := 5

  const BACK: int := 0
  const EXPORT_DISK: int := 1
  const IMPORT_DISK: int := 2
  const CLEAR_DISK: int := 3

  function Options(c: Context): seq<string>
  {
    match c
    case Default => DEFAULT_OPTIONS
    case Disk => DISK_OPTIONS
  }

  /** A context left for a nested one, and the option selected in it. */
  datatype Saved = Saved(context: Context, index: int)

  datatype Overlay = Overlay(lastGamepad: bv32, selected: int, context: Context, history: seq<Saved>)

  /** What the menu asks of the application. */
  datatype AppCall =
    | CloseMenu | SaveGameState | LoadGameState | ImportCart | ResetCart
    | ExportGameDisk | ImportGameDisk | ClearGameDisk

  /** The cursor is on an option of its context, and so is every saved one. */
  predicate Valid(m: Overlay)
  {
    0 <= m.selected < |Options(m.context)| &&
    forall k | 0 <= k < |m.history| :: 0 <= m.history[k].index < |Options(m.history[k].context)|
  }

  function Initial(): (m: Overlay)
    ensures Valid(m) && m.context == Default && m.selected == CONTINUE
  {
    Overlay(0, 0, Default, [])
  }

  /** The menu and the application's controls after an action: `resetInput`
      clears the controls. */
  datatype Step = Step(menu: Overlay, controls: bv32, calls: seq<AppCall>)

  /** `switchContext(context)`: remembers where the cursor was and opens
      `context` on its first option. */
  function SwitchContext(s: Step, context: Context): (r: Step)
    ensures r.menu.history == s.menu.history + [Saved(s.menu.context, s.menu.selected)]
    ensures r.menu.context == context && r.menu.selected == 0 && r.menu.lastGamepad == s.menu.lastGamepad
    // `resetInput` clears the controls; the application is not called
    ensures r.controls == 0 && r.calls == s.calls
    ensures Valid(s.menu) ==> Valid(r.menu)
  {
    var m := s.menu;
    Step(m.(history := m.history + [Saved(m.context, m.selected)], context := context, selected := 0), 0, s.calls)
  }

  /** `previousContext()`: goes back to the last remembered context and
      option; with nothing remembered it does nothing at all. */
  function PreviousContext(s: Step): (r: Step)
    ensures |s.menu.history| == 0 ==> r == s
    ensures |s.menu.history| > 0 ==>
      var last := s.menu.history[|s.menu.history| - 1];
      r.menu == s.menu.(history := s.menu.history[..|s.menu.history| - 1], context := last.context, selected := last.index) &&
      r.controls == 0 && r.calls == s.calls
    ensures Valid(s.menu) ==> Valid(r.menu)
  {
    var m := s.menu;
    if |m.history| > 0 then
      var last := m.history[|m.history| - 1];
      Step(m.(history := m.history[..|m.history| - 1], context := last.context, selected := last.index), 0, s.calls)
    else s
  }

  /** Going back undoes opening a context, except that the controls stay
      cleared. */
  lemma SwitchThenBack(s: Step, context: Context)
    ensures PreviousContext(SwitchContext(s, context)) == s.(controls := 0)
  {
    var h := s.menu.history + [Saved(s.menu.context, s.menu.selected)];
    assert h[..|h| - 1] == s.menu.history;
  }

  /** The application calls an option makes, in order.  DISK OPTIONS and
      BACK only change the menu and make none. */
  function OptionCalls(c: Context, selected: int): seq<AppCall>
  {
    match c
    case Default =>
      if selected == CONTINUE then [CloseMenu]
      else if selected == SAVE_STATE then [SaveGameState, CloseMenu]
      else if selected == LOAD_STATE then [LoadGameState, CloseMenu]
      else if selected == LOAD_CART then [ImportCart, CloseMenu]
      else if selected == RESET_CART then [ResetCart, CloseMenu]
      else []
    case Disk =>
      if selected == EXPORT_DISK then [ExportGameDisk, CloseMenu]
      else if selected == IMPORT_DISK then [ImportGameDisk]
      else if selected == CLEAR_DISK then [ClearGameDisk, CloseMenu]
      else []
  }

  /** Some call of `cs` throws. */
  predicate Throws(cs: seq<AppCall>, failing: set<AppCall>)
  {
    exists k | 0 <= k < |cs| :: cs[k] in failing
  }

  /** The calls of `cs` actually made: an exception from a call in `failing`
      leaves `applyInput` at once, so the calls stop after the first one
      that throws. */
  function Until(cs: seq<AppCall>, failing: set<AppCall>): (r: seq<AppCall>)
    ensures r <= cs
    ensures !Throws(cs, failing) ==> r == cs
    ensures Throws(cs, failing) ==>
      |r| > 0 && r[|r| - 1] in failing && forall k | 0 <= k < |r| - 1 :: r[k] !in failing
    decreases |cs|
  {
    if cs == [] then []
    else if cs[0] in failing then [cs[0]]
    else
      var rest := Until(cs[1..], failing);
      assert Throws(cs, failing) ==> Throws(cs[1..], failing) by {
        if Throws(cs, failing) {
          var k :| 0 <= k < |cs| && cs[k] in failing;
          assert k > 0 && cs[1..][k - 1] == cs[k];
        }
      }
      assert !Throws(cs, failing) ==> !Throws(cs[1..], failing) by {
        if Throws(cs[1..], failing) {
          var k :| 0 <= k < |cs| - 1 && cs[1..][k] in failing;
          assert cs[k + 1] == cs[1..][k];
        }
      }
      [cs[0]] + rest
  }

  /** What START or A does on the selected option, when the application's
      calls in `failing` throw. */
  function Activate(s: Step, failing: set<AppCall>): (r: Step)
    requires Valid(s.menu)
    ensures Valid(r.menu) && r.menu.lastGamepad == s.menu.lastGamepad
    // every default option but DISK OPTIONS calls the application and leaves the menu where it is
    ensures s.menu.context == Default && s.menu.selected != OPEN_DISK ==>
      r.menu == s.menu && r.controls == s.controls
    // which calls each default option makes when none of them throws
    ensures s.menu.context == Default && s.menu.selected == CONTINUE && CloseMenu !in failing ==>
      r.calls == s.calls + [CloseMenu]
    ensures s.menu.context == Default && s.menu.selected == SAVE_STATE && SaveGameState !in failing && CloseMenu !in failing ==>
      r.calls == s.calls + [SaveGameState, CloseMenu]
    ensures s.menu.context == Default && s.menu.selected == LOAD_STATE && LoadGameState !in failing && CloseMenu !in failing ==>
      r.calls == s.calls + [LoadGameState, CloseMenu]
    ensures s.menu.context == Default && s.menu.selected == LOAD_CART && ImportCart !in failing && CloseMenu !in failing ==>
      r.calls == s.calls + [ImportCart, CloseMenu]
    ensures s.menu.context == Default && s.menu.selected == RESET_CART && ResetCart !in failing && CloseMenu !in failing ==>
      r.calls == s.calls + [ResetCart, CloseMenu]
    // a throwing action never gets to close the menu
    ensures s.menu.context == Default && s.menu.selected == SAVE_STATE && SaveGameState in failing ==>
      r.calls == s.calls + [SaveGameState]
    ensures s.menu.context == Default && s.menu.selected == LOAD_STATE && LoadGameState in failing ==>
      r.calls == s.calls + [LoadGameState]
    // DISK OPTIONS opens the disk context on BACK, remembering where it came from
    ensures s.menu.context == Default && s.menu.selected == OPEN_DISK ==>
      r.calls == s.calls && r.controls == 0 && r.menu.context == Disk && r.menu.selected == BACK &&
      r.menu.history == s.menu.history + [Saved(Default, OPEN_DISK)]
    // BACK returns to the remembered context and option, or does nothing when none is remembered
    ensures s.menu.context == Disk && s.menu.selected == BACK && |s.menu.history| == 0 ==> r == s
    ensures s.menu.context == Disk && s.menu.selected == BACK && |s.menu.history| > 0 ==>
      var last := s.menu.history[|s.menu.history| - 1];
      r.calls == s.calls && r.controls == 0 && r.menu.context == last.context && r.menu.selected == last.index &&
      r.menu.history == s.menu.history[..|s.menu.history| - 1]
    // EXPORT DISK and CLEAR DISK act and close the menu; IMPORT DISK clears the controls and keeps it open
    ensures s.menu.context == Disk && s.menu.selected == EXPORT_DISK ==> r.menu == s.menu && r.controls == s.controls
    ensures s.menu.context == Disk && s.menu.selected == EXPORT_DISK && ExportGameDisk !in failing && CloseMenu !in failing ==>
      r.calls == s.calls + [ExportGameDisk, CloseMenu]
    ensures s.menu.context == Disk && s.menu.selected == IMPORT_DISK ==>
      r.menu == s.menu && r.controls == 0 && r.calls == s.calls + [ImportGameDisk]
    ensures s.menu.context == Disk && s.menu.selected == CLEAR_DISK ==> r.menu == s.menu && r.controls == s.controls
    ensures s.menu.context == Disk && s.menu.selected == CLEAR_DISK && ClearGameDisk !in failing && CloseMenu !in failing ==>
      r.calls == s.calls + [ClearGameDisk, CloseMenu]
    // in every case the application sees the option's calls up to the first that throws
    ensures r.calls == s.calls + Until(OptionCalls(s.menu.context, s.menu.selected), failing)
    // an option that calls the application leaves the menu where it is
    ensures OptionCalls(s.menu.context, s.menu.selected) != [] ==> r.menu == s.menu
  {
    var m := s.menu;
    var calls := s.calls + Until(OptionCalls(m.context, m.selected), failing);
    match m.context
    case Default =>
      if m.selected == OPEN_DISK then SwitchContext(s, Disk)
      else s.(calls := calls)
    case Disk =>
      if m.selected == BACK then PreviousContext(s)
      else if m.selected == IMPORT_DISK then Step(m, 0, calls)
      else s.(calls := calls)
  }

  /** Buttons down now that were up on the previous frame. */
  function Pressed(controls: bv32, last: bv32): bv32
  {
    controls & (controls ^ last)
  }

  /** START or A among the pressed buttons. */
  predicate Acts(pressed: bv32)
  {
    pressed & (CONTROLS_START | CONTROLS_A) != 0
  }

  /** How far the arrows among the pressed buttons move the cursor. */
  function Delta(pressed: bv32): (d: int)
    ensures -1 <= d <= 1
  {
    (if pressed & CONTROLS_DOWN != 0 then 1 else 0) - (if pressed & CONTROLS_UP != 0 then 1 else 0)
  }

  lemma NothingPressed(p: bv32)
    ensures p == 0 ==> !Acts(p) && Delta(p) == 0
  {
  }

  /** The cursor moved by `delta` and wrapped around the options of the
      context now open, with JavaScript's `%`. */
  function Move(s: Step, delta: int): (r: Step)
    requires Valid(s.menu) && -1 <= delta <= 1
    ensures Valid(r.menu)
    ensures r.menu == s.menu.(selected := r.menu.selected) && r.controls == s.controls && r.calls == s.calls
    ensures r.menu.selected == (s.menu.selected + delta + |Options(s.menu.context)|) % |Options(s.menu.context)|
    ensures delta == 0 ==> r == s
  {
    var len := |Options(s.menu.context)|;
    s.(menu := s.menu.(selected := Rem(s.menu.selected + delta + len, len)))
  }

  /** `applyInput()` for the application's current `controls`, when the
      application's calls in `failing` throw: act on a fresh START or A,
      then move the cursor down and/or up on fresh arrow presses and wrap it
      around the options of the context now open.  A call that throws
      leaves the function at once, so the cursor does not move; the buttons
      are already recorded as seen. */
  function ApplyInput(m: Overlay, controls: bv32, failing: set<AppCall>): (r: Step)
    requires Valid(m)
    ensures Valid(r.menu)
    ensures r.menu.lastGamepad == controls
    // nothing freshly pressed: nothing happens
    ensures Pressed(controls, m.lastGamepad) == 0 ==> r == Step(m.(lastGamepad := controls), controls, [])
    // without START or A the cursor moves by the arrows alone, wrapping round
    ensures !Acts(Pressed(controls, m.lastGamepad)) ==>
      var len := |Options(m.context)|;
      r.calls == [] && r.controls == controls && r.menu.context == m.context && r.menu.history == m.history &&
      r.menu.selected == (m.selected + Delta(Pressed(controls, m.lastGamepad)) + len) % len
    // every default option but DISK OPTIONS ends by closing the menu, unless a call throws
    ensures (Acts(Pressed(controls, m.lastGamepad)) && m.context == Default && m.selected != OPEN_DISK &&
             !Throws(OptionCalls(m.context, m.selected), failing)) ==>
      |r.calls| > 0 && r.calls[|r.calls| - 1] == CloseMenu && r.menu.context == Default && r.menu.history == m.history
    // DISK OPTIONS opens the nested context, remembering where it came from
    ensures Acts(Pressed(controls, m.lastGamepad)) && m.context == Default && m.selected == OPEN_DISK ==>
      r.calls == [] && r.controls == 0 && r.menu.context == Disk && r.menu.history == m.history + [Saved(Default, OPEN_DISK)]
    // a call that throws is the last one made, and the cursor stays where it was
    ensures Acts(Pressed(controls, m.lastGamepad)) && Throws(OptionCalls(m.context, m.selected), failing) ==>
      r.menu == m.(lastGamepad := controls) && |r.calls| > 0 && r.calls[|r.calls| - 1] in failing
  {
    var p := Pressed(controls, m.lastGamepad);
    var s := Step(m.(lastGamepad := controls), controls, []);
    NothingPressed(p);
    if Acts(p) then Act(s, Delta(p), failing) else Move(s, Delta(p))
  }

  /** A fresh START or A: the selected option's action, then the arrows,
      unless one of the action's calls threw. */
  function Act(s: Step, delta: int, failing: set<AppCall>): (r: Step)
    requires Valid(s.menu) && -1 <= delta <= 1
    ensures Valid(r.menu) && r.menu.lastGamepad == s.menu.lastGamepad
    ensures r.calls == s.calls + Until(OptionCalls(s.menu.context, s.menu.selected), failing)
    ensures (s.menu.context == Default && s.menu.selected != OPEN_DISK &&
             !Throws(OptionCalls(s.menu.context, s.menu.selected), failing)) ==>
      |r.calls| > 0 && r.calls[|r.calls| - 1] == CloseMenu && r.menu.context == Default && r.menu.history == s.menu.history
    ensures s.menu.context == Default && s.menu.selected == OPEN_DISK ==>
      r.calls == s.calls && r.controls == 0 && r.menu.context == Disk &&
      r.menu.history == s.menu.history + [Saved(Default, OPEN_DISK)]
    ensures Throws(OptionCalls(s.menu.context, s.menu.selected), failing) ==>
      r.menu == s.menu && |r.calls| > |s.calls| && r.calls[|r.calls| - 1] in failing
    ensures s.menu.context == Disk && s.menu.selected == BACK && |s.menu.history| > 0 ==>
      r.calls == s.calls && r.controls == 0 && r.menu.context == s.menu.history[|s.menu.history| - 1].context &&
      r.menu.history == s.menu.history[..|s.menu.history| - 1]
    ensures s.menu.context == Disk && s.menu.selected == IMPORT_DISK ==>
      r.calls == s.calls + [ImportGameDisk] && r.controls == 0 && r.menu.context == Disk && r.menu.history == s.menu.history
  {
    var a := Activate(s, failing);
    if Throws(OptionCalls(s.menu.context, s.menu.selected), failing) then a else Move(a, delta)
  }

  /** On a fresh START or A the application sees the calls of the selected
      option, up to the first that throws; in the disk context BACK restores
      the remembered context and IMPORT DISK keeps the menu open with the
      controls cleared. */
  lemma ActsAsActivate(m: Overlay, controls: bv32, failing: set<AppCall>)
    requires Valid(m) && Acts(Pressed(controls, m.lastGamepad))
    ensures ApplyInput(m, controls, failing).calls == Until(OptionCalls(m.context, m.selected), failing)
    ensures m.context == Disk && m.selected == BACK && |m.history| > 0 ==>
      var r := ApplyInput(m, controls, failing);
      r.calls == [] && r.controls == 0 && r.menu.context == m.history[|m.history| - 1].context &&
      r.menu.history == m.history[..|m.history| - 1]
    ensures m.context == Disk && m.selected == IMPORT_DISK ==>
      var r := ApplyInput(m, controls, failing);
      r.calls == [ImportGameDisk] && r.controls == 0 && r.menu.context == Disk && r.menu.history == m.history
  {
    assert [] + Until(OptionCalls(m.context, m.selected), failing) == Until(OptionCalls(m.context, m.selected), failing);
  }

  /** SAVE STATE whose `saveGameState` throws, as it always does with the
      save state's buffer sizes: the application is asked only to save, the
      menu stays open on SAVE STATE even when an arrow was pressed too, and
      holding the button does not retry. */
  lemma SaveStateThrowing(m: Overlay, controls: bv32, failing: set<AppCall>)
    requires Valid(m) && m.context == Default && m.selected == SAVE_STATE
    requires Acts(Pressed(controls, m.lastGamepad)) && SaveGameState in failing
    ensures var r := ApplyInput(m, controls, failing);
      r.calls == [SaveGameState] && r.menu == m.(lastGamepad := controls) &&
      ApplyInput(r.menu, controls, failing).calls == []
  {
    var cs := OptionCalls(m.context, m.selected);
    assert cs == [SaveGameState, CloseMenu] && cs[0] in failing;
    assert Until(cs, failing) == [SaveGameState];
    ActsAsActivate(m, controls, failing);
    HeldButtonActsOnce(m, controls, failing);
  }

  /** A button held down acts once: the next frame with the same controls
      does nothing. */
  lemma HeldButtonActsOnce(m: Overlay, controls: bv32, failing: set<AppCall>)
    requires Valid(m)
    ensures var r := ApplyInput(m, controls, failing);
      ApplyInput(r.menu, controls, failing) == Step(r.menu, controls, [])
  {
    var r := ApplyInput(m, controls, failing);
    assert Pressed(controls, controls) == 0 by {
      assert controls ^ controls == 0;
    }
  }

  /** Down and up pressed together leave the cursor where it was. */
  lemma DownAndUpCancel(m: Overlay, controls: bv32, failing: set<AppCall>)
    requires Valid(m)
    requires Pressed(controls, m.lastGamepad) & (CONTROLS_START | CONTROLS_A) == 0
    requires Pressed(controls, m.lastGamepad) & CONTROLS_DOWN != 0 && Pressed(controls, m.lastGamepad) & CONTROLS_UP != 0
    ensures ApplyInput(m, controls, failing).menu.selected == m.selected
  {
  }

  /** Up from the first option wraps to the last; down from the last wraps
      to the first. */
  lemma CursorWraps(m: Overlay, failing: set<AppCall>)
    requires Valid(m) && m.lastGamepad == 0
    ensures m.selected == 0 ==> ApplyInput(m, CONTROLS_UP, failing).menu.selected == |Options(m.context)| - 1
    ensures m.selected == |Options(m.context)| - 1 ==> ApplyInput(m, CONTROLS_DOWN, failing).menu.selected == 0
  {
    assert Pressed(CONTROLS_UP, 0) == CONTROLS_UP && Pressed(CONTROLS_DOWN, 0) == CONTROLS_DOWN;
  }

  /** Opening the disk options and pressing BACK (after letting go of the
      button) returns to the option it was opened from. */
  lemma DiskOptionsRoundTrip(m: Overlay, failing: set<AppCall>)
    requires Valid(m) && m.context == Default && m.selected == OPEN_DISK && m.lastGamepad == 0
    ensures var entered := ApplyInput(m, CONTROLS_A, failing);
      entered.menu.context == Disk && entered.menu.selected == BACK && entered.controls == 0 && entered.calls == [] &&
      var released := ApplyInput(entered.menu, 0, failing);
      var back := ApplyInput(released.menu, CONTROLS_A, failing);
      back.menu == m.(lastGamepad := CONTROLS_A) && back.controls == 0 && back.calls == []
  {
    assert Pressed(CONTROLS_A, 0) == CONTROLS_A;
    assert Pressed(0, CONTROLS_A) == 0;
    var entered := ApplyInput(m, CONTROLS_A, failing);
    assert entered.menu.history == m.history + [Saved(Default, OPEN_DISK)];
    var released := ApplyInput(entered.menu, 0, failing);
    assert released.menu == entered.menu.(lastGamepad := 0);
    assert (m.history + [Saved(Default, OPEN_DISK)])[..|m.history|] == m.history;
  }
}
