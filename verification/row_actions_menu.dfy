/**
 * The per-row action menu of the data table as a state machine.
 *
 * Every row renders a trigger button; all rows share one "open row id".  A
 * row's menu is shown only while that id equals the row's id.  Opening stores
 * the row's own menu position, computed from the trigger rectangle and the
 * scroll offsets.  While a row is open, the effect of that row keeps a
 * `mousedown` and a `keydown` handler on the document; the effect re-runs
 * whenever the row's open flag changes, and its cleanup removes exactly the
 * handlers that run added.
 */
module RowActionsMenu {
  import opened Wrappers

  /** `rowId: string | number` */
  datatype RowId = NumId(n: int) | StrId(s: string)

  /** Width of the menu in pixels, its `w-48` class; subtracted so the menu's right edge meets the trigger's. */
  const MenuWidth: int := 192

  /** The trigger's bounding client rectangle, in whole viewport pixels. */
  datatype Rect = Rect(top: int, right: int, bottom: int, left: int)

  /** `window.scrollX` and `window.scrollY` */
  datatype Scroll = Scroll(x: int, y: int)

  datatype Position = Position(top: int, left: int)

  /** A row's `menuPosition` before it is first opened. */
  const Origin := Position(0, 0)

  datatype ListenerKind = MouseDown | KeyDown

  /** A handler attached to `document`, tagged by the row whose effect attached it. */
  datatype Listener = Listener(row: RowId, kind: ListenerKind)

  /**
   * `open` is the table's shared `openActionRowId`; `mounted` the rows whose
   * menu component exists; `positions` each mounted row's own `menuPosition`
   * (a row without an entry still has `Origin`); `listeners` the handlers
   * currently attached to the document.
   */
  datatype MenuState = MenuState(
    open: Option<RowId>,
    mounted: set<RowId>,
    positions: map<RowId, Position>,
    listeners: multiset<Listener>)

  /**
   * Where a mousedown target lies with respect to one row's refs: whether the
   * menu element and the trigger element exist, and whether each contains the
   * target.
   */
  datatype Hit = Hit(menuMounted: bool, inMenu: bool, buttonMounted: bool, inButton: bool)

  datatype Event =
      /** A click on `row`'s trigger; `trigger` is `None` while `buttonRef.current` is null. */
    | Toggle(row: RowId, trigger: Option<Rect>, scroll: Scroll)
      /** A mousedown anywhere in the document, described per row. */
    | MouseDownAt(hit: RowId -> Hit)
      /** A keydown anywhere in the document. */
    | KeyDownOf(key: string)
      /** A click on one of `row`'s menu items; `returned` is false when the item's `onClick` threw. */
    | ActionClick(row: RowId, returned: bool)
      /** The table re-rendered with exactly these row ids. */
    | Rerender(rows: set<RowId>)

  // ---------------------------------------------------------------------------
  // Geometry

  /** The menu's anchor: below the trigger, with its right edge on the trigger's right edge. */
  function Anchor(rect: Rect, scroll: Scroll): (p: Position)
    ensures p.top - scroll.y == rect.bottom
    ensures p.left + MenuWidth - scroll.x == rect.right
  {
    Position(rect.bottom + scroll.y, rect.right - MenuWidth + scroll.x)
  }

  /** A trigger whose bottom is at 120 and right edge at 300, unscrolled, anchors the menu at (120, 108). */
  lemma AnchorExample()
    ensures Anchor(Rect(100, 300, 120, 250), Scroll(0, 0)) == Position(120, 108)
  {
  }

  function PositionOf(s: MenuState, r: RowId): Position {
    if r in s.positions then s.positions[r] else Origin
  }

  /** `isOpen && <menu style={menuPosition}>`: the position of `r`'s menu if it is rendered. */
  function Shown(s: MenuState, r: RowId): Option<Position> {
    if s.open == Some(r) && r in s.mounted then Some(PositionOf(s, r)) else None
  }

  // ---------------------------------------------------------------------------
  // Listener lifecycle

  /** The handlers one run of `r`'s effect attaches: both when the row is open, none otherwise. */
  function Handlers(r: RowId, isOpen: bool): multiset<Listener> {
    if isOpen then multiset{Listener(r, MouseDown), Listener(r, KeyDown)} else multiset{}
  }

  /**
   * `r`'s effect depends on its open flag only: when the flag is unchanged the
   * effect does not re-run; otherwise the previous run's cleanup removes the
   * handlers it added and the new run adds its own.
   */
  function RerunEffect(ls: multiset<Listener>, r: RowId, wasOpen: bool, isOpen: bool): multiset<Listener> {
    if wasOpen == isOpen then ls else ls - Handlers(r, wasOpen) + Handlers(r, isOpen)
  }

  /**
   * `setOpenActionRowId(next)` followed by the effects of the rows whose open
   * flag changed: a row that is neither the previous nor the next open row
   * keeps its handlers as they were.
   */
  function SetOpen(s: MenuState, next: Option<RowId>): (t: MenuState)
    ensures t.open == next && t.mounted == s.mounted && t.positions == s.positions
  {
    var afterPrevious :=
      if s.open.Some? && s.open.value in s.mounted
      then RerunEffect(s.listeners, s.open.value, true, next == s.open)
      else s.listeners;
    var afterNext :=
      if next.Some? && next.value in s.mounted
      then RerunEffect(afterPrevious, next.value, s.open == next, true)
      else afterPrevious;
    s.(open := next, listeners := afterNext)
  }

  /** A newly opened mounted row gets both of its handlers. */
  lemma SetOpenAttaches(s: MenuState, r: RowId)
    requires s.open != Some(r) && r in s.mounted
    ensures var t := SetOpen(s, Some(r));
      Listener(r, MouseDown) in t.listeners && Listener(r, KeyDown) in t.listeners
  {
  }

  /** Changing the open id touches only the handlers of the previous and the next open row. */
  lemma SetOpenLocal(s: MenuState, next: Option<RowId>)
    ensures var t := SetOpen(s, next);
      forall l: Listener :: Some(l.row) != s.open && Some(l.row) != next ==> t.listeners[l] == s.listeners[l]
  {
    var afterPrevious :=
      if s.open.Some? && s.open.value in s.mounted
      then RerunEffect(s.listeners, s.open.value, true, next == s.open)
      else s.listeners;
    assert SetOpen(s, next).listeners ==
      if next.Some? && next.value in s.mounted
      then RerunEffect(afterPrevious, next.value, s.open == next, true)
      else afterPrevious;
    forall l: Listener | Some(l.row) != s.open && Some(l.row) != next
      ensures SetOpen(s, next).listeners[l] == s.listeners[l]
    {
      if s.open.Some? && s.open.value in s.mounted {
        RerunEffectElsewhere(s.listeners, s.open.value, true, next == s.open, l);
      }
      if next.Some? && next.value in s.mounted {
        RerunEffectElsewhere(afterPrevious, next.value, s.open == next, true, l);
      }
    }
  }

  /** One row's effect never touches the handlers of another row. */
  lemma RerunEffectElsewhere(ls: multiset<Listener>, r: RowId, wasOpen: bool, isOpen: bool, l: Listener)
    requires l.row != r
    ensures RerunEffect(ls, r, wasOpen, isOpen)[l] == ls[l]
  {
    assert Handlers(r, wasOpen)[l] == 0 && Handlers(r, isOpen)[l] == 0;
  }

  /** The handlers that should be attached: those of the open row, if it is mounted. */
  function Expected(open: Option<RowId>, mounted: set<RowId>): multiset<Listener> {
    if open.Some? && open.value in mounted then Handlers(open.value, true) else multiset{}
  }

  /** The attached handlers are exactly the open row's, and only mounted rows hold a position. */
  ghost predicate Consistent(s: MenuState) {
    && s.listeners == Expected(s.open, s.mounted)
    && s.positions.Keys <= s.mounted
  }

  // ---------------------------------------------------------------------------
  // Transitions

  /** `handleClickOutside`'s test: both refs exist and neither contains the target. */
  predicate Outside(h: Hit) {
    h.menuMounted && !h.inMenu && h.buttonMounted && !h.inButton
  }

  /** Some attached mousedown handler finds the target outside its row. */
  predicate MouseDownCloses(s: MenuState, hit: RowId -> Hit) {
    exists l | l in s.listeners :: l.kind == MouseDown && Outside(hit(l.row))
  }

  /** Some keydown handler is attached and the key is Escape. */
  predicate KeyDownCloses(s: MenuState, key: string) {
    key == "Escape" && exists l | l in s.listeners :: l.kind == KeyDown
  }

  /** `toggleMenu` of a mounted row: close if open, else open with a fresh anchor when the trigger exists. */
  function ToggleMenu(s: MenuState, r: RowId, trigger: Option<Rect>, scroll: Scroll): (t: MenuState)
    ensures t.mounted == s.mounted
    ensures s.open == Some(r) ==> t.open == None && t.positions == s.positions
    ensures s.open != Some(r) && trigger.Some? ==>
      && t.open == Some(r)
      && PositionOf(t, r) == Anchor(trigger.value, scroll)
      && forall q :: q != r ==> PositionOf(t, q) == PositionOf(s, q)
    ensures s.open != Some(r) && trigger.None? ==> t == s
  {
    if s.open == Some(r) then SetOpen(s, None)
    else if trigger.Some? then
      SetOpen(s.(positions := s.positions[r := Anchor(trigger.value, scroll)]), Some(r))
    else s
  }

  /**
   * Rows leaving the table are unmounted: their cleanups run and their
   * positions are lost.  Only the open row's last effect run attached
   * handlers, so only its leaving removes any; a newly mounted row's first
   * effect run attaches handlers only if it is the open row.
   */
  function Remount(s: MenuState, rows: set<RowId>): (t: MenuState)
    ensures t.open == s.open && t.mounted == rows
    ensures t.positions.Keys <= rows
    ensures forall q :: q in rows && q in s.mounted ==> PositionOf(t, q) == PositionOf(s, q)
  {
    var o := s.open;
    var ls :=
      if o.Some? && o.value in s.mounted && o.value !in rows then s.listeners - Handlers(o.value, true)
      else if o.Some? && o.value !in s.mounted && o.value in rows then s.listeners + Handlers(o.value, true)
      else s.listeners;
    MenuState(o, rows, map r | r in s.positions && r in rows :: s.positions[r], ls)
  }

  /**
   * One event.  Triggers and menu items exist only for mounted rows, and menu
   * items only while their row is open; an event aimed at an element that is
   * not rendered changes nothing.
   */
  function Step(s: MenuState, e: Event): MenuState {
    match e
    case Toggle(r, trigger, scroll) =>
      if r in s.mounted then ToggleMenu(s, r, trigger, scroll) else s
    case MouseDownAt(hit) =>
      if MouseDownCloses(s, hit) then SetOpen(s, None) else s
    case KeyDownOf(key) =>
      if KeyDownCloses(s, key) then SetOpen(s, None) else s
    case ActionClick(r, returned) =>
      if s.open == Some(r) && r in s.mounted && returned then SetOpen(s, None) else s
    case Rerender(rows) =>
      Remount(s, rows)
  }

  /** Only a re-render changes the mounted rows; an event keeps the open id, closes the menu, or opens the row it toggled. */
  lemma StepShape(s: MenuState, e: Event)
    ensures !e.Rerender? ==> Step(s, e).mounted == s.mounted
    ensures var t := Step(s, e);
      t.open == s.open || t.open == None || (e.Toggle? && t.open == Some(e.row))
  {
  }

  /** Events applied in order. */
  function Run(s: MenuState, events: seq<Event>): MenuState
    decreases |events|
  {
    if |events| == 0 then s else Run(Step(s, events[0]), events[1..])
  }

  /** The table's first render: nothing open, nothing attached, every row at `Origin`. */
  function Initial(rows: set<RowId>): MenuState {
    MenuState(None, rows, map[], multiset{})
  }

  // ---------------------------------------------------------------------------
  // Properties

  /** Setting the open id keeps the attached handlers equal to those of the new open row. */
  lemma SetOpenConsistent(s: MenuState, next: Option<RowId>)
    requires Consistent(s)
    ensures Consistent(SetOpen(s, next))
  {
    var t := SetOpen(s, next);
    if s.open.Some? && s.open.value in s.mounted {
      var p := s.open.value;
      assert s.listeners - Handlers(p, true) == multiset{};
    }
    assert t.listeners == Expected(next, s.mounted);
  }

  /** A re-render keeps the attached handlers equal to those of the open row among the new rows. */
  lemma RemountConsistent(s: MenuState, rows: set<RowId>)
    requires Consistent(s)
    ensures Consistent(Remount(s, rows))
  {
    var t := Remount(s, rows);
    if s.open.Some? && s.open.value in s.mounted && s.open.value !in rows {
      assert s.listeners - Handlers(s.open.value, true) == multiset{};
    }
    assert t.listeners == Expected(t.open, t.mounted);
  }

  /** A toggle of a mounted row keeps the attached handlers equal to those of the open row. */
  lemma ToggleConsistent(s: MenuState, r: RowId, trigger: Option<Rect>, scroll: Scroll)
    requires Consistent(s)
    requires r in s.mounted
    ensures Consistent(ToggleMenu(s, r, trigger, scroll))
  {
    if s.open == Some(r) {
      SetOpenConsistent(s, None);
    } else if trigger.Some? {
      SetOpenConsistent(s.(positions := s.positions[r := Anchor(trigger.value, scroll)]), Some(r));
    }
  }

  /** Every event keeps the handlers and positions consistent with the open row and the mounted rows. */
  lemma StepConsistent(s: MenuState, e: Event)
    requires Consistent(s)
    ensures Consistent(Step(s, e))
  {
    match e
    case Toggle(r, trigger, scroll) =>
      if r in s.mounted {
        ToggleConsistent(s, r, trigger, scroll);
      } else {
        assert Step(s, e) == s;
      }
    case MouseDownAt(hit) =>
      if MouseDownCloses(s, hit) {
        SetOpenConsistent(s, None);
      } else {
        assert Step(s, e) == s;
      }
    case KeyDownOf(key) =>
      if KeyDownCloses(s, key) {
        SetOpenConsistent(s, None);
      } else {
        assert Step(s, e) == s;
      }
    case ActionClick(r, returned) =>
      if s.open == Some(r) && r in s.mounted && returned {
        SetOpenConsistent(s, None);
      } else {
        assert Step(s, e) == s;
      }
    case Rerender(rows) =>
      RemountConsistent(s, rows);
  }

  /** From the first render, any sequence of events keeps the state consistent. */
  lemma {:induction false} RunConsistent(s: MenuState, events: seq<Event>)
    requires Consistent(s)
    ensures Consistent(Run(s, events))
    decreases |events|
  {
    if |events| > 0 {
      StepConsistent(s, events[0]);
      RunConsistent(Step(s, events[0]), events[1..]);
    }
  }

  /** The first render is consistent: nothing open, nothing attached, and every row's menu at `Origin`. */
  lemma InitialAtOrigin(rows: set<RowId>)
    ensures Consistent(Initial(rows))
    ensures Initial(rows).open == None && Initial(rows).mounted == rows
    ensures forall r :: PositionOf(Initial(rows), r) == Origin
  {
  }

  /** Every reachable state has at most two handlers attached, and none while no mounted row is open. */
  lemma {:induction false} ReachableListeners(rows: set<RowId>, events: seq<Event>)
    ensures var s := Run(Initial(rows), events);
      && |s.listeners| <= 2
      && (s.open == None || s.open.value !in s.mounted ==> s.listeners == multiset{})
  {
    RunConsistent(Initial(rows), events);
  }

  /** Attached handlers always belong to the one open, mounted row. */
  lemma ListenersBelongToOpenRow(s: MenuState, l: Listener)
    requires Consistent(s)
    requires l in s.listeners
    ensures s.open == Some(l.row) && l.row in s.mounted
  {
  }

  /** When a row stops being open, none of its handlers stay attached. */
  lemma ClosingDetaches(s: MenuState, e: Event, r: RowId, k: ListenerKind)
    requires Consistent(s)
    requires s.open == Some(r)
    requires Step(s, e).open != Some(r)
    ensures Listener(r, k) !in Step(s, e).listeners
  {
    StepConsistent(s, e);
  }

  /** Unmounting the whole table leaves no handler attached. */
  lemma UnmountDetachesAll(s: MenuState)
    requires Consistent(s)
    ensures Step(s, Rerender({})).listeners == multiset{}
  {
    StepConsistent(s, Rerender({}));
  }

  /** At most one row renders its menu. */
  lemma AtMostOneShown(s: MenuState, a: RowId, b: RowId)
    requires Shown(s, a).Some? && Shown(s, b).Some?
    ensures a == b
  {
  }

  /** Toggling the open row closes it, attaches nothing and keeps every stored position. */
  lemma ToggleOpenRowCloses(s: MenuState, r: RowId, trigger: Option<Rect>, scroll: Scroll)
    requires Consistent(s)
    requires s.open == Some(r) && r in s.mounted
    ensures var t := Step(s, Toggle(r, trigger, scroll));
      && t.open == None
      && t.positions == s.positions
      && t.listeners == multiset{}
      && forall q :: Shown(t, q) == None
  {
    SetOpenConsistent(s, None);
  }

  /**
   * Toggling a closed row whose trigger exists opens it in place of any other
   * row, anchors its menu and leaves every other row's position alone.
   */
  lemma ToggleClosedRowOpens(s: MenuState, r: RowId, rect: Rect, scroll: Scroll)
    requires Consistent(s)
    requires s.open != Some(r) && r in s.mounted
    ensures var t := Step(s, Toggle(r, Some(rect), scroll));
      && t.open == Some(r)
      && Shown(t, r) == Some(Anchor(rect, scroll))
      && (forall q :: q != r ==> Shown(t, q) == None && PositionOf(t, q) == PositionOf(s, q))
      && t.listeners == multiset{Listener(r, MouseDown), Listener(r, KeyDown)}
  {
    SetOpenConsistent(s.(positions := s.positions[r := Anchor(rect, scroll)]), Some(r));
  }

  /** Toggling a closed row whose trigger is not mounted changes nothing. */
  lemma ToggleWithoutTriggerIgnored(s: MenuState, r: RowId, scroll: Scroll)
    requires s.open != Some(r)
    ensures Step(s, Toggle(r, None, scroll)) == s
  {
  }

  /**
   * A position is written only by opening that row: any other event leaves a
   * row that stays mounted where it was.
   */
  lemma PositionWrittenOnlyOnOpen(s: MenuState, e: Event, r: RowId)
    requires r in s.mounted && r in Step(s, e).mounted
    requires PositionOf(Step(s, e), r) != PositionOf(s, r)
    ensures e.Toggle? && e.row == r && e.trigger.Some?
    ensures Step(s, e).open == Some(r) && PositionOf(Step(s, e), r) == Anchor(e.trigger.value, e.scroll)
  {
  }

  /** With a row open, a mousedown closes it exactly when the target is outside both its menu and its trigger. */
  lemma MouseDownRule(s: MenuState, r: RowId, hit: RowId -> Hit)
    requires Consistent(s)
    requires s.open == Some(r) && r in s.mounted
    ensures Step(s, MouseDownAt(hit)).open == None <==> Outside(hit(r))
    ensures !Outside(hit(r)) ==> Step(s, MouseDownAt(hit)) == s
  {
    if Outside(hit(r)) {
      assert Listener(r, MouseDown) in s.listeners;
    }
  }

  /** With a row open, a key closes it exactly when it is Escape; any other key changes nothing. */
  lemma EscapeRule(s: MenuState, r: RowId, key: string)
    requires Consistent(s)
    requires s.open == Some(r) && r in s.mounted
    ensures Step(s, KeyDownOf(key)).open == None <==> key == "Escape"
    ensures key != "Escape" ==> Step(s, KeyDownOf(key)) == s
  {
    if key == "Escape" {
      assert Listener(r, KeyDown) in s.listeners;
    }
  }

  /** With no mounted row open, no handler is attached, so mouse and key events change nothing. */
  lemma ClosedIgnoresDocumentEvents(s: MenuState, hit: RowId -> Hit, key: string)
    requires Consistent(s)
    requires s.open == None
    ensures Step(s, MouseDownAt(hit)) == s
    ensures Step(s, KeyDownOf(key)) == s
  {
  }

  /** A menu item click closes the menu after the item's handler returns; a throwing handler leaves it open. */
  lemma ActionClickRule(s: MenuState, r: RowId, returned: bool)
    requires s.open == Some(r) && r in s.mounted
    ensures Step(s, ActionClick(r, returned)).open == (if returned then None else Some(r))
    ensures !returned ==> Step(s, ActionClick(r, returned)) == s
  {
  }

  /** Toggling the same row twice, with nothing open before, returns to nothing open. */
  lemma ToggleTwiceCloses(s: MenuState, r: RowId, rect: Rect, scroll: Scroll, trigger2: Option<Rect>, scroll2: Scroll)
    requires Consistent(s)
    requires s.open == None && r in s.mounted
    ensures var t := Run(s, [Toggle(r, Some(rect), scroll), Toggle(r, trigger2, scroll2)]);
      && t.open == None
      && t.listeners == multiset{}
      && PositionOf(t, r) == Anchor(rect, scroll)
  {
    var t1 := Step(s, Toggle(r, Some(rect), scroll));
    ToggleClosedRowOpens(s, r, rect, scroll);
    StepConsistent(s, Toggle(r, Some(rect), scroll));
    ToggleOpenRowCloses(t1, r, trigger2, scroll2);
    var events := [Toggle(r, Some(rect), scroll), Toggle(r, trigger2, scroll2)];
    assert events[1..] == [Toggle(r, trigger2, scroll2)];
    assert Run(s, events) == Run(t1, [Toggle(r, trigger2, scroll2)]);
  }
}
