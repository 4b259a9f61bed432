/**
 * The drag-selection gesture of src/components/AvailabilityGrid.jsx: two refs (`isDragging`
 * and `dragModeRef`) driven by mouse and touch events, and `toggleSlot`, which emits a new
 * selection to the caller. The selection belongs to the caller and is passed into every event;
 * what an event emits is the caller's next selection. The slot type is a parameter.
 */
module DragSelection {
  import opened Wrappers

  /** The two values `dragModeRef.current` takes after a press. */
  datatype Mode = Select | Deselect

  /** The component's props that the gesture reads: `readOnly`, and whether `onSlotsChange` is given. */
  datatype Settings = Settings(readOnly: bool, hasHandler: bool)

  /** The refs: `isDragging.current` and `dragModeRef.current` (`None` before the first press). */
  datatype DragState = DragState(isDragging: bool, dragMode: Option<Mode>)

  /**
   * The handlers: mouse down and enter on a slot cell, the window's mouse up, and touch start,
   * move and end, whose target is the slot of the cell under the finger, if any.
   */
  datatype Event<K> =
    | MouseDown(slot: K)
    | MouseEnter(slot: K)
    | MouseUp
    | TouchStart(target: Option<K>)
    | TouchMove(target: Option<K>)
    | TouchEnd

  /** The state before any event. */
  const Idle: DragState := DragState(false, None)

  /**
   * `toggleSlot(slot, mode)`: nothing is emitted when read-only or without a handler; otherwise a
   * copy of the selection with only `slot` changed: present after `select`, absent otherwise.
   */
  function Toggle<K(==,!new)>(settings: Settings, selected: set<K>, slot: K, mode: Option<Mode>): (r: Option<set<K>>)
    ensures r.Some? <==> !settings.readOnly && settings.hasHandler
    ensures r.Some? ==> forall x :: x != slot ==> (x in r.value <==> x in selected)
    ensures r.Some? ==> (slot in r.value <==> mode == Some(Select))
  {
    if settings.readOnly || !settings.hasHandler then None
    else if mode == Some(Select) then Some(selected + {slot})
    else Some(selected - {slot})
  }

  /** The mode a press fixes: `deselect` on a selected slot, `select` otherwise. */
  function PressMode<K(==,!new)>(selected: set<K>, slot: K): Mode {
    if slot in selected then Deselect else Select
  }

  /** A press on `slot`, by mouse or by touch. */
  function Press<K(==,!new)>(settings: Settings, state: DragState, selected: set<K>, slot: K): (DragState, Option<set<K>>) {
    if settings.readOnly then (state, None)
    else
      var mode := Some(PressMode(selected, slot));
      (DragState(true, mode), Toggle(settings, selected, slot, mode))
  }

  /** The mouse or a finger reaching `slot`: the gesture's mode is applied while dragging. */
  function Drag<K(==,!new)>(settings: Settings, state: DragState, selected: set<K>, slot: K): (DragState, Option<set<K>>) {
    if !state.isDragging || settings.readOnly then (state, None)
    else (state, Toggle(settings, selected, slot, state.dragMode))
  }

  /** One event: the next refs and what is emitted. */
  function Step<K(==,!new)>(settings: Settings, state: DragState, selected: set<K>, event: Event<K>): (DragState, Option<set<K>>) {
    match event
    case MouseDown(slot) => Press(settings, state, selected, slot)
    case MouseEnter(slot) => Drag(settings, state, selected, slot)
    case MouseUp => (DragState(false, state.dragMode), None)
    case TouchStart(target) =>
      if settings.readOnly || target.None? then (state, None)
      else Press(settings, state, selected, target.value)
    case TouchMove(target) =>
      if !state.isDragging || settings.readOnly then (state, None)
      else if target.Some? then Drag(settings, state, selected, target.value)
      else (state, None)
    case TouchEnd => (DragState(false, state.dragMode), None)
  }

  /** The caller's selection after an emission. */
  function Applied<K>(selected: set<K>, emitted: Option<set<K>>): set<K> {
    if emitted.Some? then emitted.value else selected
  }

  /** A run of events, the caller adopting every emitted selection. */
  function Run<K(==,!new)>(settings: Settings, state: DragState, selected: set<K>, events: seq<Event<K>>): (DragState, set<K>)
    decreases |events|
  {
    if |events| == 0 then (state, selected)
    else
      var next := Step(settings, state, selected, events[0]);
      Run(settings, next.0, Applied(selected, next.1), events[1..])
  }

  /** The slot an event names, if any. */
  function EventSlot<K>(event: Event<K>): Option<K> {
    match event
    case MouseDown(slot) => Some(slot)
    case MouseEnter(slot) => Some(slot)
    case TouchStart(target) => target
    case TouchMove(target) => target
    case _ => None
  }

  /** An event that can start a drag. */
  predicate IsPress<K>(event: Event<K>) {
    event.MouseDown? || (event.TouchStart? && event.target.Some?)
  }

  /** While dragging, the mode is set. */
  predicate Consistent(state: DragState) {
    state.isDragging ==> state.dragMode.Some?
  }

  /** The gesture's refs, with handlers that update them in place. */
  class DragController<K(==,!new)> {
    const readOnly: bool
    const hasHandler: bool
    var isDragging: bool
    var dragMode: Option<Mode>

    function Props(): Settings {
      Settings(readOnly, hasHandler)
    }

    function State(): DragState
      reads this
    {
      DragState(isDragging, dragMode)
    }

    constructor(readOnly: bool, hasHandler: bool)
      ensures this.readOnly == readOnly && this.hasHandler == hasHandler
      ensures State() == Idle
    {
      this.readOnly := readOnly;
      this.hasHandler := hasHandler;
      isDragging := false;
      dragMode := None;
    }

    /** `handleMouseDown(slot)`. */
    method HandleMouseDown(selected: set<K>, slot: K) returns (emitted: Option<set<K>>)
      modifies this
      ensures (State(), emitted) == Step(Props(), old(State()), selected, MouseDown(slot))
    {
      emitted := None;
      if readOnly {
        return;
      }
      isDragging := true;
      dragMode := Some(if slot in selected then Deselect else Select);
      emitted := Toggle(Props(), selected, slot, dragMode);
    }

    /** `handleMouseEnter(slot)`. */
    method HandleMouseEnter(selected: set<K>, slot: K) returns (emitted: Option<set<K>>)
      modifies this
      ensures (State(), emitted) == Step(Props(), old(State()), selected, MouseEnter(slot))
    {
      emitted := None;
      if !isDragging || readOnly {
        return;
      }
      emitted := Toggle(Props(), selected, slot, dragMode);
    }

    /** The window's `mouseup` listener. */
    method HandleMouseUp()
      modifies this
      ensures State() == Step<K>(Props(), old(State()), {}, MouseUp).0
    {
      isDragging := false;
    }

    /** `handleTouchStart`, `target` being the slot under the first touch point, if any. */
    method HandleTouchStart(selected: set<K>, target: Option<K>) returns (emitted: Option<set<K>>)
      modifies this
      ensures (State(), emitted) == Step(Props(), old(State()), selected, TouchStart(target))
    {
      emitted := None;
      if readOnly {
        return;
      }
      if target.None? {
        return;
      }
      var slot := target.value;
      isDragging := true;
      dragMode := Some(if slot in selected then Deselect else Select);
      emitted := Toggle(Props(), selected, slot, dragMode);
    }

    /** `handleTouchMove`, `target` being the slot under the first touch point, if any. */
    method HandleTouchMove(selected: set<K>, target: Option<K>) returns (emitted: Option<set<K>>)
      modifies this
      ensures (State(), emitted) == Step(Props(), old(State()), selected, TouchMove(target))
    {
      emitted := None;
      if !isDragging || readOnly {
        return;
      }
      if target.Some? {
        emitted := Toggle(Props(), selected, target.value, dragMode);
      }
    }

    /** `handleTouchEnd`. */
    method HandleTouchEnd()
      modifies this
      ensures State() == Step<K>(Props(), old(State()), {}, TouchEnd).0
    {
      isDragging := false;
    }
  }

  /** Applying a toggle's result again with the same mode changes nothing. */
  lemma ToggleTwice<K(!new)>(settings: Settings, selected: set<K>, slot: K, mode: Option<Mode>)
    requires Toggle(settings, selected, slot, mode).Some?
    ensures var once := Toggle(settings, selected, slot, mode).value;
      Toggle(settings, once, slot, mode) == Some(once)
  {
    var once := Toggle(settings, selected, slot, mode).value;
    var twice := Toggle(settings, once, slot, mode).value;
    assert twice == once by {
      forall x ensures x in twice <==> x in once {
      }
    }
  }

  /**
   * A press, when not read-only, starts dragging in `deselect` mode exactly when the slot is
   * selected, and (with a handler) emits the selection with that slot flipped.
   */
  lemma PressFlipsSlot<K(!new)>(settings: Settings, state: DragState, selected: set<K>, slot: K)
    requires !settings.readOnly
    ensures var (next, emitted) := Step(settings, state, selected, MouseDown(slot));
      && next.isDragging
      && (next.dragMode == Some(Deselect) <==> slot in selected)
      && next.dragMode.Some?
      && (settings.hasHandler ==> emitted.Some? && (slot in emitted.value <==> slot !in selected))
      && Step(settings, state, selected, TouchStart(Some(slot))) == (next, emitted)
  {
  }

  /** Entering a cell or moving a touch while not dragging has no effect. */
  lemma IdleMoveIsInert<K(!new)>(settings: Settings, state: DragState, selected: set<K>, slot: K, target: Option<K>)
    requires !state.isDragging
    ensures Step(settings, state, selected, MouseEnter(slot)) == (state, None)
    ensures Step(settings, state, selected, TouchMove(target)) == (state, None)
  {
  }

  /**
   * While dragging, entering a cell applies the gesture's mode to it whatever its membership:
   * with `select` it ends up selected, with `deselect` it ends up unselected.
   */
  lemma DragAppliesMode<K(!new)>(settings: Settings, state: DragState, selected: set<K>, slot: K, mode: Mode)
    requires state.isDragging && state.dragMode == Some(mode)
    requires !settings.readOnly && settings.hasHandler
    ensures var (next, emitted) := Step(settings, state, selected, MouseEnter(slot));
      && next == state
      && emitted.Some?
      && (slot in emitted.value <==> mode == Select)
      && Step(settings, state, selected, TouchMove(Some(slot))) == (next, emitted)
  {
  }

  /** A release, from the window's `mouseup` or from `touchend`, clears dragging whatever the state. */
  lemma ReleaseStops<K(!new)>(settings: Settings, state: DragState, selected: set<K>)
    ensures Step(settings, state, selected, MouseUp).0 == DragState(false, state.dragMode)
    ensures Step(settings, state, selected, TouchEnd).0 == DragState(false, state.dragMode)
    ensures Step(settings, state, selected, MouseUp).1.None? && Step(settings, state, selected, TouchEnd).1.None?
  {
  }

  /** A touch with no slot under the finger is ignored. */
  lemma TouchOffGridIgnored<K(!new)>(settings: Settings, state: DragState, selected: set<K>)
    ensures Step(settings, state, selected, TouchStart(None)) == (state, None)
    ensures Step(settings, state, selected, TouchMove(None)) == (state, None)
  {
  }

  /** Every event keeps the mode set while dragging. */
  lemma StepConsistent<K(!new)>(settings: Settings, state: DragState, selected: set<K>, event: Event<K>)
    requires Consistent(state)
    ensures Consistent(Step(settings, state, selected, event).0)
  {
  }

  /** After a release, events other than presses change neither the refs nor the selection. */
  lemma {:induction false} ReleasedRunIsInert<K(!new)>(settings: Settings, state: DragState, selected: set<K>, events: seq<Event<K>>)
    requires !state.isDragging
    requires forall i :: 0 <= i < |events| ==> !IsPress(events[i])
    ensures Run(settings, state, selected, events).1 == selected
    ensures !Run(settings, state, selected, events).0.isDragging
    decreases |events|
  {
    if |events| > 0 {
      var next := Step(settings, state, selected, events[0]);
      assert !IsPress(events[0]);
      assert !next.0.isDragging && next.1.None?;
      ReleasedRunIsInert(settings, next.0, selected, events[1..]);
    }
  }

  /** In read-only mode no run of events starts a drag or emits a selection. */
  lemma {:induction false} ReadOnlyRunIsInert<K(!new)>(settings: Settings, state: DragState, selected: set<K>, events: seq<Event<K>>)
    requires settings.readOnly && !state.isDragging
    ensures Run(settings, state, selected, events).1 == selected
    ensures !Run(settings, state, selected, events).0.isDragging
    decreases |events|
  {
    if |events| > 0 {
      var next := Step(settings, state, selected, events[0]);
      assert !next.0.isDragging && next.1.None?;
      ReadOnlyRunIsInert(settings, next.0, selected, events[1..]);
    }
  }

  /** One event changes the membership of the slot it names and of no other. */
  lemma StepChangesOnlyItsSlot<K(!new)>(settings: Settings, state: DragState, selected: set<K>, event: Event<K>, x: K)
    requires EventSlot(event) != Some(x)
    ensures x in Applied(selected, Step(settings, state, selected, event).1) <==> x in selected
  {
  }

  /**
   * When every slot that events name is an active slot (only cells of meeting dates carry a
   * slot and handlers), a run gains and loses active slots only.
   */
  lemma {:induction false} RunChangesOnlyActive<K(!new)>(settings: Settings, state: DragState, selected: set<K>,
                                                  events: seq<Event<K>>, active: set<K>)
    requires forall i :: 0 <= i < |events| && EventSlot(events[i]).Some? ==> EventSlot(events[i]).value in active
    ensures Run(settings, state, selected, events).1 <= selected + active
    ensures selected - active <= Run(settings, state, selected, events).1
    decreases |events|
  {
    if |events| > 0 {
      var next := Step(settings, state, selected, events[0]);
      var after := Applied(selected, next.1);
      forall x | x !in active ensures x in after <==> x in selected {
        StepChangesOnlyItsSlot(settings, state, selected, events[0], x);
      }
      assert forall i :: 0 <= i < |events[1..]| ==> events[1..][i] == events[i + 1];
      RunChangesOnlyActive(settings, next.0, after, events[1..], active);
    }
  }
}
