/** The Qt editor pane's debounce (editor_widget.py): a single-shot QTimer restarted on every
    text change. Time is abstracted into events: Change (the `textChanged` signal runs
    `on_text_change`) and Fire (the timer's interval elapses and its `timeout` runs
    `trigger_update`). */
module QtEditor {
  import Traces

  /** `self._debounce_delay`, in milliseconds. */
  const DebounceDelay: nat := 300

  /** The timer as the widget sees it, and the number of `update_viewer_callback` calls. */
  datatype WidgetState = WidgetState(active: bool, interval: nat, updates: nat)

  const Initial: WidgetState := WidgetState(false, 0, 0)

  /** `on_text_change`: an active timer is stopped, then the timer is started with the
      fixed delay. Afterwards exactly one timer runs, with the fixed delay, whatever ran
      before, and no callback has run. */
  function TextChanged(s: WidgetState): (t: WidgetState)
    ensures t.active && t.interval == DebounceDelay && t.updates == s.updates
  {
    var stopped := if s.active then s.(active := false) else s;
    stopped.(active := true, interval := DebounceDelay)
  }

  /** The single-shot timer times out: it is no longer active and the callback runs once.
      An inactive timer never times out. */
  function TimedOut(s: WidgetState): (t: WidgetState)
    ensures !t.active
    ensures s.active ==> t.updates == s.updates + 1 && t.interval == s.interval
    ensures !s.active ==> t == s
  {
    if s.active then s.(active := false, updates := s.updates + 1) else s
  }

  datatype Event = Change | Fire

  function Step(s: WidgetState, e: Event): WidgetState {
    match e
    case Change => TextChanged(s)
    case Fire => TimedOut(s)
  }

  function Run(s: WidgetState, events: seq<Event>): WidgetState {
    Traces.Run(Step, s, events)
  }

  // ---------------------------------------------------------------------------

  /** A non-empty run of changes leaves exactly the timer of the last one running, and
      calls nothing back. */
  lemma {:induction false} ChangesRestart(s: WidgetState, n: nat)
    requires n > 0
    ensures Run(s, seq(n, _ => Change)) == WidgetState(true, DebounceDelay, s.updates)
    decreases n
  {
    var changes := seq(n, _ => Change);
    assert changes[1..] == seq(n - 1, _ => Change);
    assert Run(s, changes) == Run(TextChanged(s), changes[1..]);
    if n > 1 {
      ChangesRestart(TextChanged(s), n - 1);
    }
  }

  /** Debounce: n >= 1 changes followed by one timeout give exactly one callback, and after
      it no timer runs until the next change. */
  lemma Coalesce(s: WidgetState, n: nat)
    requires n > 0
    ensures Run(s, seq(n, _ => Change) + [Fire]) == WidgetState(false, DebounceDelay, s.updates + 1)
  {
    Traces.RunAppend(Step, s, seq(n, _ => Change), [Fire]);
    ChangesRestart(s, n);
  }

  function CountFires(events: seq<Event>): nat
    decreases |events|
  {
    if events == [] then 0 else (if events[0] == Fire then 1 else 0) + CountFires(events[1..])
  }

  /** Each timeout calls back at most once: there are never more callbacks than Fire events. */
  lemma {:induction false} UpdatesBoundedByFires(s: WidgetState, events: seq<Event>)
    ensures s.updates <= Run(s, events).updates <= s.updates + CountFires(events)
    decreases |events|
  {
    if events != [] {
      UpdatesBoundedByFires(Step(s, events[0]), events[1..]);
    }
  }

  // ---------------------------------------------------------------------------

  /** A QTimer: whether it runs, its interval, and whether it is single-shot. */
  class DebounceTimer {
    var active: bool
    var interval: nat
    var singleShot: bool

    constructor ()
      ensures !active && interval == 0 && !singleShot
    {
      active := false;
      interval := 0;
      singleShot := false;
    }

    method SetSingleShot(on: bool)
      modifies this
      ensures singleShot == on && active == old(active) && interval == old(interval)
    {
      singleShot := on;
    }

    method IsActive() returns (r: bool)
      ensures r == active
    {
      r := active;
    }

    method Start(ms: nat)
      modifies this
      ensures active && interval == ms && singleShot == old(singleShot)
    {
      active := true;
      interval := ms;
    }

    method Stop()
      modifies this
      ensures !active && interval == old(interval) && singleShot == old(singleShot)
    {
      active := false;
    }

    /** The interval elapses: a single-shot timer stops, a repeating one keeps running. */
    method Elapse()
      requires active
      modifies this
      ensures active == !singleShot && interval == old(interval) && singleShot == old(singleShot)
    {
      if singleShot {
        active := false;
      }
    }
  }

  /** The Qt editor pane with its debounce timer. */
  class EditorWidget {
    const debounceTimer: DebounceTimer
    var updates: nat

    function State(): WidgetState
      reads this, debounceTimer
    {
      WidgetState(debounceTimer.active, debounceTimer.interval, updates)
    }

    predicate Valid()
      reads this, debounceTimer
    {
      debounceTimer.singleShot
    }

    constructor ()
      ensures Valid() && State() == Initial && fresh(debounceTimer)
    {
      debounceTimer := new DebounceTimer();
      updates := 0;
      new;
      debounceTimer.SetSingleShot(true);
    }

    method OnTextChange()
      requires Valid()
      modifies debounceTimer
      ensures Valid() && State() == TextChanged(old(State()))
    {
      var running := debounceTimer.IsActive();
      if running {
        debounceTimer.Stop();
      }
      debounceTimer.Start(DebounceDelay);
    }

    /** `trigger_update`: the viewer callback runs once. */
    method TriggerUpdate()
      modifies this
      ensures updates == old(updates) + 1
    {
      updates := updates + 1;
    }

    /** The timer's `timeout` signal, connected to `trigger_update`. */
    method Timeout()
      requires Valid() && debounceTimer.active
      modifies this, debounceTimer
      ensures Valid() && State() == TimedOut(old(State()))
    {
      debounceTimer.Elapse();
      TriggerUpdate();
    }
  }
}
