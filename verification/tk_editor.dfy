/** The Tk editor pane's debounce (editor_frame.py). Time is abstracted into events:
    Edit (a keystroke sets the text area's modified flag), Change (the `<<Modified>>` event
    runs `on_text_change`) and Fire (the delay of the pending `after` job elapses and Tk
    runs it). */
module TkEditor {
  import opened Wrappers
  import Traces

  /** The identifier `after` returns for a scheduled job. */
  type JobId = nat

  /** `self._debounce_delay`, in milliseconds. */
  const DebounceDelay: nat := 300

  /** The editor's debounce state together with Tk's queue of scheduled jobs
      (job to delay); `updates` counts the calls of `update_viewer_callback`. */
  datatype FrameState = FrameState(
    modified: bool,
    job: Option<JobId>,
    pending: map<JobId, nat>,
    nextJob: JobId,
    updates: nat)

  const Initial: FrameState := FrameState(false, None, map[], 0, 0)

  /** The job the frame remembers is the only one scheduled, with the fixed delay;
      with no job remembered, nothing is scheduled. */
  predicate Inv(s: FrameState) {
    && (s.job.None? ==> s.pending == map[])
    && (s.job.Some? ==> s.job.value < s.nextJob && s.pending == map[s.job.value := DebounceDelay])
  }

  /** A keystroke: the text area's `edit_modified()` flag becomes true. Nothing else
      changes, so the invariant is kept. */
  function Edited(s: FrameState): (t: FrameState)
    ensures t.modified
    ensures t.job == s.job && t.pending == s.pending && t.nextJob == s.nextJob && t.updates == s.updates
    ensures Inv(s) ==> Inv(t)
  {
    s.(modified := true)
  }

  /** `on_text_change`: when the flag is set, the remembered job is cancelled, a new one is
      scheduled with the fixed delay, and the flag is cleared. Without the flag nothing
      happens at all. With it, the old job is gone, exactly one job is scheduled, with the
      fixed delay, and no callback runs. */
  function TextChanged(s: FrameState): (t: FrameState)
    ensures !s.modified ==> t == s
    ensures Inv(s) && s.modified ==>
              && Inv(t) && !t.modified && t.updates == s.updates
              && t.job == Some(s.nextJob) && t.pending == map[s.nextJob := DebounceDelay]
              && (s.job.Some? ==> s.job.value !in t.pending)
  {
    if !s.modified then s
    else
      var kept := if s.job.Some? then s.pending - {s.job.value} else s.pending;
      assert Inv(s) ==> kept == map[];
      s.(job := Some(s.nextJob), pending := kept[s.nextJob := DebounceDelay],
         nextJob := s.nextJob + 1, modified := false)
  }

  /** Tk runs the remembered job when its delay elapses: `trigger_update` calls the callback
      once and forgets the job. With nothing scheduled, nothing happens. From a consistent
      state a fire leaves nothing scheduled, and calls back exactly when a job was
      remembered. */
  function Fired(s: FrameState): (t: FrameState)
    ensures Inv(s) ==> Inv(t) && t.job == None && t.pending == map[]
    ensures Inv(s) && s.job.Some? ==> t.updates == s.updates + 1
    ensures t.modified == s.modified && t.nextJob == s.nextJob
    ensures s.job.None? ==> t == s
  {
    if s.job.Some? && s.job.value in s.pending then
      var kept := s.pending - {s.job.value};
      assert Inv(s) ==> kept == map[];
      s.(pending := kept, updates := s.updates + 1, job := None)
    else s
  }

  datatype Event = Edit | Change | Fire

  /** Every event keeps the invariant: the remembered job is the only one scheduled. */
  function Step(s: FrameState, e: Event): (t: FrameState)
    ensures Inv(s) ==> Inv(t)
  {
    match e
    case Edit => Edited(s)
    case Change => TextChanged(s)
    case Fire => Fired(s)
  }

  function Run(s: FrameState, events: seq<Event>): FrameState {
    Traces.Run(Step, s, events)
  }

  // ---------------------------------------------------------------------------

  lemma InitialInv()
    ensures Inv(Initial)
  {
  }

  /** From any consistent state, at most one job is ever scheduled. */
  lemma {:induction false} RunInv(s: FrameState, events: seq<Event>)
    requires Inv(s)
    ensures Inv(Run(s, events)) && |Run(s, events).pending| <= 1
    decreases |events|
  {
    if events != [] {
      RunInv(Step(s, events[0]), events[1..]);
    } else if s.job.Some? {
      assert s.pending.Keys == {s.job.value};
    }
  }

  /** Edits and changes alone never call back. */
  lemma {:induction false} NoFireNoUpdate(s: FrameState, events: seq<Event>)
    requires forall k :: 0 <= k < |events| ==> events[k] != Fire
    ensures Run(s, events).updates == s.updates
    decreases |events|
  {
    if events != [] {
      NoFireNoUpdate(Step(s, events[0]), events[1..]);
    }
  }

  /** Debounce: any run of edits and changes that ends with an edit and its change, followed
      by one fire, calls back exactly once and leaves nothing scheduled. */
  lemma Coalesce(s: FrameState, burst: seq<Event>)
    requires Inv(s)
    requires forall k :: 0 <= k < |burst| ==> burst[k] != Fire
    ensures var t := Run(s, burst + [Edit, Change, Fire]);
            t.updates == s.updates + 1 && t.job == None && t.pending == map[]
  {
    var mid := Run(s, burst);
    RunInv(s, burst);
    NoFireNoUpdate(s, burst);
    Traces.RunAppend(Step, s, burst, [Edit, Change, Fire]);
  }

  // ---------------------------------------------------------------------------

  /** The Tk editor pane, its flag, its remembered job, and the Tk job queue it uses. */
  class EditorFrame {
    var modified: bool
    var debounceJob: Option<JobId>
    var pending: map<JobId, nat>
    var nextJob: JobId
    var updates: nat

    function State(): FrameState
      reads this
    {
      FrameState(modified, debounceJob, pending, nextJob, updates)
    }

    predicate Valid()
      reads this
    {
      Inv(State())
    }

    constructor ()
      ensures Valid() && State() == Initial
    {
      modified := false;
      debounceJob := None;
      pending := map[];
      nextJob := 0;
      updates := 0;
    }

    /** A keystroke in the text area. */
    method Edit()
      requires Valid()
      modifies this
      ensures Valid() && State() == Edited(old(State()))
    {
      modified := true;
    }

    /** Tk's `after(delay, callback)`: schedules a job under a fresh identifier. */
    method After(delay: nat) returns (id: JobId)
      modifies this
      ensures id == old(nextJob) && nextJob == old(nextJob) + 1
      ensures pending == old(pending)[id := delay]
      ensures modified == old(modified) && debounceJob == old(debounceJob) && updates == old(updates)
    {
      id := nextJob;
      nextJob := nextJob + 1;
      pending := pending[id := delay];
    }

    /** Tk's `after_cancel(id)`. */
    method AfterCancel(id: JobId)
      modifies this
      ensures pending == old(pending) - {id}
      ensures modified == old(modified) && debounceJob == old(debounceJob)
      ensures nextJob == old(nextJob) && updates == old(updates)
    {
      pending := pending - {id};
    }

    method OnTextChange()
      requires Valid()
      modifies this
      ensures Valid() && State() == TextChanged(old(State()))
    {
      if modified {
        if debounceJob.Some? {
          AfterCancel(debounceJob.value);
        }
        var id := After(DebounceDelay);
        debounceJob := Some(id);
        modified := false;
      }
    }

    /** `trigger_update`: the viewer callback runs once, then the job is forgotten. */
    method TriggerUpdate()
      modifies this
      ensures updates == old(updates) + 1 && debounceJob == None
      ensures modified == old(modified) && pending == old(pending) && nextJob == old(nextJob)
    {
      updates := updates + 1;
      debounceJob := None;
    }

    /** Tk's event loop runs the scheduled job once its delay has elapsed. */
    method Fire()
      requires Valid() && debounceJob.Some?
      modifies this
      ensures Valid() && State() == Fired(old(State()))
    {
      pending := pending - {debounceJob.value};
      TriggerUpdate();
    }
  }
}
