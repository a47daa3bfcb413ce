/** The rule by which TfStage::Process starts an inference task, as a
    sequential state machine: at most one task is in flight, a task is
    started on every refresh_rate-th frame when none is running, and a
    task's completion is an event from outside. */
module Scheduler {

  /** A C++ int. */
  type Int32 = x: int | -0x8000_0000 <= x < 0x8000_0000

  /** A C++ unsigned int, the type of a request's sequence number. */
  type Uint32 = x: int | 0 <= x < 0x1_0000_0000

  /** The conversion an int operand undergoes when the other operand of `%`
      is unsigned: the value modulo 2^32. */
  function AsUnsigned(x: Int32): (r: Uint32)
    ensures (r - x) % 0x1_0000_0000 == 0
    ensures 0 <= x ==> r == x
  {
    if x < 0 then x + 0x1_0000_0000 else x
  }

  /** Whether the future handle is absent, holds a running task, or holds
      a task that has completed (wait_for(0) reports ready). */
  datatype TaskState = NoTask | Running | Done

  /** The frame with this sequence number is one the refresh rate selects. */
  predicate Due(rate: Int32, sequence: Uint32)
  {
    rate != 0 && sequence % AsUnsigned(rate) == 0
  }

  /** The launch condition of Process. */
  predicate Launches(rate: Int32, sequence: Uint32, task: TaskState)
  {
    Due(rate, sequence) && task != Running
  }

  /** What happens to the task handle: Process is called for a frame (with
      a usable low-resolution stream), or the running task completes. */
  datatype Event = Frame(sequence: Uint32) | Finish

  function Step(rate: Int32, task: TaskState, e: Event): TaskState
  {
    match e
    case Frame(sequence) => if Launches(rate, sequence, task) then Running else task
    case Finish => if task == Running then Done else task
  }

  /** The task state after a sequence of events. */
  function Run(rate: Int32, task: TaskState, events: seq<Event>): TaskState
  {
    if events == [] then task
    else Step(rate, Run(rate, task, events[..|events| - 1]), events[|events| - 1])
  }

  /** The number of tasks started during a sequence of events. */
  function Launched(rate: Int32, task: TaskState, events: seq<Event>): nat
  {
    if events == [] then 0
    else
      var before := Run(rate, task, events[..|events| - 1]);
      var e := events[|events| - 1];
      Launched(rate, task, events[..|events| - 1])
      + (if e.Frame? && Launches(rate, e.sequence, before) then 1 else 0)
  }

  /** The number of tasks that completed during a sequence of events. */
  function Completed(rate: Int32, task: TaskState, events: seq<Event>): nat
  {
    if events == [] then 0
    else
      var before := Run(rate, task, events[..|events| - 1]);
      Completed(rate, task, events[..|events| - 1])
      + (if events[|events| - 1].Finish? && before == Running then 1 else 0)
  }

  function InFlight(task: TaskState): nat
  {
    if task == Running then 1 else 0
  }

  /** Every task started is either completed or still the one in flight:
      tasks never overlap. */
  lemma {:induction false} OneInFlight(rate: Int32, task: TaskState, events: seq<Event>)
    ensures Launched(rate, task, events) + InFlight(task)
            == Completed(rate, task, events) + InFlight(Run(rate, task, events))
  {
    if events != [] {
      OneInFlight(rate, task, events[..|events| - 1]);
    }
  }

  /** Starting with no task, at most one more task has been started than
      has completed. */
  lemma AtMostOneAhead(rate: Int32, events: seq<Event>)
    ensures Launched(rate, NoTask, events) <= Completed(rate, NoTask, events) + 1
  {
    OneInFlight(rate, NoTask, events);
  }

  /** A refresh rate of 0 never starts a task. */
  lemma {:induction false} DisabledNeverLaunches(task: TaskState, events: seq<Event>)
    ensures Launched(0, task, events) == 0
    ensures task != Running ==> Run(0, task, events) != Running
  {
    if events != [] {
      DisabledNeverLaunches(task, events[..|events| - 1]);
    }
  }

  /** While frames arrive and the running task does not complete, no
      further task is started and the task stays running. */
  lemma {:induction false} StaysRunning(rate: Int32, events: seq<Event>)
    requires forall i :: 0 <= i < |events| ==> events[i].Frame?
    ensures Run(rate, Running, events) == Running
    ensures Launched(rate, Running, events) == 0
  {
    if events != [] {
      StaysRunning(rate, events[..|events| - 1]);
    }
  }

  /** A positive refresh rate selects exactly the frames whose sequence
      number it divides; a negative one is taken modulo 2^32, so -1 selects
      only the frames numbered 0 and 2^32 - 1. */
  lemma DueFrames(rate: Int32, sequence: Uint32)
    ensures 0 < rate ==> (Due(rate, sequence) <==> sequence % rate == 0)
    ensures rate == -1 ==> (Due(rate, sequence) <==> sequence == 0 || sequence == 0xFFFF_FFFF)
  {
  }
}
