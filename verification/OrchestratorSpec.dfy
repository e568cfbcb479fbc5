/** The timer scheduler: tasks with deadlines, served in passes. Times are microseconds of one clock. */
module OrchestratorSpec {

  datatype Status = New | Started | Done

  datatype TaskState = TaskState(delay: nat, recurrent: bool, status: Status, deadline: nat)

  /** An execution of a task, begun at or after `from` and over by `to`. */
  datatype Execution = Execution(task: nat, from: nat, to: nat)

  datatype Schedule = Schedule(tasks: seq<TaskState>, log: seq<Execution>, clock: nat)

  /** One pass after the wait: the time read first, and the time read behind each task's turn. */
  datatype Pass = Pass(now: nat, ticks: seq<nat>)

  predicate Due(t: TaskState, now: nat) {
    t.status != Done && now >= t.deadline
  }

  /** A recurrent task gets its next deadline from the time its execution ended, a one-shot one is done. */
  function AfterRun(t: TaskState, tick: nat): TaskState {
    if t.recurrent then t.(deadline := tick + t.delay) else t.(status := Done)
  }

  /** A new task starts the wait for its first deadline; others go on as they are. */
  function StartedAt(t: TaskState, tick: nat): TaskState {
    if t.status == New then TaskState(t.delay, t.recurrent, Started, tick + t.delay) else t
  }

  /** The turn of one task. */
  function Attend(s: Schedule, i: nat, now: nat, tick: nat): Schedule
    requires i < |s.tasks|
  {
    if Due(s.tasks[i], now)
    then Schedule(s.tasks[i := AfterRun(s.tasks[i], tick)], s.log + [Execution(i, now, tick)], tick)
    else s.(clock := tick)
  }

  /** A pass in progress: the first k tasks have had their turn. */
  function Attended(s: Schedule, p: Pass, k: nat): (r: Schedule)
    requires k <= |s.tasks| == |p.ticks|
    ensures |r.tasks| == |s.tasks|
  {
    if k == 0 then s.(clock := p.now) else Attend(Attended(s, p, k - 1), k - 1, p.now, p.ticks[k - 1])
  }

  function OnPass(s: Schedule, p: Pass): (r: Schedule)
    requires |s.tasks| == |p.ticks|
    ensures |r.tasks| == |s.tasks|
  {
    Attended(s, p, |s.tasks|)
  }

  /** The time after k turns. */
  function Reading(p: Pass, k: nat): nat
    requires k <= |p.ticks|
  {
    if k == 0 then p.now else p.ticks[k - 1]
  }

  /** The clock never runs backwards. */
  ghost predicate Monotone(clock: nat, p: Pass) {
    clock <= p.now && forall k :: 0 <= k < |p.ticks| ==> Reading(p, k) <= Reading(p, k + 1)
  }

  /** All tasks were added before the start, and start the wait for their first deadline then. */
  ghost predicate Initial(s: Schedule, start: nat) {
    && s.log == [] && start <= s.clock
    && forall i :: 0 <= i < |s.tasks| ==>
         s.tasks[i].status == Started && s.tasks[i].deadline >= start + s.tasks[i].delay
  }

  ghost predicate Possible(first: Schedule, passes: seq<Pass>)
    ensures Possible(first, passes) ==> forall i :: 0 <= i < |passes| ==> |passes[i].ticks| == |first.tasks|
  {
    |passes| > 0 ==>
      var init, last := passes[..|passes| - 1], passes[|passes| - 1];
      && Possible(first, init)
      && |last.ticks| == |first.tasks|
      && Monotone(After(first, init).clock, last)
  }

  ghost function After(first: Schedule, passes: seq<Pass>): (r: Schedule)
    requires forall i :: 0 <= i < |passes| ==> |passes[i].ticks| == |first.tasks|
    ensures |r.tasks| == |first.tasks|
  {
    if |passes| == 0 then first else OnPass(After(first, passes[..|passes| - 1]), passes[|passes| - 1])
  }
}
