/** The scheduler as the program has it, proved to take the steps of `OrchestratorSpec`. */
module Orchestrator {
  import opened Timeval
  import opened OrchestratorSpec
  import opened OrchestratorTheorems
  import opened List

  class Task {
    const delay: Timeval
    const isRecurrent: bool
    var status: Status
    var deadline: Timeval

    ghost predicate Valid()
      reads this
    {
      Normal(delay) && Normal(deadline)
    }

    ghost function State(): TaskState
      reads this
    {
      TaskState(Micros(delay), isRecurrent, status, Micros(deadline))
    }

    constructor (delay: Timeval, isRecurrent: bool)
      requires Normal(delay)
      ensures Valid() && State() == TaskState(Micros(delay), isRecurrent, New, 0)
    {
      this.delay, this.isRecurrent := delay, isRecurrent;
      status, deadline := New, Timeval(0, 0);
    }

    /** `tick` is the time read. */
    method ResetDeadline(tick: Timeval)
      requires Valid() && Normal(tick)
      modifies `deadline
      ensures Valid() && Micros(deadline) == Micros(tick) + Micros(delay)
    {
      deadline := Add(tick, delay);
    }
  }

  ghost predicate AllNormal(ticks: seq<Timeval>) {
    forall i :: 0 <= i < |ticks| ==> Normal(ticks[i])
  }

  ghost function AllMicros(ticks: seq<Timeval>): (r: seq<nat>)
    ensures |r| == |ticks| && forall i :: 0 <= i < |ticks| ==> r[i] == Micros(ticks[i])
  {
    seq(|ticks|, i requires 0 <= i < |ticks| => Micros(ticks[i]))
  }

  class Orchestrator {
    var tasks: seq<Task>
    /** The executions so far. */
    var log: seq<Execution>
    ghost var clock: nat

    ghost predicate Valid()
      reads this, tasks
    {
      && (forall i, j :: 0 <= i < j < |tasks| ==> tasks[i] != tasks[j])
      && forall i :: 0 <= i < |tasks| ==> tasks[i].Valid()
    }

    ghost function States(): (r: seq<TaskState>)
      reads this, tasks
      ensures |r| == |tasks| && forall i :: 0 <= i < |tasks| ==> r[i] == tasks[i].State()
    {
      seq(|tasks|, i requires 0 <= i < |tasks| reads this, tasks => tasks[i].State())
    }

    ghost function State(): Schedule
      reads this, tasks
    {
      Schedule(States(), log, clock)
    }

    constructor ()
      ensures Valid() && State() == Schedule([], [], 0)
    {
      tasks, log, clock := [], [], 0;
    }

    method AddTask(task: Task)
      requires Valid() && task.Valid() && task !in tasks
      modifies this, task
      ensures Valid() && tasks == old(tasks) + [task] && task.status == New && log == old(log)
    {
      task.status := New;
      tasks := tasks + [task];
    }

    /**
     The start of a run: `ticks` are the times read, one for each task, none before `start`. Tasks that
     were started before keep their deadlines.
     */
    method SetDeadlines(ticks: seq<Timeval>, ghost start: nat)
      requires Valid() && |ticks| == |tasks| && AllNormal(ticks)
      requires forall i :: 0 <= i < |tasks| ==> Micros(ticks[i]) >= start
      modifies this`clock, tasks
      ensures Valid() && tasks == old(tasks) && log == old(log) && clock == start
      ensures forall i :: 0 <= i < |tasks| ==> tasks[i].State() == StartedAt(old(tasks[i].State()), Micros(ticks[i]))
      ensures forall i :: 0 <= i < |tasks| && old(tasks[i].status).New? ==>
                tasks[i].status == Started && Micros(tasks[i].deadline) == Micros(ticks[i]) + Micros(tasks[i].delay)
      ensures forall i :: 0 <= i < |tasks| && !old(tasks[i].status).New? ==>
                tasks[i].status == old(tasks[i].status) && tasks[i].deadline == old(tasks[i].deadline)
      ensures log == [] && (forall i :: 0 <= i < |tasks| ==> old(tasks[i].status).New?) ==> Initial(State(), start)
    {
      for i := 0 to |tasks|
        invariant Valid()
        invariant forall j :: i <= j < |tasks| ==> tasks[j].State() == old(tasks[j].State())
        invariant forall j :: 0 <= j < i ==> tasks[j].State() == StartedAt(old(tasks[j].State()), Micros(ticks[j]))
      {
        if tasks[i].status == New {
          tasks[i].status := Started;
          tasks[i].ResetDeadline(ticks[i]);
        }
      }
      clock := start;
    }

    /** The deadline the wait is computed from, if there is any; finished tasks are not left out. */
    method GetNextDeadline(externalDeadline: Option<Timeval>) returns (next: Option<Timeval>)
      requires Valid() && (externalDeadline.Some? ==> Normal(externalDeadline.value))
      ensures next.None? <==> tasks == [] && externalDeadline.None?
      ensures next.Some? ==> Normal(next.value)
      ensures externalDeadline.Some? ==> Micros(next.value) == Earliest(States(), Micros(externalDeadline.value))
      ensures externalDeadline.None? && next.Some? ==>
                && (exists i :: 0 <= i < |tasks| && next.value == tasks[i].deadline)
                && forall i :: 0 <= i < |tasks| ==> Micros(next.value) <= Micros(tasks[i].deadline)
    {
      if |tasks| == 0 {
        return externalDeadline;
      }
      var earliest := tasks[0].deadline;
      for i := 1 to |tasks|
        invariant Normal(earliest)
        invariant exists j :: 0 <= j < i && earliest == tasks[j].deadline
        invariant forall j :: 0 <= j < i ==> Micros(earliest) <= Micros(tasks[j].deadline)
      {
        if Less(tasks[i].deadline, earliest) {
          earliest := tasks[i].deadline;
        }
      }
      if externalDeadline.Some? {
        ghost var all := States();
        assert forall j :: 0 <= j < |tasks| ==> all[j].deadline == Micros(tasks[j].deadline);
        earliest := Min(earliest, externalDeadline.value);
      }
      return Some(earliest);
    }

    /** The pass after a wait that timed out: `now` is read first, `ticks` behind each task's turn. */
    method RunDue(now: Timeval, ticks: seq<Timeval>)
      requires Valid() && Normal(now) && |ticks| == |tasks| && AllNormal(ticks)
      modifies this`log, this`clock, tasks
      ensures Valid() && tasks == old(tasks)
      ensures State() == OnPass(old(State()), Pass(Micros(now), AllMicros(ticks)))
    {
      ghost var before, p := State(), Pass(Micros(now), AllMicros(ticks));
      clock := Micros(now);
      for i := 0 to |tasks|
        invariant Valid() && tasks == old(tasks)
        invariant State() == Attended(before, p, i)
      {
        RunIfDue(i, now, ticks[i]);
      }
    }

    method RunIfDue(i: nat, now: Timeval, tick: Timeval)
      requires Valid() && i < |tasks| && Normal(now) && Normal(tick)
      modifies this`log, this`clock, tasks
      ensures Valid() && tasks == old(tasks)
      ensures State() == Attend(old(State()), i, Micros(now), Micros(tick))
    {
      var task := tasks[i];
      if task.status != Done && AtLeast(now, task.deadline) {
        log := log + [Execution(i, Micros(now), Micros(tick))];
        if task.isRecurrent {
          task.ResetDeadline(tick);
        } else {
          task.status := Done;
        }
      }
      clock := Micros(tick);
      assert forall j :: 0 <= j < |tasks| && j != i ==> tasks[j].State() == old(tasks[j].State());
    }
  }
}
