/** What the scheduler guarantees in every run under a clock that does not run backwards. */
module OrchestratorTheorems {
  import opened OrchestratorSpec
  import opened List

  /** Delays and kinds of tasks never change. */
  ghost predicate SameTasks(a: seq<TaskState>, b: seq<TaskState>) {
    |a| == |b| && forall i :: 0 <= i < |a| ==> a[i].delay == b[i].delay && a[i].recurrent == b[i].recurrent
  }

  /** What the log says about a task bounds its next execution from below. */
  ghost predicate Bounds(t: TaskState, e: Execution, clock: nat) {
    && e.from <= e.to <= clock
    && if t.recurrent then t.deadline >= e.to + t.delay else t.status == Done
  }

  ghost predicate Bounded(tasks: seq<TaskState>, log: seq<Execution>, clock: nat) {
    forall k :: 0 <= k < |log| ==> log[k].task < |tasks| && Bounds(tasks[log[k].task], log[k], clock)
  }

  /** Two executions of one task: it is recurrent, and at least its delay lies between them. */
  ghost predicate Apart(tasks: seq<TaskState>, a: Execution, b: Execution) {
    a.task == b.task < |tasks| ==> tasks[b.task].recurrent && b.from >= a.to + tasks[b.task].delay
  }

  ghost predicate Spaced(tasks: seq<TaskState>, log: seq<Execution>) {
    forall k, l :: 0 <= k < l < |log| ==> Apart(tasks, log[k], log[l])
  }

  /** Nothing ran, or will run, before the first deadline. */
  ghost predicate Late(tasks: seq<TaskState>, log: seq<Execution>, start: nat) {
    && (forall i :: 0 <= i < |tasks| ==> tasks[i].deadline >= start + tasks[i].delay)
    && (forall k :: 0 <= k < |log| ==> log[k].task < |tasks| && log[k].from >= start + tasks[log[k].task].delay)
  }

  ghost predicate Inv(s: Schedule, start: nat) {
    start <= s.clock && Bounded(s.tasks, s.log, s.clock) && Spaced(s.tasks, s.log) && Late(s.tasks, s.log, start)
  }

  lemma AttendKeeps(s: Schedule, i: nat, now: nat, tick: nat, start: nat)
    requires i < |s.tasks| && Inv(s, start) && now <= s.clock <= tick
    ensures Inv(Attend(s, i, now, tick), start)
    ensures SameTasks(s.tasks, Attend(s, i, now, tick).tasks)
  {
    var next := Attend(s, i, now, tick);
    if Due(s.tasks[i], now) {
      forall k | 0 <= k < |s.log|
        ensures Apart(next.tasks, s.log[k], Execution(i, now, tick))
      {
        assert Bounds(s.tasks[s.log[k].task], s.log[k], s.clock);
      }
      assert forall k, l :: 0 <= k < l < |s.log| ==>
          Apart(s.tasks, s.log[k], s.log[l]) == Apart(next.tasks, s.log[k], s.log[l]);
      assert Spaced(next.tasks, next.log);
    }
  }

  lemma {:induction false} AttendedKeeps(s: Schedule, p: Pass, k: nat, start: nat)
    requires k <= |s.tasks| == |p.ticks| && Inv(s, start) && Monotone(s.clock, p)
    ensures var r := Attended(s, p, k);
            && Inv(r, start) && SameTasks(s.tasks, r.tasks)
            && p.now <= r.clock == Reading(p, k)
  {
    if k > 0 {
      AttendedKeeps(s, p, k - 1, start);
      assert Reading(p, k - 1) <= Reading(p, k - 1 + 1);
      AttendKeeps(Attended(s, p, k - 1), k - 1, p.now, p.ticks[k - 1], start);
    }
  }

  lemma {:induction false} RunKeeps(first: Schedule, passes: seq<Pass>, start: nat)
    requires Initial(first, start) && Possible(first, passes)
    ensures Inv(After(first, passes), start) && SameTasks(first.tasks, After(first, passes).tasks)
  {
    if |passes| > 0 {
      var init := passes[..|passes| - 1];
      RunKeeps(first, init, start);
      AttendedKeeps(After(first, init), passes[|passes| - 1], |first.tasks|, start);
    }
  }

  /** No task runs before its delay has passed since the start. */
  lemma NeverEarly(first: Schedule, passes: seq<Pass>, start: nat, k: nat)
    requires Initial(first, start) && Possible(first, passes) && k < |After(first, passes).log|
    ensures var e := After(first, passes).log[k];
            e.task < |first.tasks| && start + first.tasks[e.task].delay <= e.from <= e.to
  {
    RunKeeps(first, passes, start);
    var s := After(first, passes);
    assert Bounds(s.tasks[s.log[k].task], s.log[k], s.clock);
  }

  /** Two executions of a task are at least its delay apart, and a one-shot task runs at most once. */
  lemma Separation(first: Schedule, passes: seq<Pass>, start: nat, k: nat, l: nat)
    requires Initial(first, start) && Possible(first, passes)
    requires k < l < |After(first, passes).log|
    requires After(first, passes).log[k].task == After(first, passes).log[l].task
    ensures var a, b := After(first, passes).log[k], After(first, passes).log[l];
            a.task < |first.tasks| && first.tasks[a.task].recurrent && b.from >= a.to + first.tasks[a.task].delay
  {
    RunKeeps(first, passes, start);
    var s := After(first, passes);
    assert Apart(s.tasks, s.log[k], s.log[l]);
  }

  lemma {:induction false} AttendedRuns(s: Schedule, p: Pass, k: nat, i: nat)
    requires k <= |s.tasks| == |p.ticks| && i < |s.tasks|
    ensures var r := Attended(s, p, k);
            && s.log <= r.log && (i >= k ==> r.tasks[i] == s.tasks[i])
            && (forall l :: |s.log| <= l < |r.log| ==> r.log[l].task < k)
            && (Execution(i, p.now, p.ticks[i]) in r.log[|s.log|..] <==> i < k && Due(s.tasks[i], p.now))
  {
    if k > 0 {
      var before, r, e := Attended(s, p, k - 1), Attended(s, p, k), Execution(k - 1, p.now, p.ticks[k - 1]);
      AttendedRuns(s, p, k - 1, i);
      AttendedRuns(s, p, k - 1, k - 1);
      if Due(before.tasks[k - 1], p.now) {
        assert r.log[|s.log|..] == before.log[|s.log|..] + [e];
      } else {
        assert r.log == before.log;
      }
    }
  }

  /** A task after its turn: not yet its deadline, done, or executed, with its delay still to go. */
  ghost predicate Served(t: TaskState, t': TaskState, now: nat, tick: nat) {
    if t.status == Done || now < t.deadline then t' == t
    else
      && t'.delay == t.delay && t'.recurrent == t.recurrent
      && (t.recurrent ==> t'.status == t.status && t'.deadline == tick + t.delay)
      && (!t.recurrent ==> t'.status == Done && t'.deadline == t.deadline)
  }

  lemma {:induction false} AttendedServes(s: Schedule, p: Pass, k: nat, i: nat)
    requires k <= |s.tasks| == |p.ticks| && i < k
    ensures Served(s.tasks[i], Attended(s, p, k).tasks[i], p.now, p.ticks[i])
  {
    AttendedRuns(s, p, k - 1, k - 1);
    if i < k - 1 {
      AttendedServes(s, p, k - 1, i);
    }
  }

  lemma {:induction false} AttendedInOrder(s: Schedule, p: Pass, k: nat)
    requires k <= |s.tasks| == |p.ticks|
    ensures var log := Attended(s, p, k).log;
            forall a, b :: |s.log| <= a < b < |log| ==> log[a].task < log[b].task
  {
    if k > 0 {
      AttendedInOrder(s, p, k - 1);
      AttendedRuns(s, p, k - 1, k - 1);
    }
  }

  /**
   A pass executes exactly those tasks that were not done and whose deadline had come when it began,
   each once, in their order. A recurrent one is due again its delay after its execution ended, a
   one-shot one is done.
   */
  lemma PassRunsDue(s: Schedule, p: Pass, i: nat)
    requires i < |s.tasks| == |p.ticks|
    ensures s.log <= OnPass(s, p).log
    ensures Execution(i, p.now, p.ticks[i]) in OnPass(s, p).log[|s.log|..]
       <==> s.tasks[i].status != Done && p.now >= s.tasks[i].deadline
    ensures var log := OnPass(s, p).log; forall a, b :: |s.log| <= a < b < |log| ==> log[a].task < log[b].task
    ensures Served(s.tasks[i], OnPass(s, p).tasks[i], p.now, p.ticks[i])
  {
    AttendedRuns(s, p, |s.tasks|, i);
    AttendedInOrder(s, p, |s.tasks|);
    AttendedServes(s, p, |s.tasks|, i);
  }

  // ---------------------------------------------------------------- when a task runs

  /** The last execution of a task so far. */
  function LastRun(log: seq<Execution>, i: nat): Option<Execution> {
    if |log| == 0 then None
    else if log[|log| - 1].task == i then Some(log[|log| - 1])
    else LastRun(log[..|log| - 1], i)
  }

  /** A task that started out as `t`, after what the log says about it. */
  ghost predicate Follows(t: TaskState, t': TaskState, last: Option<Execution>) {
    match last
    case None => t' == t
    case Some(e) => if t.recurrent then t' == t.(deadline := e.to + t.delay) else t' == t.(status := Done)
  }

  ghost predicate AllFollow(first: Schedule, s: Schedule) {
    && |first.tasks| == |s.tasks|
    && forall i :: 0 <= i < |s.tasks| ==> Follows(first.tasks[i], s.tasks[i], LastRun(s.log, i))
  }

  lemma AttendFollows(first: Schedule, s: Schedule, k: nat, now: nat, tick: nat)
    requires k < |s.tasks| && AllFollow(first, s)
    ensures AllFollow(first, Attend(s, k, now, tick))
  {
    var next := Attend(s, k, now, tick);
    if Due(s.tasks[k], now) {
      assert next.log[..|next.log| - 1] == s.log;
    }
  }

  lemma {:induction false} AttendedFollows(first: Schedule, s: Schedule, p: Pass, k: nat)
    requires k <= |s.tasks| == |p.ticks| && AllFollow(first, s)
    ensures AllFollow(first, Attended(s, p, k))
  {
    if k > 0 {
      AttendedFollows(first, s, p, k - 1);
      AttendFollows(first, Attended(s, p, k - 1), k - 1, p.now, p.ticks[k - 1]);
    }
  }

  lemma {:induction false} RunFollows(first: Schedule, passes: seq<Pass>, start: nat)
    requires Initial(first, start) && Possible(first, passes)
    ensures AllFollow(first, After(first, passes))
  {
    if |passes| > 0 {
      RunFollows(first, passes[..|passes| - 1], start);
      AttendedFollows(first, After(first, passes[..|passes| - 1]), passes[|passes| - 1], |first.tasks|);
    }
  }

  /**
   In every run a pass executes a task if and only if it has not run yet and its first deadline has
   come, or it is recurrent and its delay has passed since its last execution ended.
   */
  lemma RunsExactly(first: Schedule, passes: seq<Pass>, start: nat, p: Pass, i: nat)
    requires Initial(first, start) && Possible(first, passes)
    requires i < |first.tasks| == |p.ticks|
    ensures var s, t := After(first, passes), first.tasks[i];
            s.log <= OnPass(s, p).log
            && (Execution(i, p.now, p.ticks[i]) in OnPass(s, p).log[|s.log|..]
            <==> match LastRun(s.log, i)
                 case None => p.now >= t.deadline
                 case Some(e) => t.recurrent && p.now >= e.to + t.delay)
  {
    RunFollows(first, passes, start);
    PassRunsDue(After(first, passes), p, i);
  }

  // ---------------------------------------------------------------- the wait

  /** The earliest deadline of all tasks and of the run itself. */
  function Earliest(tasks: seq<TaskState>, external: nat): (r: nat)
    ensures r <= external && forall i :: 0 <= i < |tasks| ==> r <= tasks[i].deadline
    ensures r == external || exists i :: 0 <= i < |tasks| && r == tasks[i].deadline
  {
    if |tasks| == 0 then external
    else
      var rest, t := Earliest(tasks[..|tasks| - 1], external), tasks[|tasks| - 1];
      if t.deadline < rest then t.deadline else rest
  }

  function Wait(tasks: seq<TaskState>, external: nat, now: nat): nat {
    var deadline := Earliest(tasks, external);
    if deadline > now then deadline - now else 0
  }

  /**
   The wait never passes a deadline, and there is none exactly when some deadline has passed; otherwise
   it ends at one.
   */
  lemma WaitExact(tasks: seq<TaskState>, external: nat, now: nat)
    ensures forall i :: 0 <= i < |tasks| && tasks[i].deadline > now ==>
              now + Wait(tasks, external, now) <= tasks[i].deadline
    ensures external > now ==> now + Wait(tasks, external, now) <= external
    ensures Wait(tasks, external, now) == 0
       <==> external <= now || exists i :: 0 <= i < |tasks| && tasks[i].deadline <= now
    ensures Wait(tasks, external, now) > 0 ==>
              || external == now + Wait(tasks, external, now)
              || exists i :: 0 <= i < |tasks| && tasks[i].deadline == now + Wait(tasks, external, now)
  {
    var earliest := Earliest(tasks, external);
    if earliest <= now && external > now {
      var i :| 0 <= i < |tasks| && earliest == tasks[i].deadline;
      assert tasks[i].deadline <= now;
    }
  }

  ghost predicate DoneInPast(s: Schedule) {
    forall i :: 0 <= i < |s.tasks| && s.tasks[i].status == Done ==> s.tasks[i].deadline <= s.clock
  }

  lemma {:induction false} AttendedDone(s: Schedule, p: Pass, k: nat, start: nat)
    requires k <= |s.tasks| == |p.ticks| && Monotone(s.clock, p) && DoneInPast(s) && Inv(s, start)
    ensures DoneInPast(Attended(s, p, k))
  {
    AttendedKeeps(s, p, k, start);
    if k > 0 {
      AttendedDone(s, p, k - 1, start);
      AttendedKeeps(s, p, k - 1, start);
    }
  }

  lemma {:induction false} RunDone(first: Schedule, passes: seq<Pass>, start: nat)
    requires Initial(first, start) && Possible(first, passes)
    ensures DoneInPast(After(first, passes))
  {
    if |passes| > 0 {
      var init := passes[..|passes| - 1];
      RunDone(first, init, start);
      RunKeeps(first, init, start);
      AttendedDone(After(first, init), passes[|passes| - 1], |first.tasks|, start);
    }
  }

  /** A finished one-shot task keeps its old deadline, so from then on the scheduler never waits. */
  lemma NoWaitAfterOneShot(first: Schedule, passes: seq<Pass>, start: nat, i: nat, external: nat, now: nat)
    requires Initial(first, start) && Possible(first, passes) && i < |first.tasks|
    requires After(first, passes).tasks[i].status == Done && now >= After(first, passes).clock
    ensures Wait(After(first, passes).tasks, external, now) == 0
  {
    RunDone(first, passes, start);
  }
}
