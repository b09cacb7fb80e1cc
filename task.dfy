/**
 * The task executor of src/task.rs: a FIFO queue of resumable tasks of which
 * only the front one is stepped. A task is modelled as a countdown: it
 * reports `Continuing` while steps remain and `Done` on its last step.
 */
module Tasks {
  import opened Wrappers

  datatype Status = Done | Continuing

  /** A task that reports `Done` after `remaining` more `Continuing` steps. */
  datatype Countdown = Countdown(id: nat, remaining: nat)

  /** `execute_one` of a countdown task: its new state and its status. */
  function ExecuteOne(t: Countdown): (r: (Countdown, Status))
    ensures r.0.id == t.id
    ensures r.1 == Done <==> t.remaining == 0
    ensures r.1 == Continuing ==> r.0.remaining + 1 == t.remaining
  {
    if t.remaining == 0 then (t, Done) else (t.(remaining := t.remaining - 1), Continuing)
  }

  /** The queue after one `run_step`. */
  function RunStepped(q: seq<Countdown>): seq<Countdown> {
    if q == [] then []
    else
      var (t, status) := ExecuteOne(q[0]);
      if status == Done then q[1..] else [t] + q[1..]
  }

  /** The ids of the tasks `run` steps, one per step, for queue `q`. */
  function Schedule(q: seq<Countdown>): seq<nat>
    decreases |q|
  {
    if q == [] then [] else Repeat(q[0].id, q[0].remaining + 1) + Schedule(q[1..])
  }

  /** `n` copies of `id`. */
  function Repeat(id: nat, n: nat): (r: seq<nat>)
    ensures |r| == n && forall k :: 0 <= k < n ==> r[k] == id
  {
    if n == 0 then [] else [id] + Repeat(id, n - 1)
  }

  /** The number of steps `run` makes for queue `q`. */
  function Total(q: seq<Countdown>): nat
    decreases |q|
  {
    if q == [] then 0 else q[0].remaining + 1 + Total(q[1..])
  }

  class Executor {
    var stack: seq<Countdown>
    /** The ids of the tasks stepped so far, in order. */
    ghost var trace: seq<nat>

    /** `Executor::new`: an empty queue. */
    constructor ()
      ensures stack == [] && trace == []
    {
      stack := [];
      trace := [];
    }

    /** `stack`: `push_back`. */
    method Stack(task: Countdown)
      modifies this
      ensures stack == old(stack) + [task] && trace == old(trace)
    {
      stack := stack + [task];
    }

    method Clear()
      modifies this
      ensures stack == [] && trace == old(trace)
    {
      stack := [];
    }

    /** `execute_task`: steps the front task in place, if any. */
    method ExecuteTask() returns (r: Option<Status>)
      modifies this
      ensures old(stack) == [] ==> r == None && stack == old(stack) && trace == old(trace)
      ensures old(stack) != [] ==>
                r == Some(ExecuteOne(old(stack)[0]).1) &&
                stack == [ExecuteOne(old(stack)[0]).0] + old(stack)[1..] &&
                trace == old(trace) + [old(stack)[0].id]
    {
      if |stack| > 0 {
        var (task, status) := ExecuteOne(stack[0]);
        trace := trace + [stack[0].id];
        stack := [task] + stack[1..];
        r := Some(status);
      } else {
        r := None;
      }
    }

    /** `run_step`: one step of the front task, popped when it reports `Done`. */
    method RunStep()
      modifies this
      ensures stack == RunStepped(old(stack))
      ensures old(stack) == [] ==> trace == old(trace)
      ensures old(stack) != [] ==> trace == old(trace) + [old(stack)[0].id]
    {
      var maybeStatus := ExecuteTask();
      if maybeStatus == Some(Done) {
        stack := stack[1..];
      }
    }

    /** `run`: steps the queue until it is empty. */
    method Run()
      modifies this
      ensures stack == []
      ensures trace == old(trace) + Schedule(old(stack))
    {
      while stack != []
        invariant trace + Schedule(stack) == old(trace) + Schedule(old(stack))
        decreases Total(stack)
      {
        ghost var before := stack;
        ScheduleUnfolds(before);
        var maybeStatus := ExecuteTask();
        if maybeStatus == Some(Done) {
          stack := stack[1..];
        }
        assert stack == RunStepped(before);
      }
    }
  }

  /**
   * The schedule of a non-empty queue is its front task followed by the
   * schedule of the queue after one `run_step`, which takes one step fewer.
   */
  lemma ScheduleUnfolds(q: seq<Countdown>)
    requires q != []
    ensures Schedule(q) == [q[0].id] + Schedule(RunStepped(q))
    ensures Total(RunStepped(q)) + 1 == Total(q)
  {
    var t := q[0];
    var p := RunStepped(q);
    var rest := Schedule(q[1..]);
    assert Schedule(q) == Repeat(t.id, t.remaining + 1) + rest;
    if t.remaining > 0 {
      var t' := t.(remaining := t.remaining - 1);
      assert p == [t'] + q[1..];
      assert p[0] == t' && p[1..] == q[1..];
      assert Schedule(p) == Repeat(t.id, t.remaining) + rest;
      assert Repeat(t.id, t.remaining + 1) == [t.id] + Repeat(t.id, t.remaining);
      AppendAssoc([t.id], Repeat(t.id, t.remaining), rest);
    } else {
      assert p == q[1..];
      assert Repeat(t.id, 1) == [t.id];
    }
  }

  lemma AppendAssoc(a: seq<nat>, b: seq<nat>, c: seq<nat>)
    ensures (a + b) + c == a + (b + c)
  {
  }

  /** `run` makes exactly `Total(q)` steps. */
  lemma {:induction false} ScheduleLength(q: seq<Countdown>)
    ensures |Schedule(q)| == Total(q)
    decreases |q|
  {
    if q != [] {
      ScheduleLength(q[1..]);
    }
  }

  /**
   * `run` is FIFO: every step of task `i` comes before every step of a later
   * task `j`, and task `i` is stepped `remaining + 1` times in a row.
   */
  lemma {:induction false} ScheduleIsFifo(q: seq<Countdown>, i: nat)
    requires i < |q|
    ensures Schedule(q) == Schedule(q[..i]) + Repeat(q[i].id, q[i].remaining + 1) + Schedule(q[i + 1..])
    decreases i
  {
    if i == 0 {
      assert Schedule(q[..0]) == [];
    } else {
      ScheduleIsFifo(q[1..], i - 1);
      assert q[1..][..i - 1] == q[..i][1..];
      assert q[1..][i - 1 + 1..] == q[i + 1..];
      assert q[..i][0] == q[0];
    }
  }

  /** A `run_step` on an empty queue changes nothing; otherwise only the front task changes or leaves. */
  lemma RunSteppedSpec(q: seq<Countdown>)
    ensures q == [] ==> RunStepped(q) == []
    ensures q != [] && q[0].remaining == 0 ==> RunStepped(q) == q[1..]
    ensures q != [] && q[0].remaining > 0 ==>
              |RunStepped(q)| == |q| && RunStepped(q)[0] == q[0].(remaining := q[0].remaining - 1) &&
              RunStepped(q)[1..] == q[1..]
  {
  }

  /** Stacking keeps the queued tasks in order ahead of the new one. */
  lemma StackKeepsOrder(q: seq<Countdown>, t: Countdown)
    ensures Schedule(q + [t]) == Schedule(q) + Repeat(t.id, t.remaining + 1)
  {
    ScheduleIsFifo(q + [t], |q|);
    assert (q + [t])[..|q|] == q;
    assert (q + [t])[|q| + 1..] == [];
  }
}
