/**
 * The next-task decision (Decide_WhatNextTask) and the current/next handoff
 * done by PendSV_Handler, as functions of the part of the scheduler state
 * they touch. The scheduler's methods are proved to compute exactly these.
 */
module Decision {
  import opened TaskTable

  /** The task store, the ready-queue contents (oldest first), the current and the next task. */
  datatype Snapshot = Snapshot(tasks: seq<Task>, queue: seq<TaskRef>, current: TaskRef, next: Option<TaskRef>)

  ghost predicate WellFormed(s: Snapshot)
  {
    && s.current < |s.tasks|
    && (s.next.Some? ==> s.next.value < |s.tasks|)
    && Refs(s.tasks, s.queue)
  }

  function SetState(tasks: seq<Task>, r: TaskRef, st: TaskState): (t: seq<Task>)
    requires r < |tasks|
    ensures |t| == |tasks| && t[r] == tasks[r].(state := st)
    ensures forall x :: 0 <= x < |tasks| && x != r ==> t[x] == tasks[x]
  {
    tasks[r := tasks[r].(state := st)]
  }

  /**
   * Decide_WhatNextTask. With an empty queue and a current task that is not
   * suspended, the current task keeps running and is queued again. Otherwise
   * the queue head becomes the next task (if the queue is empty the next
   * reference is left as it was) and is marked Running; the current task, if
   * not suspended and of the same priority, goes back to the queue as Ready.
   * With no task to take at all the source dereferences a null next task;
   * here that case changes nothing.
   */
  function DecideNext(s: Snapshot): (r: Snapshot)
    requires WellFormed(s)
    ensures WellFormed(r) && |r.tasks| == |s.tasks| && r.current == s.current
  {
    var cur := s.current;
    if |s.queue| == 0 && s.tasks[cur].state != Suspend then
      s.(tasks := SetState(s.tasks, cur, Running), queue := [cur], next := Some(cur))
    else
      var nxt := if |s.queue| > 0 then Some(s.queue[0]) else s.next;
      var q := if |s.queue| > 0 then s.queue[1..] else s.queue;
      if nxt.None? then s.(queue := q)
      else
        var n := nxt.value;
        var t1 := SetState(s.tasks, n, Running);
        if t1[cur].priority == t1[n].priority && t1[cur].state != Suspend then
          Snapshot(SetState(t1, cur, Ready), q + [cur], cur, nxt)
        else
          Snapshot(t1, q, cur, nxt)
  }

  /** The pointer handoff of PendSV_Handler: a pending next task becomes current. */
  function Handoff(s: Snapshot): (r: Snapshot)
    requires WellFormed(s)
    ensures WellFormed(r) && r.next == None && r.tasks == s.tasks && r.queue == s.queue
    ensures r.current == if s.next.Some? then s.next.value else s.current
  {
    if s.next.Some? then s.(current := s.next.value, next := None) else s
  }

  /** One tick's worth of scheduling when no timeout expires: decide, then switch. */
  function Step(s: Snapshot): Snapshot
    requires WellFormed(s)
  {
    Handoff(DecideNext(s))
  }

  function Steps(s: Snapshot, k: nat): (r: Snapshot)
    requires WellFormed(s)
    ensures WellFormed(r)
    decreases k
  {
    if k == 0 then s else Steps(Step(s), k - 1)
  }

  /**
   * The outcomes of the decision step. The next task is the queue head, or
   * the current task when the queue is empty and the current task can run;
   * only the current task is ever put back, at the back of the queue, so the
   * queue never grows except from empty to the current task; and only the
   * next and the current task change state.
   */
  lemma DecideOutcome(s: Snapshot)
    requires WellFormed(s)
    ensures var r := DecideNext(s);
      && (|s.queue| == 0 && s.tasks[s.current].state != Suspend ==>
            r.next == Some(s.current) && r.queue == [s.current] && r.tasks[s.current].state == Running)
      && (|s.queue| > 0 ==>
            && r.next == Some(s.queue[0])
            && (r.queue == s.queue[1..] || r.queue == s.queue[1..] + [s.current])
            && (r.queue == s.queue[1..] + [s.current] <==>
                  (s.tasks[s.current].priority == s.tasks[s.queue[0]].priority
                   && (s.current == s.queue[0] || s.tasks[s.current].state != Suspend)))
            && r.tasks[s.queue[0]].state == (if r.queue == s.queue[1..] + [s.current] && s.current == s.queue[0] then Ready else Running)
            && (s.current != s.queue[0] ==>
                  r.tasks[s.current].state == (if r.queue == s.queue[1..] + [s.current] then Ready else s.tasks[s.current].state)))
      && |r.queue| <= (if |s.queue| == 0 then 1 else |s.queue|)
      && (forall x :: 0 <= x < |s.tasks| && x != s.current && (r.next.None? || x != r.next.value) ==> r.tasks[x] == s.tasks[x])
      && (forall x :: 0 <= x < |s.tasks| ==> r.tasks[x].priority == s.tasks[x].priority)
  {
  }

  /** Two distinct tasks of one priority, one current and the other alone in the queue, both able to run. */
  ghost predicate Alternating(s: Snapshot, a: TaskRef, b: TaskRef)
  {
    && WellFormed(s)
    && a != b && a < |s.tasks| && b < |s.tasks|
    && s.tasks[a].priority == s.tasks[b].priority
    && s.current == a && s.queue == [b]
    && s.tasks[a].state != Suspend && s.tasks[b].state != Suspend
  }

  lemma RoundRobinStep(s: Snapshot, a: TaskRef, b: TaskRef)
    requires Alternating(s, a, b)
    ensures Alternating(Step(s), b, a)
    ensures Step(s).tasks[b].state == Running && Step(s).tasks[a].state == Ready
    ensures forall x :: 0 <= x < |s.tasks| && x != a && x != b ==> Step(s).tasks[x] == s.tasks[x]
  {
  }

  /**
   * Round robin: from such a state, decision plus handoff makes the two
   * tasks take turns, tick after tick, and no other task runs or changes.
   */
  /** Whose turn it is after `k` steps, starting with `a`: `a` and `b` alternate. */
  function Turn(a: TaskRef, b: TaskRef, k: nat): (r: TaskRef)
    ensures r == a || r == b
    decreases k
  {
    if k == 0 then a else Turn(b, a, k - 1)
  }

  lemma {:induction false} TurnParity(a: TaskRef, b: TaskRef, k: nat)
    ensures Turn(a, b, 2 * k) == a && Turn(a, b, 2 * k + 1) == b
  {
    if k > 0 {
      TurnParity(a, b, k - 1);
      assert Turn(a, b, 2 * k) == Turn(b, a, 2 * (k - 1) + 1);
    }
  }

  lemma {:induction false} RoundRobinAlternates(s: Snapshot, a: TaskRef, b: TaskRef, k: nat)
    requires Alternating(s, a, b)
    ensures Alternating(Steps(s, k), Turn(a, b, k), Turn(b, a, k))
    decreases k
  {
    if k > 0 {
      var s1 := Step(s);
      RoundRobinStep(s, a, b);
      RoundRobinAlternates(s1, b, a, k - 1);
      assert Steps(s, k) == Steps(s1, k - 1);
    }
  }

  /** While the two tasks take turns, no other task changes. */
  lemma {:induction false} RoundRobinLeavesOthers(s: Snapshot, a: TaskRef, b: TaskRef, k: nat)
    requires Alternating(s, a, b)
    ensures |Steps(s, k).tasks| == |s.tasks|
    ensures forall x :: 0 <= x < |s.tasks| && x != a && x != b ==> Steps(s, k).tasks[x] == s.tasks[x]
    decreases k
  {
    if k > 0 {
      var s1 := Step(s);
      RoundRobinStep(s, a, b);
      RoundRobinLeavesOthers(s1, b, a, k - 1);
      assert Steps(s, k) == Steps(s1, k - 1);
    }
  }

  /**
   * The turns are not always fair. When the running task `a` is queued
   * behind its peer `b` (as after it activates `b` itself: the rebuild queues
   * both, and the decision takes `a` and queues it again), the queue holds
   * `a` twice after the next step and the running order becomes b, a, a,
   * repeating every three steps.
   */
  lemma RoundRobinSkewAfterSelfActivation(s: Snapshot, a: TaskRef, b: TaskRef)
    requires WellFormed(s) && a != b && a < |s.tasks| && b < |s.tasks|
    requires s.tasks[a].priority == s.tasks[b].priority
    requires s.tasks[a].state != Suspend && s.tasks[b].state != Suspend
    requires s.current == a && s.queue == [b, a]
    ensures Steps(s, 1).current == b && Steps(s, 1).queue == [a, a]
    ensures Steps(s, 2).current == a && Steps(s, 2).queue == [a, b]
    ensures Steps(s, 3).current == a && Steps(s, 3).queue == [b, a]
  {
    var s1 := Step(s);
    PeerStep(s);
    assert s1.queue == [a, a];
    var s2 := Step(s1);
    PeerStep(s1);
    assert s2.queue == [a, b];
    var s3 := Step(s2);
    PeerStep(s2);
    assert s3.queue == [b, a];
    assert Steps(s2, 1) == Steps(s3, 0);
    assert Steps(s1, 1) == Steps(s2, 0);
    assert Steps(s1, 2) == Steps(s2, 1);
    assert Steps(s, 1) == Steps(s1, 0);
    assert Steps(s, 2) == Steps(s1, 1);
    assert Steps(s, 3) == Steps(s1, 2);
  }

  /**
   * A step that hands the processor to a queued peer of the current task's
   * priority: the peer becomes current, the current task goes to the back of
   * the queue as Ready, and the peer (unless it is the current task itself)
   * is Running.
   */
  lemma PeerStep(s: Snapshot)
    requires WellFormed(s) && |s.queue| > 0
    requires s.tasks[s.current].priority == s.tasks[s.queue[0]].priority
    requires s.current == s.queue[0] || s.tasks[s.current].state != Suspend
    ensures Step(s).current == s.queue[0] && Step(s).queue == s.queue[1..] + [s.current]
    ensures Step(s).tasks[s.current].state == Ready
    ensures s.queue[0] != s.current ==> Step(s).tasks[s.queue[0]].state == Running
    ensures |Step(s).tasks| == |s.tasks|
    ensures forall x :: 0 <= x < |s.tasks| ==> Step(s).tasks[x].priority == s.tasks[x].priority
  {
  }

  /**
   * "At most one task is Running" is not kept: a current task preempted by a
   * queued task of another priority keeps its Running state.
   */
  lemma PreemptedTaskStaysRunning(s: Snapshot, n: TaskRef)
    requires WellFormed(s) && s.queue == [n] && n < |s.tasks| && n != s.current
    requires s.tasks[s.current].state == Running
    requires s.tasks[n].priority != s.tasks[s.current].priority
    ensures DecideNext(s).tasks[n].state == Running
    ensures DecideNext(s).tasks[s.current].state == Running
  {
  }
}
