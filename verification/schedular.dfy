/**
 * The kernel state of Schedular.c: the OS_Control record, the ready queue
 * and its static buffer, the mutex tracking array, the task records and the
 * process-stack memory the kernel writes, as one `Scheduler` object; and the
 * Mutex_Config records as `Mutex` objects. Every handler entry (an SVC or a
 * SysTick) is one method, run to completion.
 */
module Schedular {
  import opened TaskTable
  import opened ReadyScan
  import opened Decision
  import Fifo

  /** Capacity of OS_Tasks and of the ready-queue buffer. */
  const MaxTasks: nat := 100
  const QueueCapacity: nat := 100
  /** NUM_TASKS_ACQUIRED_MUTEX. */
  const TrackingSlots: nat := 10

  /** The idle task record (MYRTOS_IdleTask) is the first record of the store. */
  const IdleRef: TaskRef := 0
  const IdleName: string := "idleTask"
  const IdleStackSize: Word := 300

  /** SVC_ID: the service numbers the SVC handler dispatches on. */
  type Byte = x: int | 0 <= x < 256
  const SvcActivateTask: Byte := 0
  const SvcTerminateTask: Byte := 1
  const SvcTaskWaitingTime: Byte := 2
  const SvcAcquireMutex: Byte := 3
  const SvcReleaseMutex: Byte := 4

  /** MYRTOS_errorID. */
  datatype ErrorId = NoError | ReadyQueueInitError | TaskExceededStackSize | MutexReachedMaximumNumber | MutexPreventDeadlock

  datatype OsMode = OsSuspend | OsRunning

  /** A zero-initialised Task_Config. */
  const ZeroTask: Task := Task("", 0, 0, 0, 0, 0, 0, Suspend, BlockingDisable, 0)

  // ---------------------------------------------------------------------
  // Specification functions
  // ---------------------------------------------------------------------

  /** The store after the rebuild marks the tasks of `run` Ready. */
  function MarkReady(tasks: seq<Task>, run: seq<TaskRef>): seq<Task>
  {
    seq(|tasks|, x requires 0 <= x < |tasks| => if x in run then tasks[x].(state := Ready) else tasks[x])
  }

  /** The rebuild only queues table entries that are not suspended. */
  lemma ReadyRunEligible(tasks: seq<Task>, tab: seq<TaskRef>)
    requires Refs(tasks, tab)
    ensures var q := ReadyRun(View(tasks, tab));
      forall m :: 0 <= m < |q| ==> q[m] in tab && tasks[q[m]].state != Suspend
  {
    var v := View(tasks, tab);
    var q := ReadyRun(v);
    FirstEligibleFromSpec(v, 0);
    var k := FirstEligible(v);
    if k < |v| {
      RunFromElems(v, k);
      forall m | 0 <= m < |q|
        ensures q[m] in tab && tasks[q[m]].state != Suspend
      {
        assert q[m] == v[k + m].ref && q[m] == tab[k + m] && !v[k + m].suspended;
      }
    }
  }

  /** Marking eligible tasks Ready changes exactly those tasks, and only their state. */
  lemma MarkReadyEffect(tasks: seq<Task>, run: seq<TaskRef>)
    requires forall m :: 0 <= m < |run| ==> run[m] < |tasks| && tasks[run[m]].state != Suspend
    ensures var t := MarkReady(tasks, run);
      && |t| == |tasks|
      && (forall m :: 0 <= m < |run| ==> t[run[m]].state == Ready)
      && (forall x :: 0 <= x < |tasks| && x !in run ==> t[x] == tasks[x])
      && (forall x :: 0 <= x < |tasks| ==> t[x].priority == tasks[x].priority && t[x].name == tasks[x].name)
      && (forall x :: 0 <= x < |tasks| && tasks[x].state == Suspend ==> t[x] == tasks[x])
  {
  }

  /** Marking unsuspended tasks Ready leaves the scan's view of the table as it was. */
  lemma MarkReadyView(tasks: seq<Task>, run: seq<TaskRef>, tab: seq<TaskRef>)
    requires Refs(tasks, tab)
    requires forall m :: 0 <= m < |run| ==> run[m] < |tasks| && tasks[run[m]].state != Suspend
    ensures Refs(MarkReady(tasks, run), tab)
    ensures View(MarkReady(tasks, run), tab) == View(tasks, tab)
  {
    MarkReadyEffect(tasks, run);
    ViewFrame(tasks, MarkReady(tasks, run), tab);
  }

  /**
   * On a priority-sorted table the rebuild queues nothing exactly when every
   * entry is suspended, and every queued task is of the most urgent priority
   * among the eligible ones.
   */
  lemma ReadyRunSorted(tasks: seq<Task>, tab: seq<TaskRef>)
    requires Refs(tasks, tab) && SortedByPriority(tasks, tab)
    ensures var q := ReadyRun(View(tasks, tab));
      && Refs(tasks, q)
      && (q == [] <==> forall k :: 0 <= k < |tab| ==> tasks[tab[k]].state == Suspend)
      && (forall m, k :: 0 <= m < |q| && 0 <= k < |tab| && tasks[tab[k]].state != Suspend ==>
            tasks[q[m]].priority <= tasks[tab[k]].priority)
  {
    var v := View(tasks, tab);
    SortedTableView(tasks, tab);
    ReadyRunSpec(v);
    ReadyRunEligible(tasks, tab);
    var q := ReadyRun(v);
    assert forall k :: 0 <= k < |tab| ==> (v[k].suspended <==> tasks[tab[k]].state == Suspend);
    if q != [] {
      var k0 := FirstEligible(v);
      forall m, k | 0 <= m < |q| && 0 <= k < |tab| && tasks[tab[k]].state != Suspend
        ensures tasks[q[m]].priority <= tasks[tab[k]].priority
      {
        assert q[m] == v[k0 + m].ref && v[k0 + m].priority == v[k0].priority;
        assert !v[k].suspended;
      }
    }
  }

  /**
   * What the rebuild does to the store: the queued tasks are exactly the
   * eligible ones it picked, and they are the only ones that change (to
   * Ready); priorities and names never change; nothing is queued exactly when
   * every table entry is suspended; on a priority-sorted table every queued
   * task is of the most urgent priority among the eligible ones.
   */
  lemma RebuildMarksOnlyQueued(tasks: seq<Task>, tab: seq<TaskRef>)
    requires Refs(tasks, tab)
    ensures var q := ReadyRun(View(tasks, tab));
      var t := MarkReady(tasks, q);
      && |t| == |tasks|
      && Refs(tasks, q)
      && (forall m :: 0 <= m < |q| ==> q[m] in tab && tasks[q[m]].state != Suspend && t[q[m]].state == Ready)
      && (forall x :: 0 <= x < |tasks| && x !in q ==> t[x] == tasks[x])
      && (forall x :: 0 <= x < |tasks| ==> t[x].priority == tasks[x].priority && t[x].name == tasks[x].name)
      && (forall x :: 0 <= x < |tasks| && tasks[x].state == Suspend ==> t[x] == tasks[x])
      && (SortedByPriority(tasks, tab) ==>
            && (q == [] <==> forall k :: 0 <= k < |tab| ==> tasks[tab[k]].state == Suspend)
            && (forall m, k :: 0 <= m < |q| && 0 <= k < |tab| && tasks[tab[k]].state != Suspend ==>
                  tasks[q[m]].priority <= tasks[tab[k]].priority))
  {
    var q := ReadyRun(View(tasks, tab));
    ReadyRunEligible(tasks, tab);
    MarkReadyEffect(tasks, q);
    if SortedByPriority(tasks, tab) {
      ReadyRunSorted(tasks, tab);
    }
  }

  /** The table after the sort: the same entries, sorted, in a stable order. */
  ghost predicate SortedReorder(tasks: seq<Task>, tab0: seq<TaskRef>, tab: seq<TaskRef>)
  {
    && Refs(tasks, tab0) && Refs(tasks, tab)
    && SortedByPriority(tasks, tab)
    && StableReorder(tasks, tab, tab0)
    && multiset(tab) == multiset(tab0)
  }

  /** `a` is `b`, or `b` marked Ready by a rebuild, which only marks tasks that are not suspended. */
  predicate Marked(a: Task, b: Task)
  {
    a == b || (b.state != Suspend && a == b.(state := Ready))
  }

  /**
   * The outcome of one pass of the tick countdown over the table `tab`, from
   * store `t0` and queue `q0` to store `t1` and queue `q1`. Tasks off the
   * table are untouched; every table task is counted down once, possibly
   * marked Ready by a rebuild; when some task is released the queue is the
   * one the rebuild picks from the final store, otherwise nothing but the
   * countdown happened.
   */
  ghost predicate CountedDown(t0: seq<Task>, q0: seq<TaskRef>, tab: seq<TaskRef>, t1: seq<Task>, q1: seq<TaskRef>)
  {
    && Refs(t0, tab) && |t1| == |t0|
    && (forall x :: 0 <= x < |t0| && x !in tab ==> t1[x] == t0[x])
    && (forall k :: 0 <= k < |tab| ==> Marked(t1[tab[k]], CountDown(t0[tab[k]])))
    && if exists k :: 0 <= k < |tab| && Expires(t0[tab[k]]) then
         && Refs(t1, tab)
         && q1 == ReadyRun(View(t1, tab))
         && Refs(t1, q1)
         && (forall m :: 0 <= m < |q1| ==> t1[q1[m]].state == Ready)
       else
         && q1 == q0
         && (forall k :: 0 <= k < |tab| ==> t1[tab[k]] == CountDown(t0[tab[k]]))
  }

  /**
   * Per table task, what a countdown pass does: a time-blocked task loses one
   * tick; a released task is no longer time-blocked and is Waiting (or Ready
   * if a rebuild has since queued it); any other task keeps whether it is
   * suspended, its count and its blocking flag; priorities never change.
   */
  lemma CountedDownEffect(t0: seq<Task>, q0: seq<TaskRef>, tab: seq<TaskRef>, t1: seq<Task>, q1: seq<TaskRef>, k: nat)
    requires CountedDown(t0, q0, tab, t1, q1) && k < |tab|
    ensures TimeBlocked(t0[tab[k]]) ==> t1[tab[k]].ticksCount == Sub32(t0[tab[k]].ticksCount, 1)
    ensures Expires(t0[tab[k]]) ==>
              t1[tab[k]].blockTiming == BlockingDisable && t1[tab[k]].state in {Waiting, Ready}
    ensures !Expires(t0[tab[k]]) ==> (t1[tab[k]].state == Suspend <==> t0[tab[k]].state == Suspend)
    ensures !TimeBlocked(t0[tab[k]]) ==>
              t1[tab[k]].ticksCount == t0[tab[k]].ticksCount && t1[tab[k]].blockTiming == t0[tab[k]].blockTiming
    ensures t1[tab[k]].priority == t0[tab[k]].priority && t1[tab[k]].name == t0[tab[k]].name
  {
    CountDownEffect(t0[tab[k]]);
  }

  /** The words MYRTOS_Create_Stack has written after its first `k` writes below `top`. */
  function FrameMapUpTo(top: Word, entry: Word, k: nat): map<Word, Word>
    requires k <= FrameWords
  {
    if k == 0 then map[]
    else FrameMapUpTo(top, entry, k - 1)[FrameAddress(top, k - 1) := StartFrame(entry)[k - 1]]
  }

  /** The complete start frame as a memory map. */
  function FrameMap(top: Word, entry: Word): map<Word, Word>
  {
    FrameMapUpTo(top, entry, FrameWords)
  }

  /** The frame map holds exactly the sixteen start-frame words at their addresses. */
  lemma {:induction false} FrameMapUpToContents(top: Word, entry: Word, k: nat)
    requires k <= FrameWords
    ensures forall a :: a in FrameMapUpTo(top, entry, k) <==> exists i :: 0 <= i < k && a == FrameAddress(top, i)
    ensures forall i :: 0 <= i < k ==> FrameMapUpTo(top, entry, k)[FrameAddress(top, i)] == StartFrame(entry)[i]
  {
    if k > 0 {
      FrameMapUpToContents(top, entry, k - 1);
      forall i | 0 <= i < k - 1
        ensures FrameAddress(top, i) != FrameAddress(top, k - 1)
      {
        FrameAddressesDistinct(top, i, k - 1);
      }
    }
  }

  lemma FrameMapContents(top: Word, entry: Word)
    ensures forall a :: a in FrameMap(top, entry) <==> exists i :: 0 <= i < FrameWords && a == FrameAddress(top, i)
    ensures forall i :: 0 <= i < FrameWords ==> FrameMap(top, entry)[FrameAddress(top, i)] == StartFrame(entry)[i]
    ensures FrameMap(top, entry)[FrameAddress(top, 0)] == InitialXpsr
    ensures FrameMap(top, entry)[FrameAddress(top, 1)] == entry
    ensures FrameMap(top, entry)[FrameAddress(top, 2)] == ExcReturnThreadPsp
  {
    FrameMapUpToContents(top, entry, FrameWords);
  }

  /** Writing a word over a merged memory map is writing it into the overlay. */
  lemma MergeUpdate(m: map<Word, Word>, f: map<Word, Word>, a: Word, v: Word)
    ensures (m + f)[a := v] == m + f[a := v]
  {
  }

  /** Two 32-bit subtractions in a row are one subtraction of the sum. */
  lemma Sub32Twice(a: Word, b: Word, c: Word)
    requires b + c < WordModulus
    ensures Sub32(Sub32(a, b), c) == Sub32(a, b + c)
  {
  }

  /**
   * Priority inheritance: the owner runs at the more urgent of its own
   * priority and the waiter's; nothing else changes.
   */
  function InheritPriority(tasks: seq<Task>, owner: TaskRef, waiter: TaskRef): (t: seq<Task>)
    requires owner < |tasks| && waiter < |tasks|
    ensures |t| == |tasks|
    ensures t[owner] == tasks[owner].(priority := t[owner].priority)
    ensures t[owner].priority <= tasks[owner].priority && t[owner].priority <= tasks[waiter].priority
    ensures t[owner].priority == tasks[owner].priority || t[owner].priority == tasks[waiter].priority
    ensures forall x :: 0 <= x < |tasks| && x != owner ==> t[x] == tasks[x]
  {
    if tasks[owner].priority > tasks[waiter].priority then
      tasks[owner := tasks[owner].(priority := tasks[waiter].priority)]
    else
      tasks
  }

  /** The tracking array after the owner `o` gives up its mutex. */
  function Untracked(slots: seq<Option<TaskRef>>, o: TaskRef): (r: seq<Option<TaskRef>>)
    ensures |r| == |slots|
    ensures Some(o) !in r
    ensures forall j :: 0 <= j < |slots| && slots[j] != Some(o) ==> r[j] == slots[j]
    ensures forall j :: 0 <= j < |slots| && slots[j] == Some(o) ==> r[j] == None
  {
    seq(|slots|, j requires 0 <= j < |slots| => if slots[j] == Some(o) then None else slots[j])
  }

  /** A sequence without repeats holds each value at most once. */
  lemma {:induction false} DistinctCount(s: seq<TaskRef>, x: TaskRef)
    requires Distinct(s)
    ensures multiset(s)[x] <= 1
  {
    if s != [] {
      assert s == [s[0]] + s[1..];
      assert Distinct(s[1..]);
      DistinctCount(s[1..], x);
      assert s[0] !in s[1..];
    }
  }

  lemma TwoCopies(t: seq<TaskRef>, i: nat, j: nat)
    requires i < j < |t|
    ensures t[i] == t[j] ==> multiset(t)[t[i]] >= 2
  {
    assert t == t[..j] + t[j..];
    assert t[..j][i] == t[i];
    assert t[j..][0] == t[j];
  }

  /** Reordering keeps a table free of repeats. */
  lemma DistinctPermutation(s: seq<TaskRef>, t: seq<TaskRef>)
    requires Distinct(s) && multiset(s) == multiset(t)
    ensures Distinct(t)
  {
    forall i, j | 0 <= i < j < |t|
      ensures t[i] != t[j]
    {
      TwoCopies(t, i, j);
      DistinctCount(s, t[i]);
    }
  }

  /**
   * What the countdown loop expects at each table position after `i` tasks:
   * counted down before position `i`, untouched from there on.
   */
  function Expected(t0: seq<Task>, tab: seq<TaskRef>, i: nat): (e: seq<Task>)
    requires Refs(t0, tab)
    ensures |e| == |tab|
  {
    seq(|tab|, k requires 0 <= k < |tab| => if k < i then CountDown(t0[tab[k]]) else t0[tab[k]])
  }

  /**
   * Counting down table entry `i` moves the expectation from `i` to `i + 1`:
   * the entry now holds CountDown of its original record (possibly marked
   * Ready, if it was not time-blocked), and no other entry changed.
   */
  lemma CountedStep(t0: seq<Task>, tab: seq<TaskRef>, i: nat, before: seq<Task>, after: seq<Task>)
    requires Refs(t0, tab) && Distinct(tab) && i < |tab| && |before| == |t0|
    requires forall k :: 0 <= k < |tab| ==> Marked(before[tab[k]], Expected(t0, tab, i)[k])
    requires after == before[tab[i] := CountDown(before[tab[i]])]
    ensures forall k :: 0 <= k < |tab| ==> Marked(after[tab[k]], Expected(t0, tab, i + 1)[k])
    ensures (forall k :: 0 <= k < |tab| ==> before[tab[k]] == Expected(t0, tab, i)[k]) ==>
              forall k :: 0 <= k < |tab| ==> after[tab[k]] == Expected(t0, tab, i + 1)[k]
  {
    var p := tab[i];
    assert Marked(before[p], t0[p]);
    forall k | 0 <= k < |tab|
      ensures Marked(after[tab[k]], Expected(t0, tab, i + 1)[k])
    {
      if k != i {
        assert tab[k] != p;
      }
    }
    if forall k :: 0 <= k < |tab| ==> before[tab[k]] == Expected(t0, tab, i)[k] {
      forall k | 0 <= k < |tab|
        ensures after[tab[k]] == Expected(t0, tab, i + 1)[k]
      {
        if k != i {
          assert tab[k] != p;
        }
      }
    }
  }

  /**
   * The state of the countdown pass over table `tab` before entry `i`, from
   * store `t0` and queue `q0`, as store `tb` and queue `q`; `expired` says
   * whether a release (and so a rebuild) has happened yet.
   */
  ghost predicate CountingState(i: nat, t0: seq<Task>, q0: seq<TaskRef>, tab: seq<TaskRef>, expired: bool,
                                tb: seq<Task>, q: seq<TaskRef>)
  {
    && |tb| == |t0| && Refs(t0, tab) && Distinct(tab) && i <= |tab|
    && SortedByPriority(tb, tab)
    && (forall x :: 0 <= x < |t0| && x !in tab ==> tb[x] == t0[x])
    && (forall x :: 0 <= x < |t0| ==> tb[x].priority == t0[x].priority)
    && (forall k :: 0 <= k < |tab| ==> Marked(tb[tab[k]], Expected(t0, tab, i)[k]))
    && (expired <==> exists k :: 0 <= k < i && Expires(t0[tab[k]]))
    && (expired ==>
          && q == ReadyRun(View(tb, tab))
          && (forall m :: 0 <= m < |q| ==> q[m] < |tb| && tb[q[m]].state == Ready))
    && (!expired ==>
          && q == q0
          && (forall k :: 0 <= k < |tab| ==> tb[tab[k]] == Expected(t0, tab, i)[k]))
  }

  /** Entry `i` of the table, under the countdown invariant, is still as it was in `t0` unless it was marked Ready. */
  lemma CountingEntry(i: nat, t0: seq<Task>, q0: seq<TaskRef>, tab: seq<TaskRef>, expired: bool, tb: seq<Task>, q: seq<TaskRef>)
    requires CountingState(i, t0, q0, tab, expired, tb, q) && i < |tab|
    ensures Marked(tb[tab[i]], t0[tab[i]])
    ensures TimeBlocked(tb[tab[i]]) <==> TimeBlocked(t0[tab[i]])
    ensures TimeBlocked(t0[tab[i]]) ==> tb[tab[i]] == t0[tab[i]]
  {
    assert Expected(t0, tab, i)[i] == t0[tab[i]];
  }

  /** What counting down entry `i` does to the parts of the invariant that do not involve the queue. */
  lemma CountStepFacts(i: nat, t0: seq<Task>, q0: seq<TaskRef>, tab: seq<TaskRef>, expired: bool,
                       tb: seq<Task>, q: seq<TaskRef>, after: seq<Task>)
    requires CountingState(i, t0, q0, tab, expired, tb, q) && i < |tab|
    requires after == tb[tab[i] := CountDown(tb[tab[i]])]
    ensures |after| == |t0| && Refs(after, tab) && SortedByPriority(after, tab)
    ensures forall x :: 0 <= x < |t0| && x !in tab ==> after[x] == t0[x]
    ensures forall x :: 0 <= x < |t0| ==> after[x].priority == t0[x].priority
    ensures forall k :: 0 <= k < |tab| ==> Marked(after[tab[k]], Expected(t0, tab, i + 1)[k])
    ensures Expires(tb[tab[i]]) <==> Expires(t0[tab[i]])
    ensures (expired || Expires(t0[tab[i]])) <==> exists k :: 0 <= k < i + 1 && Expires(t0[tab[k]])
    ensures !expired ==> forall k :: 0 <= k < |tab| ==> after[tab[k]] == Expected(t0, tab, i + 1)[k]
  {
    CountingEntry(i, t0, q0, tab, expired, tb, q);
    CountDownEffect(tb[tab[i]]);
    CountedStep(t0, tab, i, tb, after);
    forall x | 0 <= x < |t0|
      ensures after[x].priority == t0[x].priority
    {
    }
    if Expires(t0[tab[i]]) {
      assert 0 <= i < i + 1 && Expires(t0[tab[i]]);
    }
  }

  /** Counting down entry `i` keeps the table sorted. */
  lemma CountStepSorted(i: nat, t0: seq<Task>, q0: seq<TaskRef>, tab: seq<TaskRef>, expired: bool,
                        tb: seq<Task>, q: seq<TaskRef>, after: seq<Task>)
    requires CountingState(i, t0, q0, tab, expired, tb, q) && i < |tab|
    requires after == tb[tab[i] := CountDown(tb[tab[i]])]
    ensures Refs(after, tab) && SortedByPriority(after, tab)
  {
    CountStepFacts(i, t0, q0, tab, expired, tb, q, after);
  }

  /**
   * Counting down an entry whose countdown does not expire keeps the
   * invariant, one entry further on.
   */
  lemma CountPassive(i: nat, t0: seq<Task>, q0: seq<TaskRef>, tab: seq<TaskRef>, expired: bool,
                     tb: seq<Task>, q: seq<TaskRef>, after: seq<Task>)
    requires CountingState(i, t0, q0, tab, expired, tb, q) && i < |tab|
    requires !Expires(tb[tab[i]]) && after == tb[tab[i] := CountDown(tb[tab[i]])]
    ensures CountingState(i + 1, t0, q0, tab, expired, after, q)
  {
    CountStepFacts(i, t0, q0, tab, expired, tb, q, after);
    if expired {
      CountingEntry(i, t0, q0, tab, expired, tb, q);
      CountDownEffect(tb[tab[i]]);
      ViewFrame(tb, after, tab);
    }
  }

  /**
   * A release at entry `i` followed by the rebuild it triggers keeps the
   * invariant, now with `expired` set: the queue is what a rebuild from the
   * new store would pick (marking Ready changes no view) and every queued
   * task is Ready.
   */
  lemma ReleaseStep(i: nat, t0: seq<Task>, q0: seq<TaskRef>, tab: seq<TaskRef>, expired: bool,
                    tb: seq<Task>, q: seq<TaskRef>, mid: seq<Task>)
    requires CountingState(i, t0, q0, tab, expired, tb, q) && i < |tab|
    requires Expires(tb[tab[i]]) && mid == tb[tab[i] := CountDown(tb[tab[i]])]
    ensures Refs(mid, tab) && SortedByPriority(mid, tab)
    ensures var r := ReadyRun(View(mid, tab));
      CountingState(i + 1, t0, q0, tab, true, MarkReady(mid, r), r)
  {
    CountStepFacts(i, t0, q0, tab, expired, tb, q, mid);
    ReleaseOutcome(t0, tab, i, mid);
  }

  /**
   * After a release at entry `i` and the rebuild it triggers, the countdown
   * expectations still hold, the queue is what a rebuild from the new store
   * would pick (marking Ready changes no view), every queued task is Ready,
   * and the table stays sorted.
   */
  lemma ReleaseOutcome(t0: seq<Task>, tab: seq<TaskRef>, i: nat, mid: seq<Task>)
    requires Refs(t0, tab) && i < |tab| && |mid| == |t0|
    requires forall k :: 0 <= k < |tab| ==> Marked(mid[tab[k]], Expected(t0, tab, i + 1)[k])
    requires forall x :: 0 <= x < |t0| ==> mid[x].priority == t0[x].priority
    requires forall x :: 0 <= x < |t0| && x !in tab ==> mid[x] == t0[x]
    requires SortedByPriority(mid, tab)
    ensures var q := ReadyRun(View(mid, tab));
      var t := MarkReady(mid, q);
      && |t| == |t0| && Refs(t, q) && Refs(t, tab)
      && q == ReadyRun(View(t, tab))
      && (forall m :: 0 <= m < |q| ==> t[q[m]].state == Ready)
      && (forall k :: 0 <= k < |tab| ==> Marked(t[tab[k]], Expected(t0, tab, i + 1)[k]))
      && (forall x :: 0 <= x < |t0| && x !in tab ==> t[x] == t0[x])
      && (forall x :: 0 <= x < |t0| ==> t[x].priority == t0[x].priority)
      && SortedByPriority(t, tab)
  {
    var q := ReadyRun(View(mid, tab));
    var t := MarkReady(mid, q);
    RebuildMarksOnlyQueued(mid, tab);
    RebuildKeepsMarks(mid, tab, Expected(t0, tab, i + 1));
    ViewFrame(mid, t, tab);
  }

  /** At the end of the pass the countdown invariant is the pass's outcome. */
  lemma CountingDone(t0: seq<Task>, q0: seq<TaskRef>, tab: seq<TaskRef>, expired: bool, t1: seq<Task>, q1: seq<TaskRef>)
    requires CountingState(|tab|, t0, q0, tab, expired, t1, q1)
    ensures CountedDown(t0, q0, tab, t1, q1)
  {
  }

  /** A rebuild only marks tasks that are not suspended, so every table entry stays Marked. */
  lemma RebuildKeepsMarks(tb: seq<Task>, tab: seq<TaskRef>, expected: seq<Task>)
    requires Refs(tb, tab) && |expected| == |tab|
    requires forall k :: 0 <= k < |tab| ==> Marked(tb[tab[k]], expected[k])
    ensures forall k :: 0 <= k < |tab| ==> Marked(MarkReady(tb, ReadyRun(View(tb, tab)))[tab[k]], expected[k])
  {
    RebuildMarksOnlyQueued(tb, tab);
  }

  // ---------------------------------------------------------------------
  // Mutex_Config
  // ---------------------------------------------------------------------

  class Mutex {
    /** currentTask: the owner. */
    var owner: Option<TaskRef>
    /** nextTask: the single waiter. */
    var waiter: Option<TaskRef>
    /** Main_TaskPriority: the owner's priority before any inheritance. */
    var savedPriority: Priority

    /** A zero-initialised Mutex_Config. */
    constructor ()
      ensures owner == None && waiter == None && savedPriority == 0
    {
      owner := None;
      waiter := None;
      savedPriority := 0;
    }
  }

  // ---------------------------------------------------------------------
  // The kernel
  // ---------------------------------------------------------------------

  class Scheduler {
    /** The linker symbols _estack and _eheap, MainStackSize and the idle task's entry address. */
    const estack: Word
    const eheap: Word
    const mainStackSize: Word
    const idleEntry: Word

    /** OS_Tasks. */
    const osTasks: array<TaskRef>
    /** ReadyQueue and its buffer ReadyQueueFIFO. */
    const readyQueue: Fifo.FifoBuffer<TaskRef>
    const readyQueueBuffer: array<TaskRef>
    /** TasksAcquiringMutex. */
    const trackingArray: array<Option<TaskRef>>

    /** The task records the application has declared; index 0 is MYRTOS_IdleTask. */
    var tasks: seq<Task>
    var activeTasksNum: nat
    var sMsp: Word
    var eMsp: Word
    var pspTaskLocator: Word
    /** CurrentTaskExecuted and NextTaskTobeExecuted; None is NULL. */
    var current: Option<TaskRef>
    var next: Option<TaskRef>
    var mode: OsMode
    /** The PendSV pending bit that Trigger_OS_PendSV sets. */
    var switchPending: bool
    var acquiringCounter: nat
    /** The process-stack words the kernel has written, by address. */
    var stackMem: map<Word, Word>

    ghost predicate Valid()
      reads this, readyQueue, readyQueue.base, osTasks
    {
      && osTasks.Length == MaxTasks
      && readyQueueBuffer.Length == QueueCapacity
      && trackingArray.Length == TrackingSlots
      && osTasks != readyQueueBuffer
      && readyQueue.Valid()
      && (readyQueue.base != null ==>
            && readyQueue.base == readyQueueBuffer
            && readyQueue.length == QueueCapacity
            && readyQueue.counter < QueueCapacity)
      && |tasks| > 0
      && activeTasksNum < MaxTasks
      && Refs(tasks, osTasks[..activeTasksNum])
      && Distinct(osTasks[..activeTasksNum])
      && Refs(tasks, readyQueue.Contents())
      && (current.Some? ==> current.value < |tasks|)
      && (next.Some? ==> next.value < |tasks|)
      && (mode == OsRunning ==> current.Some? && readyQueue.base != null)
      && acquiringCounter <= TrackingSlots
    }

    /** The ready queue has been set up by MYRTOS_Init. */
    ghost predicate Initialised()
      reads this, readyQueue
    {
      readyQueue.base != null
    }

    /** The active part of the task table. */
    ghost function Table(): seq<TaskRef>
      reads this, osTasks
      requires activeTasksNum <= osTasks.Length
    {
      osTasks[..activeTasksNum]
    }

    /** What the decision step and the handoff read and write. */
    ghost function Snap(): Snapshot
      reads this, readyQueue
      requires current.Some?
    {
      Snapshot(tasks, readyQueue.Contents(), current.value, next)
    }

    /** The stack layout and the number of tasks. */
    ghost function Layout(): (nat, Word, Word, Word, map<Word, Word>)
      reads this
    {
      (activeTasksNum, sMsp, eMsp, pspTaskLocator, stackMem)
    }

    /** Everything the ready-queue rebuild leaves alone besides the table. */
    ghost function Others(): ((nat, Word, Word, Word, map<Word, Word>), Option<TaskRef>, Option<TaskRef>, OsMode, bool, nat)
      reads this
    {
      (Layout(), current, next, mode, switchPending, acquiringCounter)
    }

    /**
     * The outcome of an Activate, Terminate or TaskWaitingTime service from
     * store `t0`, table `tab0`, current task `cur`, next task `next0` and
     * pending bit `pending0`: the table is sorted, the queue rebuilt and, for
     * Activate and Terminate while the OS runs a task other than the idle
     * task, the next task decided and a switch requested.
     */
    ghost predicate Serviced(svc: Byte, t0: seq<Task>, tab0: seq<TaskRef>, running: bool,
                             cur: Option<TaskRef>, next0: Option<TaskRef>, pending0: bool)
      reads this, readyQueue, osTasks
      requires activeTasksNum <= osTasks.Length && svc <= SvcTaskWaitingTime
    {
      var tab := Table();
      && current == cur
      && |tasks| == |t0|
      && SortedReorder(t0, tab0, tab)
      && var q := ReadyRun(View(t0, tab));
         var t1 := MarkReady(t0, q);
         if svc != SvcTaskWaitingTime && running && cur.Some? && cur.value < |t0| && t0[cur.value].name != IdleName then
           && WellFormed(Snapshot(t1, q, cur.value, next0))
           && Snap() == DecideNext(Snapshot(t1, q, cur.value, next0))
           && switchPending
         else
           && tasks == t1
           && readyQueue.Contents() == q
           && next == next0
           && switchPending == pending0
    }

    /** The zero-initialised static kernel state, before MYRTOS_Init. */
    constructor (estack: Word, eheap: Word, mainStackSize: Word, idleEntry: Word)
      ensures Valid() && !Initialised() && fresh(readyQueue)
      ensures this.estack == estack && this.eheap == eheap
      ensures this.mainStackSize == mainStackSize && this.idleEntry == idleEntry
      ensures tasks == [ZeroTask] && activeTasksNum == 0
      ensures current == None && next == None && mode == OsSuspend && !switchPending
      ensures acquiringCounter == 0 && stackMem == map[]
      ensures trackingArray[..] == seq(TrackingSlots, _ => None)
    {
      this.estack := estack;
      this.eheap := eheap;
      this.mainStackSize := mainStackSize;
      this.idleEntry := idleEntry;
      osTasks := new TaskRef[MaxTasks](_ => 0);
      readyQueue := new Fifo.FifoBuffer();
      readyQueueBuffer := new TaskRef[QueueCapacity](_ => 0);
      trackingArray := new Option<TaskRef>[TrackingSlots](_ => None);
      tasks := [ZeroTask];
      activeTasksNum := 0;
      sMsp, eMsp, pspTaskLocator := 0, 0, 0;
      current, next := None, None;
      mode := OsSuspend;
      switchPending := false;
      acquiringCounter := 0;
      stackMem := map[];
      new;
      assert trackingArray[..] == seq(TrackingSlots, _ => None);
    }

    /** The application defines a Task_Config record; it names it by the returned index. */
    method DeclareTask(config: Task) returns (r: TaskRef)
      requires Valid()
      modifies this
      ensures Valid() && r == old(|tasks|) && tasks == old(tasks) + [config]
      ensures Layout() == old(Layout()) && Initialised() == old(Initialised())
      ensures current == old(current) && next == old(next) && mode == old(mode)
      ensures switchPending == old(switchPending) && acquiringCounter == old(acquiringCounter)
    {
      r := |tasks|;
      tasks := tasks + [config];
    }

    /** MYRTOS_Create_MainStack: the main stack hangs below _estack, the first process stack 8 bytes below it. */
    method CreateMainStack()
      requires Valid()
      modifies this
      ensures Valid()
      ensures sMsp == estack && eMsp == Sub32(estack, mainStackSize) && pspTaskLocator == Sub32(eMsp, 8)
      ensures tasks == old(tasks) && activeTasksNum == old(activeTasksNum) && stackMem == old(stackMem)
      ensures current == old(current) && next == old(next) && mode == old(mode)
      ensures switchPending == old(switchPending) && acquiringCounter == old(acquiringCounter)
    {
      sMsp := estack;
      eMsp := Sub32(sMsp, mainStackSize);
      pspTaskLocator := Sub32(eMsp, 8);
    }

    /**
     * MYRTOS_Create_Stack: below the task's stack top, the start frame: xPSR,
     * PC = entry, LR = EXC_RETURN to thread mode on the PSP, thirteen zeros;
     * the saved stack cursor ends sixteen words below the top.
     */
    method CreateStack(r: TaskRef)
      requires Valid() && r < |tasks|
      modifies this
      ensures Valid()
      ensures tasks == old(tasks)[r := old(tasks[r]).(currentPsp := Sub32(old(tasks[r].sPsp), 4 * FrameWords))]
      ensures stackMem == old(stackMem) + FrameMap(old(tasks[r].sPsp), old(tasks[r].entry))
      ensures activeTasksNum == old(activeTasksNum) && sMsp == old(sMsp) && eMsp == old(eMsp)
      ensures pspTaskLocator == old(pspTaskLocator)
      ensures current == old(current) && next == old(next) && mode == old(mode)
      ensures switchPending == old(switchPending) && acquiringCounter == old(acquiringCounter)
    {
      var top := tasks[r].sPsp;
      var entry := tasks[r].entry;
      var mem := stackMem;
      var psp := top;
      psp := Sub32(psp, 4);
      mem := mem[psp := InitialXpsr];
      MergeUpdate(stackMem, FrameMapUpTo(top, entry, 0), psp, InitialXpsr);
      Sub32Twice(top, 4, 4);
      psp := Sub32(psp, 4);
      mem := mem[psp := entry];
      MergeUpdate(stackMem, FrameMapUpTo(top, entry, 1), psp, entry);
      Sub32Twice(top, 8, 4);
      psp := Sub32(psp, 4);
      mem := mem[psp := ExcReturnThreadPsp];
      MergeUpdate(stackMem, FrameMapUpTo(top, entry, 2), psp, ExcReturnThreadPsp);
      for j := 0 to 13
        invariant psp == Sub32(top, 4 * (3 + j))
        invariant mem == stackMem + FrameMapUpTo(top, entry, 3 + j)
        modifies {}
      {
        Sub32Twice(top, 4 * (3 + j), 4);
        psp := Sub32(psp, 4);
        mem := mem[psp := 0];
        MergeUpdate(stackMem, FrameMapUpTo(top, entry, 3 + j), psp, 0);
      }
      stackMem := mem;
      tasks := tasks[r := tasks[r].(currentPsp := psp)];
    }

    /**
     * MYRTOS_Create_Task: the task's stack is the `stackSize` bytes below the
     * locator. The bounds are written into the record first; a stack whose
     * bottom falls below _eheap is refused. Otherwise the locator moves 8
     * bytes below the new stack, the start frame is laid down, and the task is
     * appended to the table, suspended.
     */
    method CreateTask(r: TaskRef) returns (err: ErrorId)
      requires Valid() && r < |tasks| && r !in Table() && activeTasksNum < MaxTasks - 1
      modifies this, osTasks
      ensures Valid() && Initialised() == old(Initialised())
      ensures readyQueue.Contents() == old(readyQueue.Contents())
      ensures sMsp == old(sMsp) && eMsp == old(eMsp)
      ensures current == old(current) && next == old(next) && mode == old(mode)
      ensures switchPending == old(switchPending) && acquiringCounter == old(acquiringCounter)
      ensures var top := old(pspTaskLocator);
              var bottom := Sub32(top, old(tasks[r].stackSize));
              var bounded := old(tasks[r]).(sPsp := top, ePsp := bottom);
              && (err == TaskExceededStackSize <==> bottom < eheap)
              && (err == TaskExceededStackSize ==>
                    && tasks == old(tasks)[r := bounded]
                    && Layout() == old(Layout())
                    && Table() == old(Table()))
              && (err != TaskExceededStackSize ==>
                    && err == NoError
                    && tasks == old(tasks)[r := bounded.(currentPsp := Sub32(top, 4 * FrameWords), state := Suspend)]
                    && activeTasksNum == old(activeTasksNum) + 1
                    && Table() == old(Table()) + [r]
                    && pspTaskLocator == Sub32(bottom, 8)
                    && stackMem == old(stackMem) + FrameMap(top, old(tasks[r].entry)))
    {
      tasks := tasks[r := tasks[r].(sPsp := pspTaskLocator)];
      tasks := tasks[r := tasks[r].(ePsp := Sub32(tasks[r].sPsp, tasks[r].stackSize))];
      if tasks[r].ePsp < eheap {
        err := TaskExceededStackSize;
      } else {
        PlaceTask(r);
        err := NoError;
      }
    }

    /**
     * The success path of MYRTOS_Create_Task, once the bounds are set: the
     * locator moves 8 bytes below the stack, the start frame is laid down and
     * the task joins the table.
     */
    method PlaceTask(r: TaskRef)
      requires Valid() && r < |tasks| && r !in Table() && activeTasksNum < MaxTasks - 1
      modifies this, osTasks
      ensures Valid() && Initialised() == old(Initialised())
      ensures readyQueue.Contents() == old(readyQueue.Contents())
      ensures sMsp == old(sMsp) && eMsp == old(eMsp)
      ensures current == old(current) && next == old(next) && mode == old(mode)
      ensures switchPending == old(switchPending) && acquiringCounter == old(acquiringCounter)
      ensures tasks == old(tasks)[r := old(tasks[r]).(currentPsp := Sub32(old(tasks[r].sPsp), 4 * FrameWords), state := Suspend)]
      ensures activeTasksNum == old(activeTasksNum) + 1 && Table() == old(Table()) + [r]
      ensures pspTaskLocator == Sub32(old(tasks[r].ePsp), 8)
      ensures stackMem == old(stackMem) + FrameMap(old(tasks[r].sPsp), old(tasks[r].entry))
    {
      pspTaskLocator := Sub32(tasks[r].ePsp, 8);
      CreateStack(r);
      AppendTask(r);
    }

    /** The tail of MYRTOS_Create_Task: the task joins the table, suspended. */
    method AppendTask(r: TaskRef)
      requires Valid() && r < |tasks| && r !in Table() && activeTasksNum < MaxTasks - 1
      modifies this, osTasks
      ensures Valid() && Initialised() == old(Initialised())
      ensures tasks == old(tasks)[r := old(tasks[r]).(state := Suspend)]
      ensures activeTasksNum == old(activeTasksNum) + 1 && Table() == old(Table()) + [r]
      ensures sMsp == old(sMsp) && eMsp == old(eMsp) && pspTaskLocator == old(pspTaskLocator)
      ensures stackMem == old(stackMem)
      ensures current == old(current) && next == old(next) && mode == old(mode)
      ensures switchPending == old(switchPending) && acquiringCounter == old(acquiringCounter)
    {
      ghost var tab := Table();
      osTasks[activeTasksNum] := r;
      assert osTasks[..activeTasksNum + 1] == tab + [r];
      activeTasksNum := activeTasksNum + 1;
      tasks := tasks[r := tasks[r].(state := Suspend)];
    }

    /**
     * MYRTOS_Init: OS mode suspended, main stack carved, ready queue set up
     * over its 100-slot buffer, the idle task configured ("idleTask",
     * priority 255, 300 bytes of stack) and created. The source adds up the
     * error codes; here they are listed, and only the task creation can fail.
     */
    method Init() returns (errors: seq<ErrorId>)
      requires Valid() && activeTasksNum < MaxTasks - 1 && IdleRef !in Table()
      modifies this, readyQueue, osTasks
      ensures Valid() && Initialised() && mode == OsSuspend && readyQueue.Contents() == []
      ensures sMsp == estack && eMsp == Sub32(estack, mainStackSize)
      ensures var top := Sub32(Sub32(estack, mainStackSize), 8);
              var bottom := Sub32(top, IdleStackSize);
              var configured := old(tasks[IdleRef]).(name := IdleName, priority := IdlePriority,
                                                     entry := idleEntry, stackSize := IdleStackSize,
                                                     sPsp := top, ePsp := bottom);
              && (errors == [] || errors == [TaskExceededStackSize])
              && (errors == [] <==> !(bottom < eheap))
              && (errors != [] ==>
                    && tasks == old(tasks)[IdleRef := configured]
                    && activeTasksNum == old(activeTasksNum)
                    && Table() == old(Table())
                    && pspTaskLocator == top
                    && stackMem == old(stackMem))
              && (errors == [] ==>
                    && tasks == old(tasks)[IdleRef := configured.(currentPsp := Sub32(top, 4 * FrameWords), state := Suspend)]
                    && activeTasksNum == old(activeTasksNum) + 1
                    && Table() == old(Table()) + [IdleRef]
                    && pspTaskLocator == Sub32(bottom, 8)
                    && stackMem == old(stackMem) + FrameMap(top, idleEntry))
      ensures current == old(current) && next == old(next)
      ensures switchPending == old(switchPending) && acquiringCounter == old(acquiringCounter)
    {
      errors := [];
      ghost var t0 := tasks;
      mode := OsSuspend;
      CreateMainStack();
      var status := readyQueue.Init(readyQueueBuffer, QueueCapacity);
      if status != Fifo.NoError {
        errors := errors + [ReadyQueueInitError];
      }
      tasks := tasks[IdleRef := tasks[IdleRef].(name := IdleName, priority := IdlePriority,
                                                 entry := idleEntry, stackSize := IdleStackSize)];
      assert tasks == t0[IdleRef := t0[IdleRef].(name := IdleName, priority := IdlePriority,
                                                 entry := idleEntry, stackSize := IdleStackSize)];
      var err := CreateTask(IdleRef);
      if err != NoError {
        errors := errors + [err];
      }
    }

    /**
     * MYRTOS_Update_SchedulerTable: sort the table, empty the ready queue,
     * then queue the tasks the scan picks (the entry after the last active one
     * counts as suspended) and mark them Ready.
     */
    method UpdateSchedulerTable()
      requires Valid() && Initialised() && activeTasksNum >= 1
      modifies this, osTasks, readyQueue, readyQueueBuffer
      ensures Valid() && Initialised()
      ensures Layout() == old(Layout()) && current == old(current) && next == old(next) && mode == old(mode)
      ensures switchPending == old(switchPending) && acquiringCounter == old(acquiringCounter)
      ensures SortedReorder(old(tasks), old(Table()), Table())
      ensures readyQueue.Contents() == ReadyRun(View(old(tasks), Table()))
      ensures tasks == MarkReady(old(tasks), readyQueue.Contents())
      ensures Serviced(SvcTaskWaitingTime, old(tasks), old(Table()), old(mode) == OsRunning, old(current), old(next), old(switchPending))
    {
      ghost var tab0 := Table();
      BubbleSortTable(osTasks, activeTasksNum, tasks);
      DistinctPermutation(tab0, Table());
      DrainReadyQueue();
      ScanTable();
    }

    /** Step 2 of the rebuild: dequeue until the queue reports Empty. */
    method DrainReadyQueue()
      requires Valid() && Initialised()
      modifies readyQueue
      ensures Valid() && Initialised() && readyQueue.Contents() == []
    {
      while true
        invariant Valid() && Initialised()
        decreases readyQueue.counter
      {
        var status, _ := readyQueue.Dequeue(0);
        if status == Fifo.Empty {
          break;
        }
      }
    }

    /**
     * Step 3 of the rebuild: walk the table from its first entry, skipping
     * suspended entries; at an eligible entry, queue it and stop if the next
     * entry is suspended or the sentinel, or of a less urgent priority; go on
     * to the next entry if it has the same priority; stop without queueing if
     * the next entry is more urgent.
     */
    method ScanTable()
      requires Valid() && Initialised() && readyQueue.Contents() == [] && activeTasksNum >= 1
      modifies this, readyQueue, readyQueueBuffer
      ensures Valid() && Initialised() && Table() == old(Table()) && Others() == old(Others())
      ensures readyQueue.Contents() == ReadyRun(View(old(tasks), Table()))
      ensures tasks == MarkReady(old(tasks), readyQueue.Contents())
    {
      ghost var t0 := tasks;
      ghost var tab := Table();
      ghost var v := View(t0, tab);
      ghost var inRun := false;
      assert MarkReady(t0, []) == t0;
      var i := 0;
      while true
        invariant Scanning(i, t0, v, tab, inRun) && i < activeTasksNum && Others() == old(Others())
        decreases activeTasksNum - i
      {
        var stop;
        stop, inRun := ScanEntry(i, t0, v, tab, inRun);
        if stop {
          return;
        }
        i := i + 1;
      }
    }

    /** The state of the rebuild scan before entry `i`, over store `t0` and table `tab` seen as `v`. */
    ghost predicate Scanning(i: nat, t0: seq<Task>, v: seq<Slot>, tab: seq<TaskRef>, inRun: bool)
      reads this, readyQueue, readyQueue.base, osTasks
    {
      && Valid() && Initialised() && Table() == tab && |tasks| == |t0|
      && Refs(t0, tab) && v == View(t0, tab)
      && i <= activeTasksNum
      && readyQueue.counter <= i
      && (forall m :: 0 <= m < |readyQueue.Contents()| ==> t0[readyQueue.Contents()[m]].state != Suspend)
      && tasks == MarkReady(t0, readyQueue.Contents())
      && (!inRun ==> readyQueue.Contents() == [] && ScanFrom(v, i) == ReadyRun(v))
      && (inRun ==> i < activeTasksNum && !v[i].suspended && readyQueue.Contents() + RunFrom(v, i) == ReadyRun(v))
    }

    /** One iteration of the rebuild scan, at entry `i`: either the scan is over or it goes on at `i + 1`. */
    method ScanEntry(i: nat, ghost t0: seq<Task>, ghost v: seq<Slot>, ghost tab: seq<TaskRef>, ghost inRun: bool)
      returns (stop: bool, ghost inRun': bool)
      requires Scanning(i, t0, v, tab, inRun) && i < activeTasksNum
      modifies this, readyQueue, readyQueueBuffer
      ensures Others() == old(Others())
      ensures stop ==> Valid() && Initialised() && Table() == tab
                       && readyQueue.Contents() == ReadyRun(v) && tasks == MarkReady(t0, readyQueue.Contents())
      ensures !stop ==> Scanning(i + 1, t0, v, tab, inRun') && i + 1 < activeTasksNum
    {
      ghost var queued := readyQueue.Contents();
      ScanStep(v, i, queued, inRun);
      MarkReadyView(t0, queued, tab);
      var enqueue, more := ScanDecision(i);
      assert v[i].ref == osTasks[i];
      EnqueueIf(enqueue, osTasks[i], t0);
      stop := !more || i + 1 == activeTasksNum;
      inRun' := enqueue && more;
    }

    /**
     * The tests of the rebuild scan at entry `i`: whether the entry is queued
     * (it is not suspended and the next entry is the sentinel, suspended, or
     * not more urgent) and whether the scan goes on (the entry is suspended,
     * or the next entry is not the sentinel, not suspended and of the same
     * priority).
     */
    method ScanDecision(i: nat) returns (enqueue: bool, more: bool)
      requires activeTasksNum <= osTasks.Length && Refs(tasks, osTasks[..activeTasksNum]) && i < activeTasksNum
      ensures var v := View(tasks, osTasks[..activeTasksNum]);
        && (enqueue <==> !v[i].suspended && (NextSuspended(v, i) || v[i].priority <= v[i + 1].priority))
        && (more <==> v[i].suspended || (!NextSuspended(v, i) && v[i].priority == v[i + 1].priority))
    {
      ghost var v := View(tasks, osTasks[..activeTasksNum]);
      var p := osTasks[i];
      assert v[i].ref == p;
      if tasks[p].state == Suspend {
        return false, true;
      }
      if i + 1 == activeTasksNum {
        return true, false;
      }
      var q := osTasks[i + 1];
      assert v[i + 1].ref == q;
      if tasks[q].state == Suspend || tasks[p].priority < tasks[q].priority {
        return true, false;
      } else if tasks[p].priority == tasks[q].priority {
        return true, true;
      }
      return false, false;
    }

    /** One step of the rebuild scan: when `enqueue` holds, queue `p` and mark it Ready. */
    method EnqueueIf(enqueue: bool, p: TaskRef, ghost t0: seq<Task>)
      requires Valid() && Initialised() && p < |tasks| && |tasks| == |t0|
      requires readyQueue.counter < QueueCapacity - 1
      requires tasks == MarkReady(t0, readyQueue.Contents())
      requires enqueue ==> t0[p].state != Suspend
      modifies this, readyQueue, readyQueueBuffer
      ensures Valid() && Initialised() && Table() == old(Table()) && |tasks| == |t0| && Others() == old(Others())
      ensures readyQueue.Contents() == old(readyQueue.Contents()) + (if enqueue then [p] else [])
      ensures readyQueue.counter == old(readyQueue.counter) + (if enqueue then 1 else 0)
      ensures tasks == MarkReady(t0, readyQueue.Contents())
    {
      if enqueue {
        var status := readyQueue.Enqueue(p);
        tasks := tasks[p := tasks[p].(state := Ready)];
      } else {
        assert readyQueue.Contents() + [] == readyQueue.Contents();
      }
    }

    /**
     * Decide_WhatNextTask, on the whole kernel state: the decision function
     * applied to the snapshot; nothing else changes.
     */
    method DecideWhatNextTask()
      requires Valid() && Initialised() && current.Some?
      modifies this, readyQueue, readyQueueBuffer
      ensures Valid() && Initialised() && current == old(current)
      ensures Snap() == DecideNext(old(Snap()))
      ensures Layout() == old(Layout()) && mode == old(mode)
      ensures switchPending == old(switchPending) && acquiringCounter == old(acquiringCounter)
    {
      var cur := current.value;
      if readyQueue.counter == 0 && tasks[cur].state != Suspend {
        RepeatCurrent();
      } else {
        TakeNext();
        if next.Some? {
          RunNext();
        }
      }
    }

    /** Decision, empty queue and a current task that can run: it runs again and is queued. */
    method RepeatCurrent()
      requires Valid() && Initialised() && current.Some?
      requires readyQueue.counter == 0 && tasks[current.value].state != Suspend
      modifies this, readyQueue, readyQueueBuffer
      ensures Valid() && Initialised() && current == old(current)
      ensures var cur := current.value;
              Snap() == old(Snap()).(tasks := SetState(old(tasks), cur, Running), queue := [cur], next := Some(cur))
      ensures Layout() == old(Layout()) && mode == old(mode)
      ensures switchPending == old(switchPending) && acquiringCounter == old(acquiringCounter)
    {
      var cur := current.value;
      tasks := tasks[cur := tasks[cur].(state := Running)];
      var status := readyQueue.Enqueue(cur);
      next := Some(cur);
    }

    /** Decision, otherwise: the queue head, if any, becomes the next task. */
    method TakeNext()
      requires Valid() && Initialised() && current.Some?
      modifies this, readyQueue
      ensures Valid() && Initialised() && current == old(current) && tasks == old(tasks)
      ensures var q := old(readyQueue.Contents());
              && readyQueue.Contents() == (if q != [] then q[1..] else q)
              && next == (if q != [] then Some(q[0]) else old(next))
      ensures Layout() == old(Layout()) && mode == old(mode)
      ensures switchPending == old(switchPending) && acquiringCounter == old(acquiringCounter)
    {
      var status, item := readyQueue.Dequeue(0);
      if status == Fifo.NoError {
        next := Some(item);
      }
    }

    /**
     * Decision, once a next task is known: it is marked Running, and the
     * current task goes back to the queue, Ready, when it has the same
     * priority and is not suspended.
     */
    method RunNext()
      requires Valid() && Initialised() && current.Some? && next.Some?
      requires readyQueue.counter < QueueCapacity - 1
      modifies this, readyQueue, readyQueueBuffer
      ensures Valid() && Initialised() && current == old(current) && next == old(next)
      ensures var cur := current.value;
              var n := next.value;
              var t1 := SetState(old(tasks), n, Running);
              if t1[cur].priority == t1[n].priority && t1[cur].state != Suspend then
                tasks == SetState(t1, cur, Ready) && readyQueue.Contents() == old(readyQueue.Contents()) + [cur]
              else
                tasks == t1 && readyQueue.Contents() == old(readyQueue.Contents())
      ensures Layout() == old(Layout()) && mode == old(mode)
      ensures switchPending == old(switchPending) && acquiringCounter == old(acquiringCounter)
    {
      var cur := current.value;
      var n := next.value;
      tasks := tasks[n := tasks[n].(state := Running)];
      if tasks[cur].priority == tasks[n].priority && tasks[cur].state != Suspend {
        var status := readyQueue.Enqueue(cur);
        tasks := tasks[cur := tasks[cur].(state := Ready)];
      }
    }

    /**
     * OS_SVC_Services, given the service number: Activate and Terminate
     * rebuild the queue and, while the OS runs a task other than the idle
     * task, decide the next task and request a context switch;
     * TaskWaitingTime only rebuilds; any other number does nothing.
     */
    method Dispatch(svc: Byte)
      requires Valid() && Initialised() && activeTasksNum >= 1
      modifies this, osTasks, readyQueue, readyQueueBuffer
      ensures Valid() && Initialised()
      ensures Layout() == old(Layout()) && mode == old(mode) && acquiringCounter == old(acquiringCounter)
      ensures svc <= SvcTaskWaitingTime ==>
                Serviced(svc, old(tasks), old(Table()), old(mode) == OsRunning, old(current), old(next), old(switchPending))
      ensures svc > SvcTaskWaitingTime ==>
                && tasks == old(tasks) && Table() == old(Table())
                && readyQueue.Contents() == old(readyQueue.Contents())
                && current == old(current) && next == old(next) && switchPending == old(switchPending)
    {
      if svc == SvcActivateTask || svc == SvcTerminateTask {
        RebuildAndDecide(svc);
      } else if svc == SvcTaskWaitingTime {
        UpdateSchedulerTable();
      }
    }

    /** The Activate and Terminate services: rebuild, then decide unless the idle task or no task is running. */
    method RebuildAndDecide(svc: Byte)
      requires Valid() && Initialised() && activeTasksNum >= 1 && svc < SvcTaskWaitingTime
      modifies this, osTasks, readyQueue, readyQueueBuffer
      ensures Valid() && Initialised()
      ensures Layout() == old(Layout()) && mode == old(mode) && acquiringCounter == old(acquiringCounter)
      ensures Serviced(svc, old(tasks), old(Table()), old(mode) == OsRunning, old(current), old(next), old(switchPending))
    {
      UpdateSchedulerTable();
      if mode == OsRunning {
        if tasks[current.value].name != IdleName {
          DecideAndSwitch();
        }
      }
    }

    /** The decision followed by the PendSV request. */
    method DecideAndSwitch()
      requires Valid() && Initialised() && current.Some?
      modifies this, readyQueue, readyQueueBuffer
      ensures Valid() && Initialised() && current == old(current) && Table() == old(Table())
      ensures Snap() == DecideNext(old(Snap())) && switchPending
      ensures Layout() == old(Layout()) && mode == old(mode) && acquiringCounter == old(acquiringCounter)
    {
      DecideWhatNextTask();
      switchPending := true;
    }

    /** The pointer handoff of PendSV_Handler; the pending bit clears as the handler runs. */
    method PendSv()
      requires Valid() && current.Some?
      modifies this
      ensures Valid() && current.Some? && Snap() == Handoff(old(Snap())) && !switchPending
      ensures Layout() == old(Layout()) && mode == old(mode) && acquiringCounter == old(acquiringCounter)
    {
      switchPending := false;
      if next.Some? {
        current := next;
        next := None;
      }
    }

    /** MYRTOS_Activate_Task: the task becomes Waiting, then the Activate service runs. */
    method ActivateTask(r: TaskRef) returns (err: ErrorId)
      requires Valid() && Initialised() && activeTasksNum >= 1 && r < |tasks|
      modifies this, osTasks, readyQueue, readyQueueBuffer
      ensures Valid() && Initialised() && err == NoError
      ensures Layout() == old(Layout()) && mode == old(mode) && acquiringCounter == old(acquiringCounter)
      ensures Serviced(SvcActivateTask, old(tasks)[r := old(tasks[r]).(state := Waiting)], old(Table()),
                       old(mode) == OsRunning, old(current), old(next), old(switchPending))
    {
      tasks := tasks[r := tasks[r].(state := Waiting)];
      Dispatch(SvcActivateTask);
      return NoError;
    }

    /** MYRTOS_Terminate_Task: the task is suspended, then the Terminate service runs. */
    method TerminateTask(r: TaskRef) returns (err: ErrorId)
      requires Valid() && Initialised() && activeTasksNum >= 1 && r < |tasks|
      modifies this, osTasks, readyQueue, readyQueueBuffer
      ensures Valid() && Initialised() && err == NoError
      ensures Layout() == old(Layout()) && mode == old(mode) && acquiringCounter == old(acquiringCounter)
      ensures Serviced(SvcTerminateTask, old(tasks)[r := old(tasks[r]).(state := Suspend)], old(Table()),
                       old(mode) == OsRunning, old(current), old(next), old(switchPending))
    {
      tasks := tasks[r := tasks[r].(state := Suspend)];
      Dispatch(SvcTerminateTask);
      return NoError;
    }

    /**
     * MYRTOS_Task_Wait: the task is time-blocked for `ticks` ticks and
     * suspended, then handled as a termination.
     */
    method TaskWait(ticks: Word, r: TaskRef) returns (err: ErrorId)
      requires Valid() && Initialised() && activeTasksNum >= 1 && r < |tasks|
      modifies this, osTasks, readyQueue, readyQueueBuffer
      ensures Valid() && Initialised() && err == NoError
      ensures Layout() == old(Layout()) && mode == old(mode) && acquiringCounter == old(acquiringCounter)
      ensures Serviced(SvcTerminateTask,
                       old(tasks)[r := old(tasks[r]).(blockTiming := BlockingEnable, ticksCount := ticks, state := Suspend)],
                       old(Table()), old(mode) == OsRunning, old(current), old(next), old(switchPending))
    {
      tasks := tasks[r := tasks[r].(blockTiming := BlockingEnable, ticksCount := ticks, state := Suspend)];
      Dispatch(SvcTerminateTask);
      return NoError;
    }

    /**
     * MYRTOS_Update_Tasks_WaitingTime: one countdown pass over the table; each
     * release issues the TaskWaitingTime service at once, which rebuilds the
     * queue. The table must be priority-sorted, so that those rebuilds leave
     * the table, and with it the loop, where they are.
     */
    method UpdateTasksWaitingTime()
      requires Valid() && Initialised() && activeTasksNum >= 1
      requires SortedByPriority(tasks, Table())
      modifies this, osTasks, readyQueue, readyQueueBuffer
      ensures Valid() && Initialised() && Table() == old(Table()) && Others() == old(Others())
      ensures CountedDown(old(tasks), old(readyQueue.Contents()), Table(), tasks, readyQueue.Contents())
      ensures SortedByPriority(tasks, Table())
    {
      ghost var t0 := tasks;
      ghost var q0 := readyQueue.Contents();
      ghost var tab := Table();
      ghost var expired := false;
      assert forall k :: 0 <= k < |tab| ==> tasks[tab[k]] == Expected(t0, tab, 0)[k];
      for i := 0 to activeTasksNum
        invariant Counting(i, t0, q0, tab, expired) && Others() == old(Others())
      {
        expired := CountEntry(i, t0, q0, tab, expired);
      }
      CountingDone(t0, q0, tab, expired, tasks, readyQueue.Contents());
    }

    /** The countdown invariant on the kernel state. */
    ghost predicate Counting(i: nat, t0: seq<Task>, q0: seq<TaskRef>, tab: seq<TaskRef>, expired: bool)
      reads this, readyQueue, readyQueue.base, osTasks
    {
      && Valid() && Initialised() && Table() == tab
      && CountingState(i, t0, q0, tab, expired, tasks, readyQueue.Contents())
    }

    /**
     * One iteration of the countdown pass, at entry `i`: a time-blocked
     * suspended task loses a tick and, when its count reaches 1, is released
     * and the TaskWaitingTime service runs.
     */
    method CountEntry(i: nat, ghost t0: seq<Task>, ghost q0: seq<TaskRef>, ghost tab: seq<TaskRef>, ghost expired: bool)
      returns (ghost expired': bool)
      requires Counting(i, t0, q0, tab, expired) && i < activeTasksNum
      modifies this, osTasks, readyQueue, readyQueueBuffer
      ensures Counting(i + 1, t0, q0, tab, expired') && Others() == old(Others())
    {
      var p := osTasks[i];
      if tasks[p].state == Suspend && tasks[p].blockTiming == BlockingEnable {
        expired' := CountBlocked(i, t0, q0, tab, expired);
      } else {
        expired' := expired;
        CountPassive(i, t0, q0, tab, expired, tasks, readyQueue.Contents(), tasks);
      }
    }

    /** The countdown of a time-blocked entry `i`, and its release when the count reaches 1. */
    method CountBlocked(i: nat, ghost t0: seq<Task>, ghost q0: seq<TaskRef>, ghost tab: seq<TaskRef>, ghost expired: bool)
      returns (ghost expired': bool)
      requires Counting(i, t0, q0, tab, expired) && i < activeTasksNum
      requires TimeBlocked(tasks[osTasks[i]])
      modifies this, osTasks, readyQueue, readyQueueBuffer
      ensures Counting(i + 1, t0, q0, tab, expired') && Others() == old(Others())
    {
      var p := osTasks[i];
      ghost var before := tasks;
      ghost var q := readyQueue.Contents();
      tasks := tasks[p := tasks[p].(ticksCount := Sub32(tasks[p].ticksCount, 1))];
      if tasks[p].ticksCount == 1 {
        ReleaseEntry(i, t0, q0, tab, expired, before, q);
        expired' := true;
      } else {
        expired' := expired;
        CountPassive(i, t0, q0, tab, expired, before, q, tasks);
      }
    }

    /** The release of table entry `i`, whose count has just reached 1, and the service it issues. */
    method ReleaseEntry(i: nat, ghost t0: seq<Task>, ghost q0: seq<TaskRef>, ghost tab: seq<TaskRef>, ghost expired: bool,
                        ghost before: seq<Task>, ghost q: seq<TaskRef>)
      requires Valid() && Initialised() && Table() == tab && activeTasksNum >= 1
      requires CountingState(i, t0, q0, tab, expired, before, q) && i < |tab| && TimeBlocked(before[tab[i]])
      requires |tasks| == |before| && tasks == before[tab[i] := before[tab[i]].(ticksCount := Sub32(before[tab[i]].ticksCount, 1))]
      requires tasks[tab[i]].ticksCount == 1
      modifies this, osTasks, readyQueue, readyQueueBuffer
      ensures Counting(i + 1, t0, q0, tab, true) && Others() == old(Others())
    {
      var p := osTasks[i];
      tasks := tasks[p := tasks[p].(blockTiming := BlockingDisable, state := Waiting)];
      ghost var mid := tasks;
      CountStepSorted(i, t0, q0, tab, expired, before, q, mid);
      RunWaitingTimeService(tab);
      ReleaseStep(i, t0, q0, tab, expired, before, q, mid);
    }

    /**
     * The tick (SysTick_Handler, leaving out the indicator toggle): the
     * countdown pass, then the decision from the counted-down store and
     * queue, then the PendSV request. `counted` and `queued` are the store and
     * queue between the two steps.
     */
    method Tick() returns (ghost counted: seq<Task>, ghost queued: seq<TaskRef>)
      requires Valid() && Initialised() && mode == OsRunning && activeTasksNum >= 1
      requires SortedByPriority(tasks, Table())
      modifies this, osTasks, readyQueue, readyQueueBuffer
      ensures Valid() && Initialised() && Table() == old(Table()) && current == old(current)
      ensures CountedDown(old(tasks), old(readyQueue.Contents()), Table(), counted, queued)
      ensures WellFormed(Snapshot(counted, queued, old(current).value, old(next)))
      ensures Snap() == DecideNext(Snapshot(counted, queued, old(current).value, old(next)))
      ensures switchPending
      ensures Layout() == old(Layout()) && mode == old(mode) && acquiringCounter == old(acquiringCounter)
    {
      UpdateTasksWaitingTime();
      counted, queued := tasks, readyQueue.Contents();
      DecideAndSwitch();
    }

    /**
     * MYRTOS_START_OS, up to the start of the ticker: the OS runs, the idle
     * task is current and is activated.
     */
    method StartOs()
      requires Valid() && Initialised() && activeTasksNum >= 1
      modifies this, osTasks, readyQueue, readyQueueBuffer
      ensures Valid() && Initialised() && mode == OsRunning
      ensures Layout() == old(Layout()) && acquiringCounter == old(acquiringCounter)
      ensures Serviced(SvcActivateTask, SetState(old(tasks), IdleRef, Waiting), old(Table()),
                       true, Some(IdleRef), old(next), old(switchPending))
    {
      mode := OsRunning;
      current := Some(IdleRef);
      var _ := ActivateTask(IdleRef);
    }

    /** The search of TasksAcquiringMutex in MYRTOS_AcquireMutex. */
    method IsTracked(r: TaskRef) returns (found: bool)
      ensures found <==> Some(r) in trackingArray[..]
    {
      for j := 0 to trackingArray.Length
        invariant Some(r) !in trackingArray[..j]
      {
        if trackingArray[j] == Some(r) {
          return true;
        }
      }
      return false;
    }

    /** The clearing of TasksAcquiringMutex in MYRTOS_ReleaseMutex: every slot holding `o` is emptied. */
    method Untrack(o: TaskRef)
      modifies trackingArray
      ensures trackingArray[..] == Untracked(old(trackingArray[..]), o)
    {
      for j := 0 to trackingArray.Length
        invariant trackingArray[..j] == Untracked(old(trackingArray[..]), o)[..j]
        invariant trackingArray[j..] == old(trackingArray[..])[j..]
      {
        if trackingArray[j] == Some(o) {
          trackingArray[j] := None;
        }
      }
    }

    /**
     * MYRTOS_AcquireMutex. A free mutex goes to `r`, which is recorded as
     * holding a mutex unless it already is. A held mutex with no waiter is
     * refused to a task that already holds a mutex (deadlock prevention);
     * otherwise `r` becomes the waiter and is suspended, the owner inherits
     * its priority if that is more urgent, and the Terminate service runs. A
     * mutex with a waiter already is refused.
     */
    method AcquireMutex(m: Mutex, r: TaskRef) returns (err: ErrorId)
      requires Valid() && Initialised() && r < |tasks|
      requires m.owner.Some? ==> m.owner.value < |tasks|
      requires m.owner.Some? && m.waiter.None? ==> activeTasksNum >= 1
      requires m.owner.None? && Some(r) !in trackingArray[..] ==> acquiringCounter < TrackingSlots
      modifies this, m, trackingArray, osTasks, readyQueue, readyQueueBuffer
      ensures Valid() && Initialised()
      ensures Layout() == old(Layout()) && mode == old(mode)
      ensures old(m.owner).None? ==>
                && err == NoError
                && m.owner == Some(r) && m.waiter == old(m.waiter)
                && m.savedPriority == old(tasks[r].priority)
                && (if Some(r) in old(trackingArray[..]) then
                      trackingArray[..] == old(trackingArray[..]) && acquiringCounter == old(acquiringCounter)
                    else
                      && trackingArray[..] == old(trackingArray[..])[old(acquiringCounter) := Some(r)]
                      && acquiringCounter == old(acquiringCounter) + 1)
                && tasks == old(tasks) && Table() == old(Table())
                && readyQueue.Contents() == old(readyQueue.Contents())
                && current == old(current) && next == old(next) && switchPending == old(switchPending)
      ensures old(m.owner).Some? && (old(m.waiter).Some? || Some(r) in old(trackingArray[..])) ==>
                && err == (if old(m.waiter).Some? then MutexReachedMaximumNumber else MutexPreventDeadlock)
                && m.owner == old(m.owner) && m.waiter == old(m.waiter) && m.savedPriority == old(m.savedPriority)
                && trackingArray[..] == old(trackingArray[..])
                && tasks == old(tasks) && Table() == old(Table())
                && readyQueue.Contents() == old(readyQueue.Contents())
                && Others() == old(Others())
      ensures old(m.owner).Some? && old(m.waiter).None? && Some(r) !in old(trackingArray[..]) ==>
                && err == NoError
                && m.owner == old(m.owner) && m.waiter == Some(r) && m.savedPriority == old(m.savedPriority)
                && trackingArray[..] == old(trackingArray[..]) && acquiringCounter == old(acquiringCounter)
                && Serviced(SvcTerminateTask,
                            InheritPriority(SetState(old(tasks), r, Suspend), old(m.owner).value, r),
                            old(Table()), old(mode) == OsRunning, old(current), old(next), old(switchPending))
    {
      if m.owner.Some? {
        if m.waiter.None? {
          var tracked := IsTracked(r);
          if tracked {
            err := MutexPreventDeadlock;
          } else {
            WaitForMutex(m, r);
            err := NoError;
          }
        } else {
          err := MutexReachedMaximumNumber;
        }
      } else {
        err := TakeMutex(m, r);
      }
    }

    /** The free-mutex path of MYRTOS_AcquireMutex: `r` takes the mutex and is recorded unless it already is. */
    method TakeMutex(m: Mutex, r: TaskRef) returns (err: ErrorId)
      requires Valid() && Initialised() && r < |tasks| && m.owner.None?
      requires Some(r) !in trackingArray[..] ==> acquiringCounter < TrackingSlots
      modifies this, m, trackingArray
      ensures Valid() && Initialised() && err == NoError
      ensures Layout() == old(Layout()) && mode == old(mode)
      ensures m.owner == Some(r) && m.waiter == old(m.waiter) && m.savedPriority == old(tasks[r].priority)
      ensures if Some(r) in old(trackingArray[..]) then
                trackingArray[..] == old(trackingArray[..]) && acquiringCounter == old(acquiringCounter)
              else
                && trackingArray[..] == old(trackingArray[..])[old(acquiringCounter) := Some(r)]
                && acquiringCounter == old(acquiringCounter) + 1
      ensures tasks == old(tasks) && Table() == old(Table()) && readyQueue.Contents() == old(readyQueue.Contents())
      ensures current == old(current) && next == old(next) && switchPending == old(switchPending)
    {
      m.owner := Some(r);
      m.savedPriority := tasks[r].priority;
      var tracked := IsTracked(r);
      if !tracked {
        trackingArray[acquiringCounter] := Some(r);
        acquiringCounter := acquiringCounter + 1;
      }
      return NoError;
    }

    /**
     * The held-mutex, no-waiter path of MYRTOS_AcquireMutex for a task that
     * holds no mutex: `r` waits, suspended, the owner inherits a more urgent
     * priority, and the Terminate service runs.
     */
    method WaitForMutex(m: Mutex, r: TaskRef)
      requires Valid() && Initialised() && r < |tasks| && activeTasksNum >= 1
      requires m.owner.Some? && m.owner.value < |tasks| && m.waiter.None?
      modifies this, m, osTasks, readyQueue, readyQueueBuffer
      ensures Valid() && Initialised()
      ensures Layout() == old(Layout()) && mode == old(mode) && acquiringCounter == old(acquiringCounter)
      ensures m.owner == old(m.owner) && m.savedPriority == old(m.savedPriority) && m.waiter == Some(r)
      ensures Serviced(SvcTerminateTask,
                       InheritPriority(SetState(old(tasks), r, Suspend), old(m.owner).value, r),
                       old(Table()), old(mode) == OsRunning, old(current), old(next), old(switchPending))
    {
      ghost var inherited := InheritPriority(SetState(tasks, r, Suspend), m.owner.value, r);
      m.waiter := Some(r);
      tasks := tasks[r := tasks[r].(state := Suspend)];
      var o := m.owner.value;
      if tasks[o].priority > tasks[r].priority {
        tasks := tasks[o := tasks[o].(priority := tasks[r].priority)];
      }
      assert tasks == inherited;
      Dispatch(SvcTerminateTask);
    }

    /**
     * MYRTOS_ReleaseMutex. A held mutex: the owner gets back the priority it
     * had when it acquired the mutex and is no longer recorded as holding one;
     * the waiter becomes the owner (its priority is saved), is made Waiting,
     * and the Activate service runs. A free mutex: nothing happens.
     */
    method ReleaseMutex(m: Mutex) returns (err: ErrorId)
      requires Valid() && Initialised()
      requires m.owner.Some? ==> m.owner.value < |tasks| && m.waiter.Some? && m.waiter.value < |tasks|
      requires m.owner.Some? ==> activeTasksNum >= 1
      modifies this, m, trackingArray, osTasks, readyQueue, readyQueueBuffer
      ensures Valid() && Initialised() && err == NoError
      ensures Layout() == old(Layout()) && mode == old(mode) && acquiringCounter == old(acquiringCounter)
      ensures old(m.owner).None? ==>
                && m.owner == None && m.waiter == old(m.waiter) && m.savedPriority == old(m.savedPriority)
                && trackingArray[..] == old(trackingArray[..])
                && tasks == old(tasks) && Table() == old(Table())
                && readyQueue.Contents() == old(readyQueue.Contents()) && Others() == old(Others())
      ensures old(m.owner).Some? ==>
                var o := old(m.owner).value;
                var w := old(m.waiter).value;
                var restored := old(tasks)[o := old(tasks[o]).(priority := old(m.savedPriority))];
                && m.owner == Some(w) && m.waiter == None
                && m.savedPriority == restored[w].priority
                && trackingArray[..] == Untracked(old(trackingArray[..]), o)
                && Serviced(SvcActivateTask, SetState(restored, w, Waiting), old(Table()),
                            old(mode) == OsRunning, old(current), old(next), old(switchPending))
    {
      if m.owner.Some? {
        HandOverMutex(m);
      }
      return NoError;
    }

    /**
     * The held-mutex path of MYRTOS_ReleaseMutex: the owner's priority is
     * restored and its record cleared, and the waiter takes the mutex.
     */
    method HandOverMutex(m: Mutex)
      requires Valid() && Initialised() && activeTasksNum >= 1
      requires m.owner.Some? && m.owner.value < |tasks| && m.waiter.Some? && m.waiter.value < |tasks|
      modifies this, m, trackingArray, osTasks, readyQueue, readyQueueBuffer
      ensures Valid() && Initialised()
      ensures Layout() == old(Layout()) && mode == old(mode) && acquiringCounter == old(acquiringCounter)
      ensures var o := old(m.owner).value;
              var w := old(m.waiter).value;
              var restored := old(tasks)[o := old(tasks[o]).(priority := old(m.savedPriority))];
              && m.owner == Some(w) && m.waiter == None
              && m.savedPriority == restored[w].priority
              && trackingArray[..] == Untracked(old(trackingArray[..]), o)
              && Serviced(SvcActivateTask, SetState(restored, w, Waiting), old(Table()),
                          old(mode) == OsRunning, old(current), old(next), old(switchPending))
    {
      var o := m.owner.value;
      tasks := tasks[o := tasks[o].(priority := m.savedPriority)];
      m.savedPriority := tasks[m.waiter.value].priority;
      Untrack(o);
      m.owner := m.waiter;
      m.waiter := None;
      // The waiter leaves its suspension exactly as MYRTOS_ActivateTask does it.
      var _ := ActivateTask(m.owner.value);
    }

    /**
     * The TaskWaitingTime service issued by a release: on a sorted table the
     * sort changes nothing, so only the queue is rebuilt.
     */
    method RunWaitingTimeService(ghost tab: seq<TaskRef>)
      requires Valid() && Initialised() && activeTasksNum >= 1 && Table() == tab
      requires SortedByPriority(tasks, tab)
      modifies this, osTasks, readyQueue, readyQueueBuffer
      ensures Valid() && Initialised() && Table() == tab && Others() == old(Others())
      ensures readyQueue.Contents() == ReadyRun(View(old(tasks), tab))
      ensures tasks == MarkReady(old(tasks), readyQueue.Contents())
    {
      ghost var t := tasks;
      Dispatch(SvcTaskWaitingTime);
      SortedStableUnique(t, Table(), tab);
    }
  }
}
