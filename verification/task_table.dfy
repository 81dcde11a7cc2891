/**
 * Tasks and the scheduler table (Schedular.c): the task record, 32-bit
 * words, the synthetic start frame, the tick countdown of one task and the
 * priority sort of the table.
 */
module TaskTable {

  datatype Option<T> = None | Some(value: T)

  const WordModulus: int := 0x1_0000_0000

  /** A 32-bit unsigned value: an address, a stack word or a tick count. */
  type Word = x: int | 0 <= x < WordModulus

  /** Unsigned 32-bit subtraction, wrapping below zero. */
  function Sub32(a: Word, b: Word): (r: Word)
    ensures b <= a ==> r == a - b
    ensures a < b ==> r == a - b + WordModulus
  {
    (a - b) % WordModulus
  }

  /** Task priorities: 0 is the most urgent, 255 is the idle task's. */
  type Priority = p: int | 0 <= p < 256

  const IdlePriority: Priority := 255

  /** Task_State; `Suspend` is the zero value of the source's enumeration. */
  datatype TaskState = Suspend | Waiting | Ready | Running

  datatype BlockTiming = BlockingDisable | BlockingEnable

  /** A task is named by its index in the scheduler's store of task records. */
  type TaskRef = nat

  /** Task_Config: what the application fills in, then what the kernel keeps. */
  datatype Task = Task(
    name: string,
    priority: Priority,
    entry: Word,           // P_TaskEntry, a code address
    stackSize: Word,       // Stack_Size in bytes
    sPsp: Word,            // _S_PSP_Task: top of the task's stack
    ePsp: Word,            // _E_PSP_Task: bottom of the task's stack
    currentPsp: Word,      // Current_PSP: the saved stack cursor
    state: TaskState,
    blockTiming: BlockTiming,
    ticksCount: Word)

  /** Every reference in `s` names a task of the store. */
  ghost predicate Refs(tasks: seq<Task>, s: seq<TaskRef>)
  {
    forall i :: 0 <= i < |s| ==> s[i] < |tasks|
  }

  predicate Distinct(s: seq<TaskRef>)
  {
    forall i, j :: 0 <= i < j < |s| ==> s[i] != s[j]
  }

  // ---------------------------------------------------------------------
  // Synthetic start frame (MYRTOS_Create_Stack)
  // ---------------------------------------------------------------------

  const InitialXpsr: Word := 0x0100_0000
  const ExcReturnThreadPsp: Word := 0xFFFF_FFFD
  const FrameWords: nat := 16

  /**
   * The words laid below a new task's stack top, from the top down: xPSR with
   * only the Thumb bit, the entry point as PC, the exception-return marker as
   * LR, then thirteen zeroed registers.
   */
  function StartFrame(entry: Word): (f: seq<Word>)
    ensures |f| == FrameWords
    ensures f[0] == InitialXpsr && f[1] == entry && f[2] == ExcReturnThreadPsp
    ensures forall k :: 3 <= k < FrameWords ==> f[k] == 0
  {
    [InitialXpsr, entry, ExcReturnThreadPsp] + seq(13, _ => 0)
  }

  /** The byte address of the k-th word (from 0) below the stack top `top`. */
  function FrameAddress(top: Word, k: nat): Word
    requires k < FrameWords
  {
    Sub32(top, 4 * (k + 1))
  }

  lemma FrameAddressesDistinct(top: Word, k: nat, l: nat)
    requires k < FrameWords && l < FrameWords && k != l
    ensures FrameAddress(top, k) != FrameAddress(top, l)
  {
  }

  // ---------------------------------------------------------------------
  // Tick countdown of one task (MYRTOS_Update_Tasks_WaitingTime)
  // ---------------------------------------------------------------------

  /** True when the tick countdown applies to the task. */
  predicate TimeBlocked(t: Task)
  {
    t.state == Suspend && t.blockTiming == BlockingEnable
  }

  /**
   * One tick for one task: a suspended, time-blocked task loses one tick
   * (wrapping below zero, as the 32-bit counter does) and is released, as
   * `Waiting`, when its count becomes 1.
   */
  function CountDown(t: Task): Task
  {
    if TimeBlocked(t) then
      var c := Sub32(t.ticksCount, 1);
      if c == 1 then t.(ticksCount := c, blockTiming := BlockingDisable, state := Waiting)
      else t.(ticksCount := c)
    else t
  }

  /** True when this tick releases the task. */
  predicate Expires(t: Task)
  {
    TimeBlocked(t) && Sub32(t.ticksCount, 1) == 1
  }

  lemma CountDownEffect(t: Task)
    ensures !TimeBlocked(t) ==> CountDown(t) == t
    ensures TimeBlocked(t) ==> CountDown(t).ticksCount == Sub32(t.ticksCount, 1)
    ensures CountDown(t).priority == t.priority && CountDown(t).name == t.name
    ensures Expires(t) <==> (TimeBlocked(t) && CountDown(t).state == Waiting)
    ensures (CountDown(t).state == Suspend) <==> (t.state == Suspend && !Expires(t))
  {
  }

  /** `k` ticks in a row. */
  function CountDownN(t: Task, k: nat): Task
  {
    if k == 0 then t else CountDown(CountDownN(t, k - 1))
  }

  /**
   * A task that waits `n >= 2` ticks stays suspended with `n - k` ticks left
   * through ticks 1 .. n-2 and becomes `Waiting`, no longer time-blocked,
   * exactly at tick `n - 1`, where its count reaches 1.
   */
  lemma {:induction false} WaitReleasesWhenCountReachesOne(t: Task, n: Word, k: nat)
    requires TimeBlocked(t) && t.ticksCount == n && 2 <= n && k <= n - 1
    ensures k < n - 1 ==> TimeBlocked(CountDownN(t, k)) && CountDownN(t, k).ticksCount == n - k
    ensures k == n - 1 ==>
              && CountDownN(t, k).state == Waiting
              && CountDownN(t, k).blockTiming == BlockingDisable
              && CountDownN(t, k).ticksCount == 1
    ensures CountDownN(t, k).priority == t.priority
  {
    if k > 0 {
      WaitReleasesWhenCountReachesOne(t, n, k - 1);
    }
  }

  /**
   * A wait of one tick is not released on the next tick: the count drops to 0
   * and then wraps to 0xFFFFFFFF, so the task stays suspended.
   */
  lemma {:induction false} WaitOfOneTickWraps(t: Task)
    requires TimeBlocked(t) && t.ticksCount == 1
    ensures CountDownN(t, 1).state == Suspend && CountDownN(t, 1).ticksCount == 0
    ensures CountDownN(t, 2).state == Suspend && CountDownN(t, 2).ticksCount == 0xFFFF_FFFF
  {
    assert CountDownN(t, 1) == CountDown(t);
    assert CountDownN(t, 2) == CountDown(CountDown(t));
  }

  // ---------------------------------------------------------------------
  // Priority order of the table (BubbleSort_SchedularTable)
  // ---------------------------------------------------------------------

  /** Non-decreasing priority value: the most urgent tasks come first. */
  ghost predicate SortedByPriority(tasks: seq<Task>, s: seq<TaskRef>)
    requires Refs(tasks, s)
  {
    forall i, j :: 0 <= i < j < |s| ==> tasks[s[i]].priority <= tasks[s[j]].priority
  }

  /** The tasks of `s` with priority `p`, in their order in `s` (references outside the store have none). */
  function WithPriority(tasks: seq<Task>, s: seq<TaskRef>, p: Priority): seq<TaskRef>
  {
    if s == [] then []
    else (if s[0] < |tasks| && tasks[s[0]].priority == p then [s[0]] else []) + WithPriority(tasks, s[1..], p)
  }

  /**
   * `t` reorders `s` keeping, for every priority, the relative order of the
   * tasks that have it: the sort is stable.
   */
  ghost predicate StableReorder(tasks: seq<Task>, s: seq<TaskRef>, t: seq<TaskRef>)
  {
    forall p: Priority :: WithPriority(tasks, s, p) == WithPriority(tasks, t, p)
  }

  lemma {:induction false} WithPriorityConcat(tasks: seq<Task>, a: seq<TaskRef>, b: seq<TaskRef>, p: Priority)
    ensures WithPriority(tasks, a + b, p) == WithPriority(tasks, a, p) + WithPriority(tasks, b, p)
    decreases |a|
  {
    if a == [] {
      assert a + b == b;
    } else {
      assert (a + b)[1..] == a[1..] + b;
      WithPriorityConcat(tasks, a[1..], b, p);
    }
  }

  /** Of two tasks of different priorities at most one has priority `p`, so their order does not matter. */
  lemma SwapPairIsStable(tasks: seq<Task>, x: TaskRef, y: TaskRef, p: Priority)
    requires x < |tasks| && y < |tasks| && tasks[x].priority != tasks[y].priority
    ensures WithPriority(tasks, [x, y], p) == WithPriority(tasks, [y, x], p)
  {
    assert [x, y][1..] == [y];
    assert [y, x][1..] == [x];
    assert [y][1..] == [] && [x][1..] == [];
  }

  lemma SwapIsStableAt(tasks: seq<Task>, pre: seq<TaskRef>, x: TaskRef, y: TaskRef, post: seq<TaskRef>, p: Priority)
    requires x < |tasks| && y < |tasks|
    requires tasks[x].priority != tasks[y].priority
    ensures WithPriority(tasks, pre + [x, y] + post, p) == WithPriority(tasks, pre + [y, x] + post, p)
  {
    WithPriorityConcat(tasks, pre, [x, y], p);
    WithPriorityConcat(tasks, pre + [x, y], post, p);
    WithPriorityConcat(tasks, pre, [y, x], p);
    WithPriorityConcat(tasks, pre + [y, x], post, p);
    SwapPairIsStable(tasks, x, y, p);
  }

  /** Swapping two neighbours of different priorities keeps the sort stable. */
  lemma SwapIsStable(tasks: seq<Task>, s: seq<TaskRef>, j: nat)
    requires Refs(tasks, s) && j + 1 < |s|
    requires tasks[s[j]].priority != tasks[s[j + 1]].priority
    ensures StableReorder(tasks, s[j := s[j + 1]][j + 1 := s[j]], s)
  {
    var t := s[j := s[j + 1]][j + 1 := s[j]];
    var pre, post := s[..j], s[j + 2..];
    assert s == pre + [s[j], s[j + 1]] + post;
    assert t == pre + [s[j + 1], s[j]] + post;
    forall p: Priority
      ensures WithPriority(tasks, t, p) == WithPriority(tasks, s, p)
    {
      SwapIsStableAt(tasks, pre, s[j], s[j + 1], post, p);
    }
  }

  lemma {:induction false} WithPriorityNonEmpty(tasks: seq<Task>, s: seq<TaskRef>, p: Priority)
    requires Refs(tasks, s) && WithPriority(tasks, s, p) != []
    ensures exists k :: 0 <= k < |s| && tasks[s[k]].priority == p
  {
    if tasks[s[0]].priority != p {
      WithPriorityNonEmpty(tasks, s[1..], p);
      var k :| 0 <= k < |s[1..]| && tasks[s[1..][k]].priority == p;
      assert tasks[s[k + 1]].priority == p;
    }
  }

  lemma WithPriorityHead(tasks: seq<Task>, s: seq<TaskRef>)
    requires Refs(tasks, s) && s != []
    ensures WithPriority(tasks, s, tasks[s[0]].priority) != []
  {
  }

  /**
   * The first task of a sorted table is at least as urgent as the first
   * task of any stable reorder of it.
   */
  lemma HeadNoLater(tasks: seq<Task>, s: seq<TaskRef>, t: seq<TaskRef>)
    requires Refs(tasks, s) && Refs(tasks, t) && s != [] && t != []
    requires SortedByPriority(tasks, s)
    requires StableReorder(tasks, s, t)
    ensures tasks[s[0]].priority <= tasks[t[0]].priority
  {
    var q := tasks[t[0]].priority;
    WithPriorityHead(tasks, t);
    assert WithPriority(tasks, s, q) == WithPriority(tasks, t, q);
    WithPriorityNonEmpty(tasks, s, q);
    var k :| 0 <= k < |s| && tasks[s[k]].priority == q;
    if k > 0 {
      assert tasks[s[0]].priority <= tasks[s[k]].priority;
    }
  }

  /** Two sorted, stably reordered non-empty tables start with the same task. */
  lemma SortedStableSameHead(tasks: seq<Task>, s: seq<TaskRef>, t: seq<TaskRef>)
    requires Refs(tasks, s) && Refs(tasks, t) && s != [] && t != []
    requires SortedByPriority(tasks, s) && SortedByPriority(tasks, t)
    requires StableReorder(tasks, s, t)
    ensures s[0] == t[0]
  {
    HeadNoLater(tasks, s, t);
    HeadNoLater(tasks, t, s);
    var p := tasks[s[0]].priority;
    var ws := WithPriority(tasks, s, p);
    assert ws == [s[0]] + WithPriority(tasks, s[1..], p);
    assert ws == WithPriority(tasks, t, p);
    assert ws == [t[0]] + WithPriority(tasks, t[1..], p);
    assert ws[0] == s[0] && ws[0] == t[0];
  }

  /** Dropping a common first task keeps the reorder stable. */
  lemma StableTail(tasks: seq<Task>, s: seq<TaskRef>, t: seq<TaskRef>)
    requires Refs(tasks, s) && Refs(tasks, t) && s != [] && t != [] && s[0] == t[0]
    requires StableReorder(tasks, s, t)
    ensures Refs(tasks, s[1..]) && Refs(tasks, t[1..])
    ensures StableReorder(tasks, s[1..], t[1..])
  {
    forall r: Priority
      ensures WithPriority(tasks, s[1..], r) == WithPriority(tasks, t[1..], r)
    {
      var head := if tasks[s[0]].priority == r then [s[0]] else [];
      assert WithPriority(tasks, s, r) == head + WithPriority(tasks, s[1..], r);
      assert WithPriority(tasks, t, r) == head + WithPriority(tasks, t[1..], r);
      assert WithPriority(tasks, s[1..], r) == (head + WithPriority(tasks, s[1..], r))[|head|..];
      assert WithPriority(tasks, t[1..], r) == (head + WithPriority(tasks, t[1..], r))[|head|..];
    }
  }

  /**
   * Two priority-sorted tables that keep the same order within every
   * priority are the same table: a stable sort has exactly one result, and
   * sorting an already sorted table leaves it unchanged.
   */
  lemma {:induction false} SortedStableUnique(tasks: seq<Task>, s: seq<TaskRef>, t: seq<TaskRef>)
    requires Refs(tasks, s) && Refs(tasks, t)
    requires SortedByPriority(tasks, s) && SortedByPriority(tasks, t)
    requires StableReorder(tasks, s, t)
    ensures s == t
    decreases |s| + |t|
  {
    if s != [] {
      WithPriorityHead(tasks, s);
      assert WithPriority(tasks, s, tasks[s[0]].priority) == WithPriority(tasks, t, tasks[s[0]].priority);
    }
    if t != [] {
      WithPriorityHead(tasks, t);
      assert WithPriority(tasks, s, tasks[t[0]].priority) == WithPriority(tasks, t, tasks[t[0]].priority);
    }
    if s != [] && t != [] {
      SortedStableSameHead(tasks, s, t);
      StableTail(tasks, s, t);
      SortedStableUnique(tasks, s[1..], t[1..]);
      assert s == [s[0]] + s[1..] && t == [t[0]] + t[1..];
    }
  }

  /** Entries from `m` on are in priority order. */
  ghost predicate SortedFrom(tasks: seq<Task>, s: seq<TaskRef>, m: nat)
    requires Refs(tasks, s)
  {
    forall k, l :: m <= k < l < |s| ==> tasks[s[k]].priority <= tasks[s[l]].priority
  }

  /** No entry before `m` is less urgent than an entry from `m` on. */
  ghost predicate SplitAt(tasks: seq<Task>, s: seq<TaskRef>, m: nat)
    requires Refs(tasks, s)
  {
    forall k, l :: 0 <= k < m <= l < |s| ==> tasks[s[k]].priority <= tasks[s[l]].priority
  }

  /** Entry `j` is at least as late in priority order as every entry before it. */
  ghost predicate LatestUpTo(tasks: seq<Task>, s: seq<TaskRef>, j: nat)
    requires Refs(tasks, s) && j < |s|
  {
    forall k :: 0 <= k < j ==> tasks[s[k]].priority <= tasks[s[j]].priority
  }

  /** One compare-and-swap step of a bubble pass over the prefix `[0, m)`. */
  function BubbleStep(tasks: seq<Task>, s: seq<TaskRef>, j: nat): seq<TaskRef>
    requires Refs(tasks, s) && j + 1 < |s|
  {
    if tasks[s[j]].priority > tasks[s[j + 1]].priority then s[j := s[j + 1]][j + 1 := s[j]] else s
  }

  lemma BubbleStepOrder(tasks: seq<Task>, s: seq<TaskRef>, j: nat, m: nat)
    requires Refs(tasks, s) && j + 1 < m <= |s|
    requires LatestUpTo(tasks, s, j) && SortedFrom(tasks, s, m) && SplitAt(tasks, s, m)
    ensures Refs(tasks, BubbleStep(tasks, s, j))
    ensures LatestUpTo(tasks, BubbleStep(tasks, s, j), j + 1)
    ensures SortedFrom(tasks, BubbleStep(tasks, s, j), m)
    ensures SplitAt(tasks, BubbleStep(tasks, s, j), m)
  {
    var t := BubbleStep(tasks, s, j);
    assert |t| == |s|;
    assert forall k :: 0 <= k < |s| && k != j && k != j + 1 ==> t[k] == s[k];
    assert {t[j], t[j + 1]} == {s[j], s[j + 1]};
    assert tasks[t[j]].priority <= tasks[t[j + 1]].priority;
    forall k | 0 <= k < j + 1
      ensures tasks[t[k]].priority <= tasks[t[j + 1]].priority
    {
      if k < j {
        assert tasks[s[k]].priority <= tasks[s[j]].priority;
      }
    }
    forall k, l | 0 <= k < m <= l < |t|
      ensures tasks[t[k]].priority <= tasks[t[l]].priority
    {
      if k == j || k == j + 1 {
        assert tasks[s[j]].priority <= tasks[s[l]].priority;
        assert tasks[s[j + 1]].priority <= tasks[s[l]].priority;
      } else {
        assert tasks[s[k]].priority <= tasks[s[l]].priority;
      }
    }
  }

  lemma BubbleStepPermutes(tasks: seq<Task>, s: seq<TaskRef>, j: nat, m: nat)
    requires Refs(tasks, s) && j + 1 < m <= |s|
    ensures Refs(tasks, BubbleStep(tasks, s, j))
    ensures StableReorder(tasks, BubbleStep(tasks, s, j), s)
    ensures multiset(BubbleStep(tasks, s, j)) == multiset(s)
    ensures BubbleStep(tasks, s, j)[m..] == s[m..]
  {
    var t := BubbleStep(tasks, s, j);
    if t != s {
      SwapIsStable(tasks, s, j);
      var pre, post := s[..j], s[j + 2..];
      assert t == pre + [s[j + 1], s[j]] + post;
      assert s == pre + [s[j], s[j + 1]] + post;
      assert t[m..] == s[m..];
    }
  }

  lemma PassDone(tasks: seq<Task>, s: seq<TaskRef>, m: nat)
    requires Refs(tasks, s) && 1 <= m <= |s|
    requires LatestUpTo(tasks, s, m - 1) && SortedFrom(tasks, s, m) && SplitAt(tasks, s, m)
    ensures SortedFrom(tasks, s, m - 1) && SplitAt(tasks, s, m - 1)
  {
  }

  lemma StableReorderTrans(tasks: seq<Task>, a: seq<TaskRef>, b: seq<TaskRef>, c: seq<TaskRef>)
    requires StableReorder(tasks, a, b) && StableReorder(tasks, b, c)
    ensures StableReorder(tasks, a, c)
  {
    forall p: Priority ensures WithPriority(tasks, a, p) == WithPriority(tasks, c, p) {
      assert WithPriority(tasks, a, p) == WithPriority(tasks, b, p);
    }
  }

  /** A compare-and-swap step keeps every invariant of the pass, one position further on. */
  lemma BubblePassStep(tasks: seq<Task>, orig: seq<TaskRef>, s: seq<TaskRef>, j: nat, m: nat)
    requires Refs(tasks, s) && j + 1 < m <= |s|
    requires LatestUpTo(tasks, s, j) && SortedFrom(tasks, s, m) && SplitAt(tasks, s, m)
    requires StableReorder(tasks, s, orig) && multiset(s) == multiset(orig)
    ensures Refs(tasks, BubbleStep(tasks, s, j))
    ensures LatestUpTo(tasks, BubbleStep(tasks, s, j), j + 1)
    ensures SortedFrom(tasks, BubbleStep(tasks, s, j), m) && SplitAt(tasks, BubbleStep(tasks, s, j), m)
    ensures StableReorder(tasks, BubbleStep(tasks, s, j), orig)
    ensures multiset(BubbleStep(tasks, s, j)) == multiset(orig)
  {
    BubbleStepOrder(tasks, s, j, m);
    BubbleStepPermutes(tasks, s, j, m);
    StableReorderTrans(tasks, BubbleStep(tasks, s, j), s, orig);
  }

  /** The body of the inner loop: swap neighbours `j` and `j + 1` when the first is less urgent. */
  method CompareSwap(table: array<TaskRef>, n: nat, j: nat, tasks: seq<Task>)
    requires j + 1 < n <= table.Length && Refs(tasks, table[..n])
    modifies table
    ensures table[..n] == BubbleStep(tasks, old(table[..n]), j)
    ensures forall k :: n <= k < table.Length ==> table[k] == old(table[k])
  {
    if tasks[table[j]].priority > tasks[table[j + 1]].priority {
      table[j], table[j + 1] := table[j + 1], table[j];
    }
  }

  /**
   * One pass of the inner loop of BubbleSort_SchedularTable over the
   * unsorted prefix `[0, m)`: it carries the latest entry of the prefix to
   * position `m - 1`.
   */
  method BubblePass(table: array<TaskRef>, n: nat, m: nat, tasks: seq<Task>)
    requires 1 <= m <= n <= table.Length
    requires Refs(tasks, table[..n])
    requires SortedFrom(tasks, table[..n], m) && SplitAt(tasks, table[..n], m)
    modifies table
    ensures Refs(tasks, table[..n])
    ensures SortedFrom(tasks, table[..n], m - 1) && SplitAt(tasks, table[..n], m - 1)
    ensures StableReorder(tasks, table[..n], old(table[..n]))
    ensures multiset(table[..n]) == multiset(old(table[..n]))
    ensures forall k :: n <= k < table.Length ==> table[k] == old(table[k])
  {
    ghost var orig := table[..n];
    for j := 0 to m - 1
      invariant Refs(tasks, table[..n])
      invariant LatestUpTo(tasks, table[..n], j)
      invariant SortedFrom(tasks, table[..n], m) && SplitAt(tasks, table[..n], m)
      invariant StableReorder(tasks, table[..n], orig)
      invariant multiset(table[..n]) == multiset(orig)
      invariant forall k :: n <= k < table.Length ==> table[k] == old(table[k])
    {
      ghost var before := table[..n];
      BubblePassStep(tasks, orig, before, j, m);
      CompareSwap(table, n, j, tasks);
    }
    PassDone(tasks, table[..n], m);
  }

  /**
   * BubbleSort_SchedularTable: sorts the first `n` entries of the table in
   * place by priority, swapping neighbours only on a strict `>`. The source
   * computes `n - 1` unsigned, so it needs at least one entry.
   */
  method BubbleSortTable(table: array<TaskRef>, n: nat, tasks: seq<Task>)
    requires 1 <= n <= table.Length
    requires Refs(tasks, table[..n])
    modifies table
    ensures Refs(tasks, table[..n])
    ensures SortedByPriority(tasks, table[..n])
    ensures StableReorder(tasks, table[..n], old(table[..n]))
    ensures multiset(table[..n]) == multiset(old(table[..n]))
    ensures forall k :: n <= k < table.Length ==> table[k] == old(table[k])
  {
    ghost var orig := table[..n];
    for i := 0 to n - 1
      invariant Refs(tasks, table[..n])
      invariant SortedFrom(tasks, table[..n], n - i) && SplitAt(tasks, table[..n], n - i)
      invariant StableReorder(tasks, table[..n], orig)
      invariant multiset(table[..n]) == multiset(orig)
      invariant forall k :: n <= k < table.Length ==> table[k] == old(table[k])
    {
      ghost var before := table[..n];
      BubblePass(table, n, n - i, tasks);
      StableReorderTrans(tasks, table[..n], before, orig);
    }
  }
}
