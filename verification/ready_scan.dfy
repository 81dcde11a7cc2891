/**
 * Which tasks the ready-queue rebuild enqueues (MYRTOS_Update_SchedulerTable,
 * step 3). The scan only looks at each table entry's reference, whether it is
 * suspended and its priority; the entry after the last active one is a
 * suspended sentinel.
 */
module ReadyScan {
  import opened TaskTable

  /** What the scan reads of one table entry. */
  datatype Slot = Slot(ref: TaskRef, suspended: bool, priority: Priority)

  /** The table as the scan sees it. */
  function View(tasks: seq<Task>, tab: seq<TaskRef>): (v: seq<Slot>)
    requires Refs(tasks, tab)
    ensures |v| == |tab|
  {
    seq(|tab|, i requires 0 <= i < |tab| =>
      Slot(tab[i], tasks[tab[i]].state == Suspend, tasks[tab[i]].priority))
  }

  /** Two stores that agree on suspension and priority give the same view. */
  lemma ViewFrame(tasks: seq<Task>, tasks': seq<Task>, tab: seq<TaskRef>)
    requires Refs(tasks, tab) && Refs(tasks', tab)
    requires forall i :: 0 <= i < |tab| ==>
               (tasks[tab[i]].state == Suspend) == (tasks'[tab[i]].state == Suspend)
               && tasks[tab[i]].priority == tasks'[tab[i]].priority
    ensures View(tasks, tab) == View(tasks', tab)
  {
  }

  ghost predicate SortedView(v: seq<Slot>)
  {
    forall i, j :: 0 <= i < j < |v| ==> v[i].priority <= v[j].priority
  }

  lemma SortedTableView(tasks: seq<Task>, tab: seq<TaskRef>)
    requires Refs(tasks, tab) && SortedByPriority(tasks, tab)
    ensures SortedView(View(tasks, tab))
  {
  }

  /** The entry after `i` is the end-of-table sentinel or a suspended task. */
  predicate NextSuspended(v: seq<Slot>, i: nat)
    requires i < |v|
  {
    i + 1 == |v| || v[i + 1].suspended
  }

  /**
   * What the scan enqueues once it has reached an eligible entry `i`: the
   * entry itself and, while the next entry is eligible with the same
   * priority, the following ones. An entry followed by a more urgent one
   * (possible only in an unsorted table) ends the scan without being enqueued.
   */
  function RunFrom(v: seq<Slot>, i: nat): seq<TaskRef>
    requires i < |v| && !v[i].suspended
    decreases |v| - i
  {
    if NextSuspended(v, i) then [v[i].ref]
    else if v[i].priority < v[i + 1].priority then [v[i].ref]
    else if v[i].priority == v[i + 1].priority then [v[i].ref] + RunFrom(v, i + 1)
    else []
  }

  /** The scan from entry `i`: suspended entries are skipped. */
  function ScanFrom(v: seq<Slot>, i: nat): seq<TaskRef>
    decreases |v| - i
  {
    if i >= |v| then []
    else if v[i].suspended then ScanFrom(v, i + 1)
    else RunFrom(v, i)
  }

  /** The tasks the rebuild leaves in the ready queue, in queue order. */
  function ReadyRun(v: seq<Slot>): seq<TaskRef>
  {
    ScanFrom(v, 0)
  }

  /** The first eligible entry at or after `i`, or `|v|` when there is none. */
  function FirstEligibleFrom(v: seq<Slot>, i: nat): (k: nat)
    decreases |v| - i
  {
    if i >= |v| then |v|
    else if !v[i].suspended then i
    else FirstEligibleFrom(v, i + 1)
  }

  function FirstEligible(v: seq<Slot>): nat
  {
    FirstEligibleFrom(v, 0)
  }

  lemma {:induction false} FirstEligibleFromSpec(v: seq<Slot>, i: nat)
    requires i <= |v|
    ensures i <= FirstEligibleFrom(v, i) <= |v|
    ensures FirstEligibleFrom(v, i) < |v| ==> !v[FirstEligibleFrom(v, i)].suspended
    ensures forall j :: i <= j < FirstEligibleFrom(v, i) ==> v[j].suspended
    ensures ScanFrom(v, i) == if FirstEligibleFrom(v, i) == |v| then [] else RunFrom(v, FirstEligibleFrom(v, i))
    decreases |v| - i
  {
    if i < |v| && v[i].suspended {
      FirstEligibleFromSpec(v, i + 1);
    }
  }

  /**
   * The run enqueued from entry `i` is the next `|r|` entries in table order,
   * every one of them eligible and of the priority of entry `i`.
   */
  lemma {:induction false} RunFromElems(v: seq<Slot>, i: nat)
    requires i < |v| && !v[i].suspended
    ensures i + |RunFrom(v, i)| <= |v|
    ensures forall m :: 0 <= m < |RunFrom(v, i)| ==>
              RunFrom(v, i)[m] == v[i + m].ref && !v[i + m].suspended && v[i + m].priority == v[i].priority
    decreases |v| - i
  {
    if !NextSuspended(v, i) && v[i].priority == v[i + 1].priority {
      RunFromElems(v, i + 1);
      assert RunFrom(v, i) == [v[i].ref] + RunFrom(v, i + 1);
    } else if !NextSuspended(v, i) && v[i].priority > v[i + 1].priority {
      assert RunFrom(v, i) == [];
    } else {
      assert RunFrom(v, i) == [v[i].ref];
    }
    forall m | 0 <= m < |RunFrom(v, i)|
      ensures RunFrom(v, i)[m] == v[i + m].ref && !v[i + m].suspended && v[i + m].priority == v[i].priority
    {
      if m > 0 {
        var n := m - 1;
        assert RunFrom(v, i)[m] == RunFrom(v, i + 1)[n];
        assert (i + 1) + n == i + m;
      } else {
        assert RunFrom(v, i)[0] == v[i].ref;
      }
    }
  }

  /**
   * On a sorted table the run from an eligible entry is not empty, and it
   * stops exactly where the next entry is the sentinel, suspended, or less
   * urgent.
   */
  lemma {:induction false} RunFromSortedEnd(v: seq<Slot>, i: nat)
    requires i < |v| && !v[i].suspended && SortedView(v)
    ensures i + |RunFrom(v, i)| <= |v| && RunFrom(v, i) != []
    ensures var e := i + |RunFrom(v, i)|;
              e == |v| || v[e].suspended || v[e].priority > v[i].priority
    decreases |v| - i
  {
    RunFromElems(v, i);
    if NextSuspended(v, i) {
      assert RunFrom(v, i) == [v[i].ref];
    } else {
      assert v[i].priority <= v[i + 1].priority;
      if v[i].priority < v[i + 1].priority {
        assert RunFrom(v, i) == [v[i].ref];
      } else {
        RunFromSortedEnd(v, i + 1);
        assert RunFrom(v, i) == [v[i].ref] + RunFrom(v, i + 1);
      }
    }
  }

  /**
   * What the rebuild enqueues, on a priority-sorted table: nothing exactly
   * when every task is suspended; otherwise a block of consecutive entries
   * starting at the first eligible one, all eligible, all of the most urgent
   * priority among eligible tasks, and with every eligible task of that
   * priority that directly follows included (round-robin peers).
   */
  lemma ReadyRunSpec(v: seq<Slot>)
    requires SortedView(v)
    ensures ReadyRun(v) == [] <==> forall j :: 0 <= j < |v| ==> v[j].suspended
    ensures ReadyRun(v) != [] ==>
              var k := FirstEligible(v);
              var r := ReadyRun(v);
              && k + |r| <= |v|
              && (forall j :: 0 <= j < k ==> v[j].suspended)
              && (forall m :: 0 <= m < |r| ==>
                    r[m] == v[k + m].ref && !v[k + m].suspended && v[k + m].priority == v[k].priority)
              && (forall j :: 0 <= j < |v| && !v[j].suspended ==> v[k].priority <= v[j].priority)
              && (k + |r| == |v| || v[k + |r|].suspended || v[k + |r|].priority > v[k].priority)
  {
    FirstEligibleFromSpec(v, 0);
    var k := FirstEligible(v);
    var r := ReadyRun(v);
    if k < |v| {
      RunFromElems(v, k);
      RunFromSortedEnd(v, k);
      assert r == RunFrom(v, k);
      assert r != [] && k + |r| <= |v|;
      forall m | 0 <= m < |r|
        ensures r[m] == v[k + m].ref && !v[k + m].suspended && v[k + m].priority == v[k].priority
      {
        assert r[m] == RunFrom(v, k)[m];
      }
      forall j | 0 <= j < |v| && !v[j].suspended
        ensures v[k].priority <= v[j].priority
      {
        assert k <= j;
      }
      assert k + |r| == |v| || v[k + |r|].suspended || v[k + |r|].priority > v[k].priority;
    } else {
      assert r == [];
    }
  }

  /**
   * One step of the scan at entry `i`, given the already queued prefix `q`:
   * before a run (`inRun` false) nothing is queued and the scan from `i` is
   * the rest of the result; inside a run the run from `i` is. A suspended
   * entry moves the scan on; an eligible one is queued and ends the scan when
   * the next entry is the sentinel, suspended or more urgent (lower
   * priority number), continues the run when it has the same priority, and
   * ends the scan without being queued when the next entry is less urgent.
   */
  lemma ScanStep(v: seq<Slot>, i: nat, q: seq<TaskRef>, inRun: bool)
    requires i < |v|
    requires !inRun ==> q == [] && ScanFrom(v, i) == ReadyRun(v)
    requires inRun ==> !v[i].suspended && q + RunFrom(v, i) == ReadyRun(v)
    ensures v[i].suspended ==> !inRun && ScanFrom(v, i + 1) == ReadyRun(v)
    ensures !v[i].suspended && (NextSuspended(v, i) || v[i].priority < v[i + 1].priority) ==>
              q + [v[i].ref] == ReadyRun(v)
    ensures !v[i].suspended && !NextSuspended(v, i) && v[i].priority == v[i + 1].priority ==>
              !v[i + 1].suspended && (q + [v[i].ref]) + RunFrom(v, i + 1) == ReadyRun(v)
    ensures !v[i].suspended && !NextSuspended(v, i) && v[i].priority > v[i + 1].priority ==>
              q == ReadyRun(v)
  {
    if !v[i].suspended {
      assert q + RunFrom(v, i) == ReadyRun(v);
      if !NextSuspended(v, i) && v[i].priority == v[i + 1].priority {
        assert RunFrom(v, i) == [v[i].ref] + RunFrom(v, i + 1);
        assert q + RunFrom(v, i) == (q + [v[i].ref]) + RunFrom(v, i + 1);
      } else if !NextSuspended(v, i) && v[i].priority > v[i + 1].priority {
        assert RunFrom(v, i) == [];
        assert q + [] == q;
      }
    }
  }

  /**
   * The scan relies on the sort: on an unsorted table an eligible task can be
   * left out even though it is the most urgent one.
   */
  lemma UnsortedTableLosesUrgentTask()
    ensures ReadyRun([Slot(1, false, 3), Slot(2, false, 1)]) == []
  {
    var v := [Slot(1, false, 3), Slot(2, false, 1)];
    assert ScanFrom(v, 0) == RunFrom(v, 0);
  }

  /**
   * The successor test looks only at the next entry: an eligible peer of the
   * same priority behind a suspended one is not enqueued.
   */
  lemma SuspendedEntryHidesPeer()
    ensures ReadyRun([Slot(1, false, 2), Slot(2, true, 2), Slot(3, false, 2)]) == [1]
  {
    var v := [Slot(1, false, 2), Slot(2, true, 2), Slot(3, false, 2)];
    assert ScanFrom(v, 0) == RunFrom(v, 0);
  }
}
