/** The process manager (src/processmanager.cpp) over the kernel's linked list. */
module Scheduler {
  import opened Basics
  import opened SchedulerModel
  import L = List

  /** The search of schedule() comes to an end: some task is current or not BLOCKED. */
  ghost predicate Stops(s: Sched) {
    exists p :: 0 <= p < |s.list| && StopAt(s, p)
  }

  predicate StopAt(s: Sched, p: nat)
    requires p < |s.list|
  {
    s.list[p] == s.current || !IsBlocked(s, s.list[p])
  }

  /** The list is sound, holds c, and its nodes are objs. */
  ghost predicate Holds(list: L.List, c: seq<nat>, objs: set<L.ListObject>)
    reads list, list.nodes, list.freed
  {
    list.Valid() && c == list.Contents() && objs == set n | n in list.nodes
  }

  /** One turn of the search: look at the first task and, unless it is current, move it to the end.
      s is the list before the search, c the list after i turns, d and k the same after this one. */
  method Turn(list: L.List, current: nat, ghost s: seq<nat>, ghost i: nat, ghost c: seq<nat>,
              ghost objs: set<L.ListObject>)
    returns (next: nat, found: bool, ghost d: seq<nat>, ghost k: nat)
    requires Holds(list, c, objs) && i < |s| && c == Rotate(s, i)
    modifies list`first, list`last, list`nodes, objs
    ensures Holds(list, d, objs)
    ensures next == s[i] && found == (next == current) && k == (if found then i else i + 1) && d == Rotate(s, k)
  {
    RotateMore(s, i);
    next := list.First();
    found := next == current;
    if !found { list.RotateFirstLast(); }
    d, k := list.Contents(), if found then i else i + 1;
  }

  /** The search of schedule() (src/processmanager.cpp:124-158): rotate the list until a task comes up
      that is current or not BLOCKED. */
  method Pick(list: L.List, info: map<nat, Task>, current: nat, ghost s: Sched, ghost objs: set<L.ListObject>)
    returns (next: nat, ghost c: seq<nat>)
    requires Holds(list, s.list, objs) && s.tasks == info && s.current == current && Stops(s)
    requires forall t | t in s.list :: t in info
    modifies list`first, list`last, list`nodes, objs
    ensures Holds(list, c, objs) && (c, next) == Search(s, 0)
  {
    ghost var p :| 0 <= p < |s.list| && StopAt(s, p);
    ghost var goal := Search(s, 0);
    assert s.list == Rotate(s.list, 0);
    var found;
    ghost var k;
    next, found, c, k := Turn(list, current, s.list, 0, s.list, objs);
    ghost var i: nat := 0;
    while !found && info[next].status == Blocked
      invariant Holds(list, c, objs)
      invariant i <= p && next == s.list[i] && found == (next == current)
      invariant k == (if found then i else i + 1) && c == Rotate(s.list, k)
      invariant goal == Search(s, i)
      decreases p - i
    {
      i := SearchPasses(s, i, p, goal);
      next, found, c, k := Turn(list, current, s.list, i, c, objs);
    }
    SearchEnds(s, i, c, next, goal);
  }

  lemma SearchPasses(s: Sched, i: nat, p: nat, goal: (seq<nat>, nat)) returns (j: nat)
    requires i <= p < |s.list| && StopAt(s, p) && goal == Search(s, i)
    requires s.list[i] != s.current && IsBlocked(s, s.list[i])
    ensures j == i + 1 && j <= p && goal == Search(s, j)
  {
    j := i + 1;
  }

  lemma SearchEnds(s: Sched, i: nat, c: seq<nat>, next: nat, goal: (seq<nat>, nat))
    requires i < |s.list| && goal == Search(s, i) && next == s.list[i]
    requires next == s.current || !IsBlocked(s, next)
    requires c == Rotate(s.list, if next == s.current then i else i + 1)
    ensures goal == (c, next)
  {
  }

  // ------------------------------------------------------------------ the process manager

  /** No null pointer in the list, every task known, priorities in range. */
  ghost predicate Fit(s: Sched) {
    && (forall t | t in s.list :: t != 0 && t in s.tasks)
    && (s.current != 0 ==> s.current in s.tasks)
    && (forall t | t in s.tasks :: s.tasks[t].priority <= MAX_PRIORITY && s.tasks[t].nice <= MAX_NICE)
  }

  class ProcessManager {
    const list: L.List        // task pointers
    var info: map<nat, Task>  // the tasks, by pointer
    var current: nat          // 0 until the first task is added
    var lastPid: nat
    var ticks: nat            // of the timer
    var running: bool

    ghost function Abs(): (s: Sched)
      reads this, list, list.nodes
    {
      Sched(list.Contents(), info, current)
    }

    ghost predicate Valid()
      reads this, list, list.nodes, list.freed
    {
      list.Valid() && Fit(Abs())
    }

    constructor ()
      ensures Valid() && Abs() == Sched([], map[], 0) && fresh(list) && fresh(list.freed)
    {
      list := new L.List();
      info, current, lastPid, ticks, running := map[], 0, 1, 0, false;
    }

    /** addTask (src/processmanager.cpp:37-71): the task goes to the end of the list and runs, so
        that round robin starts from a list whose last task is the running one. */
    method AddTask(t: nat, task: Task)
      requires Valid() && t != 0 && task.priority <= MAX_PRIORITY && task.nice <= MAX_NICE
      modifies this, list, list.nodes, if list.freedIdx > 0 then {list.freed[list.freedIdx - 1]} else {}
      ensures Valid() && lastPid == old(lastPid) + (if task.pid == 0 then 1 else 0)
      ensures var s := old(Abs());
        var added := if task.pid == 0 then task.(pid := lastPid) else task;
        Abs() == Sched(s.list + [t], s.tasks[t := added], t)
    {
      ghost var s := Abs();
      var added := task;
      if task.pid == 0 {
        lastPid := lastPid + 1;
        added := task.(pid := lastPid);
      }
      FitAdded(s, t, added);
      list.Append(t);
      info := info[t := added];
      current := t;
    }

    /** schedule() (src/processmanager.cpp:109-220), the context switch being the new current. With no
        tasks nothing happens. */
    method Schedule()
      requires Valid() && current != 0 && (list.Contents() == [] || Stops(Abs()))
      modifies this, list, list.nodes
      ensures Valid()
      ensures Abs() == SchedulerModel.Schedule(old(Abs())) && running == old(running) && ticks == old(ticks)
    {
      ghost var s, objs := Abs(), set n | n in list.nodes;
      var head := list.First();
      if head == 0 { return; }
      ghost var c;
      var next;
      next, c := Pick(list, info, current, s, objs);
      FoundKnown(s, c, next);
      var n := list.size;
      Switch(next, n, s, c);
      ScheduleDone(s, c, next, Sched(c, info, current));
    }

    method Switch(next: nat, n: nat, ghost s: Sched, ghost c: seq<nat>)
      requires info == s.tasks && current == s.current && n == |s.list| > 0
      requires current in info && next in info && info[next].priority <= MAX_PRIORITY && info[next].nice <= MAX_NICE
      modifies `info, `current
      ensures Sched(c, info, current) == SwitchTo(s, c, next)
    {
      if next == current { return; }
      var was, now := info[current], info[next];
      info := info[current := if was.status == Blocked then was else was.(status := Waiting)];
      info := info[next := SetSlice(now.(status := Running), SliceFor(n, now.priority, now.nice))];
      current := next;
    }

    /** TimerX86::run (arch/x86/timerx86.cpp:25-38): the tick spends the slice or schedules. */
    method Run()
      requires Valid() && (running ==> current != 0 && (list.Contents() == [] || Stops(Abs())))
      modifies this, list, list.nodes
      ensures Valid() && ticks == old(ticks) + 1 && running == old(running)
      ensures Abs() == if running then SchedulerModel.Step(old(Abs()), Tick) else old(Abs())
    {
      ticks := ticks + 1;
      if running {
        if info[current].slice > 0 {
          Spend(Abs());
        } else {
          Schedule();
        }
      }
    }

    /** decSlice (inc/task.h:69-73). */
    method Spend(ghost s: Sched)
      requires s.tasks == info && s.current == current && Known(s) && !Switches(s)
      modifies `info
      ensures Sched(s.list, info, current) == SchedulerModel.Step(s, Tick)
      ensures info.Keys == old(info.Keys) && forall t | t in info ::
        info[t].priority == old(info)[t].priority && info[t].nice == old(info)[t].nice
    {
      info := info[current := info[current].(slice := info[current].slice - 1)];
    }
  }

  lemma FitAdded(s: Sched, t: nat, task: Task)
    requires Fit(s) && t != 0 && task.priority <= MAX_PRIORITY && task.nice <= MAX_NICE
    ensures Fit(Sched(s.list + [t], s.tasks[t := task], t))
  {
  }

  /** The task the search ends on is known. */
  lemma FoundKnown(s: Sched, c: seq<nat>, next: nat)
    requires Fit(s) && s.current != 0 && s.list != [] && (c, next) == Search(s, 0)
    ensures next != 0 && next in s.tasks && s.tasks[next].priority <= MAX_PRIORITY && s.tasks[next].nice <= MAX_NICE
    ensures forall t | t in c :: t in s.list
  {
    SearchInList(s, 0);
    SearchRotates(s, 0);
  }

  lemma ScheduleDone(s: Sched, c: seq<nat>, next: nat, r: Sched)
    requires Fit(s) && s.current != 0 && s.list != [] && (c, next) == Search(s, 0)
    requires next in s.tasks && s.tasks[next].priority <= MAX_PRIORITY && s.tasks[next].nice <= MAX_NICE
    requires r == SwitchTo(s, c, next)
    ensures Fit(r) && r == SchedulerModel.Schedule(s)
  {
    FoundKnown(s, c, next);
  }

  /** A new task added to tasks of which none is blocked starts a fair round. */
  lemma AddedIsFair(list: seq<nat>, tasks: map<nat, Task>, t: nat, task: Task)
    requires list != [] && t !in list && task.status != Blocked && task.slice == 0
    requires forall i, j | 0 <= i < j < |list| :: list[i] != list[j]
    requires forall x | x in list :: x in tasks && tasks[x].status != Blocked
    requires forall x | x in tasks :: tasks[x].priority <= MAX_PRIORITY && tasks[x].nice <= MAX_NICE
    requires task.priority <= MAX_PRIORITY && task.nice <= MAX_NICE
    ensures Fair(Sched(list + [t], tasks[t := task], t))
  {
  }
}
