/** The round-robin scheduler (src/processmanager.cpp, inc/task.h, arch/x86/timerx86.cpp) on
    values: which task schedule() picks, and how long a task waits for its turn. */
module SchedulerModel {
  import opened Basics

  const MAX_PRIORITY := 20
  const MAX_NICE := 20
  const GRANULARITY := 500     // KERNEL_FREQUENCY >> 1
  const GRANULARITY_MIN := 20  // KERNEL_FREQUENCY / 50

  datatype Task = Task(status: Status, priority: nat, nice: nat, size: nat, slice: nat, pid: nat)

  /** The task list (task pointers), the tasks, and the running task. */
  datatype Sched = Sched(list: seq<nat>, tasks: map<nat, Task>, current: nat)

  predicate Known(s: Sched) {
    && (forall t | t in s.list :: t in s.tasks)
    && s.current in s.tasks
    && (forall t | t in s.tasks :: s.tasks[t].priority <= MAX_PRIORITY && s.tasks[t].nice <= MAX_NICE)
  }

  // ------------------------------------------------------------------ time slices

  /** setPriority and setNice clamp (inc/task.h:84-102). */
  function SetPriority(t: Task, p: nat): (r: Task)
    ensures r.priority <= Min(p, MAX_PRIORITY) && (r.priority == p || r.priority == MAX_PRIORITY)
    ensures r == t.(priority := r.priority)
  {
    t.(priority := if p > MAX_PRIORITY then MAX_PRIORITY else p)
  }

  function SetNice(t: Task, p: nat): (r: Task)
    ensures r.nice <= Min(p, MAX_NICE) && (r.nice == p || r.nice == MAX_NICE)
    ensures r == t.(nice := r.nice)
  {
    t.(nice := if p > MAX_NICE then MAX_NICE else p)
  }

  /** setSlice caps at the task's own size, if it has one (inc/task.h:153-160). */
  function SetSlice(t: Task, s: nat): (r: Task)
    ensures r.slice <= s && (t.size != 0 ==> r.slice <= t.size) && (r.slice == s || (t.size != 0 && r.slice == t.size))
    ensures r == t.(slice := r.slice)
  {
    t.(slice := if t.size != 0 && s > t.size then t.size else s)
  }

  /** The slice schedule() computes for a task among n (src/processmanager.cpp:187-201). */
  function SliceFor(n: nat, priority: nat, nice: nat): (r: nat)
    requires n > 0 && priority <= MAX_PRIORITY
  {
    var approx := MAX_PRIORITY - priority + nice;
    var weight := if approx == 0 then 1 else approx;
    var s := GRANULARITY / n / weight;
    if s < GRANULARITY_MIN then GRANULARITY_MIN else s
  }

  /** The longest slice any task gets among n, whatever its priority and niceness. */
  function MaxSlice(n: nat): (r: nat)
    requires n > 0
  {
    if GRANULARITY / n < GRANULARITY_MIN then GRANULARITY_MIN else GRANULARITY / n
  }

  lemma SliceBound(n: nat, priority: nat, nice: nat)
    requires n > 0 && priority <= MAX_PRIORITY
    ensures GRANULARITY_MIN <= SliceFor(n, priority, nice) <= MaxSlice(n)
  {
    var approx := MAX_PRIORITY - priority + nice;
    var weight := if approx == 0 then 1 else approx;
    DivShrinks(GRANULARITY / n, weight);
  }

  /** The weight of a task: 1 at the highest priority and niceness 0, and one more for every step
      of priority below that and of niceness above. */
  predicate Weighs(w: nat, priority: nat, nice: nat) {
    w + priority == MAX_PRIORITY + nice || (w == 1 && priority == MAX_PRIORITY && nice == 0)
  }

  /** s is the most ticks that n tasks of weight w can have out of the granularity. */
  predicate Share(s: nat, n: nat, w: nat) {
    s * w * n <= GRANULARITY < (s + 1) * w * n
  }

  /** The slice is the task's share, or the shortest slice if that is longer. */
  lemma SliceExact(n: nat, priority: nat, nice: nat, w: nat, s: nat)
    requires n > 0 && priority <= MAX_PRIORITY && w > 0 && Weighs(w, priority, nice) && Share(s, n, w)
    ensures SliceFor(n, priority, nice) == if s < GRANULARITY_MIN then GRANULARITY_MIN else s
  {
    var q := ShareOf(n, w);
    OneShare(s, q, n, w);
    Divided(n, priority, nice, w, q);
  }

  lemma Divided(n: nat, priority: nat, nice: nat, w: nat, q: nat)
    requires n > 0 && priority <= MAX_PRIORITY && w > 0 && Weighs(w, priority, nice) && q == GRANULARITY / n / w
    ensures SliceFor(n, priority, nice) == if q < GRANULARITY_MIN then GRANULARITY_MIN else q
  {
    var approx := MAX_PRIORITY - priority + nice;
    assert w == if approx == 0 then 1 else approx;
  }

  /** There is such a share. */
  lemma ShareOf(n: nat, w: nat) returns (s: nat)
    requires n > 0 && w > 0
    ensures Share(s, n, w) && s == GRANULARITY / n / w
  {
    s := QuotientBounds(GRANULARITY, n, w);
  }

  lemma QuotientBounds(x: nat, n: nat, w: nat) returns (q: nat)
    requires n > 0 && w > 0
    ensures q == x / n / w && q * w * n <= x < (q + 1) * w * n
  {
    var a: nat := x / n;
    q := a / w;
    assert a * n <= x < (a + 1) * n;
    assert q * w <= a < (q + 1) * w;
    MulKeeps(q * w, a, n);
    MulKeeps(a + 1, (q + 1) * w, n);
  }

  lemma MulKeeps(x: nat, y: nat, n: nat)
    requires x <= y
    ensures x * n <= y * n
  {
  }

  lemma OneShare(s: nat, q: nat, n: nat, w: nat)
    requires Share(s, n, w) && Share(q, n, w)
    ensures s == q
  {
    if s < q {
      MulKeeps(s + 1, q, w);
      MulKeeps((s + 1) * w, q * w, n);
    } else if q < s {
      MulKeeps(q + 1, s, w);
      MulKeeps((q + 1) * w, s * w, n);
    }
  }

  /** A higher priority or a lower niceness never shortens the slice. */
  lemma SliceMonotone(n: nat, p: nat, nice: nat, q: nat, better: nat)
    requires n > 0 && p <= q <= MAX_PRIORITY && better <= nice
    ensures SliceFor(n, p, nice) <= SliceFor(n, q, better)
  {
    var v, w := MAX_PRIORITY - p + nice, MAX_PRIORITY - q + better;
    DivKeeps(GRANULARITY / n, if w == 0 then 1 else w, if v == 0 then 1 else v);
  }

  lemma DivKeeps(x: nat, w: nat, v: nat)
    requires 0 < w <= v
    ensures x / v <= x / w
  {
    var a, b := x / v, x / w;
    assert a * v <= x < (b + 1) * w;
    if a > b {
      MulKeeps(b + 1, a, w);
      MulKeeps(w, v, a);
    }
  }

  /** The longest slice goes to the highest priority with niceness 0. */
  lemma LongestSlice(n: nat)
    requires n > 0
    ensures SliceFor(n, MAX_PRIORITY, 0) == MaxSlice(n)
  {
    assert GRANULARITY / n / 1 == GRANULARITY / n;
  }

  lemma DivShrinks(x: nat, d: nat)
    requires d > 0
    ensures x / d <= x
  {
    MulGrows(x / d, d);
    assert x == (x / d) * d + x % d;
  }

  lemma {:induction false} MulGrows(q: nat, d: nat)
    requires d > 0
    ensures q * d >= q
    decreases d
  {
    if d > 1 {
      MulGrows(q, d - 1);
      assert q * d == q * (d - 1) + q;
    }
  }

  // ------------------------------------------------------------------ selection

  function Rotate(s: seq<nat>, k: nat): (r: seq<nat>)
    requires k <= |s|
    ensures |r| == |s| && forall x | x in r :: x in s
  {
    s[k..] + s[..k]
  }

  /** The first place of x in s. */
  function Position(s: seq<nat>, x: nat): (p: nat)
    requires x in s
    ensures p < |s| && s[p] == x && forall j | 0 <= j < p :: s[j] != x
  {
    if s[0] == x then 0 else 1 + Position(s[1..], x)
  }

  /** One rotation of the list after i of them. */
  lemma RotateMore(s: seq<nat>, i: nat)
    requires i < |s|
    ensures Rotate(s, i) != [] && Rotate(s, i)[0] == s[i]
    ensures Rotate(s, i)[1..] + [Rotate(s, i)[0]] == Rotate(s, i + 1)
  {
  }

  predicate IsBlocked(s: Sched, t: nat) {
    t in s.tasks && s.tasks[t].status == Blocked
  }

  /** The search of schedule() (src/processmanager.cpp:124-158): the list it leaves and the task
      it ends on. i counts the tasks already moved to the end. */
  function Search(s: Sched, i: nat): (r: (seq<nat>, nat))
    requires i <= |s.list|
    ensures |r.0| == |s.list|
    decreases |s.list| - i
  {
    if i == |s.list| || s.list[i] == s.current then (Rotate(s.list, i), s.current)
    else if IsBlocked(s, s.list[i]) then Search(s, i + 1)
    else (Rotate(s.list, i + 1), s.list[i])
  }

  /** The state after schedule(): nothing without tasks; on a switch the tasks' statuses and the new slice too. */
  function Schedule(s: Sched): (r: Sched)
    requires Known(s)
    ensures r.tasks.Keys == s.tasks.Keys
  {
    SearchInList(s, 0);
    if s.list == [] then s else SwitchTo(s, Search(s, 0).0, Search(s, 0).1)
  }

  /** The end of schedule() (src/processmanager.cpp:159-201): next runs, unless it runs already. */
  function SwitchTo(s: Sched, list: seq<nat>, next: nat): (r: Sched)
    requires s.current in s.tasks && next in s.tasks && s.list != []
    requires s.tasks[next].priority <= MAX_PRIORITY && s.tasks[next].nice <= MAX_NICE
    ensures r.tasks.Keys == s.tasks.Keys
  {
    if next == s.current then s.(list := list)
    else
      var was, now := s.tasks[s.current], s.tasks[next];
      var slice := SliceFor(|s.list|, now.priority, now.nice);
      s.(list := list, current := next,
         tasks := s.tasks[s.current := if was.status == Blocked then was else was.(status := Waiting)]
                         [next := SetSlice(now.(status := Running), slice)])
  }

  lemma {:induction false} SearchRotates(s: Sched, i: nat)
    requires i <= |s.list|
    ensures forall t | t in Search(s, i).0 :: t in s.list
    decreases |s.list| - i
  {
    if i < |s.list| && s.list[i] != s.current && IsBlocked(s, s.list[i]) {
      SearchRotates(s, i + 1);
    }
  }

  lemma {:induction false} SearchInList(s: Sched, i: nat)
    requires i <= |s.list|
    ensures Search(s, i).1 == s.current || Search(s, i).1 in s.list
    decreases |s.list| - i
  {
    if i < |s.list| && s.list[i] != s.current && IsBlocked(s, s.list[i]) {
      SearchInList(s, i + 1);
    }
  }

  /** No task before position p is ready: each is BLOCKED and none is current. */
  ghost predicate NoneReady(s: Sched, p: nat)
    requires p <= |s.list|
  {
    forall j | 0 <= j < p :: s.list[j] != s.current && IsBlocked(s, s.list[j])
  }

  lemma {:induction false} SearchSpec(s: Sched, i: nat, p: nat)
    requires i <= p < |s.list| && s.list[p] == s.current && (forall j | 0 <= j < p :: s.list[j] != s.current)
    requires NoneReady(s, i)
    ensures var (list, next) := Search(s, i);
      if NoneReady(s, p) then next == s.current && list == Rotate(s.list, p)
      else exists k :: 0 <= k < p && NoneReady(s, k) && !IsBlocked(s, s.list[k])
                       && next == s.list[k] && list == Rotate(s.list, k + 1)
    decreases p - i
  {
    if i < p {
      if IsBlocked(s, s.list[i]) {
        SearchSpec(s, i + 1, p);
      } else {
        assert !NoneReady(s, p);
      }
    }
  }

  /** The selection rule. With current at p, its first place in the list, schedule() keeps it
      exactly when every task ahead of it is BLOCKED, and leaves it at the head; otherwise the
      first task ahead that is not BLOCKED runs and is now last. The list is only rotated. */
  lemma Selection(s: Sched, p: nat)
    requires Known(s) && p < |s.list| && s.list[p] == s.current && (forall j | 0 <= j < p :: s.list[j] != s.current)
    ensures var r := Schedule(s);
      && (r.current == s.current <==> NoneReady(s, p))
      && (NoneReady(s, p) ==> r == s.(list := Rotate(s.list, p)) && r.list[0] == s.current)
      && (!NoneReady(s, p) ==>
            exists k :: 0 <= k < p && NoneReady(s, k) && !IsBlocked(s, s.list[k])
                        && r.current == s.list[k] && r.list == Rotate(s.list, k + 1)
                        && r.list[|r.list| - 1] == r.current)
  {
    SearchSpec(s, 0, p);
    if !NoneReady(s, p) {
      var k :| 0 <= k < p && NoneReady(s, k) && !IsBlocked(s, s.list[k])
               && Search(s, 0) == (Rotate(s.list, k + 1), s.list[k]);
      var r := Schedule(s);
      assert r.current == s.list[k] && r.list == Rotate(s.list, k + 1) && r.list[|r.list| - 1] == r.current;
    }
  }

  /** After a switch the chosen task runs with the slice of its weight, cut at its own size; the old
      one waits, unless it is BLOCKED; nothing else about any task changes. */
  lemma Switched(s: Sched, n: nat, w: nat, share: nat)
    requires Known(s) && Schedule(s).current != s.current && n == |s.list|
    requires var now := s.tasks[Schedule(s).current];
      w > 0 && Weighs(w, now.priority, now.nice) && n > 0 && Share(share, n, w)
    ensures var r := Schedule(s);
      var was, now := s.tasks[s.current], s.tasks[r.current];
      var slice := if share < GRANULARITY_MIN then GRANULARITY_MIN else share;
      && r.tasks[r.current] ==
         Task(Running, now.priority, now.nice, now.size, if now.size == 0 then slice else Min(slice, now.size), now.pid)
      && r.tasks[s.current] == was.(status := if was.status == Blocked then Blocked else Waiting)
      && forall t | t in s.tasks && t != s.current && t != r.current :: r.tasks[t] == s.tasks[t]
  {
    var next := Schedule(s).current;
    SliceExact(n, s.tasks[next].priority, s.tasks[next].nice, w, share);
  }

  // ------------------------------------------------------------------ round robin

  /** The tasks are distinct, none is blocked, the running task is last. */
  ghost predicate Fair(s: Sched) {
    && Known(s) && |s.list| >= 2
    && (forall i, j | 0 <= i < j < |s.list| :: s.list[i] != s.list[j])
    && (forall t | t in s.list :: s.tasks[t].status != Blocked)
    && s.list[|s.list| - 1] == s.current
    && s.tasks[s.current].slice <= MaxSlice(|s.list|)
  }

  lemma FairSchedule(s: Sched)
    requires Fair(s)
    ensures var r := Schedule(s);
      Fair(r) && r.list == Rotate(s.list, 1) && r.current == s.list[0] && |r.list| == |s.list|
  {
    var next := s.list[0];
    assert Search(s, 0) == (Rotate(s.list, 1), next);
    SliceBound(|s.list|, s.tasks[next].priority, s.tasks[next].nice);
    var r := Schedule(s);
    assert r.list == s.list[1..] + [next];
    forall t | t in r.list ensures t in s.list {}
  }

  /** The tasks that run over n schedules. */
  ghost function Turns(s: Sched, n: nat): (r: seq<nat>)
    requires Fair(s)
    decreases n
  {
    FairSchedule(s);
    if n == 0 then [] else [Schedule(s).current] + Turns(Schedule(s), n - 1)
  }

  lemma {:induction false} TurnsFollowList(s: Sched, n: nat)
    requires Fair(s) && n <= |s.list|
    ensures Turns(s, n) == s.list[..n]
    decreases n
  {
    if n > 0 {
      FairSchedule(s);
      RotatePrefix(s.list, n);
      TurnsFollowList(Schedule(s), n - 1);
    }
  }

  lemma RotatePrefix(s: seq<nat>, n: nat)
    requires 0 < n <= |s|
    ensures [s[0]] + Rotate(s, 1)[..n - 1] == s[..n]
    ensures n > 1 ==> Rotate(s, 1)[n - 2] == s[n - 1]
  {
  }

  /** Over as many schedules as there are tasks every task runs exactly once, in list order. */
  lemma RoundRobin(s: Sched)
    requires Fair(s)
    ensures Turns(s, |s.list|) == s.list
    ensures forall t | t in s.list :: exists i :: 0 <= i < |s.list| && Turns(s, |s.list|)[i] == t
    ensures forall i, j | 0 <= i < j < |s.list| :: Turns(s, |s.list|)[i] != Turns(s, |s.list|)[j]
  {
    TurnsFollowList(s, |s.list|);
    assert s.list[..|s.list|] == s.list;
  }

  // ------------------------------------------------------------------ timer ticks

  /** What happens between turns: timer ticks, yields, and changes of priority, niceness and
      size of any task. */
  datatype Event = Tick | Yield | Priority(t: nat, p: nat) | Nice(t: nat, p: nat) | Size(t: nat, p: nat)

  /** TimerX86::run (arch/x86/timerx86.cpp:25-38): spend the slice, or schedule. */
  predicate Switches(s: Sched)
    requires Known(s)
  {
    s.tasks[s.current].slice == 0
  }

  function Put(s: Sched, t: nat, v: Task): (r: Sched) {
    s.(tasks := s.tasks[t := v])
  }

  function Step(s: Sched, e: Event): (r: Sched)
    requires Known(s)
  {
    match e
    case Tick =>
      if Switches(s) then Schedule(s)
      else Put(s, s.current, s.tasks[s.current].(slice := s.tasks[s.current].slice - 1))
    case Yield => Put(s, s.current, s.tasks[s.current].(slice := 0))
    case Priority(t, p) => if t in s.tasks then Put(s, t, SetPriority(s.tasks[t], p)) else s
    case Nice(t, p) => if t in s.tasks then Put(s, t, SetNice(s.tasks[t], p)) else s
    case Size(t, p) => if t in s.tasks then Put(s, t, s.tasks[t].(size := p)) else s
  }

  lemma FairStep(s: Sched, e: Event)
    requires Fair(s)
    ensures Fair(Step(s, e)) && |Step(s, e).list| == |s.list|
    ensures !(e == Tick && Switches(s)) ==> Step(s, e).list == s.list && Step(s, e).current == s.current
  {
    if e == Tick && Switches(s) {
      FairSchedule(s);
    }
  }

  function TickCount(es: seq<Event>): (n: nat) {
    if es == [] then 0 else (if es[0] == Tick then 1 else 0) + TickCount(es[1..])
  }

  /** Somewhere in the run a tick hands the processor to t. */
  ghost predicate GetsTurn(s: Sched, es: seq<Event>, t: nat)
    requires Fair(s)
    decreases |es|
  {
    es != [] &&
    (FairStep(s, es[0]);
     (es[0] == Tick && Switches(s) && Schedule(s).current == t) || GetsTurn(Step(s, es[0]), es[1..], t))
  }

  /** Ticks left at most until the task at position i of the list runs: the rest of the current
      slice, and a full turn of every task ahead of it. */
  ghost function Wait(s: Sched, i: nat): (w: nat)
    requires Fair(s)
  {
    s.tasks[s.current].slice + 1 + i * (MaxSlice(|s.list|) + 1)
  }

  /** A switch brings the task at position i closer by at least one tick or hands it the
      processor. */
  lemma WaitSwitch(s: Sched, i: nat)
    requires Fair(s) && i < |s.list| && Switches(s)
    ensures Fair(Schedule(s))
    ensures if i == 0 then Schedule(s).current == s.list[0]
            else Schedule(s).list[i - 1] == s.list[i] && Wait(Schedule(s), i - 1) < Wait(s, i)
  {
    FairSchedule(s);
    RotatePrefix(s.list, i + 1);
    if i > 0 { MulLess(i, MaxSlice(|s.list|) + 1); }
  }

  lemma MulLess(i: nat, full: nat)
    requires i > 0
    ensures i * full == (i - 1) * full + full
  {
  }

  /** A tick that spends the slice brings it closer by one; no other event takes it away. */
  lemma WaitSpend(s: Sched, e: Event, i: nat)
    requires Fair(s) && i < |s.list| && !(e == Tick && Switches(s))
    ensures Fair(Step(s, e)) && Step(s, e).list == s.list
    ensures Wait(Step(s, e), i) <= Wait(s, i) - (if e == Tick then 1 else 0)
  {
    FairStep(s, e);
  }

  lemma {:induction false} WaitBound(s: Sched, es: seq<Event>, i: nat)
    requires Fair(s) && i < |s.list| && TickCount(es) >= Wait(s, i)
    ensures GetsTurn(s, es, s.list[i])
    decreases |es|
  {
    if es[0] != Tick || !Switches(s) {
      WaitSpend(s, es[0], i);
      WaitBound(Step(s, es[0]), es[1..], i);
    } else {
      WaitSwitch(s, i);
      if i > 0 { WaitBound(Schedule(s), es[1..], i - 1); }
    }
  }

  /** However priorities, niceness and sizes change and whoever yields, no task of n waits more
      than max(21 n, 500 + n) ticks for its next turn. */
  lemma TurnGap(s: Sched, es: seq<Event>, t: nat)
    requires Fair(s) && t in s.list
    requires TickCount(es) >= 21 * |s.list| && TickCount(es) >= 500 + |s.list|
    ensures GetsTurn(s, es, t)
  {
    var i :| 0 <= i < |s.list| && s.list[i] == t;
    GapArithmetic(|s.list|, i, s.tasks[s.current].slice);
    WaitBound(s, es, i);
  }

  lemma GapArithmetic(n: nat, i: nat, slice: nat)
    requires i < n && slice <= MaxSlice(n)
    ensures slice + 1 + i * (MaxSlice(n) + 1) <= n * (MaxSlice(n) + 1)
    ensures n * (MaxSlice(n) + 1) <= if GRANULARITY / n < GRANULARITY_MIN then 21 * n else 500 + n
  {
    MulUpTo(i, n, MaxSlice(n) + 1);
    if GRANULARITY / n >= GRANULARITY_MIN {
      DivBack(GRANULARITY, n);
    }
  }

  lemma MulUpTo(i: nat, n: nat, full: nat)
    requires i < n
    ensures i * full + full <= n * full && n * full == n + n * (full - 1)
  {
    MulNonneg(n - i - 1, full);
    assert n * full == (n - i - 1) * full + i * full + full;
  }

  lemma MulNonneg(x: nat, y: nat)
    ensures x * y >= 0
  {
  }

  lemma DivBack(x: nat, n: nat)
    requires n > 0
    ensures n * (x / n) <= x
  {
  }

  // ------------------------------------------------------------------ blocked tasks

  /** With current at the head, schedule() changes nothing, whatever any task's status. */
  lemma HeadStays(s: Sched)
    requires Known(s) && s.list != [] && s.list[0] == s.current
    ensures Schedule(s) == s
  {
    assert Search(s, 0) == (Rotate(s.list, 0), s.current);
    assert Rotate(s.list, 0) == s.list;
  }

  /** Waking and blocking change statuses only. */
  datatype Change = Timer(e: Event) | SetStatus(t: nat, st: Status)

  function Apply(s: Sched, c: Change): (r: Sched)
    requires Known(s) && s.list != []
  {
    match c
    case Timer(e) => Step(s, e)
    case SetStatus(t, st) => if t in s.tasks then Put(s, t, s.tasks[t].(status := st)) else s
  }

  ghost predicate Reaches(s: Sched, cs: seq<Change>, r: Sched)
    decreases |cs|
  {
    if cs == [] then r == s
    else Known(s) && s.list != [] && Reaches(Apply(s, cs[0]), cs[1..], r)
  }

  lemma {:induction false} HeadStaysForever(s: Sched, cs: seq<Change>, r: Sched)
    requires Known(s) && s.list != [] && s.list[0] == s.current && Reaches(s, cs, r)
    ensures r.current == s.current && r.list == s.list
    decreases |cs|
  {
    if cs != [] {
      HeadStays(s);
      HeadStaysForever(Apply(s, cs[0]), cs[1..], r);
    }
  }

  /** The running task keeps the processor for exactly its slice: n ticks take n from it and change
      nothing else, and the tick behind the last one schedules. */
  lemma {:induction false} RunsItsSlice(s: Sched, n: nat, r: Sched)
    requires Known(s) && s.list != [] && n <= s.tasks[s.current].slice && Reaches(s, Ticks(n), r)
    ensures r == Put(s, s.current, s.tasks[s.current].(slice := s.tasks[s.current].slice - n)) && Known(r)
    ensures n == s.tasks[s.current].slice ==> Step(r, Tick) == Schedule(r)
    decreases n
  {
    if n > 0 {
      RunsItsSlice(Step(s, Tick), n - 1, r);
    }
  }

  /** After a yield the next tick schedules. */
  lemma YieldEnds(s: Sched, r: Sched)
    requires Known(s) && r == Step(s, Yield)
    ensures Known(r) && Switches(r) && Step(r, Tick) == Schedule(r)
    ensures r.list == s.list && r.current == s.current && r.tasks.Keys == s.tasks.Keys
    ensures forall t | t in s.tasks :: r.tasks[t] == s.tasks[t].(slice := r.tasks[t].slice)
  {
  }

  function Ticks(n: nat): (cs: seq<Change>) {
    if n == 0 then [] else [Timer(Tick)] + Ticks(n - 1)
  }

  /** Once every task ahead of the running one has been BLOCKED at one schedule(), the running
      task keeps the processor on every later run, even while it is itself BLOCKED and others
      are ready: the scheduler alone does not stop a blocked task. */
  lemma CapturedForever(s: Sched, p: nat, cs: seq<Change>, r: Sched)
    requires Known(s) && p < |s.list| && s.list[p] == s.current && (forall j | 0 <= j < p :: s.list[j] != s.current)
    requires NoneReady(s, p) && Reaches(Schedule(s), cs, r)
    ensures r.current == s.current
  {
    Selection(s, p);
    HeadStaysForever(Schedule(s), cs, r);
  }

  /** Two tasks, of which the one that runs, at the head, is BLOCKED and the other is ready. */
  function BlockedAtHead(): (s: Sched) {
    Sched([1, 2], map[1 := Task(Blocked, 0, 0, 0, 0, 1), 2 := Task(Waiting, 0, 0, 0, 0, 2)], 1)
  }

  /** The blocked task keeps the processor. */
  lemma BlockedKeepsRunning()
    ensures var s := BlockedAtHead();
      && Known(s) && IsBlocked(s, s.current) && 2 in s.list && !IsBlocked(s, 2)
      && Schedule(s) == s
  {
    HeadStays(BlockedAtHead());
  }
}
