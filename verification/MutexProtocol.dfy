/** The blocking mutex (inc/mutex.hh:47-85) over intrusive wait queues (src/waitlist.cpp), as a
    state machine whose steps are the individual reads and writes of lock and unlock. Any number
    of tasks and mutexes, any interleaving. A task parked in reschedule continues only when its
    status is no longer BLOCKED. */
module MutexProtocol {
  import opened Basics

  /** Where a task is inside lock(m) or unlock(m). */
  datatype Pc =
    | Idle
    | LockSpin(m: nat)   // compare-and-swap on the spinlock
    | LockTest(m: nat)   // if (!value)
    | LockTake(m: nat)   // value = 1
    | LockLeave(m: nat)  // locker.unlock(), lock() returns
    | EnqClear(m: nat)   // current->wait.next = nullptr
    | EnqLink(m: nat)    // append at the tail
    | EnqBlock(m: nat)   // status = BLOCKED
    | WaitLeave(m: nat)  // locker.unlock()
    | Parked(m: nat)     // reschedule()
    | UnlSpin(m: nat)    // compare-and-swap on the spinlock
    | UnlTest(m: nat)    // if (queue.empty())
    | UnlClear(m: nat)   // value = 0
    | DeqHead(m: nat)    // take the head item
    | DeqWake(m: nat, woken: nat)  // status = WAITING
    | UnlLeave(m: nat)   // locker.unlock(), unlock() returns

  /** value and locked are the flags of each mutex, head and tail its Waitlist, next the one
      WaitItem of each task. held are the mutexes a task has locked and not yet released. queue,
      owner, arrivals and grants are history: who waits, who was last given the mutex, in which
      order tasks passed the test in lock, in which order they were given the mutex. */
  datatype State = State(
    value: nat -> bool, locked: nat -> bool, head: nat -> Option<nat>, tail: nat -> Option<nat>,
    next: nat -> Option<nat>, status: nat -> Status, pc: nat -> Pc, held: nat -> set<nat>,
    queue: nat -> seq<nat>, owner: nat -> Option<nat>, arrivals: nat -> seq<nat>, grants: nat -> seq<nat>)

  function Upd<T>(f: nat -> T, k: nat, v: T): (r: nat -> T)
    ensures forall x: nat :: r(x) == if x == k then v else f(x)
  {
    (x: nat) => if x == k then v else f(x)
  }

  function Init(): (s: State) {
    State(_ => false, _ => false, _ => None, _ => None, _ => None, _ => Waiting, _ => Idle, _ => {},
          _ => [], _ => None, _ => [], _ => [])
  }

  // ------------------------------------------------------------------ steps

  function Goto(s: State, t: nat, p: Pc): (r: State) {
    s.(pc := Upd(s.pc, t, p))
  }

  function Release(s: State, m: nat): (r: State) {
    s.(locked := Upd(s.locked, m, false))
  }

  /** The spinlock's compare-and-swap: enter when it is free, else stay. */
  function Spin(s: State, t: nat, m: nat, then_: Pc): (r: State) {
    if s.locked(m) then s else Goto(s.(locked := Upd(s.locked, m, true)), t, then_)
  }

  function Take(s: State, t: nat, m: nat): (r: State) {
    s.(value := Upd(s.value, m, true), owner := Upd(s.owner, m, Some(t)),
       arrivals := Upd(s.arrivals, m, s.arrivals(m) + [t]), grants := Upd(s.grants, m, s.grants(m) + [t]))
  }

  /** Waitlist::enqueue links the task's item behind the tail (src/waitlist.cpp:10-14). */
  function Link(s: State, t: nat, m: nat): (r: State) {
    var a := s.(queue := Upd(s.queue, m, s.queue(m) + [t]), arrivals := Upd(s.arrivals, m, s.arrivals(m) + [t]),
                tail := Upd(s.tail, m, Some(t)));
    if s.tail(m).None? then a.(head := Upd(s.head, m, Some(t)))
    else a.(next := Upd(s.next, s.tail(m).value, Some(t)))
  }

  /** Waitlist::dequeue unlinks the head item (src/waitlist.cpp:28-33); its task is given the mutex. */
  function Unlink(s: State, t: nat, m: nat): (r: State)
    requires s.head(m).Some?
  {
    var n := s.head(m).value;
    var last := s.head(m) == s.tail(m);
    s.(head := Upd(s.head, m, if last then None else s.next(n)),
       tail := if last then Upd(s.tail, m, None) else s.tail,
       queue := Upd(s.queue, m, if s.queue(m) == [] then [] else s.queue(m)[1..]),
       owner := Upd(s.owner, m, Some(n)), grants := Upd(s.grants, m, s.grants(m) + [n]),
       held := Upd(s.held, t, s.held(t) - {m}))
  }

  function Drop(s: State, t: nat, m: nat): (r: State) {
    s.(value := Upd(s.value, m, false), owner := Upd(s.owner, m, None), held := Upd(s.held, t, s.held(t) - {m}))
  }

  /** The next step of task t inside lock or unlock. */
  function Advance(s: State, t: nat): (r: State) {
    match s.pc(t)
    case Idle => s
    case LockSpin(m) => Spin(s, t, m, LockTest(m))
    case LockTest(m) => Goto(s, t, if s.value(m) then EnqClear(m) else LockTake(m))
    case LockTake(m) => Goto(Take(s, t, m), t, LockLeave(m))
    case LockLeave(m) => Goto(Release(s, m), t, Idle).(held := Upd(s.held, t, s.held(t) + {m}))
    case EnqClear(m) => Goto(s.(next := Upd(s.next, t, None)), t, EnqLink(m))
    case EnqLink(m) => Goto(Link(s, t, m), t, EnqBlock(m))
    case EnqBlock(m) => Goto(s.(status := Upd(s.status, t, Blocked)), t, WaitLeave(m))
    case WaitLeave(m) => Goto(Release(s, m), t, Parked(m))
    case Parked(m) => if s.status(t) == Blocked then s else Resume(s, t, m)
    case UnlSpin(m) => Spin(s, t, m, UnlTest(m))
    case UnlTest(m) => Goto(s, t, if s.head(m).None? then UnlClear(m) else DeqHead(m))
    case UnlClear(m) => Goto(Drop(s, t, m), t, UnlLeave(m))
    case DeqHead(m) =>
      if s.head(m).None? then Goto(s, t, UnlLeave(m))
      else Goto(Unlink(s, t, m), t, DeqWake(m, s.head(m).value))
    case DeqWake(m, n) => Goto(s.(status := Upd(s.status, n, Waiting)), t, UnlLeave(m))
    case UnlLeave(m) => Goto(Release(s, m), t, Idle)
  }

  /** lock() returns to a task that was parked. */
  function Resume(s: State, t: nat, m: nat): (r: State) {
    Goto(s.(held := Upd(s.held, t, s.held(t) + {m})), t, Idle)
  }

  datatype Action =
    | CallLock(t: nat, m: nat)
    | CallUnlock(t: nat, m: nat)    // only by a task that holds m
    | Go(t: nat)
    | Reschedule(t: nat, st: Status)  // the scheduler runs or preempts a task that is not blocked

  predicate Enabled(s: State, a: Action) {
    match a
    case CallLock(t, _) => s.pc(t) == Idle
    case CallUnlock(t, m) => s.pc(t) == Idle && m in s.held(t)
    case Go(_) => true
    case Reschedule(t, st) => s.status(t) != Blocked && st != Blocked
  }

  function Step(s: State, a: Action): (r: State) {
    match a
    case CallLock(t, m) => Goto(s, t, LockSpin(m))
    case CallUnlock(t, m) => Goto(s, t, UnlSpin(m))
    case Go(t) => Advance(s, t)
    case Reschedule(t, st) => s.(status := Upd(s.status, t, st))
  }

  // ------------------------------------------------------------------ invariant

  /** The task is between taking and releasing the spinlock of m. */
  predicate InSpin(p: Pc, m: nat) {
    match p
    case LockTest(k) => k == m
    case LockTake(k) => k == m
    case LockLeave(k) => k == m
    case EnqClear(k) => k == m
    case EnqLink(k) => k == m
    case EnqBlock(k) => k == m
    case WaitLeave(k) => k == m
    case UnlTest(k) => k == m
    case UnlClear(k) => k == m
    case DeqHead(k) => k == m
    case DeqWake(k, _) => k == m
    case UnlLeave(k) => k == m
    case _ => false
  }

  /** The task owns m: it has it, or lock(m) is about to return to it. */
  predicate Owns(s: State, t: nat, m: nat) {
    m in s.held(t) || s.pc(t) == LockLeave(m) || (s.pc(t) == Parked(m) && t !in s.queue(m))
  }

  ghost predicate SpinInv(s: State) {
    && (forall t: nat, m: nat :: InSpin(s.pc(t), m) ==> s.locked(m))
    && (forall t: nat, u: nat, m: nat :: InSpin(s.pc(t), m) && InSpin(s.pc(u), m) ==> t == u)
  }

  /** Each mutex has at most one owner, and its value is 1 exactly when it has one. */
  ghost predicate OwnerInv(s: State) {
    && (forall t: nat, m: nat :: Owns(s, t, m) <==> s.owner(m) == Some(t))
    && (forall m: nat :: s.value(m) <==> s.owner(m).Some?)
  }

  /** What a task inside lock or unlock has established. */
  predicate PcOk(s: State, t: nat) {
    match s.pc(t)
    case LockTake(m) => !s.value(m)
    case EnqClear(m) => s.value(m)
    case EnqLink(m) => s.value(m) && s.next(t).None?
    case EnqBlock(m) => t in s.queue(m)
    case WaitLeave(m) => t in s.queue(m) && s.status(t) == Blocked
    case Parked(m) => t in s.queue(m) ==> s.status(t) == Blocked
    case UnlSpin(m) => m in s.held(t)
    case UnlTest(m) => m in s.held(t)
    case UnlClear(m) => m in s.held(t) && s.queue(m) == []
    case DeqHead(m) => m in s.held(t) && s.queue(m) != []
    case DeqWake(m, n) => m !in s.held(t) && s.pc(n) == Parked(m) && n !in s.queue(m) && s.status(n) == Blocked
    case UnlLeave(m) => m !in s.held(t)
    case _ => true
  }

  ghost predicate PcInv(s: State) {
    forall t: nat :: PcOk(s, t)
  }

  /** A queued task is in its enqueue, or parked, on that very mutex; a mutex with a queue is locked. */
  ghost predicate QueueInv(s: State) {
    && (forall t: nat, m: nat :: t in s.queue(m) ==>
          s.pc(t) == EnqBlock(m) || s.pc(t) == WaitLeave(m) || s.pc(t) == Parked(m))
    && (forall m: nat :: s.queue(m) != [] ==> s.value(m))
    && (forall m: nat :: s.arrivals(m) == s.grants(m) + s.queue(m))
  }

  ghost predicate NoRepeat(q: seq<nat>) {
    forall i, j :: 0 <= i < j < |q| ==> q[i] != q[j]
  }

  /** head, tail and the next pointers spell out the queue. */
  ghost predicate LinkedQueue(s: State, m: nat) {
    var q := s.queue(m);
    && NoRepeat(q)
    && (if q == [] then s.head(m).None? && s.tail(m).None?
        else s.head(m) == Some(q[0]) && s.tail(m) == Some(q[|q| - 1]) && s.next(q[|q| - 1]).None?)
    && (forall i :: 0 <= i < |q| - 1 ==> s.next(q[i]) == Some(q[i + 1]))
  }

  ghost predicate LinkInv(s: State) {
    forall m: nat :: LinkedQueue(s, m)
  }

  ghost predicate Inv(s: State) {
    SpinInv(s) && OwnerInv(s) && PcInv(s) && QueueInv(s) && LinkInv(s)
  }

  // ------------------------------------------------------------------ every step

  /** Queues whose pointers did not change stay linked. */
  lemma LinkSame(s: State, r: State)
    requires LinkInv(s)
    requires forall m: nat :: r.queue(m) == s.queue(m) && r.head(m) == s.head(m) && r.tail(m) == s.tail(m)
    requires forall t: nat, m: nat :: t in s.queue(m) ==> r.next(t) == s.next(t)
    ensures LinkInv(r)
  {
    forall m: nat ensures LinkedQueue(r, m) {
      assert LinkedQueue(s, m);
    }
  }

  /** A step of t that changes only its own place, its own held set and spinlock flags, and
      neither its ownership nor what it waits for. */
  lemma Quiet(s: State, r: State, t: nat)
    requires Inv(s) && SpinInv(r)
    requires r == s.(pc := r.pc, locked := r.locked, held := r.held)
    requires forall u: nat :: u != t ==> r.pc(u) == s.pc(u) && r.held(u) == s.held(u)
    requires forall m: nat :: Owns(r, t, m) <==> Owns(s, t, m)
    requires PcOk(r, t)
    requires forall m: nat :: t in s.queue(m) ==>
      r.pc(t) == EnqBlock(m) || r.pc(t) == WaitLeave(m) || r.pc(t) == Parked(m)
    requires s.pc(t).Parked? ==> forall u: nat :: s.pc(u).DeqWake? ==> s.pc(u).woken != t
    ensures Inv(r)
  {
    LinkSame(s, r);
    forall u: nat ensures PcOk(r, u) {
      assert PcOk(s, u);
    }
    forall u: nat, m: nat ensures Owns(r, u, m) <==> r.owner(m) == Some(u) {
      assert Owns(s, u, m) <==> s.owner(m) == Some(u);
    }
  }

  /** t leaves the spinlock of m. */
  lemma LeaveSpin(s: State, r: State, t: nat, m: nat)
    requires SpinInv(s) && InSpin(s.pc(t), m) && r.locked == Upd(s.locked, m, false)
    requires forall u: nat :: u != t ==> r.pc(u) == s.pc(u)
    requires forall k: nat :: !InSpin(r.pc(t), k)
    ensures SpinInv(r)
  {
    forall u: nat, k: nat | InSpin(r.pc(u), k) ensures r.locked(k) {
      assert InSpin(s.pc(u), k);
    }
  }

  lemma SpinStep(s: State, t: nat)
    requires Inv(s) && (s.pc(t).LockSpin? || s.pc(t).UnlSpin?)
    ensures Inv(Advance(s, t))
  {
    var r := Advance(s, t);
    assert PcOk(s, t);
    if !s.locked(s.pc(t).m) {
      forall u: nat, v: nat, m: nat | InSpin(r.pc(u), m) && InSpin(r.pc(v), m) ensures u == v {
        if u != t && v != t { assert InSpin(s.pc(u), m) && InSpin(s.pc(v), m); }
      }
      Quiet(s, r, t);
    }
  }

  lemma TestStep(s: State, t: nat)
    requires Inv(s) && (s.pc(t).LockTest? || s.pc(t).UnlTest?)
    ensures Inv(Advance(s, t))
  {
    var m := s.pc(t).m;
    assert PcOk(s, t) && LinkedQueue(s, m);
    assert InSpin(s.pc(t), m);
    Quiet(s, Advance(s, t), t);
  }

  lemma LeaveStep(s: State, t: nat)
    requires Inv(s) && (s.pc(t).LockLeave? || s.pc(t).WaitLeave? || s.pc(t).UnlLeave?)
    ensures Inv(Advance(s, t))
  {
    assert PcOk(s, t);
    LeaveSpin(s, Advance(s, t), t, s.pc(t).m);
    Quiet(s, Advance(s, t), t);
  }

  lemma ParkedStep(s: State, t: nat)
    requires Inv(s) && s.pc(t).Parked?
    ensures Inv(Advance(s, t))
  {
    assert PcOk(s, t);
    if s.status(t) != Blocked {
      forall u: nat | s.pc(u).DeqWake? ensures s.pc(u).woken != t { assert PcOk(s, u); }
      Quiet(s, Advance(s, t), t);
    }
  }

  /** A step of t inside the spinlock of m keeps the spinlocks as they are. */
  lemma StaySpin(s: State, r: State, t: nat, m: nat)
    requires SpinInv(s) && InSpin(s.pc(t), m) && r.locked == s.locked
    requires forall u: nat :: u != t ==> r.pc(u) == s.pc(u)
    requires forall k: nat :: InSpin(r.pc(t), k) <==> k == m
    ensures SpinInv(r)
  {
    forall u: nat, k: nat | InSpin(r.pc(u), k) ensures InSpin(s.pc(u), k) {}
  }

  lemma EnqClearStep(s: State, t: nat)
    requires Inv(s) && s.pc(t).EnqClear?
    ensures Inv(Advance(s, t))
  {
    var m, r := s.pc(t).m, Advance(s, t);
    StaySpin(s, r, t, m);
    assert PcOk(s, t);
    LinkSame(s, r);
    forall u: nat ensures PcOk(r, u) { assert PcOk(s, u); }
    forall u: nat, k: nat ensures Owns(r, u, k) <==> r.owner(k) == Some(u) {
      assert Owns(s, u, k) <==> s.owner(k) == Some(u);
    }
  }

  lemma EnqBlockStep(s: State, t: nat)
    requires Inv(s) && s.pc(t).EnqBlock?
    ensures Inv(Advance(s, t))
  {
    var m, r := s.pc(t).m, Advance(s, t);
    StaySpin(s, r, t, m);
    assert PcOk(s, t);
    LinkSame(s, r);
    forall u: nat ensures PcOk(r, u) { assert PcOk(s, u); }
    forall u: nat, k: nat ensures Owns(r, u, k) <==> r.owner(k) == Some(u) {
      assert Owns(s, u, k) <==> s.owner(k) == Some(u);
    }
  }

  lemma DeqWakeStep(s: State, t: nat)
    requires Inv(s) && s.pc(t).DeqWake?
    ensures Inv(Advance(s, t))
  {
    var m, n, r := s.pc(t).m, s.pc(t).woken, Advance(s, t);
    StaySpin(s, r, t, m);
    assert PcOk(s, t);
    LinkSame(s, r);
    DeqWakePc(s, t, m, n);
    forall u: nat, k: nat ensures Owns(r, u, k) <==> r.owner(k) == Some(u) {
      assert Owns(s, u, k) <==> s.owner(k) == Some(u);
    }
  }

  lemma DeqWakePc(s: State, t: nat, m: nat, n: nat)
    requires Inv(s) && s.pc(t) == DeqWake(m, n)
    ensures PcInv(Advance(s, t))
  {
    var r := Advance(s, t);
    assert PcOk(s, t);
    forall u: nat ensures PcOk(r, u) {
      assert PcOk(s, u);
      if u != t && s.pc(u).DeqWake? && s.pc(u).woken == n { assert InSpin(s.pc(u), m) && InSpin(s.pc(t), m); }
    }
  }

  lemma LockTakeStep(s: State, t: nat)
    requires Inv(s) && s.pc(t).LockTake?
    ensures Inv(Advance(s, t))
  {
    var m, r := s.pc(t).m, Advance(s, t);
    StaySpin(s, r, t, m);
    assert PcOk(s, t);
    LinkSame(s, r);
    forall u: nat ensures PcOk(r, u) {
      assert PcOk(s, u);
      if u != t && InSpin(s.pc(u), m) { assert InSpin(s.pc(t), m); }
    }
    forall u: nat, k: nat ensures Owns(r, u, k) <==> r.owner(k) == Some(u) {
      assert Owns(s, u, k) <==> s.owner(k) == Some(u);
    }
  }

  lemma UnlClearStep(s: State, t: nat)
    requires Inv(s) && s.pc(t).UnlClear?
    ensures Inv(Advance(s, t))
  {
    var m, r := s.pc(t).m, Advance(s, t);
    StaySpin(s, r, t, m);
    assert PcOk(s, t);
    LinkSame(s, r);
    assert Owns(s, t, m);
    forall u: nat ensures PcOk(r, u) {
      assert PcOk(s, u);
      if u != t && InSpin(s.pc(u), m) { assert InSpin(s.pc(t), m); }
    }
    forall u: nat, k: nat ensures Owns(r, u, k) <==> r.owner(k) == Some(u) {
      assert Owns(s, u, k) <==> s.owner(k) == Some(u);
    }
  }

  lemma RescheduleStep(s: State, t: nat, st: Status)
    requires Inv(s) && s.status(t) != Blocked && st != Blocked
    ensures Inv(s.(status := Upd(s.status, t, st)))
  {
    var r := s.(status := Upd(s.status, t, st));
    LinkSame(s, r);
    forall u: nat ensures PcOk(r, u) { assert PcOk(s, u); }
    forall u: nat, k: nat ensures Owns(r, u, k) <==> r.owner(k) == Some(u) {
      assert Owns(s, u, k) <==> s.owner(k) == Some(u);
    }
  }

  lemma CallStep(s: State, t: nat, p: Pc)
    requires Inv(s) && s.pc(t) == Idle && (p.LockSpin? || (p.UnlSpin? && p.m in s.held(t)))
    ensures Inv(Goto(s, t, p))
  {
    var r := Goto(s, t, p);
    forall u: nat, k: nat | InSpin(r.pc(u), k) ensures InSpin(s.pc(u), k) {}
    Quiet(s, r, t);
  }

  /** A task waits in at most one queue. */
  lemma OneQueue(s: State, t: nat, m: nat, k: nat)
    requires QueueInv(s) && t in s.queue(m) && t in s.queue(k)
    ensures m == k
  {
    var p := s.pc(t);
    assert p == EnqBlock(m) || p == WaitLeave(m) || p == Parked(m);
    assert p == EnqBlock(k) || p == WaitLeave(k) || p == Parked(k);
  }

  /** Appending t behind the tail: the pointers spell out the longer queue, and no other queue
      is touched, because every item is in at most one queue. */
  lemma LinkQueues(s: State, t: nat, m: nat)
    requires LinkInv(s) && QueueInv(s) && s.pc(t) == EnqLink(m) && s.next(t).None?
    ensures LinkInv(Link(s, t, m))
  {
    var r, q := Link(s, t, m), s.queue(m);
    assert LinkedQueue(s, m);
    forall k: nat ensures LinkedQueue(r, k) {
      assert LinkedQueue(s, k);
      if k != m && q != [] {
        var last := q[|q| - 1];
        assert last in s.queue(m);
        assert last !in s.queue(k) by { if last in s.queue(k) { OneQueue(s, last, m, k); } }
      }
    }
  }

  lemma EnqLinkStep(s: State, t: nat)
    requires Inv(s) && s.pc(t).EnqLink?
    ensures Inv(Advance(s, t))
  {
    var m, r := s.pc(t).m, Advance(s, t);
    StaySpin(s, r, t, m);
    assert PcOk(s, t);
    LinkQueues(s, t, m);
    LinkSame(Link(s, t, m), r);
    EnqLinkPc(s, t, m);
    EnqLinkOwner(s, t, m);
    EnqLinkQueue(s, t, m);
  }

  lemma EnqLinkOwner(s: State, t: nat, m: nat)
    requires Inv(s) && s.pc(t) == EnqLink(m)
    ensures OwnerInv(Advance(s, t))
  {
    var r := Advance(s, t);
    forall u: nat, k: nat ensures Owns(r, u, k) <==> r.owner(k) == Some(u) {
      assert Owns(s, u, k) <==> s.owner(k) == Some(u);
      assert u != t || k != m ==> (u in r.queue(k) <==> u in s.queue(k));
    }
  }

  lemma EnqLinkQueue(s: State, t: nat, m: nat)
    requires Inv(s) && s.pc(t) == EnqLink(m)
    ensures QueueInv(Advance(s, t))
  {
    assert PcOk(s, t);
    var r := Advance(s, t);
    forall u: nat, k: nat | u in r.queue(k)
      ensures r.pc(u) == EnqBlock(k) || r.pc(u) == WaitLeave(k) || r.pc(u) == Parked(k)
    {
      assert (u == t && k == m) || u in s.queue(k);
    }
    forall k: nat ensures r.arrivals(k) == r.grants(k) + r.queue(k) {
      assert s.arrivals(k) == s.grants(k) + s.queue(k);
    }
  }

  lemma EnqLinkPc(s: State, t: nat, m: nat)
    requires Inv(s) && s.pc(t) == EnqLink(m)
    ensures PcInv(Advance(s, t))
  {
    var r := Advance(s, t);
    forall u: nat ensures PcOk(r, u) {
      assert PcOk(s, u);
      if u != t && InSpin(s.pc(u), m) { assert InSpin(s.pc(t), m); }
      if u != t && s.pc(u).EnqLink? { LinkedTail(s, m, u); }
    }
  }

  /** A task still about to link its item is not the tail of any queue. */
  lemma LinkedTail(s: State, m: nat, u: nat)
    requires LinkInv(s) && QueueInv(s) && s.pc(u).EnqLink?
    ensures s.tail(m) != Some(u)
  {
    assert LinkedQueue(s, m);
  }

  lemma UnlinkQueues(s: State, t: nat, m: nat)
    requires LinkInv(s) && s.queue(m) != []
    ensures s.head(m) == Some(s.queue(m)[0])
    ensures LinkInv(Unlink(s, t, m))
  {
    assert LinkedQueue(s, m);
    var r, q := Unlink(s, t, m), s.queue(m);
    assert |q| > 1 ==> q[0] != q[|q| - 1];
    forall k: nat ensures LinkedQueue(r, k) {
      assert LinkedQueue(s, k);
    }
  }

  /** The head of the queue is parked, and is not queued any more once it is taken off. */
  lemma HeadParked(s: State, t: nat, m: nat)
    requires Inv(s) && s.pc(t) == DeqHead(m)
    ensures s.queue(m) != []
    ensures var q := s.queue(m);
      && s.pc(q[0]) == Parked(m) && s.status(q[0]) == Blocked && q[0] !in q[1..] && q == [q[0]] + q[1..]
      && s.owner(m) == Some(t) && q[0] != t
  {
    assert PcOk(s, t) && InSpin(s.pc(t), m);
    var n := s.queue(m)[0];
    assert n in s.queue(m) && PcOk(s, n);
    assert s.pc(n) == Parked(m) by {
      if InSpin(s.pc(n), m) { assert n == t; }
    }
    assert n !in s.queue(m)[1..] by { assert LinkedQueue(s, m); }
    assert Owns(s, t, m);
  }

  lemma DeqHeadOwner(s: State, t: nat, m: nat)
    requires Inv(s) && s.pc(t) == DeqHead(m)
    ensures OwnerInv(Advance(s, t))
  {
    HeadParked(s, t, m);
    assert LinkedQueue(s, m);
    var r, q := Advance(s, t), s.queue(m);
    forall u: nat, k: nat ensures Owns(r, u, k) <==> r.owner(k) == Some(u) {
      assert Owns(s, u, k) <==> s.owner(k) == Some(u);
      assert u in q <==> u == q[0] || u in q[1..];
    }
  }

  lemma DeqHeadStep(s: State, t: nat)
    requires Inv(s) && s.pc(t).DeqHead?
    ensures Inv(Advance(s, t))
  {
    var m, r := s.pc(t).m, Advance(s, t);
    HeadParked(s, t, m);
    UnlinkQueues(s, t, m);
    StaySpin(s, r, t, m);
    LinkSame(Unlink(s, t, m), r);
    DeqHeadOwner(s, t, m);
    DeqHeadQueue(s, t, m);
    DeqHeadPc(s, t, m);
  }

  lemma DeqHeadQueue(s: State, t: nat, m: nat)
    requires Inv(s) && s.pc(t) == DeqHead(m)
    ensures QueueInv(Advance(s, t))
  {
    HeadParked(s, t, m);
    assert LinkedQueue(s, m);
    var r, q := Advance(s, t), s.queue(m);
    assert r.queue(m) == q[1..] && s.grants(m) + q == s.grants(m) + [q[0]] + q[1..];
    forall u: nat, k: nat | u in r.queue(k)
      ensures r.pc(u) == EnqBlock(k) || r.pc(u) == WaitLeave(k) || r.pc(u) == Parked(k) {
      assert u in s.queue(k);
    }
  }

  lemma DeqHeadPc(s: State, t: nat, m: nat)
    requires Inv(s) && s.pc(t) == DeqHead(m)
    ensures PcInv(Advance(s, t))
  {
    HeadParked(s, t, m);
    assert LinkedQueue(s, m);
    var r := Advance(s, t);
    forall u: nat ensures PcOk(r, u) {
      assert PcOk(s, u);
      if u != t && InSpin(s.pc(u), m) { assert InSpin(s.pc(t), m); }
    }
  }

  lemma StepInv(s: State, a: Action)
    requires Inv(s) && Enabled(s, a)
    ensures Inv(Step(s, a))
  {
    match a
    case CallLock(t, m) => CallStep(s, t, LockSpin(m));
    case CallUnlock(t, m) => CallStep(s, t, UnlSpin(m));
    case Reschedule(t, st) => RescheduleStep(s, t, st);
    case Go(t) =>
      match s.pc(t)
      case Idle =>
      case LockSpin(_) => SpinStep(s, t);
      case LockTest(_) => TestStep(s, t);
      case LockTake(_) => LockTakeStep(s, t);
      case LockLeave(_) => LeaveStep(s, t);
      case EnqClear(_) => EnqClearStep(s, t);
      case EnqLink(_) => EnqLinkStep(s, t);
      case EnqBlock(_) => EnqBlockStep(s, t);
      case WaitLeave(_) => LeaveStep(s, t);
      case Parked(_) => ParkedStep(s, t);
      case UnlSpin(_) => SpinStep(s, t);
      case UnlTest(_) => TestStep(s, t);
      case UnlClear(_) => UnlClearStep(s, t);
      case DeqHead(_) => DeqHeadStep(s, t);
      case DeqWake(_, _) => DeqWakeStep(s, t);
      case UnlLeave(_) => LeaveStep(s, t);
  }

  // ------------------------------------------------------------------ runs

  ghost predicate RunOk(s: State, run: seq<Action>)
    decreases |run|
  {
    run == [] || (Enabled(s, run[0]) && RunOk(Step(s, run[0]), run[1..]))
  }

  ghost function Run(s: State, run: seq<Action>): (r: State)
    decreases |run|
  {
    if run == [] then s else Run(Step(s, run[0]), run[1..])
  }

  lemma {:induction false} RunInv(s: State, run: seq<Action>)
    requires Inv(s) && RunOk(s, run)
    ensures Inv(Run(s, run))
    decreases |run|
  {
    if run != [] {
      StepInv(s, run[0]);
      RunInv(Step(s, run[0]), run[1..]);
    }
  }

  lemma InitInv()
    ensures Inv(Init())
  {
    var s := Init();
    forall m: nat ensures LinkedQueue(s, m) {}
    forall t: nat ensures PcOk(s, t) {}
    forall t: nat, m: nat ensures Owns(s, t, m) <==> s.owner(m) == Some(t) {}
  }

  /** On every interleaving of lock and unlock over any number of tasks and mutexes: no two tasks
      hold one mutex; the value is 0 exactly when the mutex has no owner, and then nobody waits;
      a task that waits is queued on one mutex only and, once parked there, BLOCKED; and tasks
      are given the mutex in exactly the order in which they passed the test in lock. */
  lemma MutexSafety(run: seq<Action>)
    requires RunOk(Init(), run)
    ensures var s := Run(Init(), run);
      && (forall t: nat, u: nat, m: nat :: m in s.held(t) && m in s.held(u) ==> t == u)
      && (forall m: nat :: !s.value(m) <==> forall t: nat :: !Owns(s, t, m))
      && (forall m: nat :: !s.value(m) ==> s.queue(m) == [] && s.head(m).None?)
      && (forall t: nat, m: nat, k: nat :: t in s.queue(m) && t in s.queue(k) ==> m == k)
      && (forall t: nat, m: nat :: t in s.queue(m) && s.pc(t).Parked? ==>
            s.pc(t) == Parked(m) && s.status(t) == Blocked)
      && (forall m: nat :: s.arrivals(m) == s.grants(m) + s.queue(m))
  {
    InitInv();
    RunInv(Init(), run);
    var s := Run(Init(), run);
    forall t: nat, u: nat, m: nat | m in s.held(t) && m in s.held(u) ensures t == u {
      assert Owns(s, t, m) && Owns(s, u, m);
    }
    forall t: nat, m: nat, k: nat | t in s.queue(m) && t in s.queue(k) ensures m == k {
      OneQueue(s, t, m, k);
    }
    forall m: nat ensures !s.value(m) <==> forall t: nat :: !Owns(s, t, m) {
      if s.value(m) { assert Owns(s, s.owner(m).value, m); }
    }
    forall m: nat | !s.value(m) ensures s.queue(m) == [] && s.head(m).None? { assert LinkedQueue(s, m); }
    forall t: nat, m: nat | t in s.queue(m) && s.pc(t).Parked?
      ensures s.pc(t) == Parked(m) && s.status(t) == Blocked
    {
      assert PcOk(s, t);
    }
  }

  /** The hand-off in unlock goes to the first task of the queue. */
  lemma HandOff(s: State, t: nat, m: nat)
    requires Inv(s) && s.pc(t) == DeqHead(m)
    ensures var r := Advance(s, t);
      && s.queue(m) != [] && Owns(r, s.queue(m)[0], m) && !Owns(r, t, m)
      && r.queue(m) == s.queue(m)[1..] && r.value(m)
  {
    DeqHeadStep(s, t);
    assert PcOk(s, t);
    UnlinkQueues(s, t, m);
    var r := Advance(s, t);
    assert r.owner(m) == Some(s.queue(m)[0]);
    assert s.queue(m)[0] in s.queue(m);
    assert Owns(r, t, m) <==> r.owner(m) == Some(t);
  }

  /** What the assumption on parked tasks is worth: if the scheduler lets a parked task run on
      regardless of its status, mutual exclusion survives exactly when the task had already been
      given the mutex. */
  lemma SpuriousResume(s: State, t: nat, m: nat)
    requires Inv(s) && s.pc(t) == Parked(m)
    ensures var r := Resume(s, t, m);
      (forall u: nat :: Owns(r, u, m) ==> u == t) <==> s.owner(m) == Some(t)
  {
    var r := Resume(s, t, m);
    if s.owner(m) == Some(t) {
      forall u: nat | Owns(r, u, m) ensures u == t {
        if u != t { assert Owns(s, u, m); }
      }
    } else {
      assert t in s.queue(m) by { if t !in s.queue(m) { assert Owns(s, t, m); } }
      var u := s.owner(m).value;
      assert Owns(s, u, m);
      assert Owns(r, u, m);
    }
  }

  /** A parked task that was taken off the queue and is still BLOCKED is about to be woken. */
  ghost predicate WakeInv(s: State) {
    forall t: nat, m: nat {:trigger WakePending(s, t, m)} :: WakePending(s, t, m)
  }

  ghost predicate WakePending(s: State, t: nat, m: nat) {
    s.pc(t) == Parked(m) && t !in s.queue(m) && s.status(t) == Blocked ==> exists u: nat :: s.pc(u) == DeqWake(m, t)
  }

  lemma WakeStep(s: State, a: Action)
    requires Inv(s) && WakeInv(s) && Enabled(s, a)
    ensures WakeInv(Step(s, a))
  {
    var r := Step(s, a);
    forall t: nat, m: nat ensures WakePending(r, t, m) {
      assert WakePending(s, t, m);
      if a.Go? && r.pc(t) == Parked(m) && t !in r.queue(m) && r.status(t) == Blocked { WakeGo(s, a.t, t, m); }
    }
  }

  /** A step of task v leaves a waker for t. */
  lemma WakeGo(s: State, v: nat, t: nat, m: nat)
    requires Inv(s) && WakePending(s, t, m)
    requires var r := Advance(s, v);
      r.pc(t) == Parked(m) && t !in r.queue(m) && r.status(t) == Blocked
    ensures exists u: nat :: Advance(s, v).pc(u) == DeqWake(m, t)
  {
    if t in s.queue(m) {
      TakenOff(s, v, t, m);
    } else {
      StaysOff(s, v, t, m);
      var u: nat :| s.pc(u) == DeqWake(m, t);
      assert u != v ==> Advance(s, v).pc(u) == s.pc(u);
    }
  }

  /** Only the head of the queue is taken off, by a task that then wakes it. */
  lemma TakenOff(s: State, v: nat, t: nat, m: nat)
    requires Inv(s) && t in s.queue(m) && t !in Advance(s, v).queue(m)
    ensures Advance(s, v).pc(v) == DeqWake(m, t)
  {
    assert s.pc(v) == DeqHead(m);
    assert LinkedQueue(s, m);
  }

  /** A task parked off the queue was so before, and not woken by v. */
  lemma StaysOff(s: State, v: nat, t: nat, m: nat)
    requires Inv(s) && t !in s.queue(m)
    requires var r := Advance(s, v);
      r.pc(t) == Parked(m) && t !in r.queue(m) && r.status(t) == Blocked
    ensures s.pc(t) == Parked(m) && s.status(t) == Blocked && s.pc(v) != DeqWake(m, t)
  {
    assert PcOk(s, v) && PcOk(s, t);
  }

  lemma {:induction false} RunWake(s: State, run: seq<Action>)
    requires Inv(s) && WakeInv(s) && RunOk(s, run)
    ensures Inv(Run(s, run)) && WakeInv(Run(s, run))
    decreases |run|
  {
    if run != [] {
      StepInv(s, run[0]);
      WakeStep(s, run[0]);
      RunWake(Step(s, run[0]), run[1..]);
    }
  }

  /** In every reachable state, letting a parked task run on leaves the whole state sound if and only if
      its status is not BLOCKED any more. */
  lemma ResumeSoundIff(run: seq<Action>, t: nat, m: nat)
    requires RunOk(Init(), run) && Run(Init(), run).pc(t) == Parked(m)
    ensures var s := Run(Init(), run);
      Inv(Resume(s, t, m)) <==> s.status(t) != Blocked
  {
    InitInv();
    assert WakeInv(Init());
    RunWake(Init(), run);
    var s := Run(Init(), run);
    if s.status(t) != Blocked {
      ParkedStep(s, t);
    } else {
      ResumeBreaks(s, t, m);
    }
  }

  lemma ResumeBreaks(s: State, t: nat, m: nat)
    requires Inv(s) && WakeInv(s) && s.pc(t) == Parked(m) && s.status(t) == Blocked
    ensures !Inv(Resume(s, t, m))
  {
    var r := Resume(s, t, m);
    assert WakePending(s, t, m);
    if t in s.queue(m) {
      assert t in r.queue(m) && r.pc(t) == Idle;
    } else {
      var u: nat :| s.pc(u) == DeqWake(m, t);
      assert r.pc(u) == DeqWake(m, t) && !PcOk(r, u);
    }
  }

  /** The status is BLOCKED before the spinlock is released (inc/mutex.hh:58-59): as long as such a
      task does not run, the mutex stays locked up and nobody is given it, whatever others do. */
  lemma {:induction false} PreemptedWaiter(s: State, t: nat, m: nat, run: seq<Action>)
    requires Inv(s) && s.pc(t) == WaitLeave(m) && RunOk(s, run)
    requires forall i | 0 <= i < |run| :: run[i] != Go(t)
    ensures var r := Run(s, run);
      && r.pc(t) == WaitLeave(m) && r.status(t) == Blocked
      && r.locked(m) && r.grants(m) == s.grants(m)
    decreases |run|
  {
    assert PcOk(s, t) && InSpin(s.pc(t), m);
    if run != [] {
      PreemptedStep(s, t, m, run[0]);
      StepInv(s, run[0]);
      forall i | 0 <= i < |run[1..]| ensures run[1..][i] != Go(t) { assert run[1..][i] == run[i + 1]; }
      PreemptedWaiter(Step(s, run[0]), t, m, run[1..]);
    }
  }

  /** One step of the task itself ends it. */
  lemma WaiterReleases(s: State, t: nat, m: nat)
    requires s.pc(t) == WaitLeave(m)
    ensures !Step(s, Go(t)).locked(m) && Step(s, Go(t)).pc(t) == Parked(m)
  {
  }

  lemma PreemptedStep(s: State, t: nat, m: nat, a: Action)
    requires Inv(s) && s.pc(t) == WaitLeave(m) && Enabled(s, a) && a != Go(t)
    ensures Step(s, a).pc(t) == WaitLeave(m) && Step(s, a).grants(m) == s.grants(m)
  {
    assert InSpin(s.pc(t), m);
    if a.Go? {
      assert InSpin(s.pc(a.t), m) ==> a.t == t;
    }
  }

  // ------------------------------------------------------------------ two owners

  lemma RunFirst(s: State, a: Action, rest: seq<Action>)
    ensures RunOk(s, [a] + rest) <==> Enabled(s, a) && RunOk(Step(s, a), rest)
    ensures Run(s, [a] + rest) == Run(Step(s, a), rest)
  {
    assert ([a] + rest)[1..] == rest;
  }

  /** n steps of task t in a row. */
  function Steps(t: nat, n: nat): (run: seq<Action>) {
    if n == 0 then [] else [Go(t)] + Steps(t, n - 1)
  }

  lemma {:induction false} RunJoin(s: State, a: seq<Action>, b: seq<Action>)
    requires RunOk(s, a) && RunOk(Run(s, a), b)
    ensures RunOk(s, a + b) && Run(s, a + b) == Run(Run(s, a), b)
    decreases |a|
  {
    if a == [] {
      assert a + b == b;
    } else {
      RunJoin(Step(s, a[0]), a[1..], b);
      assert a + b == [a[0]] + (a[1..] + b);
      RunFirst(s, a[0], a[1..] + b);
    }
  }

  /** Lock calls by task 0, which gets the mutex, and then by task 1, which parks. */
  function Contention(): (run: seq<Action>) {
    ([CallLock(0, 0)] + Steps(0, 4)) + ([CallLock(1, 0)] + Steps(1, 6))
  }

  /** The state after n steps of task t. */
  function After(s: State, t: nat, n: nat): (r: State)
    decreases n
  {
    if n == 0 then s else After(Advance(s, t), t, n - 1)
  }

  lemma {:induction false} RunSteps(s: State, t: nat, n: nat)
    ensures RunOk(s, Steps(t, n)) && Run(s, Steps(t, n)) == After(s, t, n)
    decreases n
  {
    if n > 0 {
      RunFirst(s, Go(t), Steps(t, n - 1));
      RunSteps(Advance(s, t), t, n - 1);
    }
  }

  lemma RunCall(s: State, t: nat, m: nat, n: nat)
    requires s.pc(t) == Idle
    ensures var run := [CallLock(t, m)] + Steps(t, n);
      RunOk(s, run) && Run(s, run) == After(Goto(s, t, LockSpin(m)), t, n)
  {
    RunFirst(s, CallLock(t, m), Steps(t, n));
    RunSteps(Goto(s, t, LockSpin(m)), t, n);
  }

  /** lock of a free mutex, the spinlock being free: the task's own steps return with it. */
  lemma LockFree(s: State, t: nat, m: nat)
    requires s.pc(t) == Idle && !s.locked(m) && !s.value(m)
    ensures var r := After(Goto(s, t, LockSpin(m)), t, 4);
      && m in r.held(t) && (forall u: nat :: r.pc(u) == s.pc(u)) && r.value(m) && !r.locked(m)
  {
    var a := Goto(s, t, LockSpin(m));
    var b := Advance(a, t);
    assert b.pc(t) == LockTest(m);
    var c := Advance(b, t);
    assert c.pc(t) == LockTake(m);
    var d := Advance(c, t);
    assert d.pc(t) == LockLeave(m);
    assert After(a, t, 4) == After(b, t, 3) == After(c, t, 2) == After(d, t, 1) == Advance(d, t);
  }

  /** lock of a mutex that is taken: the task's own steps end BLOCKED and parked, last in the queue. */
  lemma LockBusy(s: State, t: nat, m: nat)
    requires s.pc(t) == Idle && !s.locked(m) && s.value(m)
    ensures var r := After(Goto(s, t, LockSpin(m)), t, 6);
      && r.pc(t) == Parked(m) && r.held == s.held && !r.locked(m) && r.value(m)
      && r.queue(m) == s.queue(m) + [t] && r.status(t) == Blocked
  {
    var a := Goto(s, t, LockSpin(m));
    var b := Advance(a, t);
    assert b.pc(t) == LockTest(m);
    var c := Advance(b, t);
    assert c.pc(t) == EnqClear(m);
    var d := Advance(c, t);
    assert d.pc(t) == EnqLink(m);
    var e := Advance(d, t);
    assert e.pc(t) == EnqBlock(m);
    var f := Advance(e, t);
    assert f.pc(t) == WaitLeave(m);
    assert After(a, t, 6) == After(b, t, 5) == After(c, t, 4);
    assert After(c, t, 4) == After(d, t, 3) == After(e, t, 2) == After(f, t, 1) == Advance(f, t);
  }

  /** The first two steps of unlock: the spinlock, and the test whether somebody waits. */
  lemma UnlockEnters(s: State, t: nat, m: nat) returns (b: State)
    requires Inv(s) && s.pc(t) == UnlSpin(m) && !s.locked(m)
    ensures b == Advance(Advance(s, t), t) && Inv(b)
    ensures b.pc(t) == (if s.queue(m) == [] then UnlClear(m) else DeqHead(m))
    ensures b.held == s.held && b.queue == s.queue && b.status == s.status
    ensures forall u: nat | u != t :: b.pc(u) == s.pc(u)
  {
    var a := Advance(s, t);
    StepInv(s, Go(t));
    assert a.pc(t) == UnlTest(m);
    b := UnlockTests(a, t, m);
  }

  lemma UnlockTests(a: State, t: nat, m: nat) returns (b: State)
    requires Inv(a) && a.pc(t) == UnlTest(m)
    ensures b == Advance(a, t) && Inv(b) && b == a.(pc := b.pc)
    ensures b.pc(t) == if a.queue(m) == [] then UnlClear(m) else DeqHead(m)
    ensures forall u: nat | u != t :: b.pc(u) == a.pc(u)
  {
    assert LinkedQueue(a, m);
    b := Advance(a, t);
    StepInv(a, Go(t));
  }

  /** unlock of a mutex that nobody waits for, the spinlock being free: the task's own steps give it up. */
  lemma UnlockFrees(s: State, t: nat, m: nat)
    requires Inv(s) && s.pc(t) == UnlSpin(m) && !s.locked(m) && s.queue(m) == []
    ensures var r := After(s, t, 4);
      && r.pc(t) == Idle && !r.value(m) && !r.locked(m) && r.owner(m) == None
      && r.held(t) == s.held(t) - {m}
  {
    var b := UnlockEnters(s, t, m);
    var r := Dropped(b, t, m);
    assert After(s, t, 4) == After(b, t, 2) == r;
  }

  lemma Dropped(b: State, t: nat, m: nat) returns (r: State)
    requires b.pc(t) == UnlClear(m)
    ensures r == After(b, t, 2)
    ensures r.pc(t) == Idle && !r.value(m) && !r.locked(m) && r.owner(m) == None && r.held(t) == b.held(t) - {m}
  {
    var c := Advance(b, t);
    assert c.pc(t) == UnlLeave(m);
    r := Advance(c, t);
    assert After(b, t, 2) == After(c, t, 1) == r;
  }

  /** unlock of a mutex with waiting tasks: the first of them owns it and is not BLOCKED any more. */
  lemma UnlockHandsOver(s: State, t: nat, m: nat)
    requires Inv(s) && s.pc(t) == UnlSpin(m) && !s.locked(m) && s.queue(m) != []
    ensures var r, n := After(s, t, 5), s.queue(m)[0];
      && r.pc(t) == Idle && !r.locked(m) && r.held(t) == s.held(t) - {m} && r.queue(m) == s.queue(m)[1..]
      && r.owner(m) == Some(n) && r.value(m) && r.pc(n) == Parked(m) && r.status(n) == Waiting && n != t
  {
    var b := UnlockEnters(s, t, m);
    var r := HeadWoken(b, t, m);
    assert After(s, t, 5) == After(b, t, 3) == r;
  }

  lemma HeadWoken(b: State, t: nat, m: nat) returns (r: State)
    requires Inv(b) && b.pc(t) == DeqHead(m)
    ensures r == After(b, t, 3) && b.queue(m) != []
    ensures var n := b.queue(m)[0];
      && r.pc(t) == Idle && !r.locked(m) && r.held(t) == b.held(t) - {m} && r.queue(m) == b.queue(m)[1..]
      && r.owner(m) == Some(n) && r.value(m) && r.pc(n) == Parked(m) && r.status(n) == Waiting && n != t
  {
    HeadParked(b, t, m);
    UnlinkQueues(b, t, m);
    assert OwnerInv(b) && b.value(m);
    var c := Advance(b, t);
    assert c.pc(t) == DeqWake(m, b.queue(m)[0]);
    var d := Advance(c, t);
    assert d.pc(t) == UnlLeave(m);
    r := Advance(d, t);
    assert After(b, t, 3) == After(c, t, 2) == After(d, t, 1) == r;
  }

  /** A parked task that is not BLOCKED returns from lock with the mutex at its next step. */
  lemma ParkedReturns(s: State, t: nat, m: nat)
    requires s.pc(t) == Parked(m) && s.status(t) != Blocked
    ensures Advance(s, t).pc(t) == Idle && m in Advance(s, t).held(t)
  {
  }

  /** A task that returned from unlock does not own the mutex. */
  lemma UnlockedOnReturn(s: State, t: nat, m: nat)
    requires Inv(s) && s.pc(t) == UnlLeave(m)
    ensures Advance(s, t).pc(t) == Idle && m !in Advance(s, t).held(t) && !Owns(Advance(s, t), t, m)
  {
    assert PcOk(s, t);
  }

  lemma LockWaits(s: State, t: nat, m: nat)
    requires s.pc(t) == Idle && !s.locked(m) && s.value(m)
    ensures var r := After(Goto(s, t, LockSpin(m)), t, 5);
      r.pc(t) == WaitLeave(m) && r.held == s.held && r.locked(m)
  {
    var a := Goto(s, t, LockSpin(m));
    var b := Advance(a, t);
    assert b.pc(t) == LockTest(m);
    var c := Advance(b, t);
    assert c.pc(t) == EnqClear(m);
    var d := Advance(c, t);
    assert d.pc(t) == EnqLink(m);
    var e := Advance(d, t);
    assert e.pc(t) == EnqBlock(m);
    assert After(a, t, 5) == After(b, t, 4) == After(c, t, 3) == After(d, t, 2) == After(e, t, 1) == Advance(e, t);
  }

  /** Task 0 gets the mutex, and task 1 is preempted between blocking itself and releasing the spinlock. */
  function Preemption(): (run: seq<Action>) {
    ([CallLock(0, 0)] + Steps(0, 4)) + ([CallLock(1, 0)] + Steps(1, 5))
  }

  lemma WaiterReached()
    ensures RunOk(Init(), Preemption())
    ensures var s := Run(Init(), Preemption());
      s.pc(1) == WaitLeave(0) && 0 in s.held(0) && s.locked(0)
  {
    var first, second := [CallLock(0, 0)] + Steps(0, 4), [CallLock(1, 0)] + Steps(1, 5);
    RunCall(Init(), 0, 0, 4);
    LockFree(Init(), 0, 0);
    var q := Run(Init(), first);
    RunCall(q, 1, 0, 5);
    LockWaits(q, 1, 0);
    RunJoin(Init(), first, second);
  }

  /** A run from the start after which letting the parked task 1 run on makes two tasks hold the
      mutex. */
  lemma TwoOwners()
    ensures RunOk(Init(), Contention())
    ensures var s := Run(Init(), Contention());
      && s.pc(1) == Parked(0)
      && 0 in Resume(s, 1, 0).held(0) && 0 in Resume(s, 1, 0).held(1)
  {
    var first, second := [CallLock(0, 0)] + Steps(0, 4), [CallLock(1, 0)] + Steps(1, 6);
    RunCall(Init(), 0, 0, 4);
    LockFree(Init(), 0, 0);
    var q := Run(Init(), first);
    RunCall(q, 1, 0, 6);
    LockBusy(q, 1, 0);
    RunJoin(Init(), first, second);
  }
}
