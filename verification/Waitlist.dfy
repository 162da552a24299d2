/** The intrusive wait queue on real links (src/waitlist.cpp:5-55): each task carries one wait
    item, and a Waitlist is a head and a tail pointer into the chain of items. */
module Waitlist {
  import opened Basics

  /** A task with its embedded wait item. */
  class Task {
    var next: Task?
    var status: Status

    constructor ()
      ensures next == null && status == Waiting
    {
      next, status := null, Waiting;
    }
  }

  class Waitlist {
    var head: Task?
    var tail: Task?
    ghost var items: seq<Task>

    /** The pointers spell out items, each task once. */
    ghost predicate Valid()
      reads this, items
    {
      && (forall i, j :: 0 <= i < j < |items| ==> items[i] != items[j])
      && (if items == [] then head == null && tail == null
          else head == items[0] && tail == items[|items| - 1] && items[|items| - 1].next == null)
      && (forall i {:trigger items[i].next} :: 0 <= i < |items| - 1 ==> items[i].next == items[i + 1])
    }

    constructor ()
      ensures Valid() && items == []
    {
      head, tail, items := null, null, [];
    }

    method Empty() returns (r: bool)
      requires Valid()
      ensures r <==> items == []
    {
      r := head == null;
    }

    /** Appends the calling task and blocks it; touches nothing but it and the old tail. */
    method Enqueue(current: Task)
      requires Valid() && current !in items
      modifies this, current, if items == [] then {} else {items[|items| - 1]}
      ensures Valid() && items == old(items) + [current] && current.status == Blocked
      ensures forall t | t in old(items) :: t.status == old(t.status)
    {
      current.next := null;
      if tail == null {
        head := current;
      } else {
        tail.next := current;
      }
      tail := current;
      current.status := Blocked;
      items := items + [current];
    }

    /** Takes the first task off and makes it schedulable; an empty queue stays as it is. */
    method Dequeue()
      requires Valid()
      modifies this, if items == [] then {} else {items[0]}
      ensures Valid()
      ensures if old(items) == [] then items == [] else items == old(items)[1..] && old(items)[0].status == Waiting
      ensures old(items) != [] ==> old(items)[0].next == old(items[0].next)
    {
      if head == null { return; }
      var task := head;
      if head == tail {
        head, tail := null, null;
      } else {
        head := head.next;
      }
      task.status := Waiting;
      items := items[1..];
    }
  }
}
