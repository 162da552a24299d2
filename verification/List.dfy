/** The kernel's singly linked list with its cache of reusable nodes (src/list.cpp). Values are
    pointers; 0 is the null pointer. */
module List {

  const MAX_FREED := 32  // LIST_MAX_FREED

  class ListObject {
    var next: ListObject?
    var ptr: nat

    constructor (val: nat)
      ensures next == null && ptr == val
    {
      next, ptr := null, val;
    }
  }

  function Insert(s: seq<nat>, i: nat, v: nat): (r: seq<nat>)
    requires i <= |s|
  {
    s[..i] + [v] + s[i..]
  }

  function Remove(s: seq<nat>, i: nat): (r: seq<nat>)
    requires i < |s|
  {
    s[..i] + s[i + 1..]
  }

  class List {
    var first: ListObject?
    var last: ListObject?
    var size: nat
    const freed: array<ListObject?>
    var freedIdx: nat
    ghost var nodes: seq<ListObject>

    /** The chain from first is nodes, the size is exact, and the cached nodes are distinct and
        not linked. */
    ghost predicate Linked()
      reads this, nodes, freed
    {
      && (forall i, j :: 0 <= i < j < |nodes| ==> nodes[i] != nodes[j])
      && (if nodes == [] then first == null else first == nodes[0] && nodes[|nodes| - 1].next == null)
      && (forall i {:trigger nodes[i].next} :: 0 <= i < |nodes| - 1 ==> nodes[i].next == nodes[i + 1])
      && size == |nodes|
      && freed.Length == MAX_FREED && freedIdx < MAX_FREED
      && (forall i :: 0 <= i < freedIdx ==> freed[i] != null && freed[i] !in nodes)
      && (forall i, j :: 0 <= i < j < freedIdx ==> freed[i] != freed[j])
    }

    ghost predicate Valid()
      reads this, nodes, freed
    {
      Linked() && last == (if nodes == [] then null else nodes[|nodes| - 1])
    }

    /** The values in order. */
    ghost function Contents(): (s: seq<nat>)
      reads this, nodes
    {
      seq(|nodes|, i requires 0 <= i < |nodes| reads this, nodes => nodes[i].ptr)
    }

    constructor ()
      ensures Valid() && Contents() == [] && fresh(freed)
    {
      first, last, size, freedIdx, nodes := null, null, 0, 0, [];
      freed := new ListObject?[MAX_FREED](_ => null);
    }

    /** A node for val: from the cache if it has one, else new. */
    method GetFree(val: nat) returns (obj: ListObject)
      requires Linked()
      modifies `freedIdx, if freedIdx > 0 then {freed[freedIdx - 1]} else {}
      ensures Linked() && obj.ptr == val && obj.next == null && obj !in nodes
      ensures forall i | 0 <= i < freedIdx :: freed[i] != obj
      ensures if old(freedIdx) > 0 then freedIdx == old(freedIdx) - 1 && obj == freed[freedIdx]
              else fresh(obj) && freedIdx == 0
      ensures forall n | n in nodes :: n.ptr == old(n.ptr)
    {
      if freedIdx > 0 {
        freedIdx := freedIdx - 1;
        obj := freed[freedIdx];
        obj.ptr := val;
        obj.next := null;
      } else {
        obj := new ListObject(val);
      }
    }

    /** Keeps an unlinked node for reuse while the cache has room for it. */
    method Free(obj: ListObject)
      requires Linked() && obj !in nodes && (forall i | 0 <= i < freedIdx :: freed[i] != obj)
      modifies `freedIdx, freed
      ensures Linked() && freedIdx == if old(freedIdx) + 1 >= MAX_FREED then old(freedIdx) else old(freedIdx) + 1
    {
      if freedIdx + 1 >= MAX_FREED { return; }
      freed[freedIdx] := obj;
      freedIdx := freedIdx + 1;
    }

    method AddFirst(val: nat)
      requires Valid()
      modifies this, if freedIdx > 0 then {freed[freedIdx - 1]} else {}
      ensures Valid() && Contents() == [val] + old(Contents())
    {
      var obj := GetFree(val);
      if first != null {
        obj.next := first;
      } else {
        last := obj;
      }
      first := obj;
      size := size + 1;
      nodes := [obj] + nodes;
    }

    method Append(val: nat)
      requires Valid()
      modifies this, if freedIdx > 0 then {freed[freedIdx - 1]} else {}
      modifies if nodes == [] then {} else {nodes[|nodes| - 1]}
      ensures Valid() && Contents() == old(Contents()) + [val]
    {
      if last == null {
        AddFirst(val);
        return;
      }
      var obj := GetFree(val);
      last.next := obj;
      last := obj;
      size := size + 1;
      nodes := nodes + [obj];
    }

    method First() returns (r: nat)
      requires Valid()
      ensures r == if Contents() == [] then 0 else Contents()[0]
    {
      if first == null { return 0; }
      r := first.ptr;
    }

    method Last() returns (r: nat)
      requires Valid()
      ensures r == if Contents() == [] then 0 else Contents()[|Contents()| - 1]
    {
      if last == null { return 0; }
      r := last.ptr;
    }

    /** Moves the first element to the end. */
    method RotateFirstLast()
      requires Valid()
      modifies `first, `last, `nodes, nodes
      ensures Valid() && (forall n :: n in nodes <==> n in old(nodes))
      ensures Contents() == if old(Contents()) == [] then [] else old(Contents())[1..] + [old(Contents())[0]]
    {
      if first == null { return; }
      var tmp := first;
      if tmp == last { return; }
      first := tmp.next;
      last.next := tmp;
      tmp.next := null;
      last := tmp;
      nodes := nodes[1..] + [tmp];
    }

    method TakeFirst() returns (r: nat)
      requires Valid()
      modifies this, freed
      ensures Valid()
      ensures if old(Contents()) == [] then r == 0 && Contents() == []
              else r == old(Contents())[0] && Contents() == old(Contents())[1..]
    {
      if first == null { return 0; }
      var tmp := first;
      if tmp.next != null {
        first := tmp.next;
      } else {
        first, last := null, null;
      }
      r := tmp.ptr;
      size := size - 1;
      nodes := nodes[1..];
      Free(tmp);
    }

    /** The walk shared by at, appendAfter, addAt and deleteAt: up to steps links ahead. */
    method Walk(steps: nat) returns (obj: ListObject, c: nat)
      requires Linked() && nodes != []
      ensures c == (if steps < |nodes| then steps else |nodes| - 1) && obj == nodes[c]
    {
      obj := first;
      c := 0;
      while c < steps && obj.next != null
        invariant c < |nodes| && c <= steps && obj == nodes[c]
        decreases steps - c
      {
        c := c + 1;
        obj := obj.next;
      }
    }

    /** The i-th value, or null past the end. */
    method At(i: nat) returns (r: nat)
      requires Valid()
      ensures r == if i < |Contents()| then Contents()[i] else 0
    {
      if first == null { return 0; }
      var obj, c := Walk(i);
      if c != i { return 0; }
      r := obj.ptr;
    }

    /** Links obj behind node c of the chain. */
    method HangAfter(at: ListObject, obj: ListObject, ghost c: nat)
      requires Linked() && c < |nodes| && at == nodes[c] && obj !in nodes && obj.next == null
      requires forall i | 0 <= i < freedIdx :: freed[i] != obj
      modifies `size, `nodes, at`next, obj`next
      ensures Linked() && at.next == obj && nodes == old(nodes)[..c + 1] + [obj] + old(nodes)[c + 1..]
    {
      if at.next != null {
        obj.next := at.next;
      }
      at.next := obj;
      size := size + 1;
      nodes := nodes[..c + 1] + [obj] + nodes[c + 1..];
    }

    /** Hangs a new node with val behind node c of the chain. */
    method LinkAfter(at: ListObject, val: nat, ghost c: nat)
      requires Linked() && c < |nodes| && at == nodes[c]
      modifies `size, `nodes, `freedIdx, if freedIdx > 0 then {freed[freedIdx - 1]} else {}, at`next
      ensures Linked() && Contents() == Insert(old(Contents()), c + 1, val)
      ensures nodes == old(nodes)[..c + 1] + [at.next] + old(nodes)[c + 1..] && at.next !in old(nodes)
    {
      var obj := GetFree(val);
      HangAfter(at, obj, c);
    }

    /** Inserts behind the i-th element, or at the end when the list is shorter. */
    method AppendAfter(i: nat, val: nat) returns (ok: bool)
      requires Valid()
      modifies this, if freedIdx > 0 then {freed[freedIdx - 1]} else {}, nodes
      ensures Valid() && ok == (val != 0)
      ensures var s := old(Contents());
        Contents() == if val == 0 then s else Insert(s, if i < |s| then i + 1 else |s|, val)
    {
      if val == 0 { return false; }
      if first == null {
        AddFirst(val);
        return true;
      }
      PutBehind(i, val);
      ok := true;
    }

    /** appendAfter on a list that is not empty (src/list.cpp:196-215). */
    method PutBehind(i: nat, val: nat)
      requires Valid() && nodes != []
      modifies this, if freedIdx > 0 then {freed[freedIdx - 1]} else {}, nodes
      ensures Valid()
      ensures Contents() == Insert(old(Contents()), if i < |old(nodes)| then i + 1 else |old(nodes)|, val)
    {
      var obj, c := Walk(i);
      var end := obj.next == null;
      LinkAfter(obj, val, c);
      if end { last := obj.next; }
    }

    /** Inserts before the i-th element. Behind the end it links the node but leaves the tail
        pointer on the old last node, so the list stays sound exactly when i is 0 or below the
        size, or the list was empty. */
    method AddAt(i: nat, val: nat) returns (ok: bool)
      requires Valid()
      modifies this, if freedIdx > 0 then {freed[freedIdx - 1]} else {}, nodes
      ensures Linked() && ok == (val != 0)
      ensures var s := old(Contents());
        Contents() == if val == 0 then s else Insert(s, if i < |s| then i else |s|, val)
      ensures Valid() <==> val == 0 || i == 0 || i < |old(Contents())| || old(Contents()) == []
    {
      if val == 0 { return false; }
      if first == null || i == 0 {
        AddFirst(val);
        return true;
      }
      AddBehind(i, val);
      ok := true;
    }

    /** addAt past the head of a list that is not empty (src/list.cpp:228-246). */
    method AddBehind(i: nat, val: nat)
      requires Valid() && nodes != [] && i > 0
      modifies `size, `nodes, `freedIdx, if freedIdx > 0 then {freed[freedIdx - 1]} else {}, nodes
      ensures Linked() && Contents() == Insert(old(Contents()), if i < |old(nodes)| then i else |old(nodes)|, val)
      ensures Valid() <==> i < |old(nodes)|
    {
      ghost var was := nodes;
      var obj, c := Walk(i - 1);
      LinkAfter(obj, val, c);
      assert last == was[|was| - 1];
      assert nodes[|nodes| - 1] == if c == |was| - 1 then obj.next else was[|was| - 1];
    }

    /** Unlinks the node behind node c of the chain. */
    method UnlinkAfter(obj: ListObject, ghost c: nat) returns (tmp: ListObject)
      requires Valid() && c + 1 < |nodes| && obj == nodes[c]
      modifies `last, `size, `nodes, obj`next
      ensures Valid() && tmp == old(nodes)[c + 1] && nodes == old(nodes)[..c + 1] + old(nodes)[c + 2..]
      ensures Contents() == Remove(old(Contents()), c + 1)
    {
      tmp := obj.next;
      obj.next := tmp.next;
      if tmp == last { last := obj.next; }
      if tmp.next == null { last := obj; }
      size := size - 1;
      nodes := nodes[..c + 1] + nodes[c + 2..];
    }

    /** Deletes the first element; its node is not cached. */
    method DropFirst()
      requires Valid() && nodes != []
      modifies `first, `last, `size, `nodes
      ensures Valid() && Contents() == old(Contents())[1..]
    {
      if first.next == null {
        first, last, size := null, null, 0;
      } else {
        first := first.next;
        size := size - 1;
      }
      nodes := nodes[1..];
    }

    /** Deletes the i-th element. Asked for the element just past the end it empties the list. */
    method DeleteAt(i: nat) returns (ok: bool)
      requires Valid()
      modifies this, freed, nodes
      ensures Valid()
      ensures var s := old(Contents());
        && ok == (s != [] && i <= |s|)
        && Contents() == if i < |s| then Remove(s, i) else if i == |s| then [] else s
    {
      if first == null { return false; }
      if i == 0 {
        DropFirst();
        return true;
      }
      var obj, c := Walk(i - 1);
      if c + 1 != i { return false; }
      if obj.next != null {
        RemoveBehind(obj, c);
      } else {
        first, last, size, nodes := null, null, 0, [];
        Free(obj);
      }
      ok := true;
    }

    method RemoveBehind(obj: ListObject, ghost c: nat)
      requires Valid() && c + 1 < |nodes| && obj == nodes[c]
      modifies this, freed, obj`next
      ensures Valid() && Contents() == Remove(old(Contents()), c + 1)
    {
      var tmp := UnlinkAfter(obj, c);
      Free(tmp);
    }
  }

  /** Adding 2 behind the one element of a list leaves the tail pointer behind. */
  method TailLost(list: List)
    requires list.Valid() && list.Contents() == [1]
    modifies list, list.freed, list.nodes, if list.freedIdx > 0 then {list.freed[list.freedIdx - 1]} else {}
    ensures list.Contents() == [1, 2] && !list.Valid()
  {
    var ok := list.AddAt(1, 2);
  }
}
