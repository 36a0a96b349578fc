/** stack.c: the doubly linked list under everything else. It refines a sequence; the
    back link of the first node, and the tail of an empty list, may be left over from
    nodes that are gone. */
module LinkedStack {
  import opened Prelude

  class StackItem<T> {
    var data: T
    var next: StackItem?<T>
    var prev: StackItem?<T>

    constructor (data: T)
      ensures this.data == data && next == null && prev == null
    {
      this.data := data;
      next, prev := null, null;
    }
  }

  /** The list without the first occurrence of a value. */
  function RemovedFirst<T(==)>(s: seq<T>, value: T): seq<T> {
    if s == [] then []
    else if s[0] == value then s[1..]
    else [s[0]] + RemovedFirst(s[1..], value)
  }

  lemma {:induction false} RemovedFirstAt<T>(s: seq<T>, value: T, i: nat)
    requires i <= |s| && forall k | 0 <= k < i :: s[k] != value
    requires i < |s| ==> s[i] == value
    ensures RemovedFirst(s, value) == s[..i] + (if i < |s| then s[i + 1..] else [])
    decreases i
  {
    if s != [] && i > 0 {
      RemovedFirstAt(s[1..], value, i - 1);
      assert s[..i] == [s[0]] + s[1..][..i - 1];
    }
  }

  lemma RemovedFirstHead<T>(s: seq<T>)
    requires s != []
    ensures RemovedFirst(s, s[0]) == s[1..]
  {
  }

  /** The same behind place i, where the last other element stands. */
  lemma RemovedFirstBehind<T>(s: seq<T>, value: T, i: nat)
    requires i < |s| && forall k | 0 <= k <= i :: s[k] != value
    requires i + 1 < |s| ==> s[i + 1] == value
    ensures RemovedFirst(s, value) == if i + 1 < |s| then s[..i + 1] + s[i + 2..] else s
  {
    hide RemovedFirst;
    RemovedFirstAt(s, value, i + 1);
  }

  /** One copy goes, all others stay in their order. */
  lemma {:induction false} RemovedFirstCounts<T>(s: seq<T>, value: T)
    ensures multiset(RemovedFirst(s, value)) == multiset(s) - multiset{value}
    ensures value !in s ==> RemovedFirst(s, value) == s
  {
    if s != [] {
      assert s == [s[0]] + s[1..];
      if s[0] != value {
        RemovedFirstCounts(s[1..], value);
      }
    }
  }

  class Stack<T(==)> {
    var count: nat
    var head: StackItem?<T>
    var tail: StackItem?<T>
    /** The nodes in order. */
    ghost var spine: seq<StackItem<T>>

    ghost predicate Valid()
      reads this, spine
    {
      && count == |spine|
      && (forall i, j | 0 <= i < j < |spine| :: spine[i] != spine[j])
      && (forall i | 0 <= i < |spine| :: Linked(i))
      && (if spine == [] then head == null else head == spine[0] && tail == spine[|spine| - 1])
    }

    /** Node i leads to its successor, which leads back. */
    ghost predicate Linked(i: nat)
      reads this, spine
      requires i < |spine|
    {
      if i + 1 < |spine| then spine[i].next == spine[i + 1] && spine[i + 1].prev == spine[i] else spine[i].next == null
    }

    ghost function Contents(): (s: seq<T>)
      reads this, spine
      ensures |s| == |spine| && forall i | 0 <= i < |s| :: s[i] == spine[i].data
    {
      seq(|spine|, i requires 0 <= i < |spine| reads this, spine => spine[i].data)
    }

    /** stack_create */
    constructor ()
      ensures Valid() && Contents() == [] && spine == []
    {
      count, head, tail, spine := 0, null, null, [];
    }

    method PushFront(value: T)
      requires Valid()
      modifies this, spine
      ensures Valid() && Contents() == [value] + old(Contents())
      ensures fresh(spine[0]) && spine[1..] == old(spine)
    {
      var item := new StackItem(value);
      ghost var was := spine;
      assert forall k | 0 <= k < |was| :: was[k] != item;
      if count > 0 {
        head.prev := item;
        item.next := head;
      } else {
        tail := item;
      }
      item.prev := null;
      head := item;
      count := count + 1;
      spine := [item] + spine;
      forall i | 0 <= i < |spine| ensures Linked(i) {
        if 0 < i {
          assert old(Linked(i - 1));
        }
      }
      assert Contents() == [value] + old(Contents()) by {
        hide Linked;
      }
    }

    method PopFront() returns (data: Option<T>)
      requires Valid()
      modifies this, spine
      ensures Valid()
      ensures data == if old(Contents()) == [] then None else Some(old(Contents())[0])
      ensures Contents() == if old(Contents()) == [] then [] else old(Contents())[1..]
      ensures spine == if old(spine) == [] then [] else old(spine)[1..]
    {
      data := None;
      if count > 0 {
        var item := head;
        data := Some(item.data);
        assert Linked(0);
        count := count - 1;
        spine := spine[1..];
        if count == 0 {
          head, tail := null, null;
        } else {
          head := item.next;
          head.prev := null;
        }
        forall i | 0 <= i < |spine| ensures Linked(i) {
          assert old(Linked(i + 1));
        }
      }
    }

    method PushBack(value: T)
      requires Valid()
      modifies this, spine
      ensures Valid() && Contents() == old(Contents()) + [value]
      ensures fresh(spine[|spine| - 1]) && spine[..|spine| - 1] == old(spine)
    {
      var item := new StackItem(value);
      item.prev := tail;
      if count > 0 {
        tail.next := item;
      } else if count == 0 {
        head := item;
      }
      if count == 1 {
        head.next := item;
      }
      tail := item;
      count := count + 1;
      spine := spine + [item];
      forall i | 0 <= i < |spine| ensures Linked(i) {
        assert i + 1 < |spine| ==> old(Linked(i));
      }
      assert Contents() == old(Contents()) + [value] by {
        hide Linked;
      }
    }

    method PopBack() returns (data: Option<T>)
      requires Valid()
      modifies this, spine
      ensures Valid()
      ensures data == if old(Contents()) == [] then None else Some(old(Contents())[|old(Contents())| - 1])
      ensures Contents() == if old(Contents()) == [] then [] else old(Contents())[..|old(Contents())| - 1]
      ensures spine == if old(spine) == [] then [] else old(spine)[..|old(spine)| - 1]
    {
      data := None;
      if count > 0 {
        var item := tail;
        data := Some(item.data);
        assert 1 < |spine| ==> Linked(|spine| - 2);
        count := count - 1;
        spine := spine[..|spine| - 1];
        if count == 0 {
          head, tail := null, null;
        } else {
          tail := item.prev;
          tail.next := null;
        }
        forall i | 0 <= i < |spine| ensures Linked(i) {
          assert old(Linked(i));
        }
      }
    }

    method PeekFront() returns (data: Option<T>)
      requires Valid()
      ensures data == if Contents() == [] then None else Some(Contents()[0])
    {
      data := None;
      if count > 0 {
        data := Some(head.data);
      }
    }

    method PeekBack() returns (data: Option<T>)
      requires Valid()
      ensures data == if Contents() == [] then None else Some(Contents()[|Contents()| - 1])
    {
      data := None;
      if count > 0 {
        data := Some(tail.data);
      }
    }

    method PeekAt(index: nat) returns (data: Option<T>)
      requires Valid()
      ensures data == if index < |Contents()| then Some(Contents()[index]) else None
    {
      if index >= count {
        return None;
      }
      var item := head;
      var i := 0;
      while i < index
        invariant i <= index < |spine| && item == spine[i]
      {
        assert Linked(i);
        item := item.next;
        i := i + 1;
      }
      data := Some(item.data);
    }

    /** The walk of stack_remove: the last node in front of the value, or the last of all. */
    method FindBefore(value: T) returns (current: StackItem<T>, ghost i: nat)
      requires Valid() && spine != [] && head.data != value
      ensures i < |spine| && current == spine[i]
      ensures forall k | 0 <= k <= i :: spine[k].data != value
      ensures if i + 1 < |spine| then current.next != null && spine[i + 1].data == value else current.next == null
    {
      current := head;
      i := 0;
      assert Linked(0);
      while current.next != null && current.next.data != value
        invariant 0 <= i < |spine| && current == spine[i] && Linked(i)
        invariant forall k | 0 <= k <= i :: spine[k].data != value
        decreases |spine| - i
      {
        current := current.next;
        i := i + 1;
        assert Linked(i);
      }
    }

    /** stack_remove: the first node with this value is taken out of the chain. */
    method Remove(value: T)
      requires Valid()
      modifies this, spine
      ensures Valid() && Contents() == RemovedFirst(old(Contents()), value)
      ensures forall k | 0 <= k < |spine| :: spine[k] in old(spine)
    {
      if count == 0 {
        return;
      }
      hide Linked, RemovedFirst;
      if head.data == value {
        RemovedFirstHead(Contents());
        UnlinkHead();
      } else {
        RemoveBehindHead(value);
      }
    }

    /** The part of stack_remove for a head that stays. */
    method RemoveBehindHead(value: T)
      requires Valid() && spine != [] && head.data != value
      modifies this, spine
      ensures Valid() && Contents() == RemovedFirst(old(Contents()), value)
      ensures forall k | 0 <= k < |spine| :: spine[k] in old(spine)
    {
      hide Linked, RemovedFirst;
      var current, i := FindBefore(value);
      ghost var s := Contents();
      RemovedFirstBehind(s, value, i);
      if current.next != null {
        UnlinkNext(current, i);
        assert Contents() == RemovedFirst(s, value);
      }
    }

    /** Takes out the first node; the tail of a list that becomes empty stays behind. */
    method UnlinkHead()
      requires Valid() && spine != []
      modifies this, spine
      ensures Valid() && Contents() == old(Contents())[1..]
      ensures spine == old(spine)[1..]
    {
      assert Linked(0);
      head := head.next;
      if head != null {
        head.prev := null;
      }
      spine := spine[1..];
      count := count - 1;
      forall i | 0 <= i < |spine| ensures Linked(i) {
        assert old(Linked(i + 1));
      }
    }

    /** Takes out the node behind `current`, which is node i. */
    method UnlinkNext(current: StackItem<T>, ghost i: nat)
      requires Valid() && i + 1 < |spine| && current == spine[i]
      modifies this, spine
      ensures Valid() && Contents() == old(Contents())[..i + 1] + old(Contents())[i + 2..]
      ensures spine == old(spine)[..i + 1] + old(spine)[i + 2..]
    {
      assert Linked(i) && Linked(i + 1);
      var tmp := current.next;
      if tmp.next != null {
        current.next := tmp.next;
        tmp.next.prev := current;
      } else {
        current.next := null;
        tail := current;
      }
      spine := spine[..i + 1] + spine[i + 2..];
      count := count - 1;
      forall k | 0 <= k < |spine| ensures Linked(k) {
        assert k <= i ==> old(Linked(k));
        assert k > i ==> old(Linked(k + 1));
      }
    }
  }

  // ----- Runs --------------------------------------------------------------

  datatype Operation<T> =
    | PushFront(value: T)
    | PushBack(value: T)
    | PopFront
    | PopBack
    | PeekFront
    | PeekBack
    | PeekAt(index: nat)
    | Remove(value: T)

  /** What an operation makes of the sequence. */
  function Applied<T(==)>(s: seq<T>, op: Operation<T>): seq<T> {
    match op
    case PushFront(value) => [value] + s
    case PushBack(value) => s + [value]
    case PopFront => if s == [] then [] else s[1..]
    case PopBack => if s == [] then [] else s[..|s| - 1]
    case Remove(value) => RemovedFirst(s, value)
    case PeekFront | PeekBack | PeekAt(_) => s
  }

  /** What an operation answers. */
  function Answer<T>(s: seq<T>, op: Operation<T>): Option<T> {
    match op
    case PopFront | PeekFront => if s == [] then None else Some(s[0])
    case PopBack | PeekBack => if s == [] then None else Some(s[|s| - 1])
    case PeekAt(index) => if index < |s| then Some(s[index]) else None
    case PushFront(_) | PushBack(_) | Remove(_) => None
  }

  function Answers<T(==)>(s: seq<T>, ops: seq<Operation<T>>): seq<Option<T>>
    decreases |ops|
  {
    if ops == [] then [] else [Answer(s, ops[0])] + Answers(Applied(s, ops[0]), ops[1..])
  }

  /** One operation on the list, which keeps no nodes but its old ones and new ones. */
  method Operate<T(==)>(stack: Stack<T>, op: Operation<T>) returns (answer: Option<T>)
    requires stack.Valid()
    modifies stack, stack.spine
    ensures stack.Valid() && stack.Contents() == Applied(old(stack.Contents()), op)
    ensures answer == Answer(old(stack.Contents()), op)
    ensures forall k | 0 <= k < |stack.spine| :: stack.spine[k] in old(stack.spine) || fresh(stack.spine[k])
  {
    hide Stack.Linked, Stack.Valid, Stack.Contents, RemovedFirst;
    answer := None;
    match op
    case PushFront(value) => stack.PushFront(value);
    case PushBack(value) => stack.PushBack(value);
    case PopFront => answer := stack.PopFront();
    case PopBack => answer := stack.PopBack();
    case PeekFront => answer := stack.PeekFront();
    case PeekBack => answer := stack.PeekBack();
    case PeekAt(index) => answer := stack.PeekAt(index);
    case Remove(value) => stack.Remove(value);
  }

  /** Over every run from an empty list the answers are those of a sequence. */
  method Run<T(==)>(ops: seq<Operation<T>>) returns (answers: seq<Option<T>>)
    ensures answers == Answers([], ops)
  {
    var stack := new Stack<T>();
    answers := [];
    var i := 0;
    while i < |ops|
      invariant i <= |ops| && fresh(stack) && stack.Valid()
      invariant forall k | 0 <= k < |stack.spine| :: fresh(stack.spine[k])
      invariant answers + Answers(stack.Contents(), ops[i..]) == Answers([], ops)
    {
      assert ops[i..][0] == ops[i] && ops[i..][1..] == ops[i + 1..];
      var answer := Operate(stack, ops[i]);
      answers := answers + [answer];
      i := i + 1;
    }
  }
}
