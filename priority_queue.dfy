// The linked-list priority queue and stack of code/priority_queue.c.
//
// A list is modelled by the sequence of its values from head to tail; the
// nodes themselves (allocation, the `next` links) are not modelled. A
// comparison function is a Dafny function value, and the NULL comparison
// function that stack_push passes is `None`.

module PriorityQueue {
  import opened Options

  /** A comparison function that orders consistently: "comes before" is
      asymmetric and "does not come before" is transitive, as for any
      function that compares keys by subtraction without overflow. */
  ghost predicate Comparator<T(!new)>(cmp: (T, T) -> int)
  {
    (forall a, b :: cmp(a, b) < 0 ==> cmp(b, a) > 0)
    && (forall a, b, c :: cmp(a, b) >= 0 && cmp(b, c) >= 0 ==> cmp(a, c) >= 0)
  }

  /** The list is in queue order: no value compares below one ahead of it. */
  ghost predicate Sorted<T>(s: seq<T>, cmp: (T, T) -> int)
  {
    forall i, j :: 0 <= i < j < |s| ==> cmp(s[j], s[i]) >= 0
  }

  /** The walk of pq_enqueue's else branch, from the node at index i: it
      moves on while the next value does not compare above the new one and
      stops before the first that does (or at the tail). */
  function WalkFrom<T>(s: seq<T>, x: T, cmp: (T, T) -> int, i: nat): (p: nat)
    requires i < |s| && forall k :: 0 <= k <= i ==> cmp(x, s[k]) >= 0
    ensures i < p <= |s|
    ensures forall k :: 0 <= k < p ==> cmp(x, s[k]) >= 0
    ensures p < |s| ==> cmp(x, s[p]) < 0
    decreases |s| - i
  {
    if i + 1 < |s| && cmp(x, s[i + 1]) >= 0 then WalkFrom(s, x, cmp, i + 1) else i + 1
  }

  /** The index at which pq_enqueue links in a new value: the front when the
      list is empty, there is no comparison function, or the value compares
      below the head; otherwise after every value it does not compare below,
      up to the first it does. */
  function Slot<T>(s: seq<T>, x: T, cmp: Option<(T, T) -> int>): (p: nat)
    ensures p <= |s|
    ensures cmp.None? ==> p == 0
    ensures cmp.Some? ==> forall k :: 0 <= k < p ==> cmp.value(x, s[k]) >= 0
    ensures cmp.Some? && p < |s| ==> cmp.value(x, s[p]) < 0
  {
    if s == [] || cmp.None? || cmp.value(x, s[0]) < 0 then 0 else WalkFrom(s, x, cmp.value, 0)
  }

  /** The list with `x` linked in before the value at index p. */
  function Insert<T>(s: seq<T>, p: nat, x: T): (r: seq<T>)
    requires p <= |s|
    ensures |r| == |s| + 1
  {
    s[..p] + [x] + s[p..]
  }

  /** The list after pq_enqueue. */
  function Enqueued<T>(s: seq<T>, x: T, cmp: Option<(T, T) -> int>): seq<T>
  {
    Insert(s, Slot(s, x, cmp), x)
  }

  /** What pq_dequeue returns and leaves: the head is detached, and an empty
      list gives NULL. */
  function Dequeued<T>(s: seq<T>): (r: (Option<T>, seq<T>))
    ensures r.0.None? <==> s == []
    ensures r.0.None? ==> r.1 == []
    ensures r.0.Some? ==> [r.0.value] + r.1 == s
  {
    if s == [] then (None, []) else (Some(s[0]), s[1..])
  }

  /** Linking a value in adds it and keeps every other value, in order. */
  lemma {:induction false} InsertContents<T>(s: seq<T>, p: nat, x: T)
    requires p <= |s|
    ensures var r := Insert(s, p, x);
      r[p] == x && r[..p] + r[p + 1..] == s
      && multiset(r) == multiset(s) + multiset{x}
  {
    var front, back := s[..p], s[p..];
    var r := front + [x] + back;
    assert r[..p] == front;
    assert r[p + 1..] == back;
    calc {
      multiset(r);
      multiset(front + [x]) + multiset(back);
      multiset(front) + multiset{x} + multiset(back);
      { assert s == front + back; }
      multiset(s) + multiset{x};
    }
  }

  /** The value at each index after linking in. */
  lemma {:induction false} InsertAt<T>(s: seq<T>, p: nat, x: T, i: nat)
    requires p <= |s| && i <= |s|
    ensures Insert(s, p, x)[i] == if i < p then s[i] else if i == p then x else s[i - 1]
  {
  }

  /** With no comparison function (stack_push) the value becomes the head. */
  lemma {:induction false} EnqueuedFront<T>(s: seq<T>, x: T)
    ensures Enqueued(s, x, None) == [x] + s
  {
    assert s[..0] == [] && s[0..] == s;
  }

  /** The queue order survives an enqueue. */
  lemma {:induction false} EnqueuedSorted<T(!new)>(s: seq<T>, x: T, cmp: (T, T) -> int)
    requires Comparator(cmp) && Sorted(s, cmp)
    ensures Sorted(Enqueued(s, x, Some(cmp)), cmp)
  {
    var r := Enqueued(s, x, Some(cmp));
    var p := Slot(s, x, Some(cmp));
    forall i, j | 0 <= i < j < |r|
      ensures cmp(r[j], r[i]) >= 0
    {
      InsertAt(s, p, x, i);
      InsertAt(s, p, x, j);
      if i == p {
        AfterSlot(s, x, cmp, j - 1);
      }
    }
  }

  /** A value behind the new one's slot in an ordered queue does not compare
      below the new one. */
  lemma {:induction false} AfterSlot<T(!new)>(s: seq<T>, x: T, cmp: (T, T) -> int, k: nat)
    requires Comparator(cmp) && Sorted(s, cmp)
    requires Slot(s, x, Some(cmp)) <= k < |s|
    ensures cmp(s[k], x) >= 0
  {
    var p := Slot(s, x, Some(cmp));
    assert cmp(s[p], x) > 0;
    if k > p {
      assert cmp(s[k], s[p]) >= 0;
    }
  }

  /** In an ordered queue the new value goes after exactly the values it does
      not compare below: values that compare equal keep their arrival order. */
  lemma {:induction false} EnqueuedStable<T(!new)>(s: seq<T>, x: T, cmp: (T, T) -> int)
    requires Comparator(cmp) && Sorted(s, cmp)
    ensures forall k :: 0 <= k < |s| ==> (k < Slot(s, x, Some(cmp)) <==> cmp(x, s[k]) >= 0)
  {
    var p := Slot(s, x, Some(cmp));
    forall k | p <= k < |s|
      ensures cmp(x, s[k]) < 0
    {
      if k > p {
        assert cmp(s[k], s[p]) >= 0;
      }
    }
  }

  /** Pushing onto a stack and popping gives back the value and the stack. */
  lemma {:induction false} PushPop<T>(s: seq<T>, x: T)
    ensures Dequeued(Enqueued(s, x, None)) == (Some(x), s)
  {
    EnqueuedFront(s, x);
  }

  /** Dequeueing an ordered queue gives a value that no remaining value
      compares below, and leaves an ordered queue. */
  lemma {:induction false} DequeuedLeast<T>(s: seq<T>, cmp: (T, T) -> int)
    requires Sorted(s, cmp) && s != []
    ensures var (r, rest) := Dequeued(s);
      Sorted(rest, cmp) && forall k :: 0 <= k < |rest| ==> cmp(rest[k], r.value) >= 0
  {
    var rest := s[1..];
    forall i, j | 0 <= i < j < |rest|
      ensures cmp(rest[j], rest[i]) >= 0
    {
      assert rest[i] == s[i + 1] && rest[j] == s[j + 1];
    }
    forall k | 0 <= k < |rest|
      ensures cmp(rest[k], s[0]) >= 0
    {
      assert rest[k] == s[k + 1];
    }
  }

  /** A list head (`PQNode *`) and the operations on it; `items` are the
      values from the head on. */
  class Queue<T> {
    var items: seq<T>

    /** An empty list: a NULL head. */
    constructor ()
      ensures items == []
    {
      items := [];
    }

    /** pq_enqueue: a new node goes to the front when the list is empty, there
        is no comparison function, or the value compares below the head;
        otherwise it walks on from the head while the next value does not
        compare above the new one, and links the new node in there. */
    method Enqueue(value: T, cmp: Option<(T, T) -> int>)
      modifies this
      ensures items == Enqueued(old(items), value, cmp)
    {
      var s := items;
      if s == [] || cmp.None? || cmp.value(value, s[0]) < 0 {
        items := [value] + s;
        assert s[0..] == s;
      } else {
        var f := cmp.value;
        var i := 0;
        while i + 1 < |s| && f(value, s[i + 1]) >= 0
          invariant 0 <= i < |s|
          invariant forall k :: 0 <= k <= i ==> f(value, s[k]) >= 0
          invariant WalkFrom(s, value, f, i) == Slot(s, value, cmp)
          decreases |s| - i
        {
          i := i + 1;
        }
        items := s[..i + 1] + [value] + s[i + 1..];
      }
    }

    /** pq_dequeue: detaches and returns the head; NULL on an empty list. */
    method Dequeue() returns (r: Option<T>)
      modifies this
      ensures (r, items) == Dequeued(old(items))
    {
      if items == [] {
        r := None;
      } else {
        r := Some(items[0]);
        items := items[1..];
      }
    }

    /** stack_push: pq_enqueue without a comparison function. */
    method Push(value: T)
      modifies this
      ensures items == [value] + old(items)
    {
      EnqueuedFront(items, value);
      Enqueue(value, None);
    }

    /** stack_pop: the same as pq_dequeue. */
    method Pop() returns (r: Option<T>)
      modifies this
      ensures (r, items) == Dequeued(old(items))
    {
      r := Dequeue();
    }

    /** destroy_list: dequeues every node in turn, handing each value to the
        destroy function when there is one; `destroyed` lists those calls. */
    method Destroy(hasDestroyFn: bool) returns (destroyed: seq<T>)
      modifies this
      ensures items == []
      ensures destroyed == if hasDestroyFn then old(items) else []
    {
      destroyed := [];
      while items != []
        invariant hasDestroyFn ==> destroyed + items == old(items)
        invariant !hasDestroyFn ==> destroyed == []
        decreases |items|
      {
        var node := Dequeue();
        if hasDestroyFn {
          destroyed := destroyed + [node.value];
        }
      }
    }
  }
}
