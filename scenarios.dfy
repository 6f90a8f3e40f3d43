/*
 * Client-level behaviour of custom::list, each on lists built from scratch:
 * the orders push_back and push_front produce, independence of a copy,
 * a move draining its source, the insert/erase round trip, popping down to
 * the empty list, swapping, clearing twice and the three cases of
 * assignment.
 */
module ListScenarios {
  import opened CustomList

  /** push_back of a, b, c and then a forward traversal yields a, b, c. */
  method PushBackOrder<T>(a: T, b: T, c: T) returns (s: seq<T>)
    ensures s == [a, b, c]
  {
    var l := new List<T>();
    l.PushBack(a);
    l.PushBack(b);
    l.PushBack(c);
    s := l.Values();
  }

  /** push_front of a, b, c and then a forward traversal yields c, b, a. */
  method PushFrontOrder<T>(a: T, b: T, c: T) returns (s: seq<T>)
    ensures s == [c, b, a]
  {
    var l := new List<T>();
    l.PushFront(a);
    l.PushFront(b);
    l.PushFront(c);
    s := l.Values();
  }

  /**
   * A copy owns nodes of its own: pushing onto the copy of [1, 2, 3] leaves
   * the original as it was.
   */
  method CopyIndependence() returns (original: seq<int>, copy: seq<int>)
    ensures original == [1, 2, 3] && copy == [1, 2, 3, 4]
  {
    var l := new List.Range([1, 2, 3]);
    var m := new List.Copy(l);
    m.PushBack(4);
    original := l.Values();
    copy := m.Values();
  }

  /** Moving [1, 2, 3] into a new list leaves the source empty, with size 0. */
  method MoveDrainsSource() returns (moved: seq<int>, sourceEmpty: bool, sourceSize: nat)
    ensures moved == [1, 2, 3] && sourceEmpty && sourceSize == 0
  {
    var l := new List.Range([1, 2, 3]);
    var m := new List.Move(l);
    moved := m.Values();
    sourceEmpty := l.Empty();
    sourceSize := l.Size();
  }

  /**
   * Inserting 99 before the 2 of [1, 2, 3] gives [1, 99, 2, 3]; erasing the
   * 99 again gives [1, 2, 3], and the iterator erase returns refers to the 2.
   */
  method InsertEraseRoundTrip() returns (inserted: seq<int>, erased: seq<int>, following: int)
    ensures inserted == [1, 99, 2, 3] && erased == [1, 2, 3] && following == 2
  {
    var l := new List.Range([1, 2, 3]);
    var it := l.Next(l.Begin());
    var r := l.Insert(it, 99);
    assert l.Contents == Inserted([1, 2, 3], 1, 99) == [1, 99, 2, 3];
    inserted := l.Values();
    var e := l.Erase(r);
    assert l.Contents == Removed([1, 99, 2, 3], 1) == [1, 2, 3];
    erased := l.Values();
    following := l.Get(e);
  }

  /** Popping [1, 2] from the back until empty leaves begin() == end() with null head and tail. */
  method PopBackToEmpty() returns (atEnd: bool, emptyLinks: bool)
    ensures atEnd && emptyLinks
  {
    var l := new List.Range([1, 2]);
    l.PopBack();
    l.PopBack();
    atEnd := l.Begin().Equals(l.End());
    emptyLinks := l.head == null && l.tail == null;
  }

  /**
   * swap of [1, 2] and [9] gives [9] and [1, 2]; no node changes identity:
   * each list now holds the other's former head and tail.
   */
  method SwapExchanges() returns (a: seq<int>, b: seq<int>, sameNodes: bool)
    ensures a == [9] && b == [1, 2] && sameNodes
  {
    var la := new List.Range([1, 2]);
    var lb := new List.Range([9]);
    var headA, tailA, headB, tailB := la.head, la.tail, lb.head, lb.tail;
    Swap(la, lb);
    a := la.Values();
    b := lb.Values();
    sameNodes := la.head == headB && la.tail == tailB && lb.head == headA && lb.tail == tailA;
  }

  /** clear on any list, and then clear again: both leave null head and tail and a count of 0. */
  method ClearTwice<T>(xs: seq<T>) returns (once: seq<T>, twice: seq<T>, emptyLinks: bool)
    ensures once == [] && twice == [] && emptyLinks
  {
    var l := new List.Range(xs);
    l.Clear();
    once := l.Values();
    l.Clear();
    twice := l.Values();
    emptyLinks := l.head == null && l.tail == null && l.numElements == 0;
  }

  /**
   * Assigning [7, 8] to [1, 2, 3] overwrites the first two nodes in place
   * and drops the third, whose predecessor becomes the tail.
   */
  method AssignShorter() returns (s: seq<int>, reused: bool)
    ensures s == [7, 8] && reused
  {
    var l := new List.Range([1, 2, 3]);
    var first, second := l.head, l.head.next;
    l.AssignSeq([7, 8]);
    s := l.Values();
    reused := l.head == first && l.tail == second && second.next == null;
  }

  /**
   * Assigning [7, 8, 9] to [1] overwrites the one node in place and appends
   * two more: three distinct nodes, the old one first.
   */
  method AssignLonger() returns (s: seq<int>, reused: bool)
    ensures s == [7, 8, 9] && reused
  {
    var l := new List.Range([1]);
    var first := l.head;
    l.AssignSeq([7, 8, 9]);
    s := l.Values();
    var second := first.next;
    reused := l.head == first && second != null && second != first && l.tail != first && l.tail != second;
  }

  /** Assigning the empty sequence to [1, 2] leaves the empty list. */
  method AssignEmpty() returns (s: seq<int>, isEmpty: bool)
    ensures s == [] && isEmpty
  {
    var l := new List.Range([1, 2]);
    l.AssignSeq([]);
    s := l.Values();
    isEmpty := l.Empty();
  }
}
