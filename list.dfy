/*
 * A model of custom::list<T> (list.h): a doubly-linked list whose nodes are
 * heap objects linked forward by `next` and backward by `prev`, with the list
 * object holding the head, the tail and the element count.
 *
 * The public view of a list is its ghost state:
 *   Nodes    the chain of nodes from head to tail, in order
 *   Contents the elements they hold, in the same order
 *   Repr()   the set of nodes the list owns
 * Valid() ties the real fields (numElements, head, tail, and every node's
 * data, next and prev) to that view.
 */
module CustomList {

  /** The list with `x` placed at index `k`: what insertion before position `k` yields. */
  function Inserted<T>(s: seq<T>, k: nat, x: T): (r: seq<T>)
    requires k <= |s|
    ensures |r| == |s| + 1 && r[k] == x
    ensures forall i :: 0 <= i < k ==> r[i] == s[i]
    ensures forall i :: k < i < |r| ==> r[i] == s[i - 1]
  {
    s[..k] + [x] + s[k..]
  }

  /** The list with the element at index `k` taken out: what erasing position `k` yields. */
  function Removed<T>(s: seq<T>, k: nat): (r: seq<T>)
    requires k < |s|
    ensures |r| == |s| - 1
    ensures forall i :: 0 <= i < k ==> r[i] == s[i]
    ensures forall i :: k <= i < |r| ==> r[i] == s[i + 1]
  {
    s[..k] + s[k + 1..]
  }

  /** Erasing the element just inserted gives back the original list. */
  lemma RemovedInserted<T>(s: seq<T>, k: nat, x: T)
    requires k <= |s|
    ensures Removed(Inserted(s, k, x), k) == s
  {
  }

  /** Re-inserting an erased element at its old position gives back the original list. */
  lemma InsertedRemoved<T>(s: seq<T>, k: nat)
    requires k < |s|
    ensures Inserted(Removed(s, k), k, s[k]) == s
  {
  }

  /** The index of node `n` in the chain `ns`: its first occurrence. */
  ghost function IndexOf<T>(ns: seq<Node<T>>, n: Node<T>): (k: nat)
    requires n in ns
    ensures k < |ns| && ns[k] == n
    ensures forall j :: 0 <= j < k ==> ns[j] != n
  {
    if ns[0] == n then 0 else 1 + IndexOf(ns[1..], n)
  }

  /**
   * list<T>::Node. The source's constructors ignore `data` and link the node
   * to itself (list.h:134-145); every use of a new node in the intended
   * algorithms stores the value and sets both links, which is what this
   * constructor does.
   */
  class Node<T> {
    var data: T
    var next: Node?<T>
    var prev: Node?<T>

    constructor (data: T)
      ensures this.data == data && next == null && prev == null
    {
      this.data := data;
      next := null;
      prev := null;
    }
  }

  /**
   * list<T>::iterator: a non-owning cursor holding one node pointer; the null
   * pointer is end().
   */
  datatype Iterator<T> = Iterator(p: Node?<T>) {
    /** operator== : two iterators are equal when they hold the same pointer. */
    predicate Equals(other: Iterator<T>)
      ensures Equals(other) <==> this == other
    {
      p == other.p
    }

    /** operator!= : two iterators differ when they hold different pointers. */
    predicate NotEquals(other: Iterator<T>)
      ensures NotEquals(other) <==> !Equals(other)
    {
      p != other.p
    }
  }

  /**
   * custom::list<T>. Nodes are never freed: a node leaves the list by
   * dropping out of Nodes. The source's destructor is empty (list.h:50-52);
   * its intended release of every node is memory reclamation, which a
   * garbage-collected model has no counterpart for.
   */
  class List<T> {
    var numElements: nat
    var head: Node?<T>
    var tail: Node?<T>

    ghost var Nodes: seq<Node<T>>
    ghost var Contents: seq<T>

    /**
     * The chain invariant, on explicit values so that it depends only on the
     * nodes: no node occurs twice, each node holds its element of `cs`, each
     * node's next is its successor and each node's prev its predecessor, and
     * the chain ends in null both ways.
     */
    static ghost predicate IsChain(ns: seq<Node<T>>, cs: seq<T>)
      reads ns
      ensures ns == [] ==> (IsChain(ns, cs) <==> cs == [])
      ensures |ns| == 1 ==> (IsChain(ns, cs) <==>
        cs == [ns[0].data] && ns[0].next == null && ns[0].prev == null)
    {
      |cs| == |ns| &&
      (forall i, j :: 0 <= i < j < |ns| ==> ns[i] != ns[j]) &&
      (forall i {:trigger ns[i].data} :: 0 <= i < |ns| ==> ns[i].data == cs[i]) &&
      (forall i {:trigger ns[i].next} :: 0 <= i < |ns| - 1 ==> ns[i].next == ns[i + 1]) &&
      (forall i {:trigger ns[i].prev} :: 0 < i < |ns| ==> ns[i].prev == ns[i - 1]) &&
      (ns != [] ==> ns[0].prev == null && ns[|ns| - 1].next == null)
    }

    /** The object invariant: the chain, plus head, tail and the count agreeing with it. */
    ghost predicate Valid()
      reads this, Nodes
      ensures Valid() ==> numElements == |Contents|
      ensures Valid() ==> (head == null <==> Contents == []) && (tail == null <==> Contents == [])
      ensures Valid() && head != null ==> head.data == Contents[0] && tail.data == Contents[|Contents| - 1]
    {
      IsChain(Nodes, Contents) &&
      numElements == |Nodes| &&
      head == (if Nodes == [] then null else Nodes[0]) &&
      tail == (if Nodes == [] then null else Nodes[|Nodes| - 1])
    }

    /** The nodes this list owns. */
    ghost function Repr(): (r: set<Node<T>>)
      reads this
      ensures forall i :: 0 <= i < |Nodes| ==> Nodes[i] in r
    {
      set n | n in Nodes
    }

    /** The iterator `it` points into this list, or is end(). */
    ghost predicate Points(it: Iterator<T>)
      reads this
    {
      it.p == null || it.p in Nodes
    }

    /** The position an iterator denotes: the index of its node, or |Nodes| for end(). */
    ghost function Pos(it: Iterator<T>): (k: nat)
      reads this, Nodes
      requires Valid() && Points(it)
      ensures k <= |Nodes|
      ensures it.p == null ==> k == |Nodes|
      ensures it.p != null ==> k < |Nodes| && Nodes[k] == it.p
    {
      if it.p == null then |Nodes| else IndexOf(Nodes, it.p)
    }

    /**
     * Overwrite the list object's own fields together (head, tail, count and
     * the ghost view); no node is touched. It stands for no operation of the
     * list: the methods that relink nodes call it last, so that the proof
     * sees the nodes unchanged across one step rather than several, which
     * keeps those proofs cheap. It does not keep Valid() by itself; each
     * caller passes the values that restore it.
     */
    method SetFields(h: Node?<T>, t: Node?<T>, n: nat, ghost ns: seq<Node<T>>, ghost cs: seq<T>)
      modifies this
      ensures head == h && tail == t && numElements == n && Nodes == ns && Contents == cs
    {
      head, tail, numElements := h, t, n;
      Nodes, Contents := ns, cs;
    }

    /**
     * The invariants of the linked structure, stated on the pointer fields
     * alone: head and tail are both null exactly when the count is zero; the
     * count is one exactly when head and tail are the same node, which then
     * has no neighbours; the head has no predecessor and the tail no
     * successor; and every owned node's neighbours are owned nodes that link
     * back to it.
     */
    lemma LinkInvariants()
      requires Valid()
      ensures (numElements == 0) == (head == null) == (tail == null)
      ensures numElements == 1 <==> head != null && head == tail
      ensures numElements == 1 ==> head.prev == null && head.next == null
      ensures head != null ==> head.prev == null && tail.next == null
      ensures forall n :: n in Nodes && n.next != null ==> n.next in Nodes && n.next.prev == n
      ensures forall n :: n in Nodes && n.prev != null ==> n.prev in Nodes && n.prev.next == n
    {
    }

    /**
     * Two iterators into a valid list compare equal (operator==) exactly when
     * they denote the same position.
     */
    lemma IteratorEquality(a: Iterator<T>, b: Iterator<T>)
      requires Valid() && Points(a) && Points(b)
      ensures a.Equals(b) <==> Pos(a) == Pos(b)
      ensures a.NotEquals(b) <==> Pos(a) != Pos(b)
    {
    }

    /** Default constructor: an empty list. */
    constructor ()
      ensures Valid() && Nodes == []
      ensures numElements == 0 && head == null && tail == null && Contents == []
    {
      numElements := 0;
      head, tail := null, null;
      Nodes, Contents := [], [];
    }

    /**
     * Fill constructor: `num` fresh nodes, each holding `t`, linked forward
     * and back. The source's body stores a count of 99 and one dummy node
     * (list.h:249-250); this follows the algorithm in its comment.
     */
    constructor Fill(num: nat, t: T)
      ensures Valid() && fresh(Repr())
      ensures numElements == num && |Contents| == num
      ensures forall i :: 0 <= i < num ==> Contents[i] == t
    {
      numElements := 0;
      head, tail := null, null;
      Nodes, Contents := [], [];
      new;
      if num > 0 {
        var pNew := new Node(t);
        var pPrevious := pNew;
        head := pNew;
        ghost var ns, cs := [pNew], [t];
        var i := 1;
        while i < num
          invariant 1 <= i <= num
          invariant IsChain(ns, cs) && |cs| == i
          invariant forall j :: 0 <= j < i ==> fresh(ns[j]) && cs[j] == t
          invariant head == ns[0] && pNew == pPrevious == ns[i - 1]
        {
          pNew := LinkAfter(ns, cs, pPrevious, t);
          pPrevious := pNew;
          ns, cs := ns + [pNew], cs + [t];
          i := i + 1;
        }
        pNew.next := null;
        SetFields(head, pNew, num, ns, cs);
      }
    }

    /**
     * One step of the fill loop: a fresh node holding `t`, whose prev is the
     * last node of the chain `ns` and which that node's next now points to.
     */
    static method LinkAfter(ghost ns: seq<Node<T>>, ghost cs: seq<T>, pPrevious: Node<T>, t: T)
      returns (pNew: Node<T>)
      requires IsChain(ns, cs) && ns != [] && pPrevious == ns[|ns| - 1]
      modifies pPrevious
      ensures fresh(pNew) && IsChain(ns + [pNew], cs + [t])
    {
      pNew := new Node(t);
      pNew.prev := pPrevious;
      pNew.prev.next := pNew;
    }

    /**
     * Range and initializer-list constructors: start empty and push_back each
     * element of the source in order. The source's range loop also does
     * numElements++ after each push_back (list.h:267-268), and its
     * initializer-list constructor presets the count and a dummy node
     * (list.h:281-282); both would break the count, and neither is modelled.
     */
    constructor Range(source: seq<T>)
      ensures Valid() && fresh(Repr())
      ensures Contents == source && numElements == |source|
    {
      head, tail := null, null;
      numElements := 0;
      Nodes, Contents := [], [];
      new;
      var i := 0;
      while i < |source|
        invariant 0 <= i <= |source|
        invariant Valid() && Contents == source[..i]
        invariant forall j :: 0 <= j < |Nodes| ==> fresh(Nodes[j])
      {
        PushBack(source[i]);
        i := i + 1;
      }
    }

    /** Copy constructor: start empty, then copy-assign from `rhs`. */
    constructor Copy(rhs: List<T>)
      requires rhs.Valid()
      ensures Valid() && fresh(Repr())
      ensures Contents == rhs.Contents
    {
      head, tail := null, null;
      numElements := 0;
      Nodes, Contents := [], [];
      new;
      Assign(rhs);
    }

    /**
     * Move constructor: adopt rhs's head, tail and count unchanged and leave
     * rhs empty; no node is created, copied or relinked.
     */
    constructor Move(rhs: List<T>)
      requires rhs.Valid()
      modifies rhs
      ensures Valid() && rhs.Valid()
      ensures head == old(rhs.head) && tail == old(rhs.tail) && numElements == old(rhs.numElements)
      ensures Nodes == old(rhs.Nodes) && Contents == old(rhs.Contents)
      ensures rhs.head == null && rhs.tail == null && rhs.numElements == 0
      ensures rhs.Nodes == [] && rhs.Contents == []
    {
      head := rhs.head;
      tail := rhs.tail;
      numElements := rhs.numElements;
      Nodes, Contents := rhs.Nodes, rhs.Contents;
      new;
      rhs.head := null;
      rhs.tail := null;
      rhs.numElements := 0;
      rhs.Nodes, rhs.Contents := [], [];
    }

    /**
     * Move assignment, as the source writes it: clear this list, then swap
     * with rhs. The source calls a member swap that list does not declare and
     * returns nothing (list.h:347-348); the free Swap below is what it means.
     * Afterwards this list holds rhs's former chain and rhs is empty (a
     * self-move leaves the list empty).
     */
    method MoveAssign(rhs: List<T>)
      requires Valid() && rhs.Valid()
      modifies this, rhs
      ensures Valid() && rhs.Valid()
      ensures rhs != this ==> Nodes == old(rhs.Nodes) && Contents == old(rhs.Contents)
      ensures rhs != this ==> rhs.Nodes == [] && rhs.Contents == []
      ensures rhs == this ==> Nodes == [] && Contents == []
    {
      Clear();
      Swap(this, rhs);
    }

    /**
     * Copy assignment: read rhs by a forward traversal, then assign its
     * elements with the node-reusing strategy of AssignSeq. The source's body
     * returns without copying (list.h:359-362). The two lists own disjoint
     * chains unless they are the same list.
     */
    method Assign(rhs: List<T>)
      requires Valid() && rhs.Valid()
      requires rhs == this || Repr() !! rhs.Repr()
      modifies this, Nodes
      ensures Valid() && fresh(Repr() - old(Repr()))
      ensures Contents == old(rhs.Contents)
      ensures rhs.Valid() && rhs.Contents == old(rhs.Contents)
    {
      var values := rhs.Values();
      AssignSeq(values);
    }

    /**
     * Assignment from a sequence of values (operator= from an initializer
     * list), following the algorithm in the source's comment: overwrite the
     * existing nodes positionally; if values remain, push_back them; else if
     * the source is empty, clear; else unlink the surplus nodes, make the
     * last kept node the tail and end the chain there.
     */
    method AssignSeq(rhs: seq<T>)
      requires Valid()
      modifies this, Nodes
      ensures Valid() && fresh(Repr() - old(Repr()))
      ensures Contents == rhs && numElements == |rhs|
      ensures |rhs| <= |old(Nodes)| ==> Nodes == old(Nodes)[..|rhs|]
      ensures |old(Nodes)| <= |rhs| ==> Nodes[..|old(Nodes)|] == old(Nodes)
    {
      var i, p := FillExisting(rhs);
      if i < |rhs| {
        AddNew(rhs, i);
      } else if rhs == [] {
        Clear();
      } else if p != null {
        RemoveExtra(i, p);
      }
    }

    /**
     * The first phase of assignment: overwrite the data of the first nodes
     * with the first values, walking both together until either runs out.
     * Returns how many were overwritten and the first node not overwritten.
     */
    method FillExisting(rhs: seq<T>) returns (i: nat, p: Node?<T>)
      requires Valid()
      modifies this, Nodes
      ensures Valid() && Nodes == old(Nodes)
      ensures i == if |rhs| < |Nodes| then |rhs| else |Nodes|
      ensures p == if i < |Nodes| then Nodes[i] else null
      ensures Contents == rhs[..i] + old(Contents)[i..]
    {
      i := 0;
      p := head;
      ghost var cs := Contents;
      while i < |rhs| && p != null
        modifies Nodes
        invariant 0 <= i <= |rhs| && i <= |Nodes|
        invariant IsChain(Nodes, cs)
        invariant p == if i < |Nodes| then Nodes[i] else null
        invariant forall j :: 0 <= j < i ==> cs[j] == rhs[j]
        invariant forall j :: i <= j < |cs| ==> cs[j] == old(Contents)[j]
      {
        SetData(Nodes, cs, i, p, rhs[i]);
        cs := cs[i := rhs[i]];
        p := p.next;
        i := i + 1;
      }
      Contents := cs;
      assert Contents == rhs[..i] + old(Contents)[i..];
    }

    /** The second phase of assignment when values remain: push_back each of them. */
    method AddNew(rhs: seq<T>, i0: nat)
      requires Valid() && i0 == |Nodes| <= |rhs| && Contents == rhs[..i0]
      modifies this, Nodes
      ensures Valid() && fresh(Repr() - old(Repr()))
      ensures Contents == rhs && Nodes[..i0] == old(Nodes)
    {
      var i := i0;
      while i < |rhs|
        invariant i0 <= i <= |rhs|
        invariant Valid() && fresh(Repr() - old(Repr()))
        invariant Contents == rhs[..i] && Nodes[..i0] == old(Nodes)
      {
        PushBack(rhs[i]);
        assert rhs[..i + 1] == rhs[..i] + [rhs[i]];
        i := i + 1;
      }
    }

    /** One step of the overwrite loop: node `p`, at index k of the chain, now holds `x`. */
    static method SetData(ghost ns: seq<Node<T>>, ghost cs: seq<T>, ghost k: nat, p: Node<T>, x: T)
      requires IsChain(ns, cs) && k < |ns| && ns[k] == p
      modifies p
      ensures IsChain(ns, cs[k := x])
    {
      p.data := x;
    }

    /**
     * The last phase of assignment when nodes remain: unlink the nodes from
     * `p` (at index i > 0) to the tail, counting each one off, make p's
     * predecessor the tail and end the chain there.
     */
    method RemoveExtra(ghost i: nat, p: Node<T>)
      requires Valid() && 0 < i < |Nodes| && Nodes[i] == p
      modifies this, Nodes
      ensures Valid()
      ensures Nodes == old(Nodes)[..i] && Contents == old(Contents)[..i]
    {
      ghost var j := i;
      var p: Node?<T> := p;
      tail := p.prev;
      var pNext := p.next;
      while p != null
        modifies this`numElements
        invariant i <= j <= |Nodes|
        invariant p == if j < |Nodes| then Nodes[j] else null
        invariant numElements == |Nodes| - (j - i)
        decreases |Nodes| - j
      {
        pNext := p.next;
        p := pNext;
        numElements := numElements - 1;
        j := j + 1;
      }
      tail.next := null;
      Nodes, Contents := Nodes[..i], Contents[..i];
    }

    /**
     * clear: walk the chain forward from the head releasing each node, then
     * reset head, tail and the count. The source keeps only the reset
     * (list.h:426-427) with the walk commented out; both are modelled. The
     * walk stands for releasing each node in turn (list.h:413-418); as
     * nodes are never freed here, nothing in the final state depends on it.
     * The final state does not depend on the initial one, so a second call
     * changes nothing.
     */
    method Clear()
      requires Valid()
      modifies this
      ensures Valid() && Contents == [] && Nodes == []
      ensures head == null && tail == null && numElements == 0
    {
      if numElements > 0 {
        ghost var i := 0;
        while head != null
          modifies this`head
          invariant 0 <= i <= |Nodes|
          invariant head == if i < |Nodes| then Nodes[i] else null
          decreases |Nodes| - i
        {
          var pDelete := head;  // the node list.h:415-417 deletes; freeing is not modelled
          head := head.next;
          i := i + 1;
        }
      }
      head, tail := null, null;
      numElements := 0;
      Nodes, Contents := [], [];
    }

    /**
     * push_back: one fresh node after the tail; the other elements and nodes
     * stay in order. The source's bodies are empty (list.h:439-448); this
     * follows their header comment.
     */
    method PushBack(data: T)
      requires Valid()
      modifies this, Nodes
      ensures Valid() && fresh(tail)
      ensures Contents == old(Contents) + [data]
      ensures Nodes == old(Nodes) + [tail]
    {
      var n := new Node(data);
      if tail == null {
        head := n;
      } else {
        n.prev := tail;
        tail.next := n;
      }
      tail := n;
      numElements := numElements + 1;
      Nodes, Contents := Nodes + [n], Contents + [data];
    }

    /**
     * push_front: one fresh node before the head; the other elements and
     * nodes stay in order. The source's bodies are empty (list.h:457-467);
     * this follows their header comment.
     */
    method PushFront(data: T)
      requires Valid()
      modifies this, Nodes
      ensures Valid() && fresh(head)
      ensures Contents == [data] + old(Contents)
      ensures Nodes == [head] + old(Nodes)
    {
      var n := new Node(data);
      if head == null {
        tail := n;
      } else {
        n.next := head;
        head.prev := n;
      }
      head := n;
      numElements := numElements + 1;
      Nodes, Contents := [n] + Nodes, [data] + Contents;
    }

    /**
     * pop_back: remove exactly the last element; calling it on an empty list
     * is a contract violation. The source's body is empty (list.h:477-481).
     */
    method PopBack()
      requires Valid() && Contents != []
      modifies this, Nodes
      ensures Valid()
      ensures Contents == old(Contents)[..|old(Contents)| - 1]
      ensures Nodes == old(Nodes)[..|old(Nodes)| - 1]
    {
      var n := tail;
      tail := n.prev;
      if tail == null {
        head := null;
      } else {
        tail.next := null;
      }
      numElements := numElements - 1;
      Nodes, Contents := Nodes[..|Nodes| - 1], Contents[..|Contents| - 1];
    }

    /**
     * pop_front: remove exactly the first element; calling it on an empty
     * list is a contract violation. The source's body is empty
     * (list.h:490-494).
     */
    method PopFront()
      requires Valid() && Contents != []
      modifies this, Nodes
      ensures Valid()
      ensures Contents == old(Contents)[1..]
      ensures Nodes == old(Nodes)[1..]
    {
      var n := head;
      head := n.next;
      if head == null {
        tail := null;
      } else {
        head.prev := null;
      }
      numElements := numElements - 1;
      Nodes, Contents := Nodes[1..], Contents[1..];
    }

    /**
     * front: the first element. The source returns *(new T) (list.h:506);
     * the element is returned by value here, not by reference.
     */
    method Front() returns (x: T)
      requires Valid() && Contents != []
      ensures x == Contents[0]
    {
      x := head.data;
    }

    /**
     * back: the last element. The source returns *(new T) (list.h:519);
     * the element is returned by value here, not by reference.
     */
    method Back() returns (x: T)
      requires Valid() && Contents != []
      ensures x == Contents[|Contents| - 1]
    {
      x := tail.data;
    }

    /**
     * insert: one fresh node holding `data`, linked immediately before the
     * position `it`; at begin() it becomes the head (push_front), at end()
     * the tail (push_back). Returns an iterator to the new node. Both source
     * overloads return end() and link nothing (list.h:543-555); this follows
     * their header comment.
     */
    method Insert(it: Iterator<T>, data: T) returns (r: Iterator<T>)
      requires Valid() && Points(it)
      modifies this, Nodes
      ensures Valid()
      ensures Contents == Inserted(old(Contents), old(Pos(it)), data)
      ensures Points(r) && r.p != null && fresh(r.p) && Pos(r) == old(Pos(it))
      ensures |Nodes| == |old(Nodes)| + 1
      ensures Nodes[..Pos(r)] == old(Nodes)[..Pos(r)] && Nodes[Pos(r) + 1..] == old(Nodes)[Pos(r)..]
    {
      ghost var k := Pos(it);
      if it.p == null {
        PushBack(data);
        r := Iterator(tail);
      } else if it.p == head {
        PushFront(data);
        r := Iterator(head);
      } else {
        var n := LinkBefore(k, it.p, data);
        r := Iterator(n);
      }
    }

    /**
     * The interior case of insert: a fresh node holding `data`, linked
     * between `pNext` (at index k > 0) and its predecessor.
     */
    method LinkBefore(ghost k: nat, pNext: Node<T>, data: T) returns (n: Node<T>)
      requires Valid() && 0 < k < |Nodes| && Nodes[k] == pNext
      modifies this, Nodes
      ensures Valid() && fresh(n)
      ensures Nodes == Inserted(old(Nodes), k, n)
      ensures Contents == Inserted(old(Contents), k, data)
    {
      n := Splice(Nodes, Contents, k, pNext, data);
      SetFields(head, tail, numElements + 1, Inserted(Nodes, k, n), Inserted(Contents, k, data));
    }

    /** The relinking of LinkBefore, on the chain `ns` alone. */
    static method Splice(ghost ns: seq<Node<T>>, ghost cs: seq<T>, ghost k: nat, pNext: Node<T>, data: T)
      returns (n: Node<T>)
      requires IsChain(ns, cs) && 0 < k < |ns| && ns[k] == pNext
      modifies ns[k - 1], pNext
      ensures fresh(n) && IsChain(Inserted(ns, k, n), Inserted(cs, k, data))
    {
      var pPrev := pNext.prev;
      n := new Node(data);
      n.prev := pPrev;
      n.next := pNext;
      pPrev.next := n;
      pNext.prev := n;
      ghost var ns', cs' := Inserted(ns, k, n), Inserted(cs, k, data);
      forall i | 0 <= i < |ns'| - 1
        ensures ns'[i].next == ns'[i + 1]
      {
        if i < k - 1 {
          assert ns'[i] == ns[i] != ns[k - 1];
        } else if k < i {
          assert ns'[i] == ns[i - 1] != ns[k - 1];
        }
      }
      forall i | 0 < i < |ns'|
        ensures ns'[i].prev == ns'[i - 1]
      {
        if i < k {
          assert ns'[i] == ns[i] != ns[k];
        } else if k + 1 < i {
          assert ns'[i] == ns[i - 1] != ns[k];
        }
      }
    }

    /**
     * erase: unlink the node at `it` (which must not be end()), joining its
     * neighbours and moving head or tail when it was at either end. Returns
     * an iterator to the following position: the node after it, or end()
     * when the tail was removed. The source's body returns end() and unlinks
     * nothing (list.h:530-533); this follows its header comment.
     */
    method Erase(it: Iterator<T>) returns (r: Iterator<T>)
      requires Valid() && Points(it) && it.p != null
      modifies this, Nodes
      ensures Valid()
      ensures Contents == Removed(old(Contents), old(Pos(it)))
      ensures Nodes == Removed(old(Nodes), old(Pos(it)))
      ensures r.p == old(it.p.next)
      ensures Points(r) && Pos(r) == old(Pos(it))
    {
      ghost var k := Pos(it);
      var n := it.p;
      var pPrev, pNext := n.prev, n.next;
      Unlink(Nodes, Contents, k, n);
      SetFields(if pPrev == null then pNext else head, if pNext == null then pPrev else tail,
                numElements - 1, Removed(Nodes, k), Removed(Contents, k));
      r := Iterator(pNext);
    }

    /**
     * The relinking of Erase, on the chain `ns` alone: node `n` (at index k)
     * is bypassed, its predecessor now leading to its successor and back.
     */
    static method Unlink(ghost ns: seq<Node<T>>, ghost cs: seq<T>, ghost k: nat, n: Node<T>)
      requires IsChain(ns, cs) && k < |ns| && ns[k] == n
      modifies n.prev, n.next
      ensures IsChain(Removed(ns, k), Removed(cs, k))
    {
      if n.prev != null {
        n.prev.next := n.next;
      }
      if n.next != null {
        n.next.prev := n.prev;
      }
    }

    /** begin(): an iterator to the first position. */
    function Begin(): (it: Iterator<T>)
      reads this, Nodes
      requires Valid()
      ensures Points(it) && Pos(it) == 0
    {
      Iterator(head)
    }

    /** end(): the null iterator, one past the last position. */
    function End(): (it: Iterator<T>)
      reads this, Nodes
      requires Valid()
      ensures Points(it) && Pos(it) == |Contents|
    {
      Iterator(null)
    }

    /** Dereferencing an iterator that is not end() yields the element at its position. */
    function Get(it: Iterator<T>): (x: T)
      reads this, Nodes
      requires Valid() && Points(it) && it.p != null
      ensures x == Contents[Pos(it)]
    {
      it.p.data
    }

    /**
     * Prefix ++, stepping forward by following the node's next link: to the
     * following position, which is end() after the tail. The source steps by
     * pointer arithmetic (`p++`, list.h:183-196), which does not reach the
     * next node of a linked chain; the link-following step is what the
     * iterator is for. Stepping from end() is a contract violation.
     */
    function Next(it: Iterator<T>): (r: Iterator<T>)
      reads this, Nodes
      requires Valid() && Points(it) && it.p != null
      ensures Points(r) && Pos(r) == Pos(it) + 1
    {
      Iterator(it.p.next)
    }

    /**
     * Prefix --, stepping backward by following the node's prev link, to the
     * preceding position. The source decrements the pointer when it is not
     * null (list.h:198-213). Stepping back from the first element, or from
     * end(), which holds no node to step from, is a contract violation.
     */
    function Prev(it: Iterator<T>): (r: Iterator<T>)
      reads this, Nodes
      requires Valid() && Points(it) && it.p != null && Pos(it) > 0
      ensures Points(r) && r.p != null && Pos(r) == Pos(it) - 1
    {
      Iterator(it.p.prev)
    }

    /** size(): the number of elements. */
    function Size(): (n: nat)
      reads this, Nodes
      requires Valid()
      ensures n == |Contents|
    {
      numElements
    }

    /** empty(), as it is evidently meant: true exactly when there are no elements. */
    predicate Empty()
      reads this, Nodes
      requires Valid()
      ensures Empty() <==> Contents == []
    {
      numElements == 0
    }

    /**
     * empty() as list.h:102 writes it: `return numElements;`, which converts
     * the count to bool and so is true exactly when the list is NOT empty.
     */
    predicate EmptyAsWritten()
      reads this
      ensures numElements == 0 ==> !EmptyAsWritten()
    {
      numElements != 0
    }

    /** The as-written empty() answers the opposite of the intended one on every valid list. */
    lemma EmptyAsWrittenInverted()
      requires Valid()
      ensures EmptyAsWritten() <==> !Empty()
      ensures Contents == [] ==> !EmptyAsWritten()
    {
    }

    /**
     * A forward traversal from the head following next: it visits exactly
     * the elements in order, and as many as the count says.
     */
    method Values() returns (s: seq<T>)
      requires Valid()
      ensures s == Contents && |s| == numElements
    {
      s := [];
      var p := head;
      ghost var i := 0;
      while p != null
        invariant 0 <= i <= |Nodes|
        invariant p == if i < |Nodes| then Nodes[i] else null
        invariant s == Contents[..i]
        decreases |Nodes| - i
      {
        s := s + [p.data];
        p := p.next;
        i := i + 1;
      }
    }

    /**
     * A backward traversal from the tail (rbegin()) following prev: it visits
     * exactly the elements in reverse order.
     */
    method ReverseValues() returns (s: seq<T>)
      requires Valid()
      ensures |s| == |Contents|
      ensures forall i :: 0 <= i < |s| ==> s[i] == Contents[|Contents| - 1 - i]
    {
      s := [];
      var p := tail;
      ghost var i := |Nodes|;
      while p != null
        invariant 0 <= i <= |Nodes|
        invariant p == if i > 0 then Nodes[i - 1] else null
        invariant |s| == |Nodes| - i
        invariant forall j :: 0 <= j < |s| ==> s[j] == Contents[|Contents| - 1 - j]
        decreases i
      {
        s := s + [p.data];
        p := p.prev;
        i := i - 1;
      }
    }
  }

  /**
   * The free swap(lhs, rhs): exchange head, tail and count between the two
   * lists. No node is created, copied or relinked; each list now owns the
   * other's former chain. The source's body is only a comment (list.h:568-578)
   * exchanging the three fields through temporaries; here each list's fields
   * are written at once with SetFields.
   */
  method Swap<T>(lhs: List<T>, rhs: List<T>)
    requires lhs.Valid() && rhs.Valid()
    modifies lhs, rhs
    ensures lhs.Valid() && rhs.Valid()
    ensures lhs.head == old(rhs.head) && lhs.tail == old(rhs.tail) && lhs.numElements == old(rhs.numElements)
    ensures rhs.head == old(lhs.head) && rhs.tail == old(lhs.tail) && rhs.numElements == old(lhs.numElements)
    ensures lhs.Nodes == old(rhs.Nodes) && rhs.Nodes == old(lhs.Nodes)
    ensures lhs.Contents == old(rhs.Contents) && rhs.Contents == old(lhs.Contents)
  {
    var tempHead, tempTail, tempElements := rhs.head, rhs.tail, rhs.numElements;
    ghost var tempNodes, tempContents := rhs.Nodes, rhs.Contents;
    rhs.SetFields(lhs.head, lhs.tail, lhs.numElements, lhs.Nodes, lhs.Contents);
    lhs.SetFields(tempHead, tempTail, tempElements, tempNodes, tempContents);
  }
}
