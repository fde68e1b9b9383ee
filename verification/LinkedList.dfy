/** hw1/LinkedList.c: a doubly linked list with in-place iterator edits. */
module LinkedLists {
  import opened StableSorts

  class Node<T> {
    var payload: T
    var next: Node?<T>
    var prev: Node?<T>

    constructor (payload: T)
      ensures this.payload == payload && next == null && prev == null
    {
      this.payload := payload;
      next, prev := null, null;
    }
  }

  /** The list record. `spine` is the sequence of nodes reached from `head`,
      `contents` the sequence of their payloads. */
  class LinkedList<T> {
    var numElements: nat
    var head: Node?<T>
    var tail: Node?<T>

    ghost var spine: seq<Node<T>>
    ghost var contents: seq<T>
    ghost var Repr: set<object>

    /** The doubly linked shape: no node twice, `next` and `prev` mutually inverse,
        both ends null-terminated and the element count exact. */
    ghost predicate Valid()
      reads this, Repr
      ensures Valid() ==> this in Repr
    {
      && this in Repr && (forall i :: 0 <= i < |spine| ==> spine[i] in Repr)
      && numElements == |spine| == |contents|
      && (forall i, j :: 0 <= i < j < |spine| ==> spine[i] != spine[j])
      && (forall i {:trigger spine[i].next} :: 0 <= i < |spine| ==> spine[i].next == At(i + 1))
      && (forall i {:trigger spine[i].prev} :: 0 <= i < |spine| ==> spine[i].prev == At(i - 1))
      && (forall i :: 0 <= i < |spine| ==> spine[i].payload == contents[i])
      && head == At(0)
      && tail == At(|spine| - 1)
    }

    /** The node at position i, or null off either end. */
    ghost function At(i: int): Node?<T>
      reads this
    {
      if 0 <= i < |spine| then spine[i] else null
    }

    /** Linking node n in before position k of a well linked spine gives a well linked spine. */
    lemma Spliced(before: seq<Node<T>>, n: Node<T>, k: nat)
      requires 0 < k < |before| && n !in before
      requires forall i, j :: 0 <= i < j < |before| ==> before[i] != before[j]
      requires forall i {:trigger before[i].next} :: 0 <= i < |before| ==>
        before[i].next == (if i == k - 1 then n else if i + 1 < |before| then before[i + 1] else null)
      requires forall i {:trigger before[i].prev} :: 0 <= i < |before| ==>
        before[i].prev == (if i == k then n else if 0 < i then before[i - 1] else null)
      requires n.prev == before[k - 1] && n.next == before[k]
      requires spine == before[..k] + [n] + before[k..]
      requires this in Repr && (forall i :: 0 <= i < |spine| ==> spine[i] in Repr)
      requires numElements == |spine| == |contents|
      requires forall i :: 0 <= i < |spine| ==> spine[i].payload == contents[i]
      requires head == before[0] && tail == before[|before| - 1]
      ensures Valid()
    {}

    /** The last step of a splice: node n, linked in before position k, is counted. */
    method CountIn(n: Node<T>, ghost k: nat)
      requires 0 < k < |spine| && n !in Repr
      requires this in Repr && (forall i :: 0 <= i < |spine| ==> spine[i] in Repr) && numElements == |spine| == |contents|
      requires forall i, j :: 0 <= i < j < |spine| ==> spine[i] != spine[j]
      requires forall i {:trigger spine[i].next} :: 0 <= i < |spine| ==> spine[i].next == (if i == k - 1 then n else At(i + 1))
      requires forall i {:trigger spine[i].prev} :: 0 <= i < |spine| ==> spine[i].prev == (if i == k then n else At(i - 1))
      requires n.prev == spine[k - 1] && n.next == spine[k]
      requires forall i :: 0 <= i < |spine| ==> spine[i].payload == contents[i]
      requires head == spine[0] && tail == spine[|spine| - 1]
      modifies this
      ensures Valid() && Repr == old(Repr) + {n}
      ensures spine == old(spine)[..k] + [n] + old(spine)[k..]
      ensures contents == old(contents)[..k] + [n.payload] + old(contents)[k..]
    {
      ghost var before := spine;
      numElements := numElements + 1;
      Repr := Repr + {n};
      spine := before[..k] + [n] + before[k..];
      contents := contents[..k] + [n.payload] + contents[k..];
      Spliced(before, n, k);
    }

    /** Unlinking the node at position k of a well linked spine gives a well linked spine. */
    lemma Unlinked(before: seq<Node<T>>, k: nat)
      requires 0 < k < |before| - 1
      requires forall i, j :: 0 <= i < j < |before| ==> before[i] != before[j]
      requires forall i {:trigger before[i].next} :: 0 <= i < |before| && i != k ==>
        before[i].next == (if i == k - 1 then before[k + 1] else if i + 1 < |before| then before[i + 1] else null)
      requires forall i {:trigger before[i].prev} :: 0 <= i < |before| && i != k ==>
        before[i].prev == (if i == k + 1 then before[k - 1] else if 0 < i then before[i - 1] else null)
      requires spine == before[..k] + before[k + 1..]
      requires this in Repr && (forall i :: 0 <= i < |spine| ==> spine[i] in Repr)
      requires numElements == |spine| == |contents|
      requires forall i :: 0 <= i < |spine| ==> spine[i].payload == contents[i]
      requires head == before[0] && tail == before[|before| - 1]
      ensures Valid()
    {}

    lemma InRepr()
      requires Valid()
      ensures this in Repr
    {}

    constructor ()
      ensures Valid() && contents == [] && spine == [] && Repr == {this}
    {
      numElements, head, tail := 0, null, null;
      spine, contents, Repr := [], [], {this};
    }

    method NumElements() returns (n: nat)
      requires Valid()
      ensures n == |contents|
    {
      n := numElements;
    }

    method Push(payload: T)
      requires Valid()
      modifies Repr
      ensures Valid() && fresh(Repr - old(Repr))
      ensures contents == [payload] + old(contents)
      ensures spine[1..] == old(spine)
    {
      var ln := new Node(payload);
      if numElements == 0 {
        head, tail := ln, ln;
        numElements := 1;
      } else {
        ln.next := head;
        head.prev := ln;
        head := ln;
        numElements := numElements + 1;
      }
      ghost var before := spine;
      spine, contents, Repr := [ln] + spine, [payload] + contents, Repr + {ln};
      Prepended(before, ln);
    }

    /** A node linked in before the head. */
    lemma Prepended(before: seq<Node<T>>, n: Node<T>)
      requires spine == [n] + before && this in Repr && (forall i :: 0 <= i < |spine| ==> spine[i] in Repr)
      requires numElements == |spine| == |contents| && forall i :: 0 <= i < |spine| ==> spine[i].payload == contents[i]
      requires forall i, j :: 0 <= i < j < |spine| ==> spine[i] != spine[j]
      requires forall i {:trigger before[i].next} :: 0 <= i < |before| ==> before[i].next == (if i + 1 < |before| then before[i + 1] else null)
      requires forall i {:trigger before[i].prev} :: 0 <= i < |before| ==> before[i].prev == (if i == 0 then n else before[i - 1])
      requires n.prev == null && n.next == (if before == [] then null else before[0])
      requires head == n && tail == spine[|spine| - 1]
      ensures Valid()
    {}

    method Pop() returns (ok: bool, payload: Option<T>)
      requires Valid()
      modifies Repr
      ensures Valid() && Repr == old(Repr)
      ensures ok == (old(contents) != [])
      ensures if ok then payload == Some(old(contents)[0]) && contents == old(contents)[1..]
              else payload == None && contents == []
    {
      if numElements == 0 {
        return false, None;
      }
      var popNode := head;
      if numElements == 1 {
        head, tail := null, null;
      } else {
        head := popNode.next;
        head.prev := null;
      }
      numElements := numElements - 1;
      ok, payload := true, Some(popNode.payload);
      spine, contents := spine[1..], contents[1..];
    }

    method Append(payload: T)
      requires Valid()
      modifies Repr
      ensures Valid() && fresh(Repr - old(Repr))
      ensures contents == old(contents) + [payload]
      ensures spine[..|old(spine)|] == old(spine)
    {
      var ln := new Node(payload);
      if numElements == 0 {
        head, tail := ln, ln;
        numElements := 1;
      } else {
        var oldTail := tail;
        oldTail.next := ln;
        ln.prev := oldTail;
        tail := ln;
        numElements := numElements + 1;
      }
      ghost var before := spine;
      spine, contents, Repr := spine + [ln], contents + [payload], Repr + {ln};
      Appended(before, ln);
    }

    /** A node linked in behind the tail. */
    lemma Appended(before: seq<Node<T>>, n: Node<T>)
      requires spine == before + [n] && this in Repr && (forall i :: 0 <= i < |spine| ==> spine[i] in Repr)
      requires numElements == |spine| == |contents| && forall i :: 0 <= i < |spine| ==> spine[i].payload == contents[i]
      requires forall i, j :: 0 <= i < j < |spine| ==> spine[i] != spine[j]
      requires forall i {:trigger before[i].next} :: 0 <= i < |before| ==> before[i].next == (if i + 1 < |before| then before[i + 1] else n)
      requires forall i {:trigger before[i].prev} :: 0 <= i < |before| ==> before[i].prev == (if i == 0 then null else before[i - 1])
      requires n.next == null && n.prev == (if before == [] then null else before[|before| - 1])
      requires head == spine[0] && tail == n
      ensures Valid()
    {}

    method Slice() returns (ok: bool, payload: Option<T>)
      requires Valid()
      modifies Repr
      ensures Valid() && Repr == old(Repr)
      ensures ok == (old(contents) != [])
      ensures if ok then payload == Some(old(contents)[|old(contents)| - 1]) && contents == old(contents)[..|old(contents)| - 1]
              else payload == None && contents == []
    {
      if numElements == 0 {
        return false, None;
      }
      var sliceNode := tail;
      if numElements == 1 {
        head, tail := null, null;
      } else {
        tail := sliceNode.prev;
        tail.next := null;
      }
      numElements := numElements - 1;
      ok, payload := true, Some(sliceNode.payload);
      spine, contents := spine[..|spine| - 1], contents[..|contents| - 1];
    }

    /** SortLinkedList: bubble sort that exchanges payloads and leaves the links alone. */
    method Sort(ascending: bool, cmp: (T, T) -> int)
      requires Valid() && TotalPreorder(cmp, Elements(contents))
      modifies Repr
      ensures Valid() && spine == old(spine) && Repr == old(Repr)
      ensures contents == StableSort(cmp, ascending, old(contents))
    {
      if numElements < 2 {
        SortedIsFixed(cmp, ascending, contents);
        return;
      }
      var swapped := true;
      while swapped
        invariant Valid() && spine == old(spine) && Repr == old(Repr)
        invariant Elements(contents) == Elements(old(contents))
        invariant StableSort(cmp, ascending, contents) == StableSort(cmp, ascending, old(contents))
        invariant !swapped ==> Sorted(cmp, ascending, contents)
        decreases Inversions(cmp, ascending, contents), swapped
      {
        swapped := BubblePass(ascending, cmp);
      }
      SortedIsFixed(cmp, ascending, contents);
    }

    lemma NotEmpty()
      requires Valid() && contents != []
      ensures spine != []
    {}

    /** Where the spine goes on. */
    lemma Neighbour(i: nat)
      requires Valid() && i < |spine|
      ensures |spine| == |contents| && spine[i].next == At(i + 1) && head == spine[0]
    {}

    /** One pass of the inner loop of SortLinkedList. */
    method BubblePass(ascending: bool, cmp: (T, T) -> int) returns (swapped: bool)
      requires Valid() && contents != [] && TotalPreorder(cmp, Elements(contents))
      modifies Repr
      ensures Valid() && spine == old(spine) && Repr == old(Repr)
      ensures Elements(contents) == Elements(old(contents))
      ensures StableSort(cmp, ascending, contents) == StableSort(cmp, ascending, old(contents))
      ensures if swapped then Inversions(cmp, ascending, contents) < Inversions(cmp, ascending, old(contents))
              else contents == old(contents) && Sorted(cmp, ascending, contents)
    {
      hide Valid, Elements, StableSort, Inversions, Sorted, Out, TotalPreorder;
      swapped := false;
      NotEmpty();
      Neighbour(0);
      var curnode := head;
      ghost var i := 0;
      while curnode.next != null
        invariant Valid() && spine == old(spine) && Repr == old(Repr) && i < |spine| && curnode == spine[i]
        invariant Elements(contents) == Elements(old(contents))
        invariant StableSort(cmp, ascending, contents) == StableSort(cmp, ascending, old(contents))
        invariant Inversions(cmp, ascending, contents) <= Inversions(cmp, ascending, old(contents)) - (if swapped then 1 else 0)
        invariant !swapped ==> contents == old(contents)
        invariant !swapped ==> forall k {:trigger contents[k]} :: 0 <= k < i ==> !Out(cmp, ascending, contents[k], contents[k + 1])
        decreases |spine| - i
      {
        Neighbour(i);
        var exchanged := CompareAndSwap(curnode, ascending, cmp, i);
        swapped := swapped || exchanged;
        Neighbour(i);
        curnode, i := curnode.next, i + 1;
      }
      Neighbour(i);
      if !swapped {
        AdjacentSorted(cmp, ascending, contents);
      }
    }

    /** The body of that loop: exchanges the payloads of a node and its successor when out of order. */
    method CompareAndSwap(curnode: Node<T>, ascending: bool, cmp: (T, T) -> int, ghost i: nat) returns (swapped: bool)
      requires Valid() && i + 1 < |spine| && curnode == spine[i] && TotalPreorder(cmp, Elements(contents))
      modifies Repr
      ensures Valid() && spine == old(spine) && Repr == old(Repr)
      ensures swapped == Out(cmp, ascending, old(contents)[i], old(contents)[i + 1])
      ensures contents == if swapped then Swapped(old(contents), i) else old(contents)
      ensures Elements(contents) == Elements(old(contents))
      ensures StableSort(cmp, ascending, contents) == StableSort(cmp, ascending, old(contents))
      ensures swapped ==> Inversions(cmp, ascending, contents) == Inversions(cmp, ascending, old(contents)) - 1
    {
      var compareResult := cmp(curnode.payload, curnode.next.payload);
      if ascending {
        compareResult := -compareResult;
      }
      swapped := compareResult < 0;
      if swapped {
        SwapRemovesInversion(cmp, ascending, contents, i);
        SwapKeepsSort(cmp, ascending, contents, i);
        SwapKeepsElements(contents, i);
        SwapWithNext(curnode, i);
      }
    }

    method SwapWithNext(curnode: Node<T>, ghost i: nat)
      requires Valid() && i + 1 < |spine| && curnode == spine[i]
      modifies Repr
      ensures Valid() && spine == old(spine) && Repr == old(Repr) && contents == Swapped(old(contents), i)
    {
      var tmp := curnode.payload;
      curnode.payload := curnode.next.payload;
      curnode.next.payload := tmp;
      contents := Swapped(contents, i);
    }
  }

  datatype Option<+T> = None | Some(value: T)

  /** LLMakeIterator: NULL (null) for an empty list. */
  method MakeIterator<T>(list: LinkedList<T>, fromTail: bool) returns (it: LLIter?<T>)
    requires list.Valid()
    ensures it == null <==> list.contents == []
    ensures it != null ==> fresh(it) && it.Valid() && it.list == list
    ensures it != null ==> it.pos == if fromTail then |list.contents| - 1 else 0
  {
    var n := list.NumElements();
    if n == 0 {
      return null;
    }
    it := new LLIter(list, fromTail);
  }

  /** An iterator: a list and the node it stands on. `pos` is that node's index,
      and `node` is null only after the last element was deleted through it. */
  class LLIter<T> {
    const list: LinkedList<T>
    var node: Node?<T>
    ghost var pos: nat

    ghost predicate Valid()
      reads this, list, list.Repr
    {
      list.Valid() && this !in list.Repr && pos < |list.spine| && node == list.spine[pos]
    }

    lemma InRange()
      requires Valid()
      ensures list.Valid() && pos < |list.contents| && list in list.Repr && this !in list.Repr
    {}

    /** The part of LLMakeIterator for a non-empty list; pos 0 is the head, 1 the tail. */
    constructor (list: LinkedList<T>, fromTail: bool)
      requires list.Valid() && list.contents != []
      ensures Valid() && this.list == list
      ensures pos == if fromTail then |list.contents| - 1 else 0
    {
      this.list := list;
      node := if fromTail then list.tail else list.head;
      pos := if fromTail then |list.contents| - 1 else 0;
    }

    method HasNext() returns (b: bool)
      requires Valid()
      ensures b == (pos + 1 < |list.contents|)
    {
      b := node.next != null;
    }

    method Next() returns (moved: bool)
      requires Valid()
      modifies this
      ensures Valid()
      ensures moved == (old(pos) + 1 < |list.contents|)
      ensures pos == if moved then old(pos) + 1 else old(pos)
    {
      var more := HasNext();
      if more {
        node, pos := node.next, pos + 1;
        return true;
      }
      return false;
    }

    method HasPrev() returns (b: bool)
      requires Valid()
      ensures b == (pos > 0)
    {
      b := node.prev != null;
    }

    method Prev() returns (moved: bool)
      requires Valid()
      modifies this
      ensures Valid()
      ensures moved == (old(pos) > 0)
      ensures pos == if moved then old(pos) - 1 else old(pos)
    {
      var more := HasPrev();
      if more {
        node, pos := node.prev, pos - 1;
        return true;
      }
      return false;
    }

    method GetPayload() returns (payload: T)
      requires Valid()
      ensures payload == list.contents[pos]
    {
      payload := node.payload;
    }

    /** Overwrites, through the node, the record the iterator stands on. */
    method SetPayload(payload: T)
      requires Valid()
      modifies list.Repr
      ensures Valid() && list.spine == old(list.spine) && list.Repr == old(list.Repr) && pos == old(pos)
      ensures list.contents == old(list.contents)[pos := payload]
    {
      node.payload := payload;
      list.contents := list.contents[pos := payload];
    }

    /** LLIteratorDelete: lands on the successor, on the predecessor when the tail
        was deleted, and on nothing when the list became empty. */
    method Delete() returns (nonEmpty: bool)
      requires Valid()
      modifies this, list.Repr
      ensures list.Valid() && list.Repr == old(list.Repr)
      ensures list.contents == old(list.contents)[..old(pos)] + old(list.contents)[old(pos) + 1..]
      ensures list.spine == old(list.spine)[..old(pos)] + old(list.spine)[old(pos) + 1..]
      ensures nonEmpty == (|old(list.contents)| > 1)
      ensures if nonEmpty then Valid() else node == null && list.contents == []
      ensures nonEmpty ==> pos == if old(pos) + 1 < |old(list.contents)| then old(pos) else old(pos) - 1
    {
      if list.numElements == 1 {
        list.head, list.tail, list.numElements := null, null, 0;
        node := null;
        list.spine, list.contents := [], [];
        return false;
      }
      if node.prev == null {
        DeleteHead();
      } else if node.next == null {
        DeleteTail();
      } else {
        DeleteMiddle();
      }
      return true;
    }

    method DeleteHead()
      requires Valid() && pos == 0 && |list.contents| > 1
      modifies this, list.Repr
      ensures Valid() && list.Repr == old(list.Repr)
      ensures list.contents == old(list.contents)[1..] && pos == 0
      ensures list.spine == old(list.spine)[1..]
    {
      list.head := list.head.next;
      list.head.prev := null;
      node := list.head;
      list.numElements := list.numElements - 1;
      list.spine, list.contents := list.spine[1..], list.contents[1..];
    }

    method DeleteTail()
      requires Valid() && pos + 1 == |list.contents| > 1
      modifies this, list.Repr
      ensures Valid() && list.Repr == old(list.Repr)
      ensures list.contents == old(list.contents)[..old(pos)] && pos == old(pos) - 1
      ensures list.spine == old(list.spine)[..old(pos)]
    {
      list.tail := list.tail.prev;
      list.tail.next := null;
      node := list.tail;
      list.numElements := list.numElements - 1;
      list.spine, list.contents, pos := list.spine[..pos], list.contents[..pos], pos - 1;
    }

    /** The splice: the neighbours of the deleted node are linked to each other. */
    method DeleteMiddle()
      requires Valid() && 0 < pos < |list.contents| - 1
      modifies this, list.Repr
      ensures Valid() && list.Repr == old(list.Repr)
      ensures list.contents == old(list.contents)[..old(pos)] + old(list.contents)[old(pos) + 1..]
      ensures list.spine == old(list.spine)[..old(pos)] + old(list.spine)[old(pos) + 1..]
      ensures pos == old(pos)
    {
      ghost var before, k := list.spine, pos;
      var deleteNode := node;
      node := node.next;
      node.prev := deleteNode.prev;
      node.prev.next := deleteNode.next;
      list.numElements := list.numElements - 1;
      list.spine := before[..k] + before[k + 1..];
      list.contents := list.contents[..k] + list.contents[k + 1..];
      list.Unlinked(before, k);
    }

    lemma AtHead()
      requires Valid()
      ensures node == list.head <==> pos == 0
      ensures |list.spine| == |list.contents| && list in list.Repr
    {}

    /** LLIteratorInsertBefore: the iterator stays on its node. */
    method InsertBefore(payload: T)
      requires Valid()
      modifies this, list.Repr
      ensures Valid() && fresh(list.Repr - old(list.Repr))
      ensures list.contents == old(list.contents)[..old(pos)] + [payload] + old(list.contents)[old(pos)..]
      ensures node == old(node) && pos == old(pos) + 1
    {
      hide LinkedList.Valid;
      AtHead();
      if node == list.head {
        list.Push(payload);
        list.InRepr();
        pos := pos + 1;
      } else {
        SpliceBefore(payload);
      }
    }

    method SpliceBefore(payload: T)
      requires Valid() && 0 < pos
      modifies this, list.Repr
      ensures Valid() && fresh(list.Repr - old(list.Repr))
      ensures list.contents == old(list.contents)[..old(pos)] + [payload] + old(list.contents)[old(pos)..]
      ensures node == old(node) && pos == old(pos) + 1
    {
      ghost var k := pos;
      var newNode := new Node(payload);
      LinkBefore(newNode);
      list.CountIn(newNode, k);
      pos := pos + 1;
    }

    /** The four pointer writes of the splice. */
    method LinkBefore(newNode: Node<T>)
      requires Valid() && 0 < pos && newNode !in list.Repr
      modifies newNode, list.spine
      ensures newNode.payload == old(newNode.payload)
      ensures newNode.prev == list.spine[pos - 1] && newNode.next == list.spine[pos]
      ensures forall i :: 0 <= i < |list.spine| ==> list.spine[i].payload == old(list.spine[i].payload)
      ensures forall i {:trigger list.spine[i].next} :: 0 <= i < |list.spine| ==>
        list.spine[i].next == (if i == pos - 1 then newNode else list.At(i + 1))
      ensures forall i {:trigger list.spine[i].prev} :: 0 <= i < |list.spine| ==>
        list.spine[i].prev == (if i == pos then newNode else list.At(i - 1))
    {
      newNode.next := node;
      newNode.prev := node.prev;
      newNode.prev.next := newNode;
      newNode.next.prev := newNode;
    }
  }
}
