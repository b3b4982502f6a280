/** The doubly linked list: nodes with `prev` and `next` links, the list's `front`, `back`
    and `size`, and the index operations, each of which walks from whichever end of the
    list is nearer. The ghost sequence `nodes` lists the nodes front to back and `Contents`
    their data; `Valid()` ties both to the links, and every operation is specified by what
    it does to `Contents`. */
module LinkedLists {
  import opened Exceptions

  // ---------------------------------------------------------------------------------------
  // Specification functions

  /** `s` with `x` placed at index `k`, the elements from `k` on moving up one. */
  function InsertAt<U>(s: seq<U>, k: int, x: U): (r: seq<U>)
    requires 0 <= k <= |s|
    ensures |r| == |s| + 1 && r[k] == x
    ensures forall i :: 0 <= i < k ==> r[i] == s[i]
    ensures forall i :: k < i < |r| ==> r[i] == s[i - 1]
  {
    s[..k] + [x] + s[k..]
  }

  /** `s` without its element at index `k`, the elements after it moving down one. */
  function RemoveAt<U>(s: seq<U>, k: int): (r: seq<U>)
    requires 0 <= k < |s|
    ensures |r| == |s| - 1
    ensures forall i :: 0 <= i < k ==> r[i] == s[i]
    ensures forall i :: k <= i < |r| ==> r[i] == s[i + 1]
  {
    s[..k] + s[k + 1..]
  }

  /** Deleting at an index undoes inserting there. */
  lemma DeleteUndoesInsert<U>(s: seq<U>, k: int, x: U)
    requires 0 <= k <= |s|
    ensures RemoveAt(InsertAt(s, k, x), k) == s
  {
    assert forall i :: 0 <= i < |s| ==> RemoveAt(InsertAt(s, k, x), k)[i] == s[i];
  }

  /** Inserting at the size is appending, as `add` does. */
  lemma InsertAtSizeAppends<U>(s: seq<U>, x: U)
    ensures InsertAt(s, |s|, x) == s + [x]
  {
    assert s[|s|..] == [];
  }

  /** The index of the first occurrence of `x` in `s`, or -1 if there is none. */
  function FirstIndex<T(==)>(s: seq<T>, x: T): (r: int)
    ensures -1 <= r < |s|
    ensures r == -1 <==> x !in s
    ensures r >= 0 ==> s[r] == x && x !in s[..r]
  {
    if s == [] then -1
    else if s[0] == x then 0
    else
      var k := FirstIndex(s[1..], x);
      if k == -1 then -1 else k + 1
  }

  /** `indexOf` as written: the walk starts by dereferencing `front`, which is null in an
      empty list. */
  function WrittenIndexOf<T(==)>(s: seq<T>, x: T): (r: Result<int>)
    ensures s == [] ==> r == Throw(NullPointer)
    ensures s != [] ==> r == Ok(FirstIndex(s, x))
  {
    if s == [] then Throw(NullPointer) else Ok(FirstIndex(s, x))
  }

  /** On the empty list the written `indexOf` throws where its documented result, and the
      answer of `contains` built on it, is "not found". */
  lemma EmptyIndexOfDiscrepancy<T>(x: T)
    ensures WrittenIndexOf([], x) == Throw(NullPointer)
    ensures FirstIndex([], x) == -1
  {
  }

  /** Everywhere else the written `indexOf` and the corrected one agree. */
  lemma IndexOfAgreesOnNonEmpty<T>(s: seq<T>, x: T)
    requires s != []
    ensures WrittenIndexOf(s, x) == Ok(FirstIndex(s, x))
  {
  }

  // ---------------------------------------------------------------------------------------
  // Nodes and the list

  class Node<T> {
    const data: T
    var prev: Node?<T>
    var next: Node?<T>

    constructor(prev: Node?<T>, data: T, next: Node?<T>)
      ensures this.prev == prev && this.data == data && this.next == next
    {
      this.prev := prev;
      this.data := data;
      this.next := next;
    }
  }

  class DoubleLinkedList<T(==)> {
    // the abstract value and the objects the list uses
    ghost var Contents: seq<T>
    ghost var Repr: set<object>
    // the nodes, front to back
    ghost var nodes: seq<Node<T>>

    var front: Node?<T>
    var back: Node?<T>
    var size: int

    /** The nodes are linked both ways in order, end at `front` and `back`, carry
        `Contents`, and `size` counts them. */
    ghost predicate Valid()
      reads this, Repr
      ensures Valid() ==> this in Repr
    {
      && this in Repr
      && (forall i :: 0 <= i < |nodes| ==> nodes[i] in Repr)
      && size == |nodes| == |Contents|
      && (forall i :: 0 <= i < |nodes| ==> nodes[i].data == Contents[i])
      && (nodes == [] ==> front == null && back == null)
      && (nodes != [] ==> front == nodes[0] && back == nodes[|nodes| - 1])
      && (nodes != [] ==> nodes[0].prev == null && nodes[|nodes| - 1].next == null)
      && (forall i :: 0 < i < |nodes| ==> nodes[i].prev == nodes[i - 1])
      && (forall i :: 0 <= i < |nodes| - 1 ==> nodes[i].next == nodes[i + 1])
    }

    /** No node occurs twice: two occurrences would have the same successors, up to the
        back node, which has none. */
    lemma {:induction false} NoRepeats(i: int, j: int)
      requires Valid() && 0 <= i < j < |nodes|
      ensures nodes[i] != nodes[j]
      decreases |nodes| - j
    {
      assert nodes[i].next == nodes[i + 1];
      if j < |nodes| - 1 {
        NoRepeats(i + 1, j + 1);
        assert nodes[j].next == nodes[j + 1];
      } else {
        assert nodes[j].next == null;
      }
    }

    /** Node `k` occurs nowhere else in the list. */
    lemma Distinct(k: int)
      requires Valid() && 0 <= k < |nodes|
      ensures forall i :: 0 <= i < |nodes| && i != k ==> nodes[i] != nodes[k]
    {
      forall i | 0 <= i < |nodes| && i != k
        ensures nodes[i] != nodes[k]
      {
        if i < k {
          NoRepeats(i, k);
        } else {
          NoRepeats(k, i);
        }
      }
    }

    constructor()
      ensures Valid() && fresh(Repr)
      ensures Contents == []
    {
      front := null;
      back := null;
      size := 0;
      nodes := [];
      Contents := [];
      Repr := {this};
    }

    /** `size`. */
    method Size() returns (r: int)
      requires Valid()
      ensures r == |Contents|
    {
      return size;
    }

    /** `add`: appends at the back. */
    method Add(item: T)
      requires Valid()
      modifies Repr
      ensures Valid() && fresh(Repr - old(Repr))
      ensures Contents == old(Contents) + [item]
    {
      if front == null {
        front := new Node(null, item, null);
        back := front;
        nodes := [front];
        Contents := [item];
        Repr := Repr + {front};
        size := 1;
      } else {
        PushBack(item);
      }
    }

    /** `remove`: takes the last element off, or throws on an empty list. */
    method Remove() returns (r: Result<T>)
      requires Valid()
      modifies Repr
      ensures Valid() && fresh(Repr - old(Repr))
      ensures old(Contents) == [] ==> r == Throw(EmptyContainer) && Contents == old(Contents)
      ensures old(Contents) != [] ==>
                r == Ok(old(Contents)[|old(Contents)| - 1]) && Contents == old(Contents)[..|old(Contents)| - 1]
    {
      if front == null {
        return Throw(EmptyContainer);
      }
      var temp := back;
      var item := temp.data;
      if size == 1 {
        front := null;
        back := null;
      } else {
        assert temp == nodes[|nodes| - 1] && temp.prev == nodes[|nodes| - 2];
        Distinct(|nodes| - 2);
        temp.prev.next := null;
        back := back.prev;
      }
      nodes := nodes[..|nodes| - 1];
      assert forall i :: 0 <= i < |nodes| ==> nodes[i] == old(nodes)[i];
      Contents := Contents[..|Contents| - 1];
      size := size - 1;
      return Ok(item);
    }

    /** The walk from the front: steps forward while there is a next node and `index`
        exceeds `stop`, and so ends on node `index - stop`. */
    method WalkFromFront(index: int, stop: int) returns (curr: Node<T>)
      requires Valid()
      requires 0 <= stop <= index < |nodes|
      ensures curr == nodes[index - stop]
    {
      curr := front;
      var i := index;
      ghost var k := 0;
      while curr.next != null && i > stop
        invariant 0 <= k <= index - stop && i == index - k
        invariant curr == nodes[k]
        decreases i
      {
        i := i - 1;
        curr := curr.next;
        k := k + 1;
      }
      assert k < |nodes| - 1 ==> curr.next == nodes[k + 1];
    }

    /** The walk from the back: steps backward while there is a previous node and
        `size - index - 1` exceeds `stop`, and so ends on node `index + stop`. */
    method WalkFromBack(index: int, stop: int) returns (curr: Node<T>)
      requires Valid()
      requires 0 <= stop && 0 <= index && index + stop < |nodes|
      ensures curr == nodes[index + stop]
    {
      curr := back;
      var i := index;
      ghost var k := 0;
      while curr.prev != null && size - i - 1 > stop
        invariant 0 <= k <= size - 1 - index - stop && i == index + k
        invariant curr == nodes[size - 1 - k]
        decreases size - i
      {
        i := i + 1;
        curr := curr.prev;
        k := k + 1;
      }
      assert k < size - 1 ==> curr.prev == nodes[size - 2 - k];
    }

    /** `get`: the element at `index`, found from the nearer end. */
    method Get(index: int) returns (r: Result<T>)
      requires Valid()
      ensures r == Exceptions.Get(Contents, index)
    {
      if index < 0 || index >= size {
        return Throw(IndexOutOfBounds);
      }
      var curr;
      if index <= size / 2 {
        curr := WalkFromFront(index, 0);
      } else {
        curr := WalkFromBack(index, 0);
      }
      return Ok(curr.data);
    }

    /** `set`: the nodes' data cannot change, so the node at `index` is replaced by a new
        one linked in its place. */
    method Set(index: int, item: T) returns (r: Result<()>)
      requires Valid()
      modifies Repr
      ensures Valid() && fresh(Repr - old(Repr))
      ensures 0 <= index < |old(Contents)| ==> r == Ok(()) && Contents == old(Contents)[index := item]
      ensures !(0 <= index < |old(Contents)|) ==> r == Throw(IndexOutOfBounds) && Contents == old(Contents)
    {
      if index < 0 || index >= size {
        return Throw(IndexOutOfBounds);
      }
      if index == 0 {
        ReplaceFront(item);
      } else if index == size - 1 {
        ReplaceBack(item);
      } else if index <= size / 2 {
        var curr := WalkFromFront(index, 1);
        ReplaceAfter(curr, index - 1, item);
      } else {
        var curr := WalkFromBack(index, 1);
        ReplaceBefore(curr, index + 1, item);
      }
      return Ok(());
    }

    /** `insert`: any index from 0 to the size is accepted, the size itself meaning the
        back. */
    method Insert(index: int, item: T) returns (r: Result<()>)
      requires Valid()
      modifies Repr
      ensures Valid() && fresh(Repr - old(Repr))
      ensures 0 <= index <= |old(Contents)| ==> r == Ok(()) && Contents == InsertAt(old(Contents), index, item)
      ensures !(0 <= index <= |old(Contents)|) ==> r == Throw(IndexOutOfBounds) && Contents == old(Contents)
    {
      if index < 0 || index >= size + 1 {
        return Throw(IndexOutOfBounds);
      }
      if index == 0 {
        PushFront(item);
      } else if index == size {
        PushBack(item);
        assert Contents == InsertAt(old(Contents), index, item);
      } else if index <= size / 2 {
        var curr := WalkFromFront(index, 1);
        SpliceAfter(curr, index - 1, item);
      } else {
        var curr := WalkFromBack(index, 0);
        SpliceBefore(curr, index, item);
      }
      return Ok(());
    }

    /** `delete`: unlinks the node at `index` and returns its element. */
    method Delete(index: int) returns (r: Result<T>)
      requires Valid()
      modifies Repr
      ensures Valid() && fresh(Repr - old(Repr))
      ensures 0 <= index < |old(Contents)| ==> r == Ok(old(Contents)[index]) && Contents == RemoveAt(old(Contents), index)
      ensures !(0 <= index < |old(Contents)|) ==> r == Throw(IndexOutOfBounds) && Contents == old(Contents)
    {
      if index < 0 || index >= size {
        return Throw(IndexOutOfBounds);
      }
      var temp: T;
      if index == 0 {
        temp := PopFront();
      } else if index == size - 1 {
        temp := PopBack();
      } else if index <= size / 2 {
        var curr := WalkFromFront(index, 1);
        temp := UnlinkAfter(curr, index - 1);
      } else {
        var curr := WalkFromBack(index, 1);
        temp := UnlinkBefore(curr, index + 1);
      }
      return Ok(temp);
    }

    // -------------------------------------------------------------------------------------
    // The relinking steps of `add`, `set`, `insert` and `delete`, each keeping `Valid()`.

    /** A new node at the front (`insert` at 0). */
    method PushFront(item: T)
      requires Valid()
      modifies Repr
      ensures Valid() && fresh(Repr - old(Repr))
      ensures Contents == InsertAt(old(Contents), 0, item)
    {
      if nodes != [] {
        Distinct(0);
      }
      front := new Node(null, item, front);
      if front.next != null {
        assert front.next == nodes[0];
        front.next.prev := front;
      } else {
        back := front;
      }
      size := size + 1;
      PushedFront();
    }

    /** The ghost side of `PushFront`: once a new `front` is linked before the old first
        node, and every other link is as before, the node sequence starts with it. */
    ghost method PushedFront()
      requires size == |nodes| + 1 == |Contents| + 1
      requires this in Repr && front != null && front !in Repr
      requires forall i :: 0 <= i < |nodes| ==> nodes[i] in Repr && nodes[i].data == Contents[i]
      requires front.prev == null
      requires nodes == [] ==> back == front && front.next == null
      requires nodes != [] ==> back == nodes[|nodes| - 1] && nodes[|nodes| - 1].next == null
      requires nodes != [] ==> front.next == nodes[0] && nodes[0].prev == front
      requires forall i :: 0 < i < |nodes| ==> nodes[i].prev == nodes[i - 1]
      requires forall i :: 0 <= i < |nodes| - 1 ==> nodes[i].next == nodes[i + 1]
      modifies this
      ensures Valid() && Repr == old(Repr) + {old(front)}
      ensures Contents == InsertAt(old(Contents), 0, old(front).data)
    {
      nodes := [front] + nodes;
      assert forall i :: 0 < i < |nodes| ==> nodes[i] == old(nodes)[i - 1];
      Contents := [front.data] + Contents;
      Repr := Repr + {front};
    }

    /** A new node after `back`, in a list that has one (`add`, and `insert` at the size). */
    method PushBack(item: T)
      requires Valid() && nodes != []
      modifies Repr
      ensures Valid() && fresh(Repr - old(Repr))
      ensures Contents == old(Contents) + [item]
    {
      ghost var last := |nodes| - 1;
      assert back == nodes[last];
      Distinct(last);
      back.next := new Node(back, item, null);
      back := back.next;
      nodes := nodes + [back];
      assert forall i :: 0 <= i < |nodes| - 1 ==> nodes[i] == old(nodes)[i];
      Contents := Contents + [item];
      Repr := Repr + {back};
      size := size + 1;
    }

    /** The front node replaced (`set` at 0). */
    method ReplaceFront(item: T)
      requires Valid() && nodes != []
      modifies Repr
      ensures Valid() && fresh(Repr - old(Repr))
      ensures Contents == old(Contents)[0 := item]
    {
      if |nodes| > 1 {
        Distinct(1);
      }
      var temp := front;
      front := new Node(null, item, temp.next);
      if front.next != null {
        assert temp.next == nodes[1];
        temp.next.prev := front;
      } else {
        back := front;
      }
      nodes := nodes[0 := front];
      Contents := Contents[0 := item];
      Repr := Repr + {front};
    }

    /** The back node replaced, in a list of two or more (`set` at the last index). */
    method ReplaceBack(item: T)
      requires Valid() && |nodes| >= 2
      modifies Repr
      ensures Valid() && fresh(Repr - old(Repr))
      ensures Contents == old(Contents)[|old(Contents)| - 1 := item]
    {
      ghost var last := |nodes| - 1;
      var temp := back;
      assert temp.prev == nodes[last - 1];
      Distinct(last - 1);
      back := new Node(back.prev, item, null);
      temp.prev.next := back;
      nodes := nodes[last := back];
      Contents := Contents[last := item];
      Repr := Repr + {back};
    }

    /** The node after `curr` (node `k`) replaced; it is not the last one. */
    method ReplaceAfter(curr: Node<T>, ghost k: int, item: T)
      requires Valid() && 0 <= k && k + 2 < |nodes| && curr == nodes[k]
      modifies Repr
      ensures Valid() && fresh(Repr - old(Repr))
      ensures Contents == old(Contents)[k + 1 := item]
    {
      assert curr.next == nodes[k + 1] && nodes[k + 1].next == nodes[k + 2];
      Distinct(k);
      Distinct(k + 2);
      curr.next := new Node(curr, item, curr.next.next);
      curr.next.next.prev := curr.next;
      Replaced(k + 1, curr.next);
    }

    /** The node before `curr` (node `k`) replaced; it is not the first one. */
    method ReplaceBefore(curr: Node<T>, ghost k: int, item: T)
      requires Valid() && 2 <= k < |nodes| && curr == nodes[k]
      modifies Repr
      ensures Valid() && fresh(Repr - old(Repr))
      ensures Contents == old(Contents)[k - 1 := item]
    {
      assert curr.prev == nodes[k - 1] && nodes[k - 1].prev == nodes[k - 2];
      Distinct(k);
      Distinct(k - 2);
      curr.prev := new Node(curr.prev.prev, item, curr);
      curr.prev.prev.next := curr.prev;
      Replaced(k - 1, curr.prev);
    }

    /** The ghost side of a replacement: once `added` is linked in between nodes `k - 1`
        and `k + 1`, and every other link is as before, it takes the place of node `k`. */
    ghost method Replaced(k: int, added: Node<T>)
      requires 1 <= k < |nodes| - 1 && size == |nodes| == |Contents|
      requires this in Repr && added !in Repr
      requires forall i :: 0 <= i < |nodes| ==> nodes[i] in Repr && nodes[i].data == Contents[i]
      requires front == nodes[0] && back == nodes[|nodes| - 1]
      requires nodes[0].prev == null && nodes[|nodes| - 1].next == null
      requires forall i :: 0 < i < |nodes| && i != k && i != k + 1 ==> nodes[i].prev == nodes[i - 1]
      requires forall i :: 0 <= i < |nodes| - 1 && i != k - 1 && i != k ==> nodes[i].next == nodes[i + 1]
      requires added.prev == nodes[k - 1] && nodes[k - 1].next == added
      requires added.next == nodes[k + 1] && nodes[k + 1].prev == added
      modifies this
      ensures Valid() && Repr == old(Repr) + {added}
      ensures Contents == old(Contents)[k := added.data]
    {
      nodes := nodes[k := added];
      Contents := Contents[k := added.data];
      Repr := Repr + {added};
    }

    /** A new node linked after `curr` (node `k`), which is not the last one. */
    method SpliceAfter(curr: Node<T>, ghost k: int, item: T)
      requires Valid() && 0 <= k < |nodes| - 1 && curr == nodes[k]
      modifies Repr
      ensures Valid() && fresh(Repr - old(Repr))
      ensures Contents == InsertAt(old(Contents), k + 1, item)
    {
      assert curr.next == nodes[k + 1];
      Distinct(k);
      Distinct(k + 1);
      curr.next := new Node(curr, item, curr.next);
      curr.next.next.prev := curr.next;
      size := size + 1;
      Spliced(k + 1, curr.next);
    }

    /** A new node linked before `curr` (node `k`), which is not the first one. */
    method SpliceBefore(curr: Node<T>, ghost k: int, item: T)
      requires Valid() && 1 <= k < |nodes| && curr == nodes[k]
      modifies Repr
      ensures Valid() && fresh(Repr - old(Repr))
      ensures Contents == InsertAt(old(Contents), k, item)
    {
      assert curr.prev == nodes[k - 1];
      Distinct(k);
      Distinct(k - 1);
      curr.prev := new Node(curr.prev, item, curr);
      curr.prev.prev.next := curr.prev;
      size := size + 1;
      Spliced(k, curr.prev);
    }

    /** The ghost side of a splice: once `added` is linked in between nodes `k - 1` and
        `k`, and every other link is as before, the node sequence takes it in at `k`. */
    ghost method Spliced(k: int, added: Node<T>)
      requires 1 <= k < |nodes| && size == |nodes| + 1 == |Contents| + 1
      requires this in Repr && added !in Repr
      requires forall i :: 0 <= i < |nodes| ==> nodes[i] in Repr && nodes[i].data == Contents[i]
      requires front == nodes[0] && back == nodes[|nodes| - 1]
      requires nodes[0].prev == null && nodes[|nodes| - 1].next == null
      requires forall i :: 0 < i < |nodes| && i != k ==> nodes[i].prev == nodes[i - 1]
      requires forall i :: 0 <= i < |nodes| - 1 && i != k - 1 ==> nodes[i].next == nodes[i + 1]
      requires added.prev == nodes[k - 1] && nodes[k - 1].next == added
      requires added.next == nodes[k] && nodes[k].prev == added
      modifies this
      ensures Valid() && Repr == old(Repr) + {added}
      ensures Contents == InsertAt(old(Contents), k, added.data)
    {
      ghost var before := nodes;
      nodes := InsertAt(nodes, k, added);
      Contents := InsertAt(Contents, k, added.data);
      Repr := Repr + {added};
      forall i | 0 < i < |nodes|
        ensures nodes[i].prev == nodes[i - 1]
      {
        if i < k {
          assert nodes[i] == before[i] && nodes[i - 1] == before[i - 1];
        } else if i > k + 1 {
          assert nodes[i] == before[i - 1] && nodes[i - 1] == before[i - 2];
        }
      }
      forall i | 0 <= i < |nodes| - 1
        ensures nodes[i].next == nodes[i + 1]
      {
        if i < k - 1 {
          assert nodes[i] == before[i] && nodes[i + 1] == before[i + 1];
        } else if i > k {
          assert nodes[i] == before[i - 1] && nodes[i + 1] == before[i];
        }
      }
    }

    /** The front node unlinked (`delete` at 0); its element is returned. */
    method PopFront() returns (item: T)
      requires Valid() && nodes != []
      modifies Repr
      ensures Valid() && fresh(Repr - old(Repr))
      ensures item == old(Contents)[0] && Contents == RemoveAt(old(Contents), 0)
    {
      if |nodes| > 1 {
        Distinct(1);
      }
      item := front.data;
      front := front.next;
      if front == null {
        back := null;
      } else {
        assert front == nodes[1];
        front.prev := null;
      }
      nodes := nodes[1..];
      Contents := Contents[1..];
      size := size - 1;
    }

    /** The back node unlinked, in a list of two or more (`delete` at the last index). */
    method PopBack() returns (item: T)
      requires Valid() && |nodes| >= 2
      modifies Repr
      ensures Valid() && fresh(Repr - old(Repr))
      ensures item == old(Contents)[|old(Contents)| - 1] && Contents == RemoveAt(old(Contents), |old(Contents)| - 1)
    {
      ghost var last := |nodes| - 1;
      item := back.data;
      assert back.prev == nodes[last - 1];
      Distinct(last - 1);
      back := back.prev;
      back.next := null;
      nodes := nodes[..last];
      Contents := Contents[..last];
      size := size - 1;
    }

    /** The node after `curr` (node `k`) unlinked; it is not the last one. */
    method UnlinkAfter(curr: Node<T>, ghost k: int) returns (item: T)
      requires Valid() && 0 <= k && k + 2 < |nodes| && curr == nodes[k]
      modifies Repr
      ensures Valid() && fresh(Repr - old(Repr))
      ensures item == old(Contents)[k + 1] && Contents == RemoveAt(old(Contents), k + 1)
    {
      assert curr.next == nodes[k + 1] && nodes[k + 1].next == nodes[k + 2];
      Distinct(k);
      Distinct(k + 2);
      item := curr.next.data;
      curr.next := curr.next.next;
      curr.next.prev := curr;
      size := size - 1;
      Unlinked(k + 1);
    }

    /** The node before `curr` (node `k`) unlinked; it is not the first one. */
    method UnlinkBefore(curr: Node<T>, ghost k: int) returns (item: T)
      requires Valid() && 2 <= k < |nodes| && curr == nodes[k]
      modifies Repr
      ensures Valid() && fresh(Repr - old(Repr))
      ensures item == old(Contents)[k - 1] && Contents == RemoveAt(old(Contents), k - 1)
    {
      assert curr.prev == nodes[k - 1] && nodes[k - 1].prev == nodes[k - 2];
      Distinct(k);
      Distinct(k - 2);
      item := curr.prev.data;
      curr.prev := curr.prev.prev;
      curr.prev.next := curr;
      size := size - 1;
      Unlinked(k - 1);
    }

    /** The ghost side of an unlinking: once nodes `k - 1` and `k + 1` are linked to each
        other, and every other link is as before, the node sequence drops node `k`. */
    ghost method Unlinked(k: int)
      requires 1 <= k < |nodes| - 1 && size == |nodes| - 1 == |Contents| - 1
      requires this in Repr
      requires forall i :: 0 <= i < |nodes| ==> nodes[i] in Repr && nodes[i].data == Contents[i]
      requires front == nodes[0] && back == nodes[|nodes| - 1]
      requires nodes[0].prev == null && nodes[|nodes| - 1].next == null
      requires forall i :: 0 < i < |nodes| && i != k && i != k + 1 ==> nodes[i].prev == nodes[i - 1]
      requires forall i :: 0 <= i < |nodes| - 1 && i != k - 1 && i != k ==> nodes[i].next == nodes[i + 1]
      requires nodes[k - 1].next == nodes[k + 1] && nodes[k + 1].prev == nodes[k - 1]
      modifies this
      ensures Valid() && Repr == old(Repr)
      ensures Contents == RemoveAt(old(Contents), k)
    {
      ghost var before := nodes;
      nodes := RemoveAt(nodes, k);
      Contents := RemoveAt(Contents, k);
      forall i | 0 < i < |nodes|
        ensures nodes[i].prev == nodes[i - 1]
      {
        if i < k {
          assert nodes[i] == before[i] && nodes[i - 1] == before[i - 1];
        } else if i > k {
          assert nodes[i] == before[i + 1] && nodes[i - 1] == before[i];
        }
      }
      forall i | 0 <= i < |nodes| - 1
        ensures nodes[i].next == nodes[i + 1]
      {
        if i < k - 1 {
          assert nodes[i] == before[i] && nodes[i + 1] == before[i + 1];
        } else if i >= k {
          assert nodes[i] == before[i + 1] && nodes[i + 1] == before[i + 2];
        }
      }
    }

    /** `indexOf` as written: a fence-post walk from `front` to `back`, which dereferences
        `front` before anything else. */
    method IndexOfAsWritten(item: T) returns (r: Result<int>)
      requires Valid()
      ensures r == WrittenIndexOf(Contents, item)
    {
      if front == null {
        return Throw(NullPointer);
      }
      var index := 0;
      var curr := front;
      while curr != back
        invariant 0 <= index < |nodes| && curr == nodes[index]
        invariant item !in Contents[..index]
        decreases |nodes| - index
      {
        if curr.data == item {
          return Ok(index);
        }
        curr := curr.next;
        index := index + 1;
      }
      Distinct(|nodes| - 1);
      if curr.data == item {
        return Ok(index);
      }
      return Ok(-1);
    }

    /** `indexOf` with the empty list handled: the first index holding `item`, or -1. */
    method IndexOf(item: T) returns (r: int)
      requires Valid()
      ensures r == FirstIndex(Contents, item)
    {
      if front == null {
        return -1;
      }
      var found := IndexOfAsWritten(item);
      return found.value;
    }

    /** `contains`: whether `indexOf` finds the item. */
    method Contains(item: T) returns (r: bool)
      requires Valid()
      ensures r <==> item in Contents
    {
      var index := IndexOf(item);
      return index != -1;
    }

    /** `contains` as written: it inherits the written `indexOf`'s failure on the empty
        list, and answers correctly everywhere else. */
    method ContainsAsWritten(item: T) returns (r: Result<bool>)
      requires Valid()
      ensures Contents == [] ==> r == Throw(NullPointer)
      ensures Contents != [] ==> r == Ok(item in Contents)
    {
      var index :- IndexOfAsWritten(item);
      return Ok(index != -1);
    }

    /** `iterator`: an iterator positioned at the front. */
    method Iterator() returns (it: DoubleLinkedListIterator<T>)
      requires Valid()
      ensures fresh(it) && it.Valid() && it.list == this && it.position == 0
    {
      it := new DoubleLinkedListIterator(this);
    }
  }

  /** The iterator: `current` is the node to yield next, or null past the end. */
  class DoubleLinkedListIterator<T(==)> {
    var current: Node?<T>
    ghost var list: DoubleLinkedList<T>
    ghost var position: nat

    ghost predicate Valid()
      reads this, list, list.Repr
    {
      && list.Valid()
      && position <= |list.nodes|
      && current == if position < |list.nodes| then list.nodes[position] else null
    }

    constructor(list: DoubleLinkedList<T>)
      requires list.Valid()
      ensures Valid() && this.list == list && position == 0
    {
      current := list.front;
      this.list := list;
      position := 0;
    }

    /** `hasNext`: whether elements remain. */
    method HasNext() returns (r: bool)
      requires Valid()
      ensures r <==> position < |list.Contents|
    {
      return current != null;
    }

    /** `next`: yields the element at the current position and advances; past the end it
        throws. */
    method Next() returns (r: Result<T>)
      requires Valid()
      modifies this`current, this`position
      ensures Valid()
      ensures old(position) < |list.Contents| ==>
                r == Ok(list.Contents[old(position)]) && position == old(position) + 1
      ensures old(position) >= |list.Contents| ==> r == Throw(NoSuchElement) && position == old(position)
    {
      if current == null {
        return Throw(NoSuchElement);
      }
      var temp := current;
      current := current.next;
      position := position + 1;
      return Ok(temp.data);
    }
  }
}
