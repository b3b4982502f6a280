/** The read-only view of a list. It keeps a reference to the list it wraps, answers every
    query by asking that list, and refuses every change. Since it holds a reference and not
    a copy, a change made to the wrapped list through another reference shows through the
    view. */
module ReadOnlyLists {
  import opened Exceptions
  import opened LinkedLists

  class ReadOnlyList<T(==)> {
    const list: DoubleLinkedList<T>

    /** The elements seen through the view: those of the wrapped list, now. */
    ghost function Contents(): seq<T>
      reads list
    {
      list.Contents
    }

    ghost predicate Valid()
      reads list, list.Repr
    {
      list.Valid()
    }

    constructor(list: DoubleLinkedList<T>)
      ensures this.list == list
    {
      this.list := list;
    }

    /** `add` is refused. */
    method Add(item: T) returns (r: Result<()>)
      ensures r == Throw(UnsupportedOperation)
    {
      return Throw(UnsupportedOperation);
    }

    /** `remove` is refused. */
    method Remove() returns (r: Result<T>)
      ensures r == Throw(UnsupportedOperation)
    {
      return Throw(UnsupportedOperation);
    }

    /** `set` is refused. */
    method Set(index: int, item: T) returns (r: Result<()>)
      ensures r == Throw(UnsupportedOperation)
    {
      return Throw(UnsupportedOperation);
    }

    /** `insert` is refused. */
    method Insert(index: int, item: T) returns (r: Result<()>)
      ensures r == Throw(UnsupportedOperation)
    {
      return Throw(UnsupportedOperation);
    }

    /** `delete` is refused. */
    method Delete(index: int) returns (r: Result<T>)
      ensures r == Throw(UnsupportedOperation)
    {
      return Throw(UnsupportedOperation);
    }

    /** `get`: the wrapped list's element, or its out-of-range error. */
    method Get(index: int) returns (r: Result<T>)
      requires Valid()
      ensures r == Exceptions.Get(Contents(), index)
    {
      r := list.Get(index);
    }

    /** `indexOf`: the wrapped list's first index of `item`. */
    method IndexOf(item: T) returns (r: int)
      requires Valid()
      ensures r == FirstIndex(Contents(), item)
      ensures r == -1 <==> item !in Contents()
    {
      r := list.IndexOf(item);
    }

    /** `size`: the wrapped list's size. */
    method Size() returns (r: int)
      requires Valid()
      ensures r == |Contents()|
    {
      r := list.Size();
    }

    /** `contains`: whether the wrapped list holds `item`. */
    method Contains(item: T) returns (r: bool)
      requires Valid()
      ensures r <==> item in Contents()
    {
      r := list.Contains(item);
    }

    /** `iterator`: an iterator over the wrapped list whose `remove` is refused. */
    method Iterator() returns (it: ReadOnlyIterator<T>)
      requires Valid()
      ensures fresh(it) && it.Valid() && it.inner.list == list && it.inner.position == 0
    {
      var inner := list.Iterator();
      it := new ReadOnlyIterator(inner);
    }
  }

  /** The view's iterator: it passes `hasNext` and `next` on to the wrapped list's iterator. */
  class ReadOnlyIterator<T(==)> {
    const inner: DoubleLinkedListIterator<T>

    ghost predicate Valid()
      reads inner, inner.list, inner.list.Repr
    {
      inner.Valid()
    }

    constructor(inner: DoubleLinkedListIterator<T>)
      ensures this.inner == inner
    {
      this.inner := inner;
    }

    /** `hasNext`: whether the wrapped list has elements past the position. */
    method HasNext() returns (r: bool)
      requires Valid()
      ensures r <==> inner.position < |inner.list.Contents|
    {
      r := inner.HasNext();
    }

    /** `next`: the wrapped list's next element. */
    method Next() returns (r: Result<T>)
      requires Valid()
      modifies inner`current, inner`position
      ensures Valid()
      ensures old(inner.position) < |inner.list.Contents| ==>
                r == Ok(inner.list.Contents[old(inner.position)]) && inner.position == old(inner.position) + 1
      ensures old(inner.position) >= |inner.list.Contents| ==>
                r == Throw(NoSuchElement) && inner.position == old(inner.position)
    {
      r := inner.Next();
    }

    /** `remove` is refused. */
    method Remove() returns (r: Result<()>)
      ensures r == Throw(UnsupportedOperation)
    {
      return Throw(UnsupportedOperation);
    }
  }

  /** The view is not a copy: an element added to the wrapped list through the list itself
      is seen at the end of the view. */
  method OwnerAddShowsThroughView<T(==)>(view: ReadOnlyList<T>, item: T)
    requires view.Valid()
    modifies view.list.Repr
    ensures view.Valid()
    ensures view.Contents() == old(view.Contents()) + [item]
  {
    view.list.Add(item);
  }
}
