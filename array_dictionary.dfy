/** The array-backed dictionary: an array of key/value slots whose first `size` slots are
    the live pairs. `put` doubles the array when it is full, `remove` moves the last live
    pair into the hole it leaves. The ghost map `Contents` is the dictionary the array
    represents; `Valid()` ties the two together and every operation is specified by what it
    does to `Contents`. */
module Dictionaries {
  import opened Exceptions

  /** The capacity of a new dictionary's array. */
  const DefaultCapacity: nat := 100

  /** One array slot: a pair, or the null reference a fresh array holds. */
  datatype Slot<K, V> = Null | Pair(key: K, value: V)

  /** The live slots after the scan of `put`: every pair with key `key` takes `value`. */
  function Overwritten<K(==), V>(s: seq<Slot<K, V>>, key: K, value: V): (r: seq<Slot<K, V>>)
    ensures |r| == |s|
    ensures forall j :: 0 <= j < |s| ==>
              r[j] == if s[j].Pair? && s[j].key == key then Pair(key, value) else s[j]
  {
    seq(|s|, j requires 0 <= j < |s| => if s[j].Pair? && s[j].key == key then Pair(key, value) else s[j])
  }

  class ArrayDictionary<K(==), V> {
    var pairs: array<Slot<K, V>>
    var size: int
    ghost var Contents: map<K, V>
    /** The slot each bound key lives in. */
    ghost var Slots: map<K, int>

    /** The live slots hold exactly the bindings of `Contents`, each key in one slot. */
    ghost predicate Valid()
      reads this, pairs
    {
      && DefaultCapacity <= pairs.Length
      && 0 <= size <= pairs.Length
      && Slots.Keys == Contents.Keys
      && (forall i :: 0 <= i < size ==> pairs[i].Pair? && pairs[i].key in Slots && Slots[pairs[i].key] == i)
      && (forall k :: k in Slots ==> 0 <= Slots[k] < size && pairs[Slots[k]] == Pair(k, Contents[k]))
      && |Contents| == size
    }

    /** No key is stored in two live slots. */
    lemma KeysDistinct()
      requires Valid()
      ensures forall i, j :: 0 <= i < j < size ==> pairs[i].key != pairs[j].key
    {
    }

    /** A new dictionary is empty, over an array of `DefaultCapacity` null slots. */
    constructor()
      ensures Valid() && fresh(pairs)
      ensures Contents == map[] && size == 0 && pairs.Length == DefaultCapacity
    {
      pairs := new Slot<K, V>[DefaultCapacity](_ => Null);
      size := 0;
      Contents := map[];
      Slots := map[];
    }

    /** `size`: the number of bindings. */
    method Size() returns (r: int)
      requires Valid()
      ensures r == |Contents|
    {
      return size;
    }

    /** `containsKey`: a linear scan of the live pairs. */
    method ContainsKey(key: K) returns (r: bool)
      requires Valid()
      ensures r <==> key in Contents
    {
      for i := 0 to size
        invariant forall j :: 0 <= j < i ==> pairs[j].key != key
      {
        if pairs[i].key == key {
          return true;
        }
      }
      return false;
    }

    /** `get`: throws on an absent key; otherwise scans the whole array from the start,
        which meets the key among the live pairs before any null slot. */
    method Get(key: K) returns (r: Result<V>)
      requires Valid()
      ensures key in Contents ==> r == Ok(Contents[key])
      ensures key !in Contents ==> r == Throw(NoSuchKey)
    {
      var present := ContainsKey(key);
      if !present {
        return Throw(NoSuchKey);
      }
      ghost var at :| 0 <= at < size && pairs[at].key == key;
      var i := 0;
      while i < pairs.Length
        invariant 0 <= i <= at
        invariant forall j :: 0 <= j < i ==> pairs[j].key != key
      {
        if pairs[i].Null? {
          return Throw(NullPointer);
        }
        if pairs[i].key == key {
          return Ok(pairs[i].value);
        }
        i := i + 1;
      }
      return Throw(NoSuchKey);
    }

    /** `put`: a full array is first replaced by one of twice the size holding the same live
        pairs, even when the key is already bound. Then a bound key has its value replaced in
        place, and an unbound one is appended after the live pairs. */
    method Put(key: K, value: V)
      requires Valid()
      modifies this, pairs
      ensures Valid()
      ensures Contents == old(Contents)[key := value]
      ensures size == if key in old(Contents) then old(size) else old(size) + 1
      ensures old(size) == old(pairs.Length) ==> fresh(pairs) && pairs.Length == 2 * old(size)
      ensures old(size) < old(pairs.Length) ==> pairs == old(pairs)
      ensures pairs[..old(size)] == Overwritten(old(pairs[..size]), key, value)
      ensures key !in old(Contents) ==> pairs[old(size)] == Pair(key, value)
    {
      if size == pairs.Length {
        Grow();
      }
      var sameKey := Overwrite(key, value);
      if !sameKey {
        ghost var written := pairs[..];
        Append(key, value);
        assert pairs[..old(size)] == written[..old(size)];
      }
    }

    /** The first step of `put` on a full array: a new array of twice the size holding the
        same live pairs replaces it. */
    method Grow()
      requires Valid() && size == pairs.Length
      modifies this
      ensures Valid() && fresh(pairs) && pairs.Length == 2 * size
      ensures Contents == old(Contents) && Slots == old(Slots) && size == old(size)
      ensures pairs[..size] == old(pairs[..size])
    {
      var temp := new Slot<K, V>[size * 2](_ => Null);
      var i := 0;
      while i < size
        modifies temp
        invariant 0 <= i <= size == pairs.Length && temp.Length == 2 * size
        invariant forall j :: 0 <= j < i ==> temp[j] == pairs[j]
      {
        temp[i] := pairs[i];
        i := i + 1;
      }
      assert temp[..size] == pairs[..size];
      pairs := temp;
    }

    /** The scan of `put`: every live pair whose key is `key` gets `value`; whether there
        was one is returned. */
    method Overwrite(key: K, value: V) returns (sameKey: bool)
      requires Valid()
      modifies this, pairs
      ensures Valid() && pairs == old(pairs) && size == old(size)
      ensures sameKey <==> key in old(Contents)
      ensures sameKey ==> Contents == old(Contents)[key := value]
      ensures !sameKey ==> Contents == old(Contents) && pairs[..] == old(pairs[..])
      ensures pairs[..size] == Overwritten(old(pairs[..size]), key, value)
    {
      ghost var before := pairs[..];
      ghost var target := if key in Slots then Slots[key] else -1;
      sameKey := false;
      for i := 0 to size
        modifies pairs
        invariant forall j :: 0 <= j < size ==> before[j].Pair? && before[j].key in Slots && Slots[before[j].key] == j
        invariant forall j :: 0 <= j < pairs.Length && (j != target || i <= j) ==> pairs[j] == before[j]
        invariant 0 <= target < i ==> pairs[target] == Pair(key, value)
        invariant sameKey <==> 0 <= target < i
      {
        if pairs[i].key == key {
          pairs[i] := Pair(pairs[i].key, value);
          sameKey := true;
        }
      }
      if sameKey {
        Contents := Contents[key := value];
        forall i | 0 <= i < size
          ensures pairs[i].Pair? && pairs[i].key in Slots && Slots[pairs[i].key] == i
        {
          if i != target {
            assert pairs[i] == before[i];
          }
        }
        forall k | k in Slots
          ensures 0 <= Slots[k] < size && pairs[Slots[k]] == Pair(k, Contents[k])
        {
          if k != key {
            assert pairs[Slots[k]] == before[Slots[k]];
          }
        }
      } else {
        assert pairs[..] == before;
      }
      forall j | 0 <= j < size
        ensures pairs[..size][j] == Overwritten(before[..size], key, value)[j]
      {
        if j != target {
          assert pairs[j] == before[j] && before[j].key != key;
        }
      }
    }

    /** The last step of `put` for an unbound key: the pair goes into the first free slot. */
    method Append(key: K, value: V)
      requires Valid() && key !in Contents && size < pairs.Length
      modifies this, pairs
      ensures Valid() && pairs == old(pairs)
      ensures Contents == old(Contents)[key := value] && size == old(size) + 1
      ensures pairs[..] == old(pairs[..])[old(size) := Pair(key, value)]
    {
      pairs[size] := Pair(key, value);
      Slots := Slots[key := size];
      size := size + 1;
      Contents := Contents[key := value];
      forall i | 0 <= i < size
        ensures pairs[i].Pair? && pairs[i].key in Slots && Slots[pairs[i].key] == i
      {
        if i < size - 1 {
          assert pairs[i] == old(pairs[i]) && old(pairs[i]).key != key;
        }
      }
      forall k | k in Slots
        ensures 0 <= Slots[k] < size && pairs[Slots[k]] == Pair(k, Contents[k])
      {
        if k != key {
          assert pairs[Slots[k]] == old(pairs[Slots[k]]);
        }
      }
    }

    /** `remove`: throws on an absent key; otherwise the last live pair takes the removed
        pair's slot and the removed value is returned. */
    method Remove(key: K) returns (r: Result<V>)
      requires Valid()
      modifies this, pairs
      ensures Valid() && pairs == old(pairs)
      ensures key in old(Contents) ==>
                r == Ok(old(Contents)[key]) && Contents == old(Contents) - {key} && size == old(size) - 1
      ensures key !in old(Contents) ==> r == Throw(NoSuchKey) && Contents == old(Contents) && size == old(size)
      ensures key in old(Contents) ==>
                exists hole :: 0 <= hole < old(size) && old(pairs[hole]) == Pair(key, old(Contents)[key]) &&
                               pairs[..] == old(pairs[..])[hole := old(pairs[size - 1])]
      ensures key !in old(Contents) ==> pairs[..] == old(pairs[..])
    {
      var present := ContainsKey(key);
      if !present {
        return Throw(NoSuchKey);
      }
      for i := 0 to size
        invariant forall j :: 0 <= j < i ==> pairs[j].key != key
      {
        if pairs[i].key == key {
          var temp := pairs[i];
          FillHole(i);
          return Ok(temp.value);
        }
      }
      return Throw(NoSuchKey);
    }

    /** The hole `remove` leaves at live slot `i` is filled by the last live pair, and the
        binding that was at `i` is gone. */
    method FillHole(i: int)
      requires Valid() && 0 <= i < size
      modifies this, pairs
      ensures Valid() && pairs == old(pairs)
      ensures old(pairs[i]).Pair? && old(pairs[i]).key in old(Contents)
      ensures Contents == old(Contents) - {old(pairs[i]).key} && size == old(size) - 1
      ensures pairs[..] == old(pairs[..])[i := old(pairs[size - 1])]
    {
      var key := pairs[i].key;
      pairs[i] := pairs[size - 1];
      size := size - 1;
      Contents := Contents - {key};
      Slots := Slots - {key};
      if i < size {
        Slots := Slots[pairs[i].key := i];
      }
      assert Contents.Keys == old(Contents).Keys - {key};
      forall j | 0 <= j < size
        ensures pairs[j].Pair? && pairs[j].key in Slots && Slots[pairs[j].key] == j
      {
        if j != i {
          assert pairs[j] == old(pairs[j]);
        }
      }
      forall k | k in Slots
        ensures 0 <= Slots[k] < size && pairs[Slots[k]] == Pair(k, Contents[k])
      {
        if Slots[k] != i {
          assert pairs[Slots[k]] == old(pairs[Slots[k]]);
        }
      }
    }
  }
}
