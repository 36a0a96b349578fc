/** hash.c: a hash table without chains. A collision makes the table grow to the next
    prime size at which no two keys collide. */
module HashTable {
  import opened Prelude
  import opened Primes
  import PrimeSearch

  const TWO_32: nat := 0x1_0000_0000

  /** uint32_t keys */
  type Key = k: nat | k < TWO_32

  datatype Node<+V> = Node(key: Key, data: V)

  const DEFAULT_HASH_SIZE: nat := 7

  // ----- Slots -------------------------------------------------------------

  /** node_array, with NULL as None. */
  type Slots<+V> = seq<Option<Node<V>>>

  /** Every node sits where its key belongs. */
  ghost predicate Placed<V(!new)>(slots: Slots<V>) {
    0 < |slots| && forall i | 0 <= i < |slots| && slots[i].Some? :: slots[i].value.key % |slots| == i
  }

  /** variant_hash_get */
  function Lookup<V>(slots: Slots<V>, key: Key): Option<V>
    requires 0 < |slots|
  {
    var slot := slots[key % |slots|];
    if slot.Some? && slot.value.key == key then Some(slot.value.data) else None
  }

  /** The map the slots stand for. */
  ghost function MapOf<V(!new)>(slots: Slots<V>): (m: map<Key, V>)
    requires 0 < |slots|
    ensures forall k: Key :: k in m <==> Lookup(slots, k).Some?
    ensures forall k: Key | k in m :: m[k] == Lookup(slots, k).value
  {
    map k: Key | Lookup(slots, k).Some? :: Lookup(slots, k).value
  }

  /** The map has the node of every slot, and nothing else. */
  lemma SlotHolds<V(!new)>(slots: Slots<V>, i: nat)
    requires Placed(slots) && i < |slots| && slots[i].Some?
    ensures slots[i].value.key in MapOf(slots) && MapOf(slots)[slots[i].value.key] == slots[i].value.data
  {
    assert Lookup(slots, slots[i].value.key) == Some(slots[i].value.data);
  }

  lemma KeyHasSlot<V(!new)>(slots: Slots<V>, k: Key)
    requires Placed(slots) && k in MapOf(slots)
    ensures 0 < |slots| && slots[k % |slots|] == Some(Node(k, MapOf(slots)[k]))
  {
    assert Lookup(slots, k).Some?;
  }

  /** The nodes in slot order: what variant_hash_for_each visits. */
  function Items<V>(slots: Slots<V>): seq<Node<V>> {
    if slots == [] then []
    else Items(slots[..|slots| - 1]) + (match slots[|slots| - 1] case None => [] case Some(n) => [n])
  }

  lemma {:induction false} ItemsUpdate<V>(slots: Slots<V>, i: nat, s: Option<Node<V>>)
    requires i < |slots|
    ensures |Items(slots[i := s])| ==
            |Items(slots)| + (if s.Some? then 1 else 0) - (if slots[i].Some? then 1 else 0)
  {
    var n := |slots| - 1;
    if i < n {
      ItemsUpdate(slots[..n], i, s);
      assert slots[i := s][..n] == slots[..n][i := s];
    } else {
      assert slots[i := s][..n] == slots[..n];
    }
  }

  lemma {:induction false} ItemsOf<V>(slots: Slots<V>)
    ensures forall i | 0 <= i < |slots| && slots[i].Some? :: slots[i].value in Items(slots)
    ensures forall n | n in Items(slots) :: exists i :: 0 <= i < |slots| && slots[i] == Some(n)
    ensures |Items(slots)| <= |slots|
  {
    if slots != [] {
      var last := |slots| - 1;
      ItemsOf(slots[..last]);
      forall n | n in Items(slots) ensures exists i :: 0 <= i < |slots| && slots[i] == Some(n) {
        if n in Items(slots[..last]) {
          var i :| 0 <= i < last && slots[..last][i] == Some(n);
          assert slots[i] == Some(n);
        } else {
          assert slots[last] == Some(n);
        }
      }
      forall i | 0 <= i < |slots| && slots[i].Some? ensures slots[i].value in Items(slots) {
        if i < last {
          assert slots[..last][i] == slots[i];
        }
      }
    }
  }

  lemma {:induction false} NoItems<V>(slots: Slots<V>)
    requires forall i | 0 <= i < |slots| :: slots[i].None?
    ensures Items(slots) == []
  {
    if slots != [] {
      NoItems(slots[..|slots| - 1]);
    }
  }

  lemma {:induction false} ItemsPrefix<V>(slots: Slots<V>, i: nat)
    requires i <= |slots|
    ensures |Items(slots[..i])| <= |Items(slots)|
    ensures Items(slots[..i]) <= Items(slots)
    decreases |slots| - i
  {
    if i < |slots| {
      ItemsPrefix(slots, i + 1);
      assert slots[..i + 1][..i] == slots[..i];
    } else {
      assert slots[..i] == slots;
    }
  }

  // ----- Putting and clearing one slot -------------------------------------

  /** What insertion does when the slot is free. */
  lemma PutUpdatesMap<V(!new)>(slots: Slots<V>, n: Node<V>)
    requires Placed(slots) && slots[n.key % |slots|].None?
    ensures var after := slots[n.key % |slots| := Some(n)];
            Placed(after) && MapOf(after) == MapOf(slots)[n.key := n.data]
  {
    var at := n.key % |slots|;
    var after := slots[at := Some(n)];
    forall k: Key ensures Lookup(after, k) == if k == n.key then Some(n.data) else Lookup(slots, k) {
    }
  }

  /** variant_hash_remove on the slots: it does not look at the key it finds. */
  function Cleared<V>(slots: Slots<V>, key: Key): Slots<V>
    requires 0 < |slots|
  {
    slots[key % |slots| := None]
  }

  /** The key that a removal of `key` takes out. */
  function Occupant<V>(slots: Slots<V>, key: Key): set<Key>
    requires 0 < |slots|
  {
    match slots[key % |slots|] case None => {} case Some(n) => {n.key}
  }

  lemma ClearedRemovesOccupant<V(!new)>(slots: Slots<V>, key: Key)
    requires Placed(slots)
    ensures Placed(Cleared(slots, key))
    ensures MapOf(Cleared(slots, key)) == MapOf(slots) - Occupant(slots, key)
  {
    var after := Cleared(slots, key);
    forall k: Key ensures Lookup(after, k) == if k in Occupant(slots, key) then None else Lookup(slots, k) {
    }
  }

  /** Removal is removal of the key exactly when the key is present or its slot empty. */
  lemma RemovesKeyIff<V(!new)>(slots: Slots<V>, key: Key)
    requires Placed(slots)
    ensures MapOf(Cleared(slots, key)) == MapOf(slots) - {key}
            <==> Lookup(slots, key).Some? || slots[key % |slots|].None?
  {
    ClearedRemovesOccupant(slots, key);
    var s := slots[key % |slots|];
    if s.Some? && s.value.key != key {
      assert s.value.key in MapOf(slots) by { assert Lookup(slots, s.value.key).Some?; }
      assert s.value.key !in MapOf(Cleared(slots, key));
    }
  }

  /** Two nodes that the new size would put into one slot. */
  ghost predicate Collides<V>(items: seq<Node<V>>, size: nat)
    requires 0 < size
  {
    exists i, j :: 0 <= i < j < |items| && items[i].key % size == items[j].key % size
  }

  /** Nodes with different keys. */
  ghost predicate Distinct<V>(items: seq<Node<V>>) {
    forall i, j | 0 <= i < j < |items| :: items[i].key != items[j].key
  }

  lemma {:induction false} ItemsDistinct<V(!new)>(slots: Slots<V>, upTo: nat)
    requires Placed(slots) && upTo <= |slots|
    ensures Distinct(Items(slots[..upTo]))
    ensures forall n | n in Items(slots[..upTo]) :: n.key % |slots| < upTo
  {
    if upTo != 0 {
      ItemsDistinct(slots, upTo - 1);
      assert slots[..upTo][..upTo - 1] == slots[..upTo - 1];
    }
  }

  /** Above all keys there is room for every node. */
  lemma LargeSizeFits<V>(items: seq<Node<V>>, size: nat)
    requires Distinct(items) && 0x1_0000_0000 <= size
    ensures !Collides(items, size)
  {
  }

  /** In a table with more slots than keys only the same key is in the way. */
  lemma LargeTableHasRoom<V(!new)>(slots: Slots<V>, key: Key)
    requires Placed(slots) && slots[key % |slots|].Some? && slots[key % |slots|].value.key != key
    ensures |slots| < TWO_32
  {
  }

  // ----- The table ---------------------------------------------------------

  class Table<V(!new)> {
    var count: nat
    var hashSize: nat
    var nodeArray: array<Option<Node<V>>>

    ghost predicate Valid()
      reads this, nodeArray
    {
      && hashSize == nodeArray.Length
      && Placed(nodeArray[..])
      && count == |Items(nodeArray[..])|
    }

    ghost function Contents(): map<Key, V>
      reads this, nodeArray
      requires Valid()
    {
      MapOf(nodeArray[..])
    }

    /** variant_hash_init */
    constructor ()
      ensures Valid() && Contents() == map[] && hashSize == 7 && fresh(nodeArray)
    {
      count, hashSize := 0, DEFAULT_HASH_SIZE;
      nodeArray := new Option<Node<V>>[DEFAULT_HASH_SIZE](_ => None);
      new;
      NoItems(nodeArray[..]);
    }

    method Get(key: Key) returns (data: Option<V>)
      requires Valid()
      ensures data == if key in Contents() then Some(Contents()[key]) else None
    {
      var index := key % hashSize;
      data := None;
      if nodeArray[index].Some? && nodeArray[index].value.key == key {
        data := Some(nodeArray[index].value.data);
      }
    }

    /** Removes what is in the slot of `key`. */
    method Remove(key: Key)
      requires Valid()
      modifies this, nodeArray
      ensures Valid() && nodeArray == old(nodeArray) && hashSize == old(hashSize)
      ensures nodeArray[..] == Cleared(old(nodeArray[..]), key)
      ensures Contents() == old(Contents()) - Occupant(old(nodeArray[..]), key)
    {
      var index := key % hashSize;
      ghost var before := nodeArray[..];
      ItemsUpdate(before, index, None);
      ClearedRemovesOccupant(before, key);
      if nodeArray[index].Some? {
        nodeArray[index] := None;
        count := count - 1;
      }
      assert nodeArray[..] == Cleared(before, key);
    }

    /** variant_hash_for_each: the visitor sees the nodes in slot order. The walk may stop
        behind the last one, as soon as all have been counted down. */
    method ForEach() returns (visited: seq<Node<V>>)
      requires Valid()
      ensures visited == Items(nodeArray[..])
    {
      visited := [];
      var counter := count;
      var i := 0;
      while i < hashSize && counter > 0
        invariant i <= hashSize
        invariant visited == Items(nodeArray[..i])
        invariant counter == count - |visited|
      {
        assert nodeArray[..i + 1][..i] == nodeArray[..i];
        if nodeArray[i].Some? {
          visited := visited + [nodeArray[i].value];
          ItemsPrefix(nodeArray[..], i + 1);
          assert nodeArray[..][..i + 1] == nodeArray[..i + 1];
          counter := counter - 1;
        }
        i := i + 1;
      }
      ItemsPrefix(nodeArray[..], i);
      assert nodeArray[..][..i] == nodeArray[..i];
      assert i == hashSize ==> nodeArray[..i] == nodeArray[..];
    }

    /** variant_hash_iterator_next: the next occupied index, or the end marker. */
    method NextIndex(index: int) returns (next: int)
      requires Valid() && -1 <= index
      ensures (index < next < hashSize && nodeArray[next].Some?) || next == hashSize + 1
      ensures forall i | index < i < next && 0 <= i < hashSize :: nodeArray[i].None?
    {
      var i := index + 1;
      while i < hashSize
        invariant index < i
        invariant forall k | index < k < i && 0 <= k < hashSize :: nodeArray[k].None?
      {
        if nodeArray[i].Some? {
          return i;
        }
        i := i + 1;
      }
      next := hashSize + 1;
    }

    /** The nodes in a new array of the given size, unless two of them collide there:
        copy_hash_items visited by variant_hash_for_each. */
    method CopyItems(size: nat) returns (resizeNeeded: bool, copy: array<Option<Node<V>>>)
      requires Valid() && 0 < size
      ensures fresh(copy) && copy.Length == size
      ensures resizeNeeded <==> Collides(Items(nodeArray[..]), size)
      ensures !resizeNeeded ==>
                Placed(copy[..]) && MapOf(copy[..]) == Contents() && |Items(copy[..])| == count
    {
      hide Placed, Holds, Collides, Distinct, MapOf, Items;
      copy := new Option<Node<V>>[size](_ => None);
      resizeNeeded := false;
      var items := ForEach();
      ItemsDistinct(nodeArray[..], nodeArray.Length);
      assert nodeArray[..][..nodeArray.Length] == nodeArray[..];
      HoldsNothing(copy[..]);
      var i := 0;
      while i < |items|
        invariant i <= |items|
        invariant resizeNeeded <==> Collides(items[..i], size)
        invariant !resizeNeeded ==> Holds(copy[..], items[..i])
      {
        if !resizeNeeded {
          var index := items[i].key % size;
          ghost var before := copy[..];
          PlaceItem(before, items, i);
          if copy[index].Some? {
            resizeNeeded := true;
          } else {
            copy[index] := Some(items[i]);
            assert copy[..] == before[index := Some(items[i])];
          }
        }
        CollidesLater(items, i, size);
        i := i + 1;
      }
      assert items[..i] == items;
      if !resizeNeeded {
        HoldsAll(nodeArray[..], copy[..]);
      }
    }

    /** variant_hash_insert_data */
    method InsertData(item: Node<V>)
      requires Valid()
      modifies this, nodeArray
      ensures Valid() && Contents() == old(Contents())[item.key := item.data]
      ensures nodeArray == old(nodeArray) || fresh(nodeArray)
      ensures old(hashSize) <= hashSize
      ensures old(nodeArray[item.key % nodeArray.Length].None? || Lookup(nodeArray[..], item.key).Some?) ==>
                nodeArray == old(nodeArray)
      decreases if hashSize < TWO_32 then TWO_32 - hashSize else 0
    {
      hide MapOf;
      var index := item.key % hashSize;
      if nodeArray[index].Some? {
        if nodeArray[index].value.key == item.key {
          Remove(item.key);
          Store(item);
        } else {
          LargeTableHasRoom(nodeArray[..], item.key);
          Grow();
          InsertData(item);
        }
      } else {
        Store(item);
      }
    }

    /** The assignment to a free slot. */
    method Store(item: Node<V>)
      requires Valid() && nodeArray[item.key % hashSize].None?
      modifies this, nodeArray
      ensures Valid() && Contents() == old(Contents())[item.key := item.data]
      ensures nodeArray == old(nodeArray) && hashSize == old(hashSize)
    {
      var index := item.key % hashSize;
      ghost var before := nodeArray[..];
      PutUpdatesMap(before, item);
      ItemsUpdate(before, index, Some(item));
      nodeArray[index] := Some(item);
      count := count + 1;
      assert nodeArray[..] == before[index := Some(item)];
    }

    /** The retry loop: grow until the nodes already present do not collide. */
    method Grow()
      requires Valid()
      modifies this
      ensures Valid() && Contents() == old(Contents())
      ensures fresh(nodeArray) && 2 * old(hashSize) < hashSize && Prime(hashSize)
    {
      var resizeNeeded := true;
      var newSize := PrimeSearch.NextPrime(hashSize * 2);
      var newArray := nodeArray;
      ItemsDistinct(nodeArray[..], nodeArray.Length);
      assert nodeArray[..][..nodeArray.Length] == nodeArray[..];
      while resizeNeeded
        invariant 2 * hashSize < newSize && Prime(newSize)
        invariant !resizeNeeded ==>
                    fresh(newArray) && newArray.Length == newSize && Placed(newArray[..]) &&
                    MapOf(newArray[..]) == Contents() && |Items(newArray[..])| == count
        modifies {}
        decreases resizeNeeded, if newSize < TWO_32 then TWO_32 - newSize else 0
      {
        resizeNeeded, newArray := CopyItems(newSize);
        if resizeNeeded {
          if TWO_32 <= newSize {
            LargeSizeFits(Items(nodeArray[..]), newSize);
            assert false;
          }
          newSize := PrimeSearch.NextPrime(newSize);
        }
      }
      nodeArray := newArray;
      hashSize := newSize;
    }
  }

  // ----- Copying -----------------------------------------------------------

  /** Slots that hold exactly the given nodes, each in its place. */
  ghost predicate Holds<V(!new)>(slots: Slots<V>, items: seq<Node<V>>) {
    && Placed(slots)
    && (forall i | 0 <= i < |slots| && slots[i].Some? :: slots[i].value in items)
    && (forall n | n in items :: slots[n.key % |slots|] == Some(n))
    && |Items(slots)| == |items|
  }

  lemma HoldsNothing<V(!new)>(slots: Slots<V>)
    requires 0 < |slots| && forall i | 0 <= i < |slots| :: slots[i].None?
    ensures Holds(slots, []) && !Collides<V>([], |slots|)
  {
    NoItems(slots);
  }

  /** One visit of copy_hash_items. */
  lemma PlaceItem<V(!new)>(slots: Slots<V>, items: seq<Node<V>>, i: nat)
    requires i < |items| && Distinct(items) && Holds(slots, items[..i])
    ensures var index := items[i].key % |slots|;
            if slots[index].Some? then Collides(items[..i + 1], |slots|)
            else Holds(slots[index := Some(items[i])], items[..i + 1]) && !Collides(items[..i + 1], |slots|)
  {
    var index := items[i].key % |slots|;
    var more := items[..i + 1];
    assert more == items[..i] + [items[i]];
    if slots[index].Some? {
      var j :| 0 <= j < i && items[..i][j] == slots[index].value;
      assert more[j].key % |slots| == more[i].key % |slots|;
    } else {
      ItemsUpdate(slots, index, Some(items[i]));
      assert Holds(slots[index := Some(items[i])], more);
      HoldsWithoutCollision(slots[index := Some(items[i])], more);
    }
  }

  lemma HoldsWithoutCollision<V(!new)>(slots: Slots<V>, items: seq<Node<V>>)
    requires Holds(slots, items) && Distinct(items)
    ensures !Collides(items, |slots|)
  {
    forall i, j | 0 <= i < j < |items| ensures items[i].key % |slots| != items[j].key % |slots| {
      assert items[i] in items && items[j] in items;
    }
  }

  lemma CollidesLater<V>(items: seq<Node<V>>, i: nat, size: nat)
    requires i < |items| && 0 < size
    ensures Collides(items[..i], size) ==> Collides(items[..i + 1], size)
  {
    if Collides(items[..i], size) {
      var a, b :| 0 <= a < b < i && items[..i][a].key % size == items[..i][b].key % size;
      assert items[..i + 1][a].key % size == items[..i + 1][b].key % size;
    }
  }

  /** A copy that holds all nodes stands for the same map. */
  lemma HoldsAll<V(!new)>(slots: Slots<V>, copy: Slots<V>)
    requires Placed(slots) && Holds(copy, Items(slots))
    ensures Placed(copy) && MapOf(copy) == MapOf(slots) && |Items(copy)| == |Items(slots)|
  {
    ItemsOf(slots);
    forall k: Key ensures Lookup(copy, k) == Lookup(slots, k) {
      if Lookup(slots, k).Some? {
        assert slots[k % |slots|].value in Items(slots);
      }
      if Lookup(copy, k).Some? {
        var i :| 0 <= i < |slots| && slots[i] == copy[k % |copy|];
        assert i == k % |slots|;
      }
    }
  }
}
