/** The insertion-sorted pointer array of ordered_array.c. */
module OrderedArrays {

  /** The position where the scan of `insert_ordered_array` stops. */
  function Place<T>(s: seq<T>, item: T, lt: (T, T) -> bool): (k: nat)
    ensures k <= |s|
    ensures forall j | 0 <= j < k :: lt(s[j], item)
    ensures k < |s| ==> !lt(s[k], item)
  {
    if s == [] || !lt(s[0], item) then 0 else 1 + Place(s[1..], item, lt)
  }

  function Inserted<T>(s: seq<T>, item: T, lt: (T, T) -> bool): (r: seq<T>)
    ensures |r| == |s| + 1
  {
    var k := Place(s, item, lt);
    s[..k] + [item] + s[k..]
  }

  function Removed<T>(s: seq<T>, i: nat): (r: seq<T>)
    requires i < |s|
    ensures |r| == |s| - 1
  {
    s[..i] + s[i + 1..]
  }

  ghost predicate NoDuplicates<T>(s: seq<T>)
  {
    forall i, j | 0 <= i < j < |s| :: s[i] != s[j]
  }

  /** No later element is less than an earlier one. */
  ghost predicate Ordered<T>(s: seq<T>, lt: (T, T) -> bool)
  {
    forall i, j | 0 <= i < j < |s| :: !lt(s[j], s[i])
  }

  /** What the array needs of its predicate: a strict order whose incomparability is transitive. */
  ghost predicate StrictWeak<T(!new)>(lt: (T, T) -> bool)
  {
    && (forall x, y :: lt(x, y) ==> !lt(y, x))
    && (forall x, y, z :: lt(x, z) ==> lt(x, y) || lt(y, z))
  }

  /** Insertion adds exactly one occurrence of `item`. */
  lemma InsertionContents<T>(s: seq<T>, item: T, lt: (T, T) -> bool)
    ensures multiset(Inserted(s, item, lt)) == multiset(s) + multiset{item}
  {
    hide Place;
    var k := Place(s, item, lt);
    assert s == s[..k] + s[k..];
  }

  /** Removing the element where insertion put it restores the array. */
  lemma RemovalUndoesInsertion<T>(s: seq<T>, item: T, lt: (T, T) -> bool)
    ensures Removed(Inserted(s, item, lt), Place(s, item, lt)) == s
  {
    hide Place;
    var k, r := Place(s, item, lt), Inserted(s, item, lt);
    assert r[..k] == s[..k] && r[k + 1..] == s[k..];
  }

  /** Removal takes away exactly one occurrence of the i-th element. */
  lemma RemovalContents<T>(s: seq<T>, i: nat)
    requires i < |s|
    ensures multiset(Removed(s, i)) == multiset(s) - multiset{s[i]}
  {
    assert s == s[..i] + [s[i]] + s[i + 1..];
  }

  /** A sorted array stays sorted under insertion and removal. */
  lemma OrderKept<T(!new)>(s: seq<T>, item: T, lt: (T, T) -> bool)
    requires StrictWeak(lt) && Ordered(s, lt)
    ensures Ordered(Inserted(s, item, lt), lt)
    ensures forall i | 0 <= i < |s| :: Ordered(Removed(s, i), lt)
  {
    var k := Place(s, item, lt);
    var r := Inserted(s, item, lt);
    forall i, j | 0 <= i < j < |r| ensures !lt(r[j], r[i]) {
      if j < k {
      } else if i < k && j > k {
        assert r[j] == s[j - 1] && r[i] == s[i];
      } else if i == k {
        var x, y := s[j - 1], s[k];
        assert r[j] == x && (lt(x, item) ==> lt(x, y) || lt(y, item));
      }
    }
  }

  /** Insertion of a new element keeps the elements distinct and adds just that one. */
  lemma InsertionMembers<T>(s: seq<T>, item: T, lt: (T, T) -> bool)
    ensures NoDuplicates(s) && item !in s ==> NoDuplicates(Inserted(s, item, lt))
    ensures forall x :: x in Inserted(s, item, lt) <==> x == item || x in s
  {
    var k := Place(s, item, lt);
    var r := Inserted(s, item, lt);
    forall x ensures x in r <==> x == item || x in s {
      assert s == s[..k] + s[k..];
      assert r[k] == item;
    }
  }

  /** Removal keeps the elements distinct and takes away just the i-th. */
  lemma RemovalMembers<T>(s: seq<T>, i: nat)
    requires NoDuplicates(s) && i < |s|
    ensures NoDuplicates(Removed(s, i))
    ensures forall x :: x in Removed(s, i) <==> x in s && x != s[i]
  {
    var r := Removed(s, i);
    forall x ensures x in r <==> x in s && x != s[i] {
      if x in s && x != s[i] {
        var j :| 0 <= j < |s| && s[j] == x;
        assert x == r[if j < i then j else j - 1];
      }
    }
  }

  /** `ordered_array_t`: a fixed buffer of which the first `size` slots are in use. */
  class OrderedArray {
    var items: array<nat>
    var size: nat

    ghost predicate Valid()
      reads this
    {
      size <= items.Length
    }

    ghost function Contents(): (s: seq<nat>)
      requires Valid()
      reads this, items
    {
      items[..size]
    }

    /** `place_ordered_array`: an empty array with room for `maxSize` pointers. */
    constructor (maxSize: nat)
      ensures Valid() && fresh(items) && items.Length == maxSize && Contents() == []
    {
      items := new nat[maxSize](_ => 0);
      size := 0;
    }

    /** `lookup_ordered_array`; its ASSERT is the precondition. */
    method Lookup(i: nat) returns (x: nat)
      requires Valid() && i < size
      ensures x == Contents()[i]
    {
      x := items[i];
    }

    /** `insert_ordered_array`. */
    method Insert(item: nat, lt: (nat, nat) -> bool)
      requires Valid() && size < items.Length
      modifies this`size, items
      ensures Valid() && Contents() == Inserted(old(Contents()), item, lt)
    {
      hide Place;
      ghost var was := Contents();
      var slot := 0;
      while slot < size && lt(items[slot], item)
        invariant slot <= size && forall j | 0 <= j < slot :: lt(was[j], item)
      {
        slot := slot + 1;
      }
      assert slot == Place(was, item, lt);
      if slot == size {
        items[size] := item;
        size := size + 1;
      } else {
        PutBefore(slot, item);
      }
    }

    /** The second loop of `insert_ordered_array`: the tail moves up one slot at a time through `tmp`. */
    method PutBefore(k: nat, item: nat)
      requires Valid() && k < size < items.Length
      modifies this`size, items
      ensures Valid() && Contents() == old(Contents())[..k] + [item] + old(Contents())[k..]
    {
      ghost var was := Contents();
      var slot := k;
      var tmp := items[slot];
      items[slot] := item;
      while slot < size
        invariant k <= slot <= size == |was|
        invariant slot < size ==> tmp == was[slot]
        invariant forall j | 0 <= j < k :: items[j] == was[j]
        invariant items[k] == item
        invariant forall j | k < j <= slot :: items[j] == was[j - 1]
        invariant forall j | slot < j < size :: items[j] == was[j]
      {
        slot := slot + 1;
        var tmp2 := items[slot];
        items[slot] := tmp;
        tmp := tmp2;
      }
      size := size + 1;
    }

    /** `remove_ordered_array`; the last step reads the slot just past the used part. */
    method Remove(i: nat)
      requires Valid() && i < size < items.Length
      modifies this`size, items
      ensures Valid() && Contents() == Removed(old(Contents()), i)
    {
      ghost var was := Contents();
      var k := i;
      while k < size
        invariant i <= k <= size == |was| && size < items.Length
        invariant forall j | 0 <= j < i :: items[j] == was[j]
        invariant forall j | i <= j < k && j + 1 < size :: items[j] == was[j + 1]
        invariant forall j | k <= j < size :: items[j] == was[j]
      {
        items[k] := items[k + 1];
        k := k + 1;
      }
      size := size - 1;
    }
  }
}
