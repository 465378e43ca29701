/** The growable vector over an allocated block of slots. */
module Vector {

  const INITIAL_CAPACITY := 8
  const GROWTH_FACTOR := 2

  predicate PowerOfTwo(n: int) {
    n == 1 || (n > 1 && n % 2 == 0 && PowerOfTwo(n / 2))
  }

  /** get_new_capacity: the least power of two that is large enough. */
  method GetNewCapacity(target: nat) returns (c: nat)
    ensures PowerOfTwo(c) && c >= target && (c == 1 || c / 2 < target)
  {
    c := 1;
    while c < target
      invariant PowerOfTwo(c) && (c == 1 || c / 2 < target)
    {
      c := c * GROWTH_FACTOR;
    }
  }

  /** Two powers of two are a factor of two apart or more. */
  lemma {:induction false} PowersApart(a: int, b: int)
    requires PowerOfTwo(a) && PowerOfTwo(b) && a < b
    ensures 2 * a <= b
  {
    if a > 1 {
      PowersApart(a / 2, b / 2);
    }
  }

  class Vector<T(0)> {
    var slots: array<T>
    var size: nat
    var capacity: nat
    const defaultElement: T
    /** Slots copied by reallocation so far. */
    ghost var copied: nat

    ghost predicate Valid()
      reads this
    {
      slots.Length == capacity && size <= capacity && PowerOfTwo(capacity)
    }

    ghost function Contents(): seq<T>
      requires Valid()
      reads this, slots
    {
      slots[..size]
    }

    constructor (defaultElement: T)
      ensures Valid() && fresh(slots) && Contents() == [] && copied == 0 && capacity == INITIAL_CAPACITY
    {
      this.defaultElement := defaultElement;
      size, capacity, copied := 0, INITIAL_CAPACITY, 0;
      slots := new T[INITIAL_CAPACITY];
    }

    method Reserve(n: nat)
      requires Valid()
      modifies this
      ensures Valid() && Contents() == old(Contents()) && size == old(size) && capacity >= n
      ensures n <= old(capacity) ==> slots == old(slots) && capacity == old(capacity) && copied == old(copied)
      ensures n > old(capacity) ==> fresh(slots) && capacity / 2 < n && copied == old(copied) + old(capacity)
    {
      if n <= capacity {
        return;
      }
      var c := GetNewCapacity(n);
      var bigger := new T[c];
      forall i | 0 <= i < capacity {
        bigger[i] := slots[i];
      }
      copied := copied + capacity;
      slots, capacity := bigger, c;
    }

    method Resize(n: nat)
      requires Valid()
      modifies this, slots
      ensures Valid() && (slots == old(slots) || fresh(slots))
      ensures Contents() == if n <= old(size) then old(Contents())[..n] else old(Contents()) + seq(n - old(size), _ => defaultElement)
      ensures n <= old(capacity) ==> slots == old(slots) && capacity == old(capacity) && copied == old(copied)
      ensures n > old(capacity) ==> fresh(slots) && capacity / 2 < n && copied == old(copied) + old(capacity)
    {
      if n > size {
        Reserve(n);
        ghost var before := slots[..size];
        for i := size to n
          invariant Valid() && size == old(size) && slots[..i] == before + seq(i - size, _ => defaultElement)
          modifies slots
        {
          slots[i] := defaultElement;
        }
      }
      size := n;
    }

    method PushBack(element: T)
      requires Valid()
      modifies this, slots
      ensures Valid() && (slots == old(slots) || fresh(slots)) && Contents() == old(Contents()) + [element]
      ensures old(size) < old(capacity) ==> capacity == old(capacity) && copied == old(copied)
      ensures old(size) == old(capacity) ==> capacity == 2 * old(capacity) && copied == old(copied) + old(capacity)
    {
      Resize(size + 1);
      slots[size - 1] := element;
      if old(size) == old(capacity) {
        PowersApart(old(capacity), capacity);
      }
    }

    method PopBack()
      requires Valid() && size > 0
      modifies this, slots
      ensures Valid() && slots == old(slots) && Contents() == old(Contents())[..old(size) - 1]
    {
      Resize(size - 1);
    }

    method Set(position: nat, element: T)
      requires Valid() && position < size
      modifies slots
      ensures Valid() && Contents() == old(Contents())[position := element]
    {
      slots[position] := element;
    }

    /** The loop of vector_insert. */
    method ShiftUp(position: nat)
      requires Valid() && position < size
      modifies slots
      ensures Valid() && Contents()[..position] == old(Contents())[..position]
      ensures Contents()[position + 1..] == old(Contents())[position..size - 1]
    {
      var i := size - 1;
      while i > position
        invariant position <= i < size
        invariant forall k | 0 <= k <= i :: slots[k] == old(slots[k])
        invariant forall k | i < k < size :: slots[k] == old(slots[k - 1])
        modifies slots
      {
        slots[i] := slots[i - 1];
        i := i - 1;
      }
    }

    method Insert(position: nat, element: T)
      requires Valid() && position <= size
      modifies this, slots
      ensures Valid() && (slots == old(slots) || fresh(slots))
      ensures Contents() == old(Contents())[..position] + [element] + old(Contents())[position..]
    {
      ghost var before := Contents();
      Resize(size + 1);
      assert Contents()[..position] == before[..position] && Contents()[position..size - 1] == before[position..];
      ShiftUp(position);
      slots[position] := element;
      assert Contents()[..position] == before[..position] && Contents()[position + 1..] == before[position..];
    }

    /** vector_erase. The shifting loop also reads the slot after the last element; outside is what is found
        there when that lies beyond the allocation. */
    method Erase(position: nat, outside: T) returns (readsOutside: bool)
      requires Valid() && position < size
      modifies this, slots
      ensures Valid() && slots == old(slots)
      ensures Contents() == old(Contents())[..position] + old(Contents())[position + 1..]
      ensures readsOutside <==> old(size) == old(capacity)
    {
      ghost var before := Contents();
      readsOutside := false;
      for i := position to size
        invariant Valid() && slots == old(slots) && size == |before| && (readsOutside <==> i == capacity)
        invariant forall k | 0 <= k < i && k < size - 1 :: slots[k] == before[if k < position then k else k + 1]
        invariant forall k | i <= k < size :: slots[k] == before[k]
        modifies slots
      {
        if i + 1 < capacity {
          slots[i] := slots[i + 1];
        } else {
          slots[i] := outside;
          readsOutside := true;
        }
      }
      Resize(size - 1);
      assert Contents() == before[..position] + before[position + 1..];
    }
  }

  /** The eight elements of a full first block: erasing one of them reads the slot behind the block. */
  method EraseFromFull(outside: int) returns (v: Vector<int>, readsOutside: bool)
    ensures readsOutside && v.Valid() && v.Contents() == [1, 2, 3, 4, 5, 6, 7]
  {
    v := new Vector<int>(0);
    for i := 0 to INITIAL_CAPACITY
      invariant fresh(v) && v.Valid() && fresh(v.slots) && v.capacity == INITIAL_CAPACITY && v.size == i
      invariant forall k | 0 <= k < i :: v.Contents()[k] == k
    {
      v.PushBack(i);
    }
    readsOutside := v.Erase(0, outside);
  }

  /** Amortised growth: appending n elements to a fresh vector copies fewer than 2n slots in all. */
  method AppendAll<T(0)>(v: Vector<T>, items: seq<T>)
    requires v.Valid() && v.size == 0 && v.copied == 0 && v.capacity == INITIAL_CAPACITY
    modifies v, v.slots
    ensures v.Valid() && v.Contents() == items
    ensures items != [] ==> v.copied < 2 * |items|
  {
    for i := 0 to |items|
      invariant v.Valid() && v.Contents() == items[..i] && (v.slots == old(v.slots) || fresh(v.slots))
      invariant v.copied + INITIAL_CAPACITY == v.capacity && (v.copied == 0 || v.capacity < 2 * i)
    {
      v.PushBack(items[i]);
    }
  }
}
