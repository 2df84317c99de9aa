/**
 * XArrayList: a growable contiguous buffer. Elements occupy positions
 * [0, count) of `data`; the buffer is replaced by a larger copy when an
 * insertion finds it full.
 */
module ArrayList {
  import opened ListSpec

  /** Capacity a fresh list and a cleared list start with. */
  const DefaultCapacity: int := 10

  /** One growth step: the capacity doubles. */
  function Doubled(capacity: int): (r: int)
  {
    capacity * 2
  }

  /**
   * The capacity `ensureCapacity(index)` settles on: keep doubling until the
   * capacity exceeds `index`.
   */
  function GrownCapacity(capacity: int, index: int): (r: int)
    requires 0 < capacity
    ensures r > index && r >= capacity
    ensures capacity > index ==> r == capacity
    ensures capacity <= index ==> r / 2 <= index
    decreases index - capacity
  {
    if capacity > index then capacity else GrownCapacity(Doubled(capacity), index)
  }

  /** `f` applied `steps` times to `x`. */
  function Iterate(f: int -> int, x: int, steps: nat): (r: int)
    decreases steps
  {
    if steps == 0 then x else Iterate(f, f(x), steps - 1)
  }

  /**
   * As the source is written, a list constructed with capacity 0 never
   * grows: however many rounds the doubling loop of `ensureCapacity` runs,
   * the capacity stays 0, so its condition `newCapacity <= index` still
   * holds for every index it accepts and the loop never exits; and the
   * growth step of `add` leaves no slot for the write at `data[count]`.
   */
  lemma {:induction false} ZeroCapacityNeverGrows(steps: nat, index: int, count: int)
    requires 0 <= index && count == 0
    ensures Iterate(Doubled, 0, steps) <= index
    ensures !(count < Doubled(0))
  {
    if steps > 0 {
      assert Iterate(Doubled, 0, steps) == Iterate(Doubled, Doubled(0), steps - 1);
      ZeroCapacityNeverGrows(steps - 1, index, count);
    }
  }

  /**
   * From a positive capacity, finitely many doublings reach the capacity
   * `ensureCapacity` settles on, which exceeds the requested index.
   */
  lemma {:induction false} PositiveCapacityGrows(capacity: int, index: int)
    requires 0 < capacity
    ensures exists steps: nat :: Iterate(Doubled, capacity, steps) == GrownCapacity(capacity, index)
    decreases index - capacity
  {
    if capacity > index {
      assert Iterate(Doubled, capacity, 0) == capacity;
    } else {
      PositiveCapacityGrows(Doubled(capacity), index);
      var steps: nat :| Iterate(Doubled, Doubled(capacity), steps) == GrownCapacity(Doubled(capacity), index);
      assert Iterate(Doubled, capacity, steps + 1) == Iterate(Doubled, Doubled(capacity), steps);
    }
  }

  class XArrayList<T(0, ==)> {
    var data: array<T>
    var capacity: int
    var count: int
    var itemEqual: Option<(T, T) -> bool>
    /** The abstract contents. */
    ghost var elems: seq<T>

    ghost predicate Valid()
      reads this, data
    {
      0 <= count <= capacity && capacity == data.Length && 0 < capacity &&
      elems == data[..count]
    }

    /** A list with no elements and a buffer of `capacity` slots. */
    constructor (itemEqual: Option<(T, T) -> bool>, capacity: int)
      requires 0 < capacity
      ensures Valid() && fresh(data)
      ensures elems == [] && this.capacity == capacity && this.itemEqual == itemEqual
    {
      this.itemEqual := itemEqual;
      this.capacity := capacity;
      count := 0;
      data := new T[capacity];
      elems := [];
    }

    /** Copy constructor: same elements, capacity and equality, in a buffer of its own. */
    constructor Copy(list: XArrayList<T>)
      requires list.Valid()
      ensures Valid() && fresh(data)
      ensures elems == list.elems && capacity == list.capacity && itemEqual == list.itemEqual
    {
      var newData := new T[list.capacity];
      var i := 0;
      while i < list.count
        invariant 0 <= i <= list.count
        invariant newData[..i] == list.data[..i]
      {
        newData[i] := list.data[i];
        i := i + 1;
      }
      capacity := list.capacity;
      count := list.count;
      itemEqual := list.itemEqual;
      data := newData;
      elems := list.elems;
      new;
      assert data[..count] == list.data[..list.count];
    }

    /** `operator=`: become a copy of `list`; assigning a list to itself changes nothing. */
    method Assign(list: XArrayList<T>)
      requires Valid() && list.Valid()
      modifies this
      ensures Valid()
      ensures elems == old(list.elems) && capacity == old(list.capacity) && itemEqual == old(list.itemEqual)
      ensures list != this ==> fresh(data)
      ensures list == this ==> data == old(data)
    {
      if this != list {
        var newData := new T[list.capacity];
        var i := 0;
        while i < list.count
          modifies newData
          invariant 0 <= i <= list.count
          invariant newData[..i] == list.data[..i]
        {
          newData[i] := list.data[i];
          i := i + 1;
        }
        capacity := list.capacity;
        count := list.count;
        itemEqual := list.itemEqual;
        data := newData;
        elems := list.elems;
        assert data[..count] == list.data[..list.count];
      }
    }

    /** Move the elements into a fresh buffer of `newCapacity` slots. */
    method Reallocate(newCapacity: int)
      requires Valid() && count <= newCapacity && 0 < newCapacity
      modifies this
      ensures Valid() && fresh(data)
      ensures capacity == newCapacity && count == old(count) && elems == old(elems)
      ensures itemEqual == old(itemEqual)
    {
      var newData := new T[newCapacity];
      var i := 0;
      while i < count
        modifies newData
        invariant 0 <= i <= count
        invariant newData[..i] == data[..i]
      {
        newData[i] := data[i];
        i := i + 1;
      }
      assert newData[..count] == data[..count];
      data := newData;
      capacity := newCapacity;
    }

    /** `add(e)`: append, doubling the capacity first when the buffer is full. */
    method Add(e: T)
      requires Valid()
      modifies this, data
      ensures Valid() && itemEqual == old(itemEqual)
      ensures elems == old(elems) + [e]
      ensures capacity == if old(count) == old(capacity) then Doubled(old(capacity)) else old(capacity)
      ensures data == old(data) || fresh(data)
    {
      if count == capacity {
        Reallocate(Doubled(capacity));
      }
      data[count] := e;
      count := count + 1;
      elems := elems + [e];
      assert data[..count] == old(elems) + [e];
    }

    /**
     * `add(index, e)`: insert before position `index`, shifting the later
     * elements one slot right; fails outside [0, count].
     */
    method Insert(index: int, e: T) returns (r: Outcome)
      requires Valid()
      modifies this, data
      ensures Valid() && itemEqual == old(itemEqual)
      ensures r.Fail? <==> index < 0 || index > old(count)
      ensures r.Fail? ==> elems == old(elems) && capacity == old(capacity) && data == old(data) && data[..] == old(data[..])
      ensures r.Pass? ==> elems == Inserted(old(elems), index, e)
      ensures r.Pass? ==> capacity == if old(count) == old(capacity) then Doubled(old(capacity)) else old(capacity)
      ensures data == old(data) || fresh(data)
    {
      if index < 0 || index > count {
        return Fail(OutOfRange);
      }
      if count == capacity {
        Reallocate(Doubled(capacity));
      }
      var i := count;
      while i > index
        modifies data
        invariant index <= i <= count < data.Length
        invariant forall k :: 0 <= k < i ==> data[k] == elems[k]
        invariant forall k :: i < k <= count ==> data[k] == elems[k - 1]
      {
        data[i] := data[i - 1];
        i := i - 1;
      }
      data[index] := e;
      count := count + 1;
      elems := Inserted(elems, index, e);
      assert data[..count] == elems;
      r := Pass;
    }

    /**
     * `removeAt(index)`: return the element at `index` and shift the later
     * elements one slot left; fails outside [0, count).
     */
    method RemoveAt(index: int) returns (r: Result<T>)
      requires Valid()
      modifies data, this`count, this`elems
      ensures Valid()
      ensures r.Err? <==> index < 0 || index >= old(count)
      ensures r.Err? ==> elems == old(elems) && data[..] == old(data[..])
      ensures r.Ok? ==> r.value == old(elems)[index] && elems == Removed(old(elems), index)
      ensures capacity == old(capacity) && data == old(data)
    {
      if index < 0 || index >= count {
        return Err(OutOfRange);
      }
      var removed := data[index];
      var i := index;
      while i < count - 1
        modifies data
        invariant index <= i <= count - 1 || (count == 0 && i == index)
        invariant forall k :: 0 <= k < index ==> data[k] == elems[k]
        invariant forall k :: index <= k < i ==> data[k] == elems[k + 1]
        invariant forall k :: i <= k < count ==> data[k] == elems[k]
      {
        data[i] := data[i + 1];
        i := i + 1;
      }
      count := count - 1;
      elems := Removed(elems, index);
      assert data[..count] == elems;
      r := Ok(removed);
    }

    /**
     * `removeItem(item)`: remove the first element equal to `item` and report
     * whether there was one.
     */
    method RemoveItem(item: T) returns (removed: bool)
      requires Valid()
      modifies data, this`count, this`elems
      ensures Valid()
      ensures removed <==> FirstMatch(old(elems), item, itemEqual) != -1
      ensures elems == RemovedFirst(old(elems), item, itemEqual)
    {
      var i := 0;
      while i < count
        invariant 0 <= i <= count
        invariant forall k :: 0 <= k < i ==> !Equals(elems[k], item, itemEqual)
      {
        if Equals(data[i], item, itemEqual) {
          var _ := RemoveAt(i);
          return true;
        }
        i := i + 1;
      }
      return false;
    }

    /** `empty()`. */
    method Empty() returns (r: bool)
      requires Valid()
      ensures r <==> elems == []
    {
      r := count == 0;
    }

    /** `size()`. */
    method Size() returns (n: int)
      requires Valid()
      ensures n == |elems|
    {
      n := count;
    }

    /** `clear()`: drop every element and return to a fresh buffer of the default capacity. */
    method Clear()
      requires Valid()
      modifies this
      ensures Valid() && fresh(data) && itemEqual == old(itemEqual)
      ensures elems == [] && capacity == DefaultCapacity
    {
      count := 0;
      capacity := DefaultCapacity;
      data := new T[capacity];
      elems := [];
    }

    /** `get(index)`: the element at `index`; fails outside [0, count). */
    method Get(index: int) returns (r: Result<T>)
      requires Valid()
      ensures r.Err? <==> index < 0 || index >= |elems|
      ensures r.Ok? ==> r.value == elems[index]
    {
      if index < 0 || index >= count {
        return Err(OutOfRange);
      }
      r := Ok(data[index]);
    }

    /** `indexOf(item)`: the first matching position, or -1. */
    method IndexOf(item: T) returns (r: int)
      requires Valid()
      ensures r == FirstMatch(elems, item, itemEqual)
    {
      var i := 0;
      while i < count
        invariant 0 <= i <= count
        invariant forall k :: 0 <= k < i ==> !Equals(elems[k], item, itemEqual)
      {
        if Equals(data[i], item, itemEqual) {
          return i;
        }
        i := i + 1;
      }
      return -1;
    }

    /** `contains(item)`: whether some element equals `item`. */
    method Contains(item: T) returns (r: bool)
      requires Valid()
      ensures r <==> exists k :: 0 <= k < |elems| && Equals(elems[k], item, itemEqual)
      ensures r <==> FirstMatch(elems, item, itemEqual) != -1
    {
      var k := IndexOf(item);
      r := k != -1;
    }

    /** `toString(item2str)`: "[e0, e1, ...]" with each element rendered by `render`. */
    method ToString(render: T -> string) returns (s: string)
      requires Valid()
      ensures s == Render(elems, render)
    {
      s := "[";
      var i := 0;
      while i < count
        invariant 0 <= i <= count
        invariant s == "[" + Join(Parts(elems[..i], render))
      {
        if i > 0 {
          s := s + ", ";
        }
        RenderStep(elems, i, render, s);
        s := s + render(data[i]);
        i := i + 1;
      }
      assert elems[..count] == elems;
      s := s + "]";
    }

    /** `checkIndex(index)`: fails exactly when `index` is outside [0, count). */
    method CheckIndex(index: int) returns (r: Outcome)
      requires Valid()
      ensures r.Fail? <==> index < 0 || index >= |elems|
    {
      if index < 0 || index >= count {
        return Fail(OutOfRange);
      }
      return Pass;
    }

    /**
     * `ensureCapacity(index)`: fails for a negative index; otherwise doubles
     * the capacity until it exceeds `index`, keeping the elements.
     */
    method EnsureCapacity(index: int) returns (r: Outcome)
      requires Valid()
      modifies this
      ensures Valid() && elems == old(elems) && itemEqual == old(itemEqual)
      ensures r.Fail? <==> index < 0
      ensures r.Fail? ==> capacity == old(capacity) && data == old(data)
      ensures r.Pass? ==> capacity == GrownCapacity(old(capacity), index) && capacity > index
      ensures old(capacity) > index ==> data == old(data)
      ensures data == old(data) || fresh(data)
    {
      if index < 0 {
        return Fail(OutOfRange);
      }
      if index >= capacity {
        var newCapacity := capacity;
        while newCapacity <= index
          invariant 0 < newCapacity
          invariant GrownCapacity(newCapacity, index) == GrownCapacity(capacity, index)
          decreases index - newCapacity
        {
          newCapacity := Doubled(newCapacity);
        }
        Reallocate(newCapacity);
      }
      r := Pass;
    }

    /** `begin()`: an iterator at position 0. */
    method Begin() returns (it: Iterator<T>)
      ensures fresh(it) && it.list == this && it.cursor == 0
    {
      it := new Iterator(this, 0);
    }

    /** `end()`: an iterator at position `count`. */
    method End() returns (it: Iterator<T>)
      ensures fresh(it) && it.list == this && it.cursor == count
    {
      it := new Iterator(this, count);
    }
  }

  /** An index cursor over an XArrayList. */
  class Iterator<T(0, ==)> {
    var list: XArrayList<T>
    var cursor: int

    constructor (list: XArrayList<T>, index: int)
      ensures this.list == list && cursor == index
    {
      this.list := list;
      cursor := index;
    }

    /**
     * `remove()`: remove the element under the cursor and step the cursor
     * back one place, so that the next `++` reaches the element that
     * followed the removed one.
     */
    method Remove() returns (r: Outcome)
      requires list.Valid()
      modifies this, list`count, list`elems, list.data
      ensures list == old(list) && list.Valid()
      ensures list.data == old(list.data) && list.capacity == old(list.capacity) && list.itemEqual == old(list.itemEqual)
      ensures r.Fail? <==> old(cursor) < 0 || old(cursor) >= |old(list.elems)|
      ensures r.Fail? ==> cursor == old(cursor) && list.elems == old(list.elems) && list.data[..] == old(list.data[..])
      ensures r.Pass? ==> cursor == old(cursor) - 1 && list.elems == Removed(old(list.elems), old(cursor))
      ensures r.Pass? && cursor + 1 < |list.elems| ==> list.elems[cursor + 1] == old(list.elems)[old(cursor) + 1]
    {
      var item := list.RemoveAt(cursor);
      if item.Err? {
        return Fail(OutOfRange);
      }
      cursor := cursor - 1;
      r := Pass;
    }

    /** `operator*`: the element under the cursor. */
    method Current() returns (x: T)
      requires list.Valid() && 0 <= cursor < |list.elems|
      ensures x == list.elems[cursor]
    {
      x := list.data[cursor];
    }

    /** `operator!=`: iterators differ when their cursors do. */
    method NotEqual(other: Iterator<T>) returns (r: bool)
      ensures r <==> cursor != other.cursor
    {
      r := cursor != other.cursor;
    }

    /** `operator++`: advance to the next position. */
    method Next()
      modifies this
      ensures list == old(list) && cursor == old(cursor) + 1
    {
      cursor := cursor + 1;
    }
  }
}
