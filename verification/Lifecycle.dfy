/**
 The life of vector elements.

 A vector keeps its elements in a buffer of bytes, which knows nothing of them. So `Vector` has to
 construct an element in a slot before anything is copied there, to destroy it before the slot is
 given up, and to move elements by hand when the buffer has to grow. The operations on slots ask
 for exactly that; the methods of the vector are proved to respect it.
 */
module Lifecycle {
  datatype Slot<T> = Unbuilt | Built(value: T)

  ghost predicate AllBuilt<T>(slots: seq<Slot<T>>, lo: nat, hi: nat) {
    hi <= |slots| && forall i :: lo <= i < hi ==> slots[i].Built?
  }

  ghost predicate AllUnbuilt<T>(slots: seq<Slot<T>>, lo: nat, hi: nat) {
    hi <= |slots| && forall i :: lo <= i < hi ==> slots[i] == Unbuilt
  }

  ghost function ValuesOf<T>(slots: seq<Slot<T>>): (r: seq<T>)
    requires AllBuilt(slots, 0, |slots|)
    ensures |r| == |slots| && forall i :: 0 <= i < |r| ==> slots[i] == Built(r[i])
  {
    seq(|slots|, i requires 0 <= i < |slots| => slots[i].value)
  }

  /** A buffer, by slots. */
  class Buffer<T(!new)> {
    var slots: seq<Slot<T>>
    const capacity: nat

    /** A new buffer of `size` slots, none of them in use. */
    constructor (size: nat)
      ensures AllUnbuilt(slots, 0, size) && |slots| == size && capacity == size
    {
      slots, capacity := seq(size, i => Unbuilt), size;
    }

    /** `Typelib::init`: only where there is no element yet. */
    method Init(i: nat, blank: T)
      requires i < |slots| && slots[i].Unbuilt?
      modifies this
      ensures slots == old(slots)[i := Built(blank)]
    {
      slots := slots[i := Built(blank)];
    }

    /** `Typelib::copy`: only onto an element. */
    method Assign(i: nat, value: T)
      requires i < |slots| && slots[i].Built?
      modifies this
      ensures slots == old(slots)[i := Built(value)]
    {
      slots := slots[i := Built(value)];
    }

    /** `Typelib::destroy`: only an element. */
    method Destroy(i: nat)
      requires i < |slots| && slots[i].Built?
      modifies this
      ensures slots == old(slots)[i := Unbuilt]
    {
      slots := slots[i := Unbuilt];
    }

    /** `std::vector::resize` within the capacity: no element may be in a slot that goes. */
    method SetSize(size: nat)
      requires size <= capacity && AllUnbuilt(slots, if size < |slots| then size else |slots|, |slots|)
      modifies this
      ensures |slots| == size && (forall i :: 0 <= i < size && i < |old(slots)| ==> slots[i] == old(slots)[i])
      ensures forall i :: |old(slots)| <= i < size ==> slots[i] == Unbuilt
    {
      if size <= |slots| {
        slots := slots[..size];
      } else {
        slots := slots + seq(size - |slots|, i => Unbuilt);
      }
    }

    /** The end of a buffer: no element may be left in it. */
    method Release()
      requires AllUnbuilt(slots, 0, |slots|)
    {
    }
  }

  /** The values after a change of size: the old ones as far as they go, then new elements. */
  function Refitted<T>(values: seq<T>, n: nat, blank: T): (r: seq<T>)
    ensures |r| == n
  {
    seq(n, i requires 0 <= i < n => if i < |values| then values[i] else blank)
  }

  class Vector<T(!new)> {
    var buffer: Buffer<T>
    const blank: T

    /** Every slot holds an element. */
    ghost predicate Valid()
      reads this, buffer
    {
      AllBuilt(buffer.slots, 0, |buffer.slots|) && |buffer.slots| <= buffer.capacity
    }

    ghost function Values(): seq<T>
      requires Valid()
      reads this, buffer
    {
      ValuesOf(buffer.slots)
    }

    constructor (blank: T)
      ensures Valid() && Values() == [] && this.blank == blank && fresh(buffer)
    {
      this.blank := blank;
      buffer := new Buffer<T>(0);
    }

    /**
     `Vector::resize` on elements that are not plain bytes. For every size and capacity it constructs
     only free slots, destroys only elements, and leaves nothing behind in a buffer it gives up. The
     buffer is the same unless it was too small.
     */
    method Resize(newSize: nat)
      requires Valid()
      modifies this, buffer
      ensures Valid() && Values() == Refitted(old(Values()), newSize, blank)
      ensures newSize <= old(buffer.capacity) ==> buffer == old(buffer)
      ensures newSize > old(buffer.capacity) ==> fresh(buffer) && AllUnbuilt(old(buffer).slots, 0, |old(buffer).slots|)
    {
      ghost var values := Values();
      var oldSize := |buffer.slots|;
      if oldSize > newSize {
        DestroyFrom(newSize);
      }
      if buffer.capacity >= newSize {
        buffer.SetSize(newSize);
      } else {
        MoveTo(newSize);
      }
      if oldSize < newSize {
        InitFrom(oldSize);
      }
      assert Values() == Refitted(values, newSize, blank);
    }

    /** Constructs the slots from `start` on. */
    method InitFrom(start: nat)
      requires start <= |buffer.slots| && AllUnbuilt(buffer.slots, start, |buffer.slots|)
      modifies buffer
      ensures |buffer.slots| == |old(buffer.slots)| && buffer.slots[..start] == old(buffer.slots)[..start]
      ensures forall i :: start <= i < |buffer.slots| ==> buffer.slots[i] == Built(blank)
    {
      for i := start to |buffer.slots|
        invariant |buffer.slots| == |old(buffer.slots)| && buffer.slots[..start] == old(buffer.slots)[..start]
        invariant forall k :: start <= k < i ==> buffer.slots[k] == Built(blank)
        invariant AllUnbuilt(buffer.slots, i, |buffer.slots|)
      {
        buffer.Init(i, blank);
      }
    }

    method DestroyFrom(start: nat)
      requires Valid() && start <= |buffer.slots|
      modifies buffer
      ensures |buffer.slots| == |old(buffer.slots)| && buffer.slots[..start] == old(buffer.slots)[..start]
      ensures AllUnbuilt(buffer.slots, start, |buffer.slots|)
    {
      for i := start to |buffer.slots|
        invariant |buffer.slots| == |old(buffer.slots)| && buffer.slots[..start] == old(buffer.slots)[..start]
        invariant AllUnbuilt(buffer.slots, start, i) && AllBuilt(buffer.slots, i, |buffer.slots|)
      {
        buffer.Destroy(i);
      }
    }

    /** The elements go to a larger buffer, one by one. */
    method MoveTo(newSize: nat)
      requires Valid() && |buffer.slots| <= newSize
      modifies this, buffer
      ensures fresh(buffer) && |buffer.slots| == newSize == buffer.capacity
      ensures forall i :: 0 <= i < |old(buffer.slots)| ==> buffer.slots[i] == old(buffer.slots)[i]
      ensures AllUnbuilt(buffer.slots, |old(buffer.slots)|, newSize)
      ensures AllUnbuilt(old(buffer).slots, 0, |old(buffer).slots|)
    {
      var larger := new Buffer<T>(newSize);
      for i := 0 to |buffer.slots|
        invariant buffer == old(buffer) && |buffer.slots| == |old(buffer.slots)| && |larger.slots| == newSize
        invariant forall k :: 0 <= k < i ==> larger.slots[k] == old(buffer.slots)[k] && buffer.slots[k] == Unbuilt
        invariant forall k :: i <= k < |buffer.slots| ==> buffer.slots[k] == old(buffer.slots)[k]
        invariant AllUnbuilt(larger.slots, i, newSize)
      {
        larger.Init(i, blank);
        larger.Assign(i, buffer.slots[i].value);
        buffer.Destroy(i);
      }
      buffer.Release();
      buffer := larger;
    }

    method Push(value: T)
      requires Valid()
      modifies this, buffer
      ensures Valid() && Values() == old(Values()) + [value]
    {
      var size := |buffer.slots|;
      Resize(size + 1);
      buffer.Assign(size, value);
    }

    /** `Vector::erase` at an index: the others move down, and the last slot goes. The buffer stays. */
    method EraseAt(idx: nat)
      requires Valid() && idx < |buffer.slots|
      modifies this, buffer
      ensures Valid() && Values() == old(Values())[..idx] + old(Values())[idx + 1..] && buffer == old(buffer)
    {
      ghost var values := Values();
      var count := |buffer.slots|;
      for i := idx to count - 1
        invariant Valid() && buffer == old(buffer) && |buffer.slots| == count
        invariant forall k :: 0 <= k < idx ==> buffer.slots[k] == Built(values[k])
        invariant forall k :: idx <= k < i ==> buffer.slots[k] == Built(values[k + 1])
        invariant forall k :: i < k < count ==> buffer.slots[k] == Built(values[k])
      {
        buffer.Assign(i, buffer.slots[i + 1].value);
      }
      Resize(count - 1);
    }

    /** `Vector::erase` of a value: the first element that `matches` it, if there is one. Elements that differ only in padding match. */
    method Erase(matches: T -> bool) returns (found: bool)
      requires Valid()
      modifies this, buffer
      ensures Valid() && (found <==> !NoneMatch(old(Values()), matches))
      ensures Values() == WithoutFirst(old(Values()), matches)
    {
      ghost var values := Values();
      for i := 0 to |buffer.slots|
        invariant Valid() && Values() == values && NoneMatch(values[..i], matches)
      {
        if matches(buffer.slots[i].value) {
          assert values[i] == buffer.slots[i].value;
          FirstAt(values, matches, i);
          EraseAt(i);
          return true;
        }
        assert values[..i + 1] == values[..i] + [values[i]];
      }
      assert values[..|values|] == values;
      NotThere(values, matches);
      return false;
    }

    /** `delete_if`: the elements that the predicate spares, in order. The buffer stays, so the address that the loop took before it started stays good. */
    method DeleteIf(doomed: T -> bool)
      requires Valid()
      modifies this, buffer
      ensures Valid() && Values() == Spared(old(Values()), doomed) && buffer == old(buffer)
    {
      ghost var values := Values();
      ghost var seen := 0;
      var count, i := |buffer.slots|, 0;
      while i < count
        invariant Valid() && 0 <= i <= count == |buffer.slots| && buffer == old(buffer)
        invariant seen + (count - i) == |values| && Sifted(values, Values(), i, seen, doomed)
        decreases count - i
      {
        ghost var now := Values();
        SiftedNext(values, now, i, seen, doomed);
        if doomed(buffer.slots[i].value) {
          EraseAt(i);
          count := count - 1;
        } else {
          i := i + 1;
        }
        seen := seen + 1;
      }
      assert values[..seen] == values && Values()[..i] == Values();
    }
  }

  /** The first `seen` values have been looked at, and `i` of them are left; the others are still there. */
  ghost predicate Sifted<T>(values: seq<T>, now: seq<T>, i: nat, seen: nat, doomed: T -> bool) {
    i <= |now| && seen <= |values| && now[i..] == values[seen..] && now[..i] == Spared(values[..seen], doomed)
  }

  lemma SiftedNext<T>(values: seq<T>, now: seq<T>, i: nat, seen: nat, doomed: T -> bool)
    requires Sifted(values, now, i, seen, doomed) && i < |now|
    ensures if doomed(now[i]) then Sifted(values, now[..i] + now[i + 1..], i, seen + 1, doomed) else Sifted(values, now, i + 1, seen + 1, doomed)
  {
    assert now[i] == now[i..][0] == values[seen..][0] == values[seen];
    assert now[i + 1..] == now[i..][1..] == values[seen..][1..] == values[seen + 1..];
    SparedNext(values, seen, doomed);
    var less := now[..i] + now[i + 1..];
    assert less[..i] == now[..i] && less[i..] == now[i + 1..];
    assert now[..i + 1] == now[..i] + [now[i]];
  }

  ghost predicate NoneMatch<T(!new)>(values: seq<T>, matches: T -> bool) {
    forall i :: 0 <= i < |values| ==> !matches(values[i])
  }

  /** `values` without the first that matches. */
  function WithoutFirst<T>(values: seq<T>, matches: T -> bool): seq<T> {
    if values == [] then [] else if matches(values[0]) then values[1..] else [values[0]] + WithoutFirst(values[1..], matches)
  }

  lemma {:induction false} FirstAt<T(!new)>(values: seq<T>, matches: T -> bool, i: nat)
    requires i < |values| && matches(values[i]) && NoneMatch(values[..i], matches)
    ensures WithoutFirst(values, matches) == values[..i] + values[i + 1..]
    decreases |values|
  {
    if i > 0 {
      assert !matches(values[..i][0]) && values[1..][..i - 1] == values[..i][1..];
      FirstAt(values[1..], matches, i - 1);
      assert [values[0]] + (values[1..][..i - 1] + values[1..][i..]) == values[..i] + values[i + 1..];
    }
  }

  lemma {:induction false} NotThere<T(!new)>(values: seq<T>, matches: T -> bool)
    requires NoneMatch(values, matches)
    ensures WithoutFirst(values, matches) == values
    decreases |values|
  {
    if values != [] {
      NotThere(values[1..], matches);
    }
  }

  function Spared<T>(values: seq<T>, doomed: T -> bool): seq<T> {
    if values == [] then []
    else
      var last := values[|values| - 1];
      Spared(values[..|values| - 1], doomed) + if doomed(last) then [] else [last]
  }

  lemma SparedNext<T>(values: seq<T>, i: nat, doomed: T -> bool)
    requires i < |values|
    ensures Spared(values[..i + 1], doomed) == Spared(values[..i], doomed) + if doomed(values[i]) then [] else [values[i]]
  {
    assert values[..i + 1][..i] == values[..i];
  }
}
