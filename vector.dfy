/**
 * The type-erased growable array used by every collection of the server
 * (blackhole2/src/container/vector.h and vector.c).
 *
 * The C struct holds `elem_size`, `capacity`, `length`, a nullable
 * `free_func` and the heap buffer `ptr`.  Here the buffer is an `array<T>`
 * whose length is always `capacity`; the live elements are its first
 * `length` slots (the ghost `Contents`), and the slots past `length` keep
 * whatever stale values the C buffer would keep (realloc and memmove carry
 * them along).  The free function is represented by whether it is set
 * (`hasFreeFunc`) and by the ghost log `Freed` of every element handed to it.
 * A pointer into the buffer is modelled by the element (or the index) it
 * designates.
 */
module Vectors {

  datatype Option<T> = None | Some(value: T)

  /** `s` without its element at `i`. */
  function RemoveAt<T>(s: seq<T>, i: nat): (r: seq<T>)
    requires i < |s|
    ensures |r| == |s| - 1
    ensures forall k :: 0 <= k < i ==> r[k] == s[k]
    ensures forall k :: i <= k < |r| ==> r[k] == s[k + 1]
  {
    s[..i] + s[i + 1..]
  }

  /** `s` with every element replaced by its image under `f`. */
  function MapSeq<T>(f: T -> T, s: seq<T>): (r: seq<T>)
    ensures |r| == |s|
    ensures forall k :: 0 <= k < |s| ==> r[k] == f(s[k])
  {
    if s == [] then [] else [f(s[0])] + MapSeq(f, s[1..])
  }

  /** The capacity after one `Vector_Expand`: 1 from 0, doubled otherwise. */
  function Grown(c: nat): nat
  {
    if c == 0 then 1 else 2 * c
  }

  /** The capacity `Vector_ExpandUntil(size)` reaches from capacity `c`. */
  function GrowTo(c: nat, size: nat): nat
    decreases size - c
  {
    if c >= size then c else GrowTo(Grown(c), size)
  }

  ghost predicate IsPowerOfTwo(n: nat)
    decreases n
  {
    n == 1 || (n > 1 && n % 2 == 0 && IsPowerOfTwo(n / 2))
  }

  /** Expanding until `size` never shrinks and always reaches `size`. */
  lemma {:induction false} GrowToBounds(c: nat, size: nat)
    ensures GrowTo(c, size) >= size && GrowTo(c, size) >= c
    ensures c >= size ==> GrowTo(c, size) == c
    decreases size - c
  {
    if c < size {
      GrowToBounds(Grown(c), size);
    }
  }

  /** Expanding a vector that has to grow overshoots `size` by less than a factor of two. */
  lemma {:induction false} GrowToTight(c: nat, size: nat)
    requires c < size
    ensures GrowTo(c, size) < 2 * size
    decreases size - c
  {
    if Grown(c) < size {
      GrowToTight(Grown(c), size);
    }
  }

  /** Starting from capacity 0 or a power of two, expanding only ever yields 0 or a power of two. */
  lemma {:induction false} GrowToPowerOfTwo(c: nat, size: nat)
    requires c == 0 || IsPowerOfTwo(c)
    ensures GrowTo(c, size) == 0 || IsPowerOfTwo(GrowTo(c, size))
    decreases size - c
  {
    if c < size {
      var g := Grown(c);
      assert IsPowerOfTwo(g) by {
        if c != 0 {
          assert g / 2 == c;
        }
      }
      GrowToPowerOfTwo(g, size);
    }
  }

  class Vector<T(0)> {
    ghost var Contents: seq<T>
    ghost var Freed: seq<T>
    ghost var Repr: set<object>

    var buf: array<T>
    var length: nat
    var capacity: nat
    const elemSize: nat
    const hasFreeFunc: bool

    ghost predicate Valid()
      reads this, Repr
      ensures Valid() ==> this in Repr
    {
      Repr == {this, buf} &&
      buf.Length == capacity && length <= capacity &&
      Contents == buf[..length]
    }

    /** `Vector_Create` and `Vector_CreateS`: empty, no buffer. */
    constructor Create(elemSize: nat, hasFreeFunc: bool)
      ensures Valid() && fresh(Repr)
      ensures Contents == [] && Freed == []
      ensures length == 0 && capacity == 0
      ensures this.elemSize == elemSize && this.hasFreeFunc == hasFreeFunc
    {
      this.elemSize := elemSize;
      this.hasFreeFunc := hasFreeFunc;
      length := 0;
      capacity := 0;
      buf := new T[0];
      Contents := [];
      Freed := [];
      new;
      Repr := {this, buf};
    }

    /** `Vector_First`: the slot at the start of the buffer. */
    method First() returns (x: T)
      requires Valid() && 0 < length
      ensures x == Contents[0]
    {
      x := buf[0];
    }

    /** `Vector_Last`: the last live element, or NULL for an empty vector. */
    method Last() returns (r: Option<T>)
      requires Valid()
      ensures r.None? <==> length == 0
      ensures r.Some? ==> r.value == Contents[length - 1]
    {
      if length == 0 {
        return None;
      }
      r := Some(buf[length - 1]);
    }

    /** `Vector_PtrAt`: no clamping and no bounds check, so the index must be live. */
    method PtrAt(index: nat) returns (x: T)
      requires Valid() && index < length
      ensures x == Contents[index]
    {
      x := buf[index];
    }

    /** `Vector_Find`: the index of the first element `cmp` accepts, if any. */
    method Find(elem: T, cmp: (T, T) -> bool) returns (r: Option<nat>)
      requires Valid()
      ensures r.Some? ==> r.value < length && cmp(Contents[r.value], elem)
      ensures r.Some? ==> forall j :: 0 <= j < r.value ==> !cmp(Contents[j], elem)
      ensures r.None? <==> forall j :: 0 <= j < length ==> !cmp(Contents[j], elem)
    {
      if length == 0 {
        return None;
      }
      var i := 0;
      while i < length
        invariant 0 <= i <= length
        invariant forall j :: 0 <= j < i ==> !cmp(Contents[j], elem)
      {
        if cmp(buf[i], elem) {
          return Some(i);
        }
        i := i + 1;
      }
      r := None;
    }

    /** `Vector_Expand`: the C code tests `capacity` (not `length`) for the first growth. */
    method Expand()
      requires Valid()
      modifies Repr
      ensures Valid() && fresh(Repr - old(Repr))
      ensures capacity == Grown(old(capacity))
      ensures length == old(length) && Contents == old(Contents) && Freed == old(Freed)
      ensures buf[..old(capacity)] == old(buf[..])
    {
      var newCap := Grown(capacity);
      var nb := new T[newCap];
      forall k | 0 <= k < capacity {
        nb[k] := buf[k];
      }
      assert nb[..capacity] == buf[..];
      assert nb[..length] == buf[..length];
      buf := nb;
      capacity := newCap;
      Repr := {this, buf};
    }

    /** `Vector_ExpandUntil`: expand until the capacity reaches `size`. */
    method ExpandUntil(size: nat)
      requires Valid()
      modifies Repr
      ensures Valid() && fresh(Repr - old(Repr))
      ensures capacity == GrowTo(old(capacity), size)
      ensures capacity >= size && capacity >= old(capacity)
      ensures length == old(length) && Contents == old(Contents) && Freed == old(Freed)
      ensures buf[..old(capacity)] == old(buf[..])
    {
      GrowToBounds(capacity, size);
      while capacity < size
        invariant Valid() && fresh(Repr - old(Repr))
        invariant GrowTo(capacity, size) == GrowTo(old(capacity), size)
        invariant old(capacity) <= capacity
        invariant length == old(length) && Contents == old(Contents) && Freed == old(Freed)
        invariant buf[..old(capacity)] == old(buf[..])
        decreases size - capacity
      {
        ghost var before := buf[..];
        Expand();
        assert buf[..old(capacity)] == before[..old(capacity)];
      }
    }

    /** `Vector_ShrinkToFit`: capacity becomes the length; at length 0 the buffer is dropped. */
    method ShrinkToFit()
      requires Valid()
      modifies Repr
      ensures Valid() && fresh(Repr - old(Repr))
      ensures capacity == old(length)
      ensures length == old(length) && Contents == old(Contents) && Freed == old(Freed)
    {
      if capacity > length && length > 0 {
        var nb := new T[length];
        forall k | 0 <= k < length {
          nb[k] := buf[k];
        }
        assert nb[..] == buf[..length];
        buf := nb;
        capacity := length;
        Repr := {this, buf};
      } else if capacity > 0 && length == 0 {
        // free(ptr): the C struct keeps the dangling pointer, the model an empty buffer
        buf := new T[0];
        capacity := 0;
        Repr := {this, buf};
      }
    }

    /**
     * `Vector_Walk`: apply `func` to every live element in index order.
     * `visited` is the sequence of elements `func` was given.
     */
    method Walk(func: T -> T) returns (ghost visited: seq<T>)
      requires Valid()
      modifies Repr
      ensures Valid() && Repr == old(Repr) && buf == old(buf)
      ensures visited == old(Contents)
      ensures Contents == MapSeq(func, old(Contents))
      ensures length == old(length) && capacity == old(capacity) && Freed == old(Freed)
    {
      visited := [];
      if length == 0 {
        return;
      }
      var i := 0;
      while i < length
        invariant 0 <= i <= length
        invariant buf == old(buf) && length == old(length) && capacity == old(capacity)
        invariant Repr == old(Repr) && Freed == old(Freed)
        invariant visited == old(Contents)[..i]
        invariant forall k :: 0 <= k < i ==> buf[k] == func(old(buf[k]))
        invariant forall k :: i <= k < buf.Length ==> buf[k] == old(buf[k])
      {
        visited := visited + [buf[i]];
        buf[i] := func(buf[i]);
        i := i + 1;
      }
      Contents := buf[..length];
    }

    /** `Vector_Clear`: hand every live element to the free function, then empty the vector. */
    method Clear()
      requires Valid()
      modifies Repr
      ensures Valid() && Repr == old(Repr)
      ensures Contents == [] && capacity == old(capacity)
      ensures Freed == old(Freed) + (if hasFreeFunc then old(Contents) else [])
    {
      if hasFreeFunc {
        var visited := Walk(x => x);
        Freed := Freed + visited;
      }
      length := 0;
      Contents := [];
    }

    /** `Vector_Insert`: shift the tail up by one; an index past the end pushes. */
    method Insert(index: nat, elem: T)
      requires Valid()
      modifies Repr
      ensures Valid() && fresh(Repr - old(Repr))
      ensures index < old(length) ==>
                Contents == old(Contents)[..index] + [elem] + old(Contents)[index..]
      ensures index >= old(length) ==> Contents == old(Contents) + [elem]
      ensures capacity == GrowTo(old(capacity), old(length) + 1)
      ensures Freed == old(Freed)
    {
      if index >= length {
        Push(elem);
      } else {
        ExpandUntil(length + 1);
        forall k | index < k <= length {
          buf[k] := buf[k - 1];
        }
        buf[index] := elem;
        length := length + 1;
        Contents := Contents[..index] + [elem] + Contents[index..];
        assert Contents == buf[..length];
      }
    }

    /** `Vector_Replace`: free the old element and overwrite it; an index past the end pushes. */
    method Replace(index: nat, elem: T)
      requires Valid()
      modifies Repr
      ensures Valid() && fresh(Repr - old(Repr))
      ensures index < old(length) ==>
                Contents == old(Contents)[index := elem] && capacity == old(capacity) &&
                Freed == old(Freed) + (if hasFreeFunc then [old(Contents)[index]] else [])
      ensures index >= old(length) ==>
                Contents == old(Contents) + [elem] && Freed == old(Freed) &&
                capacity == GrowTo(old(capacity), old(length) + 1)
    {
      if index >= length {
        Push(elem);
      } else {
        if hasFreeFunc {
          Freed := Freed + [buf[index]];
        }
        buf[index] := elem;
        Contents := Contents[index := elem];
      }
    }

    /** `Vector_Delete`: free the element and shift the tail down; an index past the end does nothing. */
    method Delete(index: nat)
      requires Valid()
      modifies Repr
      ensures Valid() && Repr == old(Repr) && capacity == old(capacity)
      ensures index < old(length) ==>
                Contents == RemoveAt(old(Contents), index) &&
                Freed == old(Freed) + (if hasFreeFunc then [old(Contents)[index]] else [])
      ensures index >= old(length) ==> Contents == old(Contents) && Freed == old(Freed)
    {
      if index >= length {
        return;
      }
      if hasFreeFunc {
        Freed := Freed + [buf[index]];
      }
      forall k | index <= k < length - 1 {
        buf[k] := buf[k + 1];
      }
      length := length - 1;
      Contents := RemoveAt(Contents, index);
      assert Contents == buf[..length];
    }

    /**
     * `Vector_Take`: remove the element at `index`, delivering it to the
     * caller when `retrieve` (a non-NULL `ptr_retrieve`) or else to the free
     * function.  An index past the end falls through to `Pop`, so the same
     * requirement on the slot past the end applies.
     */
    method Take(index: nat, retrieve: bool) returns (r: Option<T>)
      requires Valid()
      requires !retrieve && hasFreeFunc && 0 < length <= index ==> length < capacity
      modifies Repr
      ensures Valid() && Repr == old(Repr) && capacity == old(capacity)
      ensures r.Some? <==> retrieve && old(length) > 0
      ensures old(length) == 0 ==> Contents == old(Contents) && Freed == old(Freed)
      ensures index < old(length) ==>
                Contents == RemoveAt(old(Contents), index) &&
                (r.Some? ==> r.value == old(Contents)[index]) &&
                Freed == old(Freed) + (if !retrieve && hasFreeFunc then [old(Contents)[index]] else [])
      ensures 0 < old(length) <= index ==>
                Contents == old(Contents)[..old(length) - 1] &&
                (r.Some? ==> r.value == old(Contents)[old(length) - 1]) &&
                Freed == old(Freed) + (if !retrieve && hasFreeFunc then [old(buf[length])] else [])
    {
      if length == 0 {
        return None;
      }
      if index >= length {
        r := Pop(retrieve);
      } else {
        r := None;
        if retrieve {
          r := Some(buf[index]);
        } else if hasFreeFunc {
          Freed := Freed + [buf[index]];
        }
        forall k | index <= k < length - 1 {
          buf[k] := buf[k + 1];
        }
        length := length - 1;
        Contents := RemoveAt(Contents, index);
        assert Contents == buf[..length];
      }
    }

    /** `Vector_Push`: grow if full, then store `elem` in the slot at `length`. */
    method Push(elem: T)
      requires Valid()
      modifies Repr
      ensures Valid() && fresh(Repr - old(Repr))
      ensures Contents == old(Contents) + [elem]
      ensures capacity == GrowTo(old(capacity), old(length) + 1)
      ensures Freed == old(Freed)
    {
      ExpandUntil(length + 1);
      buf[length] := elem;
      length := length + 1;
      Contents := Contents + [elem];
      assert Contents == buf[..length];
    }

    /**
     * `Vector_Pop`.  With `retrieve` the last element is returned.  Without
     * it the C code hands the slot at `length` (one past the last element)
     * to the free function: that slot must exist, and what is freed is its
     * stale content, not the element removed.
     */
    method Pop(retrieve: bool) returns (r: Option<T>)
      requires Valid()
      requires !retrieve && hasFreeFunc && 0 < length ==> length < capacity
      modifies Repr
      ensures Valid() && Repr == old(Repr) && capacity == old(capacity)
      ensures r.Some? <==> retrieve && old(length) > 0
      ensures old(length) == 0 ==> Contents == old(Contents) && Freed == old(Freed)
      ensures old(length) > 0 ==> Contents == old(Contents)[..old(length) - 1]
      ensures old(length) > 0 && retrieve ==>
                r.value == old(Contents)[old(length) - 1] && Freed == old(Freed)
      ensures old(length) > 0 && !retrieve ==>
                Freed == old(Freed) + (if hasFreeFunc then [old(buf[length])] else [])
      ensures buf == old(buf) && buf[..] == old(buf[..])
    {
      if length == 0 {
        return None;
      }
      r := None;
      if retrieve {
        r := Some(buf[length - 1]);
      } else if hasFreeFunc {
        Freed := Freed + [buf[length]];
      }
      length := length - 1;
      Contents := Contents[..length];
    }

    /** `Vector_Push_Front`: shift everything up by one and store `elem` at slot 0. */
    method PushFront(elem: T)
      requires Valid()
      modifies Repr
      ensures Valid() && fresh(Repr - old(Repr))
      ensures Contents == [elem] + old(Contents)
      ensures capacity == GrowTo(old(capacity), old(length) + 1)
      ensures Freed == old(Freed)
    {
      ExpandUntil(length + 1);
      forall k | 0 < k <= length {
        buf[k] := buf[k - 1];
      }
      buf[0] := elem;
      length := length + 1;
      Contents := [elem] + Contents;
      assert Contents == buf[..length];
    }

    /** `Vector_Pop_Front`: deliver or free slot 0, then shift the rest down. */
    method PopFront(retrieve: bool) returns (r: Option<T>)
      requires Valid()
      modifies Repr
      ensures Valid() && Repr == old(Repr) && capacity == old(capacity)
      ensures r.Some? <==> retrieve && old(length) > 0
      ensures old(length) == 0 ==> Contents == old(Contents) && Freed == old(Freed)
      ensures old(length) > 0 ==>
                Contents == old(Contents)[1..] &&
                (r.Some? ==> r.value == old(Contents)[0]) &&
                Freed == old(Freed) + (if !retrieve && hasFreeFunc then [old(Contents)[0]] else [])
    {
      if length == 0 {
        return None;
      }
      r := None;
      if retrieve {
        r := Some(buf[0]);
      } else if hasFreeFunc {
        Freed := Freed + [buf[0]];
      }
      length := length - 1;
      forall k | 0 <= k < length {
        buf[k] := buf[k + 1];
      }
      Contents := Contents[1..];
      assert Contents == buf[..length];
    }

    /**
     * `Vector_Destroy` and `Vector_DestroyS`: clear, then release the buffer.
     * Releasing the struct itself has no counterpart here.
     */
    method Destroy()
      requires Valid()
      modifies Repr
      ensures Valid() && fresh(Repr - old(Repr))
      ensures Contents == [] && capacity == 0
      ensures Freed == old(Freed) + (if hasFreeFunc then old(Contents) else [])
    {
      Clear();
      if capacity > 0 {
        buf := new T[0];
        capacity := 0;
        Repr := {this, buf};
      }
    }
  }

  /** Pushing and then popping into a retrieve pointer gives the pushed value back and the old contents. */
  method PushThenPop<T(0)>(v: Vector<T>, x: T) returns (r: Option<T>)
    requires v.Valid()
    modifies v.Repr
    ensures v.Valid() && fresh(v.Repr - old(v.Repr))
    ensures r == Some(x) && v.Contents == old(v.Contents) && v.Freed == old(v.Freed)
  {
    v.Push(x);
    r := v.Pop(true);
  }

  /** An in-bound insertion is read back at the same index, and the length grows by one. */
  method InsertThenAt<T(0)>(v: Vector<T>, index: nat, x: T) returns (y: T)
    requires v.Valid() && index < v.length
    modifies v.Repr
    ensures v.Valid() && fresh(v.Repr - old(v.Repr))
    ensures y == x && |v.Contents| == |old(v.Contents)| + 1
  {
    v.Insert(index, x);
    y := v.PtrAt(index);
  }

  /**
   * With a free function set, popping without a retrieve pointer frees the
   * stale slot past the end: after pushing `a` and `b` and popping `b`
   * into a retrieve pointer, the next NULL-retrieve pop removes `a` but
   * hands `b` to the free function.
   */
  method PopFreesSlotPastEnd<T(0)>(a: T, b: T) returns (v: Vector<T>)
    ensures v.Valid() && v.Contents == [] && v.Freed == [b]
  {
    v := new Vector<T>.Create(0, true);
    v.Push(a);
    v.Push(b);
    var r := v.Pop(true);
    assert v.capacity == 2;
    r := v.Pop(false);
  }
}
