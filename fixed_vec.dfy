/** `FixedVec<T>`: a vector whose capacity is fixed when it is created.
    Every operation that could grow it checks the capacity first and fails
    without touching the contents, so the vector never reallocates. */
module FixedVecs {

  /** The contents after `copy_within(srcStart..srcEnd, dst)`: the source
      range, read before any write, lands at `dst`; every other element and
      the length stay as they were. */
  function CopiedWithin<T>(s: seq<T>, srcStart: nat, srcEnd: nat, dst: nat): (r: seq<T>)
    requires srcStart <= srcEnd <= |s|
    requires dst + (srcEnd - srcStart) <= |s|
    ensures |r| == |s|
    ensures forall i :: 0 <= i < |s| && !(dst <= i < dst + (srcEnd - srcStart)) ==> r[i] == s[i]
    ensures forall i :: dst <= i < dst + (srcEnd - srcStart) ==> r[i] == s[srcStart + (i - dst)]
  {
    s[..dst] + s[srcStart..srcEnd] + s[dst + (srcEnd - srcStart)..]
  }

  /** The contents after `Vec::resize(newLen, value)`: the first
      min(old, new) elements are kept and any new tail is `value`. */
  function Resized<T>(s: seq<T>, newLen: nat, value: T): (r: seq<T>)
    ensures |r| == newLen
    ensures forall i :: 0 <= i < newLen && i < |s| ==> r[i] == s[i]
    ensures forall i :: |s| <= i < newLen ==> r[i] == value
  {
    if newLen <= |s| then s[..newLen] else s + seq(newLen - |s|, _ => value)
  }

  class FixedVec<T> {
    /** The wrapped `Vec`'s elements. */
    var elems: seq<T>
    /** `Vec::with_capacity(capacity)`: fixed for the vector's lifetime. */
    const capacity: nat

    ghost predicate Valid()
      reads this
    {
      |elems| <= capacity
    }

    constructor (capacity: nat)
      ensures Valid()
      ensures this.capacity == capacity && elems == []
    {
      this.capacity := capacity;
      elems := [];
    }

    function Len(): (n: nat)
      reads this
      requires Valid()
      ensures n == |elems| && n <= capacity
    {
      |elems|
    }

    /** `deref`: the slice of exactly the `len` initialised elements. */
    function Deref(): (s: seq<T>)
      reads this
      requires Valid()
      ensures |s| == Len() && s == elems
    {
      elems
    }

    method Resize(newLen: nat, value: T) returns (ok: bool)
      requires Valid()
      modifies this
      ensures Valid()
      ensures ok <==> newLen <= capacity
      ensures elems == if ok then Resized(old(elems), newLen, value) else old(elems)
    {
      if newLen > capacity {
        return false;
      }
      elems := Resized(elems, newLen, value);
      return true;
    }

    /** `copy_within`; Rust panics when either range leaves the slice, so
        callers must keep both in bounds. */
    method CopyWithin(srcStart: nat, srcEnd: nat, dst: nat)
      requires Valid()
      requires srcStart <= srcEnd <= |elems|
      requires dst + (srcEnd - srcStart) <= |elems|
      modifies this
      ensures Valid()
      ensures elems == CopiedWithin(old(elems), srcStart, srcEnd, dst)
    {
      elems := CopiedWithin(elems, srcStart, srcEnd, dst);
    }

    method ExtendFromSlice(src: seq<T>) returns (ok: bool)
      requires Valid()
      modifies this
      ensures Valid()
      ensures ok <==> old(|elems|) + |src| <= capacity
      ensures elems == if ok then old(elems) + src else old(elems)
    {
      if |elems| + |src| > capacity {
        return false;
      }
      elems := elems + src;
      return true;
    }

    method Clear()
      requires Valid()
      modifies this
      ensures Valid()
      ensures elems == []
    {
      elems := [];
    }
  }

  /** Shifting out a prefix the way `LineBreaker` does it (`copy_within(k..len, 0)`
      followed by `resize(len - k, _)`) leaves exactly the elements after the
      prefix, in order. */
  lemma CompactionDropsPrefix<T>(s: seq<T>, k: nat, pad: T)
    requires k <= |s|
    ensures Resized(CopiedWithin(s, k, |s|, 0), |s| - k, pad) == s[k..]
  {
    var c := CopiedWithin(s, k, |s|, 0);
    var r := Resized(c, |s| - k, pad);
    forall i | 0 <= i < |s| - k
      ensures r[i] == s[k..][i]
    {
      assert r[i] == c[i] == s[k + i];
    }
  }
}
