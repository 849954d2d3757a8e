/** The two JNA boundary objects the callbacks write through: an `IntByReference` and the native
    memory behind a `Pointer`. */
module Jna {
  import opened Base

  /** `com.sun.jna.ptr.IntByReference`. */
  class IntRef {
    var value: int

    constructor (v: int)
      ensures value == v
    {
      value := v;
    }
  }

  /** The bytes written at offset 0 over `prior`: `src` first, then whatever of `prior` lies beyond it. */
  function Overwrite(prior: Bytes, src: Bytes): (r: Bytes)
    ensures |r| == Max(|prior|, |src|)
    ensures r[..|src|] == src
    ensures forall i :: |src| <= i < |prior| ==> r[i] == prior[i]
  {
    if |src| >= |prior| then src else src + prior[|src|..]
  }

  /** Native memory addressed by a JNA `Pointer`. `capacity` is what the native side allocated;
      `Pointer.write` checks no bound, so a write longer than the allocation shows up here as
      `data` growing past `capacity`. */
  class NativeBuffer {
    const capacity: nat
    var data: Bytes

    constructor (capacity: nat)
      ensures this.capacity == capacity && data == Zeros(capacity)
    {
      this.capacity := capacity;
      data := Zeros(capacity);
    }

    /** Bytes beyond the allocation have been written. */
    predicate Overrun()
      reads this
    {
      |data| > capacity
    }

    /** `Pointer.write(0, src, 0, src.length)`. */
    method Write(src: Bytes)
      modifies this
      ensures data == Overwrite(old(data), src)
    {
      data := Overwrite(data, src);
    }
  }
}
