/**
 Sequences of calls on an owning device buffer, and what the operations'
 contracts let a client conclude about them.
 */
module Scenarios {
  import opened Layouts
  import opened DeviceRuntime
  import opened CudaMemory

  /** `alloc(layout)` followed by `free()` leaves the object bufferless and leaks nothing. */
  method AllocThenFree(m: DeviceMemoryStorage, l: Layout)
    requires m.Valid() && m.heap.Valid() && HasDim(l, m.dim)
    modifies m`buffer, m`layout, m.heap`blocks, m.heap`log
    ensures m.Valid() && m.buffer == Null && m.layout == l
    ensures m.heap.blocks == old(m.heap.blocks) - {old(m.buffer)}
  {
    ghost var released := m.heap.blocks - {m.buffer};
    var ok := m.AllocLayout(l);
    if ok {
      ghost var b := m.buffer;
      assert b !in released;
      m.Free();
      assert m.heap.blocks == released;
    } else {
      m.Free();
    }
  }

  /** `free()` twice makes the same device calls, and reaches the same state, as `free()` once. */
  method FreeTwice(m: DeviceMemoryStorage)
    requires m.Valid() && m.heap.Valid()
    modifies m`buffer, m.heap`blocks, m.heap`log
    ensures m.Valid() && m.buffer == Null
    ensures m.heap.blocks == old(m.heap.blocks) - {old(m.buffer)}
    ensures m.heap.log == old(m.heap.log) + Releases(old(m.buffer))
    ensures Disciplined(m.heap.log) == Disciplined(old(m.heap.log))
  {
    m.Free();
    m.Free();
  }

  /**
   A copy owns nothing: destroying both the original and its copy releases
   the original's block exactly once.
   */
  method CopyThenDestroyBoth(m: DeviceMemoryStorage) returns (c: DeviceMemoryStorage)
    requires m.Valid() && m.heap.Valid()
    modifies m`buffer, m.heap`blocks, m.heap`log
    ensures fresh(c) && c.layout == old(m.layout)
    ensures m.buffer == Null && c.buffer == Null
    ensures m.heap.log == old(m.heap.log) + Releases(old(m.buffer))
    ensures Disciplined(m.heap.log) == Disciplined(old(m.heap.log))
  {
    c := new DeviceMemoryStorage.Copy(m);
    c.Destroy();
    m.Destroy();
  }

  /** After `initMem(val)`, every element read back holds the low byte of `val` in every byte. */
  method FillThenRead(m: DeviceMemoryStorage, val: int, i: nat) returns (e: seq<byte>)
    requires m.Valid() && m.heap.Valid() && m.buffer != Null && i < Count(m.layout.size)
    modifies m.heap`mem, m.heap`log
    ensures e == Repeat(ByteOf(val), m.elemSize)
  {
    ghost var before := m.heap.mem;
    m.InitMem(val, true);
    e := m.Get(i);
    m.FillSetsElement(before, ByteOf(val), i);
  }

  /** A multi-index within the extents of a freshly sized buffer reads an element of that buffer. */
  method ResizeThenReadAt(m: DeviceMemoryStorage, size: seq<nat>, idx: seq<nat>) returns (ok: bool, e: seq<byte>)
    requires m.Valid() && m.heap.Valid() && |size| == m.dim && |idx| == m.dim && InExtents(idx, size)
    modifies m`buffer, m`layout, m.heap`blocks, m.heap`log
    ensures ok ==> e == m.ElementBytes(m.heap.mem, Offset(idx, Strides(size)))
  {
    ok := m.AllocSize(size);
    e := [];
    if ok {
      OffsetInBounds(size, idx);
      e := m.GetAt(idx);
    }
  }
}
