/**
 Owning device memory. The C++ lattice Layout / Pointer / Storage /
 PointerStorage / DeviceMemory / DeviceMemoryStorage is one class here: a
 single layout, a single nullable `buffer` address, and the lifecycle
 operations every one of those classes contributes. The object owns the
 block its `buffer` names; `Valid()` ties that block to the device
 allocator, sized for the current layout.
 */
module CudaMemory {
  import opened Layouts
  import opened DeviceRuntime

  /** The device calls the release of address `p` makes: none for the null pointer. */
  function Releases(p: nat): (r: seq<Event>) {
    if p == Null then [] else [Released(p)]
  }

  /** Elements `i != j` of `s` bytes each occupy disjoint byte ranges. */
  lemma ElementsApart(i: nat, j: nat, s: nat)
    requires i != j
    ensures j * s + s <= i * s || i * s + s <= j * s
  {
    if i < j {
      var d := j - i;
      assert j * s == i * s + d * s;
      assert d * s == s + (d - 1) * s;
    } else {
      var d := i - j;
      assert i * s == j * s + d * s;
      assert d * s == s + (d - 1) * s;
    }
  }

  /** Storing element `i` of a buffer of `s`-byte elements leaves element `j != i` as it was. */
  lemma StoreKeepsOtherElement(mem: Memory, base: nat, s: nat, i: nat, j: nat, e: seq<byte>)
    requires i != j && |e| == s
    ensures Load(Store(mem, base + i * s, e), base + j * s, s) == Load(mem, base + j * s, s)
  {
    ElementsApart(i, j, s);
    LoadStoreElsewhere(mem, base + i * s, e, base + j * s, s);
  }

  /** Element `j` of a buffer of `count` elements of `s` bytes lies inside its `count * s` bytes. */
  lemma ElementInside(j: nat, count: nat, s: nat)
    requires j < count
    ensures j * s + s <= count * s
  {
    var d := count - j;
    assert count * s == j * s + d * s;
    assert d * s == s + (d - 1) * s;
  }

  /** Filling a whole buffer sets every byte of each of its elements to the fill value. */
  lemma FillCoversElement(mem: Memory, a: nat, v: byte, count: nat, s: nat, j: nat)
    requires j < count
    ensures Load(Fill(mem, a, v, count * s), a + j * s, s) == Repeat(v, s)
  {
    ElementInside(j, count, s);
    LoadFill(mem, a, v, count * s, j * s, s);
  }

  class DeviceMemoryStorage {
    /** The template parameter `Dim`. */
    const dim: nat
    /** `sizeof(Type)`: the byte length of one element. */
    const elemSize: nat
    /** The device whose allocator and memory back `buffer`. */
    const heap: DeviceHeap
    var layout: Layout
    /** Device address of the owned block; `Null` when there is none. */
    var buffer: nat

    /** The object invariant: the layout has `Dim` dimensions, and a non-null buffer is a live block sized for it. */
    ghost predicate Valid()
      reads this, heap`blocks
    {
      elemSize > 0 && HasDim(layout, dim) &&
      (buffer != Null ==> buffer in heap.blocks && heap.blocks[buffer] == ByteSize())
    }

    /** Bytes the current layout needs: `getSize() * sizeof(Type)`. */
    function ByteSize(): (r: nat)
      reads this
    {
      Count(layout.size) * elemSize
    }

    /** The bytes of element `i` of the buffer in memory `mem`. */
    function ElementBytes(mem: Memory, i: nat): (r: seq<byte>)
      reads this
      ensures |r| == elemSize
    {
      Load(mem, buffer + i * elemSize, elemSize)
    }

    /** After a fill of the whole buffer with `v`, every element reads back as `v` in every byte. */
    lemma FillSetsElement(before: Memory, v: byte, i: nat)
      requires i < Count(layout.size)
      ensures ElementBytes(Fill(before, buffer, v, ByteSize()), i) == Repeat(v, elemSize)
    {
      FillCoversElement(before, buffer, v, Count(layout.size), elemSize, i);
    }

    /** Default constructor: an empty shape and no buffer. */
    constructor (dim: nat, elemSize: nat, heap: DeviceHeap)
      requires elemSize > 0
      ensures Valid()
      ensures this.dim == dim && this.elemSize == elemSize && this.heap == heap
      ensures layout == FromSize(seq(dim, _ => 0)) && buffer == Null
    {
      this.dim, this.elemSize, this.heap := dim, elemSize, heap;
      layout := FromSize(seq(dim, _ => 0));
      buffer := Null;
    }

    /** Constructor from a requested size: that shape, and no buffer yet. */
    constructor OfSize(size: seq<nat>, elemSize: nat, heap: DeviceHeap)
      requires elemSize > 0
      ensures Valid()
      ensures dim == |size| && this.elemSize == elemSize && this.heap == heap
      ensures layout == FromSize(size) && buffer == Null
    {
      dim, this.elemSize, this.heap := |size|, elemSize, heap;
      layout := FromSize(size);
      buffer := Null;
    }

    /** Constructor from a requested layout: that layout, and no buffer yet. */
    constructor OfLayout(l: Layout, elemSize: nat, heap: DeviceHeap)
      requires |l.size| == |l.stride|
      requires elemSize > 0
      ensures Valid()
      ensures dim == |l.size| && this.elemSize == elemSize && this.heap == heap
      ensures layout == l && buffer == Null
    {
      dim, this.elemSize, this.heap := |l.size|, elemSize, heap;
      layout := l;
      buffer := Null;
    }

    /** Copy constructor: the same layout, but the copy owns no buffer. */
    constructor Copy(x: DeviceMemoryStorage)
      requires x.elemSize > 0 && HasDim(x.layout, x.dim)
      ensures Valid()
      ensures dim == x.dim && elemSize == x.elemSize && heap == x.heap
      ensures layout == x.layout && buffer == Null
      ensures x.buffer != Null ==> buffer != x.buffer
    {
      dim, elemSize, heap := x.dim, x.elemSize, x.heap;
      layout := x.layout;
      buffer := Null;
    }

    /** `getBuffer()`: the current address, changing nothing. */
    method GetBuffer() returns (p: nat)
      ensures p == buffer
    {
      p := buffer;
    }

    /** `getLayout()`: the current layout, changing nothing. */
    method GetLayout() returns (l: Layout)
      ensures l == layout
    {
      l := layout;
    }

    /** Reading `operator[](size_t i)`: element `i` of the buffer. */
    method Get(i: nat) returns (e: seq<byte>)
      requires Valid() && buffer != Null && i < Count(layout.size)
      ensures |e| == elemSize
      ensures e == ElementBytes(heap.mem, i)
    {
      e := Load(heap.mem, buffer + i * elemSize, elemSize);
    }

    /** Assigning through `operator[](size_t i)`: element `i` becomes `e`, every other element stays. */
    method Set(i: nat, e: seq<byte>)
      requires Valid() && buffer != Null && i < Count(layout.size) && |e| == elemSize
      modifies heap`mem
      ensures Valid()
      ensures heap.mem == Store(old(heap.mem), buffer + i * elemSize, e)
      ensures ElementBytes(heap.mem, i) == e
      ensures forall j :: 0 <= j < Count(layout.size) && j != i ==>
                ElementBytes(heap.mem, j) == ElementBytes(old(heap.mem), j)
    {
      var at := buffer + i * elemSize;
      ghost var before := heap.mem;
      heap.Write(at, e);
      LoadStore(before, at, e);
      forall j | 0 <= j < Count(layout.size) && j != i
        ensures ElementBytes(heap.mem, j) == ElementBytes(before, j)
      {
        StoreKeepsOtherElement(before, buffer, elemSize, i, j, e);
      }
    }

    /** Reading `operator[](const Size<Dim> &i)`: the element at offset `getOffset(i)`. */
    method GetAt(idx: seq<nat>) returns (e: seq<byte>)
      requires Valid() && buffer != Null && |idx| == dim
      requires Offset(idx, layout.stride) < Count(layout.size)
      ensures e == ElementBytes(heap.mem, Offset(idx, layout.stride))
    {
      e := Get(Offset(idx, layout.stride));
    }

    /** Assigning through `operator[](const Size<Dim> &i)`: the element at offset `getOffset(i)` becomes `e`. */
    method SetAt(idx: seq<nat>, e: seq<byte>)
      requires Valid() && buffer != Null && |idx| == dim && |e| == elemSize
      requires Offset(idx, layout.stride) < Count(layout.size)
      modifies heap`mem
      ensures Valid()
      ensures heap.mem == Store(old(heap.mem), buffer + Offset(idx, layout.stride) * elemSize, e)
      ensures ElementBytes(heap.mem, Offset(idx, layout.stride)) == e
      ensures forall j :: 0 <= j < Count(layout.size) && j != Offset(idx, layout.stride) ==>
                ElementBytes(heap.mem, j) == ElementBytes(old(heap.mem), j)
    {
      Set(Offset(idx, layout.stride), e);
    }

    /**
     `alloc()`, abstract in every class of the lattice: asks the device for
     a block sized for the current layout. On success the object owns a
     fresh block; on a refusal only the call is logged.
     */
    method Alloc() returns (ok: bool)
      requires Valid() && heap.Valid()
      modifies this`buffer, heap`blocks, heap`log
      ensures Valid() && heap.Valid()
      ensures ok ==> buffer != Null && Fits(old(heap.blocks), buffer, ByteSize())
      ensures ok ==> heap.blocks == old(heap.blocks)[buffer := ByteSize()]
      ensures ok ==> heap.log == old(heap.log) + [Allocated(buffer, ByteSize())]
      ensures !ok ==> buffer == old(buffer) && heap.blocks == old(heap.blocks)
      ensures !ok ==> heap.log == old(heap.log) + [Refused(ByteSize())]
      ensures Disciplined(heap.log) == Disciplined(old(heap.log))
    {
      var a;
      a, ok := heap.Malloc(ByteSize());
      if ok {
        buffer := a;
      }
    }

    /**
     `free()`: releases the owned block, if any, through one `cudaFree`
     that succeeds, and nulls the address. On a null buffer it makes no
     device call.
     */
    method Free()
      requires Valid() && heap.Valid()
      modifies this`buffer, heap`blocks, heap`log
      ensures Valid() && heap.Valid() && buffer == Null
      ensures heap.blocks == old(heap.blocks) - {old(buffer)}
      ensures heap.log == old(heap.log) + Releases(old(buffer))
      ensures old(buffer) == Null ==> heap.blocks == old(heap.blocks) && heap.log == old(heap.log)
      ensures old(buffer) != Null ==> old(buffer) in old(heap.blocks) && old(buffer) !in heap.blocks
      ensures Disciplined(heap.log) == Disciplined(old(heap.log))
    {
      if buffer == Null {
        assert heap.blocks - {Null} == heap.blocks;
        return;
      }
      var ok := heap.Free(buffer);
      // the owned block is live, so the error check never fires
      assert ok;
      buffer := Null;
    }

    /** The destructor: `free()`, so a destroyed object holds no live block. */
    method Destroy()
      requires Valid() && heap.Valid()
      modifies this`buffer, heap`blocks, heap`log
      ensures Valid() && heap.Valid() && buffer == Null
      ensures heap.blocks == old(heap.blocks) - {old(buffer)}
      ensures heap.log == old(heap.log) + Releases(old(buffer))
      ensures old(buffer) != Null ==> old(buffer) !in heap.blocks
      ensures Disciplined(heap.log) == Disciplined(old(heap.log))
    {
      Free();
    }

    /** `init()`: forgets the address without releasing it; the allocator is untouched. */
    method Init()
      requires Valid()
      modifies this`buffer
      ensures Valid() && buffer == Null
      ensures layout == old(layout)
      ensures unchanged(heap)
    {
      buffer := Null;
    }

    /** `alloc(size)`: `free()`, then `setSize(size)`, then `alloc()`. */
    method AllocSize(size: seq<nat>) returns (ok: bool)
      requires Valid() && heap.Valid() && |size| == dim
      modifies this`buffer, this`layout, heap`blocks, heap`log
      ensures Valid() && heap.Valid() && layout == FromSize(size)
      ensures ok ==> buffer != Null && Fits(old(heap.blocks) - {old(buffer)}, buffer, ByteSize())
      ensures ok ==> heap.blocks == (old(heap.blocks) - {old(buffer)})[buffer := ByteSize()]
      ensures ok ==> heap.log == old(heap.log) + Releases(old(buffer)) + [Allocated(buffer, ByteSize())]
      ensures !ok ==> buffer == Null && heap.blocks == old(heap.blocks) - {old(buffer)}
      ensures !ok ==> heap.log == old(heap.log) + Releases(old(buffer)) + [Refused(ByteSize())]
      ensures Disciplined(heap.log) == Disciplined(old(heap.log))
    {
      Free();
      layout := FromSize(size);
      ok := Alloc();
    }

    /** `alloc(layout)`: `free()`, then `setLayout(l)`, then `alloc()`. */
    method AllocLayout(l: Layout) returns (ok: bool)
      requires Valid() && heap.Valid() && HasDim(l, dim)
      modifies this`buffer, this`layout, heap`blocks, heap`log
      ensures Valid() && heap.Valid() && layout == l
      ensures ok ==> buffer != Null && Fits(old(heap.blocks) - {old(buffer)}, buffer, ByteSize())
      ensures ok ==> heap.blocks == (old(heap.blocks) - {old(buffer)})[buffer := ByteSize()]
      ensures ok ==> heap.log == old(heap.log) + Releases(old(buffer)) + [Allocated(buffer, ByteSize())]
      ensures !ok ==> buffer == Null && heap.blocks == old(heap.blocks) - {old(buffer)}
      ensures !ok ==> heap.log == old(heap.log) + Releases(old(buffer)) + [Refused(ByteSize())]
      ensures Disciplined(heap.log) == Disciplined(old(heap.log))
    {
      Free();
      layout := l;
      ok := Alloc();
    }

    /**
     `initMem(val, sync)`: without a buffer, no device call at all;
     otherwise `cudaMemset` sets all `getSize() * sizeof(Type)` bytes of the
     buffer to the low byte of `val`. Address and layout stay as they are.
     */
    method InitMem(val: int, sync: bool)
      requires Valid() && heap.Valid()
      modifies heap`mem, heap`log
      ensures Valid() && heap.Valid()
      ensures buffer == Null ==> unchanged(heap)
      ensures buffer != Null ==> heap.mem == Fill(old(heap.mem), buffer, ByteOf(val), ByteSize())
      ensures buffer != Null ==> heap.log == old(heap.log) + [Filled(buffer, ByteOf(val), ByteSize())]
      ensures Disciplined(heap.log) == Disciplined(old(heap.log))
    {
      if buffer == Null {
        return;
      }
      var ok := heap.Memset(buffer, val, ByteSize());
      // the owned block holds exactly ByteSize() bytes, so the error check never fires
      assert ok;
    }
  }

  /** `DeviceMemory::KernelData`: a by-value snapshot of the address, extents and strides. */
  datatype KernelData = KernelData(data: nat, size: seq<nat>, stride: seq<nat>)

  /** `KernelData()`: a descriptor with a null data pointer. */
  function EmptyKernelData(dim: nat): (k: KernelData)
    ensures k.data == Null && |k.size| == dim && |k.stride| == dim
  {
    KernelData(Null, seq(dim, _ => 0), seq(dim, _ => 0))
  }

  /** `KernelData(mem)`: copies the address and, counting down, every extent and stride. */
  method MakeKernelData(mem: DeviceMemoryStorage) returns (k: KernelData)
    requires HasDim(mem.layout, mem.dim)
    ensures k.data == mem.buffer
    ensures |k.size| == mem.dim && |k.stride| == mem.dim
    ensures forall i :: 0 <= i < mem.dim ==> k.size[i] == mem.layout.size[i] && k.stride[i] == mem.layout.stride[i]
  {
    var data := mem.GetBuffer();
    var size := new nat[mem.dim];
    var stride := new nat[mem.dim];
    var i := mem.dim;
    while i > 0
      invariant 0 <= i <= mem.dim
      invariant forall j :: i <= j < mem.dim ==> size[j] == mem.layout.size[j] && stride[j] == mem.layout.stride[j]
    {
      i := i - 1;
      size[i] := mem.layout.size[i];
      stride[i] := mem.layout.stride[i];
    }
    k := KernelData(data, size[..], stride[..]);
  }
}
