# Cuda Templates: owning device memory

A Dafny model of the memory-ownership core of Cuda Templates: the classes
`Storage`, `Pointer` and `PointerStorage` (`include/cudatemplates/storage.hpp`)
and `DeviceMemory` and `DeviceMemoryStorage`
(`include/cudatemplates/devicememory.hpp`).

In C++ these classes form a lattice with diamond-shaped virtual inheritance
over `Layout`. Here the lattice is one class, `CudaMemory.DeviceMemoryStorage`.
It has one layout (`layout`: extents and strides), one nullable device
address (`buffer`, with `Null` = 0), and the operations of all five
classes: the constructors, `getBuffer`, `getLayout`, the four
`operator[]`s, `alloc()`, `alloc(size)`, `alloc(layout)`, `free`, `init`,
`initMem` and the destructor.

The CUDA runtime is the class `DeviceRuntime.DeviceHeap`. Its `Malloc`
is abstract: it may refuse, or pick any fresh region. `Free` and `Memset`
are specified exactly. The bytes of device memory are a field. The heap keeps a ghost log of every device
call, failed calls included. Its invariant says that the live blocks
never include the null address, never overlap, and are exactly what
replaying the log gives. A log is *disciplined* when every call in it
was a correct use of the device:
- every allocation is fresh and overlaps no live block;
- every release names a live block or the null address;
- every fill starts at a live block's base and fits in that block.

A refused allocation is the allocator's answer, not a misuse, so it also
keeps a log disciplined. A release or a fill that would raise a
`CUDA_CHECK` error makes the log undisciplined.

The object invariant `Valid()` says that the layout has `Dim` dimensions
and that a non-null `buffer` is a live block holding exactly
`getSize() * sizeof(Type)` bytes. The heap's own invariant
(`DeviceHeap.Valid()`) is a separate requirement of the operations that
call the allocator or the fill primitive; element reads and writes need
only the object's. From these the model proves the ownership claims:
- `free` makes at most one device call, a release of exactly the owned block, and nulls the address;
- `alloc(size)` and `alloc(layout)` release before they allocate;
- copies and constructed objects own nothing;
- `init` forgets without releasing;
- `initMem` makes no device call without a buffer;
- every storage operation keeps a disciplined log disciplined, so no
  double free can ever appear in it;
- the kernel descriptor equals its source object.

`layout.hpp` is not part of this model. Module `Layouts` gives the layout
the meaning the storage code relies on:
- `setSize` replaces the extents and installs packed strides;
- `getSize` is the product of the extents;
- `getOffset` is the sum of index times stride.

`alloc(size)` and `alloc(layout)` call `free()`, then
`setSize`/`setLayout`, then `alloc()` (storage.hpp:114-120, 122-129). So
when the allocation fails, the object is left bufferless with the new
layout. `AllocSize` and `AllocLayout` state exactly that.

## Model

| member | source | states |
|---|---|---|
| `Layouts.Strides` | include/cudatemplates/storage.hpp:118 | the strides `setSize` installs are packed: stride `i` is the element count of dimensions below `i` |
| `Layouts.Count` | include/cudatemplates/devicememory.hpp:140 | `getSize()`, the element count, is zero exactly when some extent is zero |
| `Layouts.FromSize` | include/cudatemplates/storage.hpp:153-157 | `Layout(size)` and `setSize(size)` (storage.hpp:118) install exactly these extents, one stride per dimension, the first stride being 1 |
| `Layouts.PackedStrideRecurrence` | include/cudatemplates/storage.hpp:50-53 | in a layout built from a size, each stride after the first equals the previous stride times the previous extent |
| `Layouts.Offset` | include/cudatemplates/storage.hpp:188 | `getOffset` of the all-zero multi-index is 0: it addresses the first element of the buffer |
| `Layouts.OffsetStep` | include/cudatemplates/storage.hpp:188 | advancing a multi-index by one in dimension `d` advances `getOffset` by exactly the stride of `d` |
| `Layouts.OffsetInBounds` | include/cudatemplates/storage.hpp:188 | for a packed layout, a multi-index inside the extents has `getOffset` below `getSize()`, so `operator[](Size)` stays inside the buffer |
| `DeviceRuntime.ByteOf` | include/cudatemplates/devicememory.hpp:140 | the `int` fill value reaches memory as its low byte (value modulo 256, negatives included) |
| `DeviceRuntime.ReleaseNeedsAllocation` | include/cudatemplates/devicememory.hpp:212-216 | no double free: between two releases of one non-null address in a disciplined log, that address was allocated again |
| `DeviceRuntime.FreshRegionExists` | include/cudatemplates/storage.hpp:74 | whatever blocks are live, some non-null region of the requested size overlaps none of them, so the abstract allocator always has a valid choice |
| `DeviceRuntime.LoadStore` | include/cudatemplates/storage.hpp:181 | bytes stored through a pointer read back unchanged |
| `DeviceRuntime.LoadStoreElsewhere` | include/cudatemplates/storage.hpp:181 | a store changes no byte outside its range |
| `DeviceRuntime.LoadFill` | include/cudatemplates/devicememory.hpp:140 | after a fill, every byte in the filled range holds the fill value |
| `DeviceRuntime.DeviceHeap.Malloc` | include/cudatemplates/storage.hpp:74 | the allocator behind `alloc()` either refuses, changing no block, or returns a fresh block of the requested size; either way it logs the call and keeps a disciplined log disciplined |
| `DeviceRuntime.DeviceHeap.Free` | include/cudatemplates/devicememory.hpp:215 | `cudaFree` succeeds exactly on a live block, which it removes, or on the null address, which it ignores; every call is logged, and a disciplined log stays disciplined exactly when the call succeeds |
| `DeviceRuntime.DeviceHeap.Memset` | include/cudatemplates/devicememory.hpp:140 | `cudaMemset` sets `n` bytes from the address to the fill byte exactly when the address is the base of a live block of at least `n` bytes, and otherwise leaves memory as it was; every call is logged, and a disciplined log stays disciplined exactly when the call succeeds |
| `DeviceRuntime.DeviceHeap.Write` | include/cudatemplates/storage.hpp:181 | a store through the reference `operator[]` returns writes exactly the given bytes at the address and nothing else |
| `CudaMemory.ElementsApart` | include/cudatemplates/storage.hpp:181 | distinct element indices address disjoint byte ranges |
| `CudaMemory.FillCoversElement` | include/cudatemplates/devicememory.hpp:140 | filling `getSize() * sizeof(Type)` bytes sets every byte of every element to the fill value |
| `CudaMemory.DeviceMemoryStorage.FillSetsElement` | include/cudatemplates/devicememory.hpp:140 | after a fill of the object's whole buffer, each of its elements reads back as the fill byte in every byte |
| `CudaMemory.DeviceMemoryStorage.constructor` | include/cudatemplates/storage.hpp:143-146 | the default constructor yields an empty shape with a null buffer |
| `CudaMemory.DeviceMemoryStorage.OfSize` | include/cudatemplates/storage.hpp:153-157 | the size constructor installs that size and leaves the buffer null |
| `CudaMemory.DeviceMemoryStorage.OfLayout` | include/cudatemplates/storage.hpp:163-167 | the layout constructor installs that layout and leaves the buffer null |
| `CudaMemory.DeviceMemoryStorage.Copy` | include/cudatemplates/storage.hpp:219-223 | from any object with a `Dim`-dimensional layout (its buffer need not be live), the copy constructor of `Pointer`, `PointerStorage` (storage.hpp:271-276), `DeviceMemory` (devicememory.hpp:126-130) and `DeviceMemoryStorage` (devicememory.hpp:199-205) copies the layout, yields a null buffer, and never shares the original's address |
| `CudaMemory.DeviceMemoryStorage.GetBuffer` | include/cudatemplates/storage.hpp:208-214 | `getBuffer()` returns the current address and changes nothing |
| `CudaMemory.DeviceMemoryStorage.GetLayout` | include/cudatemplates/storage.hpp:97 | `getLayout()` returns the current layout and changes nothing |
| `CudaMemory.DeviceMemoryStorage.Get` | include/cudatemplates/storage.hpp:195 | reading `operator[](size_t i)` yields the bytes of element `i` and changes nothing |
| `CudaMemory.DeviceMemoryStorage.Set` | include/cudatemplates/storage.hpp:181 | assigning through `operator[](size_t i)` makes element `i` the new value, keeps every other element, and keeps the address, layout and allocator |
| `CudaMemory.DeviceMemoryStorage.GetAt` | include/cudatemplates/storage.hpp:202 | reading `operator[](Size i)` yields the element at `getOffset(i)` |
| `CudaMemory.DeviceMemoryStorage.SetAt` | include/cudatemplates/storage.hpp:188 | assigning through `operator[](Size i)` stores the new value at the element at `getOffset(i)` and at no other byte of device memory, so every other element is kept |
| `CudaMemory.DeviceMemoryStorage.Alloc` | include/cudatemplates/storage.hpp:74 | abstract `alloc()`: on success the object owns a fresh non-null block of `getSize() * sizeof(Type)` bytes, recorded as one allocation; on a refusal only the refused call is logged; a disciplined log stays disciplined |
| `CudaMemory.DeviceMemoryStorage.AllocSize` | include/cudatemplates/storage.hpp:114-120 | `alloc(size)` logs the release of the old block (if any) before the one allocation call, which is sized for the new shape; afterwards the layout is the new size's, a failed allocation leaves the object bufferless, and a disciplined log stays disciplined |
| `CudaMemory.DeviceMemoryStorage.AllocLayout` | include/cudatemplates/storage.hpp:122-129 | `alloc(layout)` is the same free, `setLayout`, `alloc()` sequence; afterwards the layout equals the argument |
| `CudaMemory.DeviceMemoryStorage.Free` | include/cudatemplates/devicememory.hpp:208-217 | `free()` on a null buffer makes no device call; otherwise it makes exactly one call, a successful release of the owned block, and nulls the address; a disciplined log stays disciplined |
| `CudaMemory.DeviceMemoryStorage.Destroy` | include/cudatemplates/devicememory.hpp:219-224 | the destructor calls `free()`, so the destroyed object's block is no longer live and at most one release was logged |
| `CudaMemory.DeviceMemoryStorage.Init` | include/cudatemplates/devicememory.hpp:196 | `init()` (here and in `PointerStorage`, storage.hpp:268) nulls the address without releasing it: layout and allocator are untouched |
| `CudaMemory.DeviceMemoryStorage.InitMem` | include/cudatemplates/devicememory.hpp:133-144 | `initMem` makes no device call on a null buffer; otherwise memory becomes one fill of `getSize() * sizeof(Type)` bytes at the buffer with the low byte of `val`, logged as exactly one successful `cudaMemset`; address and layout are kept |
| `CudaMemory.EmptyKernelData` | include/cudatemplates/devicememory.hpp:70 | `KernelData()` has a null data pointer |
| `CudaMemory.MakeKernelData` | include/cudatemplates/devicememory.hpp:80-87 | `KernelData(mem)` has `data == mem.getBuffer()` and, for every `i < Dim`, the size and stride of `mem` at `i` |
| `Scenarios.AllocThenFree` | include/cudatemplates/storage.hpp:122-129 | `alloc(layout)` then `free()` leaves the object bufferless and the allocator without the old or the new block |
| `Scenarios.FreeTwice` | include/cudatemplates/devicememory.hpp:212-213 | `free()` twice makes the same device calls as `free()` once (at most one release) and, changing only the address and the allocator, reaches the same state |
| `Scenarios.CopyThenDestroyBoth` | include/cudatemplates/devicememory.hpp:199-205 | destroying an object and its copy releases the object's block exactly once |
| `Scenarios.FillThenRead` | include/cudatemplates/devicememory.hpp:140 | after `initMem(val)` every element reads back with the low byte of `val` in every byte |
| `Scenarios.ResizeThenReadAt` | include/cudatemplates/storage.hpp:188 | after a successful `alloc(size)`, any multi-index within the extents can be read through `operator[](Size)` |

## Left out

- The `sync` flag and `cudaThreadSynchronize` in `initMem` are accelerator concurrency. The fill is treated as complete when `InitMem` returns.
- `CUDA_CHECK` exceptions: a failing `cudaFree` or `cudaMemset` is logged, changes no block and no byte, and makes the log undisciplined. A refused `cudaMalloc` is logged and keeps the log disciplined. The exception itself and an error taxonomy are not modelled.
- `CudaMemory.DeviceMemoryStorage.Free` and `CudaMemory.DeviceMemoryStorage.InitMem` have no failure path: for a `Valid()` object, `cudaFree` and `cudaMemset` succeed.
- `DeviceRuntime.DeviceHeap.Malloc`: a refusal is a free choice of the model (out of memory), not tied to any device capacity.
- `CudaMemory.DeviceMemoryStorage.Alloc`: the concrete backends are not part of this model. If `alloc()` is called while a block is held, the model keeps the old block live and unowned. It does not free it first.
- `DeviceRuntime.DeviceHeap.Memset`: a range must start at a block's base to succeed. A range starting inside a block, which CUDA also accepts, is treated as a failure.
- Layout internals (`layout.hpp`) are not part of this model. Module `Layouts` fills them in as follows:
  - the default layout has zero extents;
  - `setSize` installs packed strides;
  - `getSize` is the product of the extents;
  - `getOffset` is the sum of index times stride.
- A degenerate (zero-byte) allocation is not special-cased. The allocator may refuse it or return a zero-length block.
- The diamond virtual inheritance is flattened into one class. `Pointer` over host memory and `PointerStorage` without a device are not separate classes: every object's memory is the device heap's.
- `DeviceMemoryReference` is only forward-declared in the source and is not modelled.
- Element values of `Type` are their `sizeof(Type)` bytes (`seq<byte>`). Typed reads and writes are not modelled.
- `size_t` arithmetic is unbounded here. An overflow of `getSize() * sizeof(Type)` is not modelled.
- Device memory that was never written reads as 0: the `DeviceHeap` constructor states this. The arrays of a default `KernelData` are zero, and its contract does not mention their values. In C++ both are indeterminate, and no storage operation's contract relies on them.
- `operator[]` returns a reference. Here it is split into a read (`Get`, `GetAt`) and a write (`Set`, `SetAt`). A reference held across other calls is not modelled.
- The empty destructors of `Storage` and `Pointer` and the virtual dispatch of `free()` and `init()` are not modelled: the flattened class has one `Free` and one `Init`.
- `testing/buffer_object.cpp` (an OpenGL demo) and `testing/fft.cpp` (FFT timing and floating-point checks) are I/O and foreign library calls.
