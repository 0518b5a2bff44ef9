/**
 The accelerator's memory as the storage classes see it: an allocator
 (`cudaMalloc`/`cudaFree`), a fill primitive (`cudaMemset`) and the bytes
 of device memory. The allocator is abstract: it either refuses a request
 or hands out any fresh region that overlaps no live allocation. A ghost
 log records every device call, failed calls included, so that ownership
 claims (no double free, release before re-allocation, no call at all) can
 be stated about it.
 */
module DeviceRuntime {

  newtype byte = x: int | 0 <= x < 256

  /** The null device pointer. */
  const Null: nat := 0

  /**
   One device call: a `cudaMalloc` that returned a block or was refused, and
   a `cudaFree` or `cudaMemset`, logged whether or not it succeeded.
   */
  datatype Event =
    | Allocated(addr: nat, bytes: nat)
    | Refused(bytes: nat)
    | Released(addr: nat)
    | Filled(addr: nat, value: byte, bytes: nat)

  /** `cudaMemset` stores its int argument converted to unsigned char, i.e. modulo 256. */
  function ByteOf(val: int): (b: byte)
    ensures b as int == val % 256
    ensures 0 <= val < 256 ==> b as int == val
    ensures (b as int - val) % 256 == 0
  {
    (val % 256) as byte
  }

  /** The region `[a, a + n)` is a fresh allocation next to the live blocks. */
  predicate Fits(blocks: map<nat, nat>, a: nat, n: nat) {
    a != Null && a !in blocks &&
    forall b :: b in blocks ==> a + n <= b || b + blocks[b] <= a
  }

  /** No two live blocks overlap. */
  predicate Disjoint(blocks: map<nat, nat>) {
    forall a, b :: a in blocks && b in blocks && a != b ==> a + blocks[a] <= b || b + blocks[b] <= a
  }

  /** The effect of one call on the map of live blocks; a failed release removes nothing. */
  function Step(live: map<nat, nat>, e: Event): (r: map<nat, nat>) {
    match e
    case Allocated(a, n) => live[a := n]
    case Refused(_) => live
    case Released(a) => live - {a}
    case Filled(_, _, _) => live
  }

  /** The live blocks after replaying a log from an empty device. */
  ghost function Live(log: seq<Event>): (r: map<nat, nat>) {
    if |log| == 0 then map[] else Step(Live(log[..|log| - 1]), log[|log| - 1])
  }

  /**
   A call is a correct use of the device in a state: an allocation is
   fresh, a release names a live block or the null pointer (`cudaFree(0)`
   does nothing), and a fill starts at a live block's base and fits in it.
   A refusal is the allocator's own answer, never a misuse.
   */
  predicate Proper(live: map<nat, nat>, e: Event) {
    match e
    case Allocated(a, n) => Fits(live, a, n)
    case Refused(_) => true
    case Released(a) => a == Null || a in live
    case Filled(a, _, n) => a in live && n <= live[a]
  }

  /**
   Every call of the log was a correct use of the device when it was made:
   no release or fill in it raised a `CUDA_CHECK` error (a refused
   allocation may occur).
   */
  ghost predicate Disciplined(log: seq<Event>) {
    |log| == 0 ||
    (Disciplined(log[..|log| - 1]) && Proper(Live(log[..|log| - 1]), log[|log| - 1]))
  }

  /** In a disciplined log, the event at any position was allowed in the state before it. */
  lemma {:induction false} DisciplinedAt(log: seq<Event>, k: nat)
    requires Disciplined(log) && k < |log|
    ensures Proper(Live(log[..k]), log[k])
  {
    if k < |log| - 1 {
      var before := log[..|log| - 1];
      assert before[..k] == log[..k];
      DisciplinedAt(before, k);
    }
  }

  lemma LivePrefix(log: seq<Event>, k: nat)
    requires k < |log|
    ensures Live(log[..k + 1]) == Step(Live(log[..k]), log[k])
  {
    assert log[..k + 1][..k] == log[..k];
  }

  /** Appending a call steps the live blocks, and keeps the log disciplined exactly when the call succeeds. */
  lemma DisciplinedAppend(log: seq<Event>, e: Event)
    ensures Disciplined(log + [e]) == (Disciplined(log) && Proper(Live(log), e))
    ensures Live(log + [e]) == Step(Live(log), e)
  {
  }

  /**
   No double free: between two releases of the same non-null address in a
   disciplined log there is an allocation of that address.
   */
  lemma {:induction false} ReleaseNeedsAllocation(log: seq<Event>, i: nat, j: nat)
    requires Disciplined(log)
    requires i < j < |log| && log[i].Released? && log[j].Released? && log[i].addr == log[j].addr
    requires log[i].addr != Null
    ensures exists k :: i < k < j && log[k].Allocated? && log[k].addr == log[i].addr
  {
    var a := log[i].addr;
    DisciplinedAt(log, i);
    DisciplinedAt(log, j);
    LivePrefix(log, i);
    assert a !in Live(log[..i + 1]);
    assert a in Live(log[..j]);
    AllocationBetween(log, a, i + 1, j);
  }

  lemma {:induction false} AllocationBetween(log: seq<Event>, a: nat, lo: nat, hi: nat)
    requires lo <= hi <= |log|
    requires a !in Live(log[..lo]) && a in Live(log[..hi])
    ensures exists k :: lo <= k < hi && log[k].Allocated? && log[k].addr == a
    decreases hi - lo
  {
    if hi == lo {
      assert false;
    } else {
      LivePrefix(log, hi - 1);
      if log[hi - 1].Allocated? && log[hi - 1].addr == a {
      } else {
        assert a in Live(log[..hi - 1]);
        AllocationBetween(log, a, lo, hi - 1);
      }
    }
  }

  /** An upper bound on every address used by a live block. */
  ghost function Bound(blocks: map<nat, nat>): (r: nat)
    ensures forall b :: b in blocks ==> b + blocks[b] <= r
    decreases blocks.Keys
  {
    if blocks == map[] then 0
    else
      var b :| b in blocks;
      var rest := blocks - {b};
      var below := Bound(rest);
      assert forall c :: c in blocks && c != b ==> c in rest && rest[c] == blocks[c];
      if b + blocks[b] > below then b + blocks[b] else below
  }

  /** The allocator can always honour a request once memory is unlimited. */
  lemma FreshRegionExists(blocks: map<nat, nat>, n: nat)
    ensures exists a :: Fits(blocks, a, n)
  {
    assert Fits(blocks, Bound(blocks) + 1, n);
  }

  /** Device memory: the byte at every address. */
  type Memory = nat -> byte

  /** The `n` bytes starting at address `a`. */
  function Load(mem: Memory, a: nat, n: nat): (r: seq<byte>)
    ensures |r| == n
  {
    seq(n, k requires 0 <= k < n => mem(a + k))
  }

  /** Memory after writing `bs` at address `a`. */
  function Store(mem: Memory, a: nat, bs: seq<byte>): (r: Memory) {
    (k: nat) => if a <= k < a + |bs| then bs[k - a] else mem(k)
  }

  /** Memory after setting `n` bytes from address `a` to `v` (the effect of `cudaMemset`). */
  function Fill(mem: Memory, a: nat, v: byte, n: nat): (r: Memory) {
    (k: nat) => if a <= k < a + n then v else mem(k)
  }

  /** Reading back what was just stored yields exactly it. */
  lemma LoadStore(mem: Memory, a: nat, bs: seq<byte>)
    ensures Load(Store(mem, a, bs), a, |bs|) == bs
  {
  }

  /** A store leaves every byte outside its range as it was. */
  lemma LoadStoreElsewhere(mem: Memory, a: nat, bs: seq<byte>, b: nat, m: nat)
    requires b + m <= a || a + |bs| <= b
    ensures Load(Store(mem, a, bs), b, m) == Load(mem, b, m)
  {
  }

  /** `n` copies of the byte `v`. */
  function Repeat(v: byte, n: nat): (r: seq<byte>) {
    seq(n, _ => v)
  }

  /** After a fill, every byte of every window inside the filled range is the fill value. */
  lemma LoadFill(mem: Memory, a: nat, v: byte, n: nat, off: nat, m: nat)
    requires off + m <= n
    ensures Load(Fill(mem, a, v, n), a + off, m) == Repeat(v, m)
  {
  }

  class DeviceHeap {
    /** Live allocations: base address to length in bytes. */
    var blocks: map<nat, nat>
    /** Device memory contents. */
    var mem: Memory
    /** Every allocator and fill call so far, failed ones included. */
    ghost var log: seq<Event>

    /** The live blocks never include null, never overlap, and are what the log's calls leave. */
    ghost predicate Valid()
      reads this`blocks, this`log
    {
      Null !in blocks && Disjoint(blocks) && blocks == Live(log)
    }

    constructor ()
      ensures Valid() && Disciplined(log) && blocks == map[] && log == []
      ensures forall a :: mem(a) == 0
    {
      blocks, mem, log := map[], _ => 0, [];
    }

    /**
     `cudaMalloc`: either refuses (the device is out of memory) and changes
     no block, or returns a fresh block of `n` bytes; either way the call is
     logged.
     */
    method Malloc(n: nat) returns (r: nat, ok: bool)
      requires Valid()
      modifies this`blocks, this`log
      ensures Valid()
      ensures ok ==> Fits(old(blocks), r, n) && blocks == old(blocks)[r := n] && log == old(log) + [Allocated(r, n)]
      ensures !ok ==> r == Null && blocks == old(blocks) && log == old(log) + [Refused(n)]
      ensures Disciplined(log) == Disciplined(old(log))
    {
      var refused: bool :| true;
      if refused {
        DisciplinedAppend(log, Refused(n));
        log := log + [Refused(n)];
        return Null, false;
      }
      FreshRegionExists(blocks, n);
      var a: nat :| Fits(blocks, a, n);
      DisciplinedAppend(log, Allocated(a, n));
      blocks := blocks[a := n];
      log := log + [Allocated(a, n)];
      r, ok := a, true;
    }

    /**
     `cudaFree`: releases a live block, does nothing on the null pointer,
     and fails on any other address. The call is logged in every case, and
     the log stays disciplined exactly when it succeeds.
     */
    method Free(a: nat) returns (ok: bool)
      requires Valid()
      modifies this`blocks, this`log
      ensures Valid()
      ensures ok == (a == Null || a in old(blocks))
      ensures blocks == old(blocks) - {a}
      ensures log == old(log) + [Released(a)]
      ensures Disciplined(log) == (Disciplined(old(log)) && ok)
    {
      ok := a == Null || a in blocks;
      DisciplinedAppend(log, Released(a));
      blocks := blocks - {a};
      log := log + [Released(a)];
    }

    /**
     `cudaMemset`: sets `n` bytes from `a` to the low byte of `val`; fails
     and leaves memory as it was unless the range starts a live block and
     fits in it. The call is logged in every case, and the log stays
     disciplined exactly when it succeeds.
     */
    method Memset(a: nat, val: int, n: nat) returns (ok: bool)
      requires Valid()
      modifies this`mem, this`log
      ensures Valid()
      ensures ok == (a in blocks && n <= blocks[a])
      ensures ok ==> mem == Fill(old(mem), a, ByteOf(val), n)
      ensures !ok ==> mem == old(mem)
      ensures log == old(log) + [Filled(a, ByteOf(val), n)]
      ensures Disciplined(log) == (Disciplined(old(log)) && ok)
    {
      ok := a in blocks && n <= blocks[a];
      DisciplinedAppend(log, Filled(a, ByteOf(val), n));
      if ok {
        mem := Fill(mem, a, ByteOf(val), n);
      }
      log := log + [Filled(a, ByteOf(val), n)];
    }

    /** A store through a typed pointer: writes `bs` at `a`. */
    method Write(a: nat, bs: seq<byte>)
      modifies this`mem
      ensures mem == Store(old(mem), a, bs)
    {
      mem := Store(mem, a, bs);
    }
  }
}
