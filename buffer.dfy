/** The growable GPU buffer of `src/engine/buffer.rs`, over a model of the
    device and the memory allocator that hands out buffers and allocations. */
module Buffer {
  import opened Common

  type AllocationId = nat
  type BufferHandle = nat

  /** `vk::BufferUsageFlags`, a bit mask stored and passed on unchanged. */
  type UsageFlags = bv32

  const VERTEX_BUFFER: UsageFlags := 0x80
  const STORAGE_BUFFER: UsageFlags := 0x20

  /** `gpu_allocator::MemoryLocation`. */
  datatype MemoryLocation = Unknown | GpuOnly | CpuToGpu | GpuToCpu
  {
    /** The locations whose allocations carry a mapped pointer. */
    predicate HostVisible() { CpuToGpu? || GpuToCpu? }
  }

  /** What the device and the allocator are asked to do, in order. */
  datatype GpuEvent =
    | BufferCreated(buffer: BufferHandle, size: nat)
    | MemoryAllocated(allocation: AllocationId, location: MemoryLocation)
    | MemoryBound(buffer: BufferHandle, allocation: AllocationId)
    | MemoryFreed(allocation: AllocationId)
    | BufferDestroyed(buffer: BufferHandle)

  /** The logical device together with the allocator: the live buffers and
      allocations, the handles it has issued, and a log of every request. */
  class Gpu {
    var nextHandle: nat
    var nextAllocation: AllocationId
    ghost var liveBuffers: set<BufferHandle>
    ghost var liveAllocations: set<AllocationId>
    ghost var log: seq<GpuEvent>

    /** Every live object carries an id that was issued. */
    ghost predicate Valid()
      reads this
    {
      && (forall b | b in liveBuffers :: b < nextHandle)
      && (forall a | a in liveAllocations :: a < nextAllocation)
    }

    constructor ()
      ensures Valid()
      ensures liveBuffers == {} && liveAllocations == {} && log == []
    {
      nextHandle, nextAllocation := 0, 0;
      liveBuffers, liveAllocations, log := {}, {}, [];
    }

    /** A handle for a non-buffer object (image view, semaphore, fence, framebuffer). */
    method CreateObject() returns (h: nat)
      requires Valid()
      modifies this`nextHandle
      ensures Valid()
      ensures h == old(nextHandle) && nextHandle == h + 1
    {
      h := nextHandle;
      nextHandle := nextHandle + 1;
    }

    /** `device.create_buffer`. */
    method CreateBuffer(size: nat) returns (b: BufferHandle)
      requires Valid()
      modifies this
      ensures Valid()
      ensures b !in old(liveBuffers) && liveBuffers == old(liveBuffers) + {b}
      ensures liveAllocations == old(liveAllocations)
      ensures log == old(log) + [BufferCreated(b, size)]
      ensures nextAllocation == old(nextAllocation) && nextHandle == b + 1 && b == old(nextHandle)
    {
      b := nextHandle;
      nextHandle := nextHandle + 1;
      liveBuffers := liveBuffers + {b};
      log := log + [BufferCreated(b, size)];
    }

    /** `allocator.allocate`. */
    method Allocate(location: MemoryLocation) returns (a: AllocationId)
      requires Valid()
      modifies this
      ensures Valid()
      ensures a !in old(liveAllocations) && liveAllocations == old(liveAllocations) + {a}
      ensures liveBuffers == old(liveBuffers)
      ensures log == old(log) + [MemoryAllocated(a, location)]
      ensures nextHandle == old(nextHandle) && a == old(nextAllocation) && nextAllocation == a + 1
    {
      a := nextAllocation;
      nextAllocation := nextAllocation + 1;
      liveAllocations := liveAllocations + {a};
      log := log + [MemoryAllocated(a, location)];
    }

    /** `device.bind_buffer_memory`. */
    method BindBufferMemory(b: BufferHandle, a: AllocationId)
      modifies this`log
      ensures log == old(log) + [MemoryBound(b, a)]
    {
      log := log + [MemoryBound(b, a)];
    }

    /** `allocator.free`; the allocation is moved in, so it is live. */
    method Free(a: AllocationId)
      requires Valid() && a in liveAllocations
      modifies this`liveAllocations, this`log
      ensures Valid()
      ensures liveAllocations == old(liveAllocations) - {a}
      ensures log == old(log) + [MemoryFreed(a)]
    {
      liveAllocations := liveAllocations - {a};
      log := log + [MemoryFreed(a)];
    }

    /** `device.destroy_buffer`. */
    method DestroyBuffer(b: BufferHandle)
      requires Valid()
      modifies this`liveBuffers, this`log
      ensures Valid()
      ensures liveBuffers == old(liveBuffers) - {b}
      ensures log == old(log) + [BufferDestroyed(b)]
    {
      liveBuffers := liveBuffers - {b};
      log := log + [BufferDestroyed(b)];
    }
  }

  /** Mapped memory after `data` is copied to offset 0: the first `|data|`
      elements are `data`, the ones after them are what `mem` held. */
  function Overwrite<T>(mem: seq<T>, data: seq<T>): (r: seq<T>)
    ensures |r| == Max(|mem|, |data|)
    ensures r[..|data|] == data
    ensures |data| < |mem| ==> r[|data|..] == mem[|data|..]
  {
    if |data| < |mem| then data + mem[|data|..] else data
  }

  /** Capacity after a sequence of fills with the given byte counts. */
  function CapacityAfter(initial: nat, payloads: seq<nat>): (r: nat)
  {
    if payloads == [] then initial
    else Max(CapacityAfter(initial, payloads[..|payloads| - 1]), payloads[|payloads| - 1])
  }

  /** Capacity is a high-water mark: the largest of the initial size and every
      payload, never shrinking. */
  lemma {:induction false} CapacityIsHighWaterMark(initial: nat, payloads: seq<nat>)
    ensures initial <= CapacityAfter(initial, payloads)
    ensures forall k | 0 <= k < |payloads| :: payloads[k] <= CapacityAfter(initial, payloads)
    ensures CapacityAfter(initial, payloads) == initial
            || exists k | 0 <= k < |payloads| :: CapacityAfter(initial, payloads) == payloads[k]
  {
    if payloads != [] {
      var front := payloads[..|payloads| - 1];
      CapacityIsHighWaterMark(initial, front);
      assert forall k | 0 <= k < |front| :: front[k] == payloads[k];
      if CapacityAfter(initial, front) != initial {
        var k :| 0 <= k < |front| && CapacityAfter(initial, front) == front[k];
        assert CapacityAfter(initial, front) == payloads[k];
      }
    }
  }

  /** A later fill never shrinks the buffer. */
  lemma {:induction false} CapacityNeverShrinks(initial: nat, payloads: seq<nat>, more: seq<nat>)
    ensures CapacityAfter(initial, payloads) <= CapacityAfter(initial, payloads + more)
  {
    if more != [] {
      var front := more[..|more| - 1];
      assert (payloads + more)[..|payloads + more| - 1] == payloads + front;
      CapacityNeverShrinks(initial, payloads, front);
    } else {
      assert payloads + more == payloads;
    }
  }

  /** `EngineBuffer`: one device buffer bound to one allocation. */
  class EngineBuffer<T> {
    var buffer: BufferHandle
    var allocation: Option<AllocationId>
    var sizeInBytes: nat
    var usage: UsageFlags
    var memoryUsage: MemoryLocation
    /** The elements at the start of the mapped memory whose content is known:
        empty for a new allocation, then whatever `Fill` copied there. */
    var mapped: seq<T>

    /** While the buffer holds its allocation, both it and the buffer are live. */
    ghost predicate Valid(gpu: Gpu)
      reads this, gpu
    {
      allocation.Some? ==> allocation.value in gpu.liveAllocations && buffer in gpu.liveBuffers
    }

    /** What `fill` needs in order not to panic: a mapped pointer for the
        copy, and an allocation to take when the payload does not fit. */
    ghost predicate CanFill(gpu: Gpu, bytes: nat)
      reads this, gpu
    {
      && gpu.Valid()
      && Valid(gpu)
      && memoryUsage.HostVisible()
      && (bytes > sizeInBytes ==> allocation.Some?)
    }

    /** `EngineBuffer::new`: create, allocate, bind. */
    constructor New(gpu: Gpu, sizeInBytes: nat, usage: UsageFlags, memoryUsage: MemoryLocation)
      requires gpu.Valid()
      modifies gpu
      ensures gpu.Valid() && Valid(gpu)
      ensures this.sizeInBytes == sizeInBytes && this.usage == usage && this.memoryUsage == memoryUsage
      ensures allocation.Some? && mapped == []
      ensures allocation.value == old(gpu.nextAllocation) && buffer == old(gpu.nextHandle)
      ensures allocation.value !in old(gpu.liveAllocations)
      ensures gpu.liveAllocations == old(gpu.liveAllocations) + {allocation.value}
      ensures buffer !in old(gpu.liveBuffers) && gpu.liveBuffers == old(gpu.liveBuffers) + {buffer}
      ensures gpu.log == old(gpu.log) + [BufferCreated(buffer, sizeInBytes),
                                        MemoryAllocated(allocation.value, memoryUsage),
                                        MemoryBound(buffer, allocation.value)]
    {
      var b := gpu.CreateBuffer(sizeInBytes);
      var a := gpu.Allocate(memoryUsage);
      gpu.BindBufferMemory(b, a);
      buffer := b;
      allocation := Some(a);
      this.sizeInBytes := sizeInBytes;
      this.usage := usage;
      this.memoryUsage := memoryUsage;
      mapped := [];
    }

    /** `fill`: grow by full replacement when the payload of `|data| * elemSize`
        bytes exceeds the capacity, then copy `data` to the mapped memory. */
    method Fill(gpu: Gpu, data: seq<T>, elemSize: nat)
      requires CanFill(gpu, |data| * elemSize)
      modifies this, gpu
      ensures gpu.Valid() && Valid(gpu)
      ensures usage == old(usage) && memoryUsage == old(memoryUsage)
      ensures sizeInBytes == Max(old(sizeInBytes), |data| * elemSize)
      ensures |data| * elemSize <= old(sizeInBytes) ==>
                && buffer == old(buffer) && allocation == old(allocation)
                && gpu.liveAllocations == old(gpu.liveAllocations)
                && gpu.liveBuffers == old(gpu.liveBuffers)
                && gpu.log == old(gpu.log)
      ensures |data| * elemSize > old(sizeInBytes) ==>
                && allocation.Some?
                && allocation.value !in old(gpu.liveAllocations)
                && gpu.liveAllocations == old(gpu.liveAllocations) - {old(allocation).value} + {allocation.value}
                && buffer !in old(gpu.liveBuffers)
                && gpu.liveBuffers == old(gpu.liveBuffers) - {old(buffer)} + {buffer}
                && gpu.log == old(gpu.log) + [MemoryFreed(old(allocation).value), BufferDestroyed(old(buffer)),
                                              BufferCreated(buffer, |data| * elemSize),
                                              MemoryAllocated(allocation.value, memoryUsage),
                                              MemoryBound(buffer, allocation.value)]
      ensures |gpu.liveAllocations| == |old(gpu.liveAllocations)|
      ensures allocation.Some? ==>
                mapped == Overwrite(if |data| * elemSize > old(sizeInBytes) then [] else old(mapped), data)
      ensures allocation.None? ==> mapped == old(mapped)
    {
      var bytesToWrite := |data| * elemSize;
      if bytesToWrite > sizeInBytes {
        var old_ := allocation.value;
        allocation := None;
        gpu.Free(old_);
        gpu.DestroyBuffer(buffer);
        var newBuffer := new EngineBuffer<T>.New(gpu, bytesToWrite, usage, memoryUsage);
        buffer, allocation, sizeInBytes := newBuffer.buffer, newBuffer.allocation, newBuffer.sizeInBytes;
        usage, memoryUsage, mapped := newBuffer.usage, newBuffer.memoryUsage, newBuffer.mapped;
      }
      if allocation.Some? {
        mapped := Overwrite(mapped, data);
      }
    }

    /** `cleanup`: free the allocation and destroy the buffer; the allocation
        is taken with `unwrap`, so a second call panics. */
    method Cleanup(gpu: Gpu)
      requires gpu.Valid() && Valid(gpu) && allocation.Some?
      modifies this`allocation, gpu
      ensures gpu.Valid()
      ensures allocation == None
      ensures gpu.liveAllocations == old(gpu.liveAllocations) - {old(allocation).value}
      ensures gpu.liveBuffers == old(gpu.liveBuffers) - {buffer}
      ensures |gpu.liveAllocations| == |old(gpu.liveAllocations)| - 1
      ensures gpu.log == old(gpu.log) + [MemoryFreed(old(allocation).value), BufferDestroyed(buffer)]
    {
      var a := allocation.value;
      allocation := None;
      gpu.Free(a);
      gpu.DestroyBuffer(buffer);
    }
  }
}
