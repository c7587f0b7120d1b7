/** `Model<V, I>` (src/engine/model.rs): the mesh data, the instance store
    and the two GPU buffers a model draws from. Every store method is proved
    to leave the fields exactly as the matching `StoreSpec` function says,
    so what is proved there holds of this class, defects included. */
module ModelStore {
  import opened Common
  import opened Buffer
  import opened StoreSpec

  /** One `vk::CommandBuffer` recording call made by `draw`. */
  datatype Command =
    | BindVertexBuffers(binding: nat, buffer: BufferHandle, offset: nat)
    | DrawCall(vertexCount: nat, instanceCount: nat, firstVertex: nat, firstInstance: nat)

  /** `InstanceData`: a 4x4 model matrix, row by row, and a colour. */
  datatype InstanceData = InstanceData(modelMatrix: seq<seq<F32>>, color: Vec3)

  /** A buffer that `fill` may be called on without panicking, or none yet. */
  ghost predicate Fillable<T>(b: EngineBuffer?<T>, gpu: Gpu, bytes: nat)
    reads b, gpu
  {
    gpu.Valid() && (b != null ==> b.CanFill(gpu, bytes))
  }

  class Model<V, I> {
    var vertexData: seq<V>
    var handleToIndex: map<nat, nat>
    var handles: seq<Handle>
    var instances: seq<I>
    var firstInvisible: nat
    var nextHandle: Handle
    var vertexBuffer: EngineBuffer?<V>
    var instanceBuffer: EngineBuffer?<I>

    /** The store part of the model as a value. */
    function Abs(): (r: Store<I>)
      reads this
    {
      Store(handleToIndex, handles, instances, firstInvisible, nextHandle)
    }

    /** The struct literal of `cube()`, for any vertex data: an empty store
        and no buffers. */
    constructor Init(vertexData: seq<V>)
      ensures this.vertexData == vertexData
      ensures Abs() == Empty()
      ensures vertexBuffer == null && instanceBuffer == null
    {
      this.vertexData := vertexData;
      handleToIndex := map[];
      handles := [];
      instances := [];
      firstInvisible := 0;
      nextHandle := 0;
      vertexBuffer := null;
      instanceBuffer := null;
    }

    /** `get`. */
    function Get(h: Handle): (r: Option<I>)
      reads this
      ensures r.Some? ==> h in handleToIndex && r.value in instances
      ensures h !in handleToIndex ==> r == None
    {
      StoreSpec.Get(Abs(), h)
    }

    /** `get_mut`: the position of the instance the mutable reference points to. */
    function GetMut(h: Handle): (r: Option<nat>)
      reads this
      ensures r.Some? ==> r.value < |instances| && Get(h) == Some(instances[r.value])
      ensures r.None? ==> Get(h) == None
    {
      StoreSpec.GetMut(Abs(), h)
    }

    /** `is_visible`. */
    function IsVisible(h: Handle): (r: Result<bool, InvalidHandle>)
      reads this
      ensures r.Err? <==> h !in handleToIndex
    {
      StoreSpec.IsVisible(Abs(), h)
    }

    /** `swap_by_index`. */
    method SwapByIndex(i: nat, j: nat)
      requires CanSwap(Abs(), i, j)
      modifies this`handles, this`instances, this`handleToIndex
      ensures Abs() == StoreSpec.SwapByIndex(old(Abs()), i, j)
    {
      if i == j {
        return;
      }
      var h1 := handles[i];
      var h2 := handles[j];
      handles := handles[i := h2][j := h1];
      instances := instances[i := instances[j]][j := instances[i]];
      handleToIndex := handleToIndex[i := h2];
      handleToIndex := handleToIndex[j := h1];
    }

    /** `swap_by_handle`. */
    method SwapByHandle(h1: Handle, h2: Handle) returns (r: Result<(), InvalidHandle>)
      requires CanSwapHandles(Abs(), h1, h2)
      modifies this`handles, this`instances, this`handleToIndex
      ensures (r, Abs()) == StoreSpec.SwapByHandle(old(Abs()), h1, h2)
    {
      if h1 == h2 {
        return Ok(());
      }
      if h1 in handleToIndex && h2 in handleToIndex {
        var i1 := handleToIndex[h1];
        var i2 := handleToIndex[h2];
        handles := handles[i1 := handles[i2]][i2 := handles[i1]];
        instances := instances[i1 := instances[i2]][i2 := instances[i1]];
        handleToIndex := handleToIndex[i1 := h2];
        handleToIndex := handleToIndex[i2 := h1];
        r := Ok(());
      } else {
        r := Err(InvalidHandle);
      }
    }

    /** `make_visible`. */
    method MakeVisible(h: Handle) returns (r: Result<(), InvalidHandle>)
      requires CanMakeVisible(Abs(), h)
      modifies this`handles, this`instances, this`handleToIndex, this`firstInvisible
      ensures (r, Abs()) == StoreSpec.MakeVisible(old(Abs()), h)
    {
      if h in handleToIndex {
        var index := handleToIndex[h];
        if index < firstInvisible {
          return Ok(());
        }
        SwapByIndex(index, firstInvisible);
        firstInvisible := firstInvisible + 1;
        r := Ok(());
      } else {
        r := Err(InvalidHandle);
      }
    }

    /** `make_invisible`. */
    method MakeInvisible(h: Handle) returns (r: Result<(), InvalidHandle>)
      requires CanMakeInvisible(Abs(), h)
      modifies this`handles, this`instances, this`handleToIndex, this`firstInvisible
      ensures (r, Abs()) == StoreSpec.MakeInvisible(old(Abs()), h)
    {
      if h in handleToIndex {
        var index := handleToIndex[h];
        if index >= firstInvisible {
          return Ok(());
        }
        SwapByIndex(index, firstInvisible - 1);
        firstInvisible := firstInvisible - 1;
        r := Ok(());
      } else {
        r := Err(InvalidHandle);
      }
    }

    /** `insert`. */
    method Insert(element: I) returns (h: Handle)
      modifies this`handles, this`instances, this`handleToIndex, this`nextHandle
      ensures (Abs(), h) == StoreSpec.Insert(old(Abs()), element)
    {
      h := nextHandle;
      nextHandle := nextHandle + 1;
      var index := |instances|;
      instances := instances + [element];
      handles := handles + [h];
      handleToIndex := handleToIndex[h := index];
    }

    /** `insert_visibly`: the result of `make_visible` is dropped. */
    method InsertVisibly(element: I) returns (h: Handle)
      requires CanInsertVisibly(Abs())
      modifies this`handles, this`instances, this`handleToIndex, this`nextHandle, this`firstInvisible
      ensures (Abs(), h) == StoreSpec.InsertVisibly(old(Abs()), element)
    {
      h := Insert(element);
      var _ := MakeVisible(h);
    }

    /** `remove`, lines 145-148: a visible element is swapped to the end of
        the visible prefix, which shrinks by one. */
    method RemoveHideStep(h: Handle)
      requires h in handleToIndex
      requires handleToIndex[h] < firstInvisible ==> CanSwap(Abs(), handleToIndex[h], firstInvisible - 1)
      modifies this`handles, this`instances, this`handleToIndex, this`firstInvisible
      ensures Abs() == RemoveHide(old(Abs()), h)
    {
      var index := handleToIndex[h];
      if index < firstInvisible {
        SwapByIndex(index, firstInvisible - 1);
        firstInvisible := firstInvisible - 1;
      }
    }

    /** `remove`, lines 150-154: position `first_invisible` is swapped with
        the last slot, both vectors are popped (`Vec::pop` on an empty
        `handles` leaves it empty), the key is deleted, and the popped
        record is returned. */
    method RemovePopStep(h: Handle) returns (last: I)
      requires |instances| > 0 && CanSwap(Abs(), firstInvisible, |instances| - 1)
      modifies this`handles, this`instances, this`handleToIndex
      ensures (last, Abs()) == RemovePop(old(Abs()), h)
    {
      ghost var s1 := Abs();
      SwapByIndex(firstInvisible, |instances| - 1);
      ghost var s2 := Abs();
      if |handles| > 0 {
        handles := handles[..|handles| - 1];
      }
      handleToIndex := handleToIndex - {h};
      last := instances[|instances| - 1];
      instances := instances[..|instances| - 1];
      RemovePopStages(s1, h, s2);
    }

    /** `remove`. */
    method Remove(h: Handle) returns (r: Result<I, InvalidHandle>)
      requires CanRemove(Abs(), h)
      modifies this`handles, this`instances, this`handleToIndex, this`firstInvisible
      ensures (r, Abs()) == StoreSpec.Remove(old(Abs()), h)
    {
      if h in handleToIndex {
        RemoveHideStep(h);
        var last := RemovePopStep(h);
        r := Ok(last);
        RemoveIsStages(old(Abs()), h);
      } else {
        r := Err(InvalidHandle);
      }
    }

    /** The instances `update_instance_buffer` uploads. */
    function VisibleInstances(): (r: seq<I>)
      reads this
      requires firstInvisible <= |instances|
      ensures |r| == firstInvisible
      ensures forall h | IsVisible(h) == Ok(true) && Get(h).Some? :: Get(h).value in r
    {
      instances[..firstInvisible]
    }

    /** `update_vertex_buffer`: fill the existing vertex buffer, or create one
        of `len * size_of::<V>()` bytes for vertex input in CPU-to-GPU memory
        and fill it. Afterwards the buffer exists and its mapped memory starts
        with the vertex data. */
    method UpdateVertexBuffer(gpu: Gpu, vertexSize: nat)
      requires Fillable(vertexBuffer, gpu, |vertexData| * vertexSize)
      requires vertexBuffer != null ==> vertexBuffer.allocation.Some?
      modifies this`vertexBuffer, vertexBuffer, gpu
      ensures vertexBuffer != null && fresh(vertexBuffer) == (old(vertexBuffer) == null)
      ensures gpu.Valid() && vertexBuffer.Valid(gpu) && vertexBuffer.allocation.Some?
      ensures |vertexData| * vertexSize <= vertexBuffer.sizeInBytes
      ensures old(vertexBuffer) == null ==>
                vertexBuffer.usage == VERTEX_BUFFER && vertexBuffer.memoryUsage == CpuToGpu
                && vertexBuffer.sizeInBytes == |vertexData| * vertexSize
      ensures old(vertexBuffer) != null ==>
                && vertexBuffer == old(vertexBuffer)
                && vertexBuffer.usage == old(vertexBuffer.usage)
                && vertexBuffer.memoryUsage == old(vertexBuffer.memoryUsage)
                && vertexBuffer.sizeInBytes == Max(old(vertexBuffer.sizeInBytes), |vertexData| * vertexSize)
      ensures |vertexData| <= |vertexBuffer.mapped| && vertexBuffer.mapped[..|vertexData|] == vertexData
      ensures |gpu.liveAllocations| == |old(gpu.liveAllocations)| + (if old(vertexBuffer) == null then 1 else 0)
    {
      if vertexBuffer != null {
        vertexBuffer.Fill(gpu, vertexData, vertexSize);
      } else {
        var bytes := |vertexData| * vertexSize;
        var buffer := new EngineBuffer<V>.New(gpu, bytes, VERTEX_BUFFER, CpuToGpu);
        buffer.Fill(gpu, vertexData, vertexSize);
        vertexBuffer := buffer;
      }
    }

    /** `update_instance_buffer`: as `update_vertex_buffer`, over the visible
        prefix `instances[0..first_invisible]` only; the slice panics when
        `first_invisible` exceeds the length. */
    method UpdateInstanceBuffer(gpu: Gpu, instanceSize: nat)
      requires firstInvisible <= |instances|
      requires Fillable(instanceBuffer, gpu, firstInvisible * instanceSize)
      requires instanceBuffer != null ==> instanceBuffer.allocation.Some?
      modifies this`instanceBuffer, instanceBuffer, gpu
      ensures instanceBuffer != null && fresh(instanceBuffer) == (old(instanceBuffer) == null)
      ensures gpu.Valid() && instanceBuffer.Valid(gpu) && instanceBuffer.allocation.Some?
      ensures firstInvisible * instanceSize <= instanceBuffer.sizeInBytes
      ensures old(instanceBuffer) == null ==>
                instanceBuffer.usage == VERTEX_BUFFER && instanceBuffer.memoryUsage == CpuToGpu
                && instanceBuffer.sizeInBytes == firstInvisible * instanceSize
      ensures old(instanceBuffer) != null ==>
                && instanceBuffer == old(instanceBuffer)
                && instanceBuffer.usage == old(instanceBuffer.usage)
                && instanceBuffer.memoryUsage == old(instanceBuffer.memoryUsage)
                && instanceBuffer.sizeInBytes == Max(old(instanceBuffer.sizeInBytes), firstInvisible * instanceSize)
      ensures firstInvisible <= |instanceBuffer.mapped|
      ensures instanceBuffer.mapped[..firstInvisible] == VisibleInstances()
      ensures |gpu.liveAllocations| == |old(gpu.liveAllocations)| + (if old(instanceBuffer) == null then 1 else 0)
    {
      var visible := instances[..firstInvisible];
      if instanceBuffer != null {
        instanceBuffer.Fill(gpu, visible, instanceSize);
      } else {
        var bytes := firstInvisible * instanceSize;
        var buffer := new EngineBuffer<I>.New(gpu, bytes, VERTEX_BUFFER, CpuToGpu);
        buffer.Fill(gpu, visible, instanceSize);
        instanceBuffer := buffer;
      }
    }

    /** `draw`: bind the vertex buffer at binding 0 and the instance buffer at
        binding 1, then draw every vertex once per visible instance; nothing
        is recorded unless both buffers exist and some instance is visible.
        Both counts are cast with `as u32`. */
    function Draw(): (r: seq<Command>)
      reads this, vertexBuffer, instanceBuffer
      ensures r == [] <==> vertexBuffer == null || instanceBuffer == null || firstInvisible == 0
      ensures r != [] ==>
                && |r| == 3
                && r[0] == BindVertexBuffers(0, vertexBuffer.buffer, 0)
                && r[1] == BindVertexBuffers(1, instanceBuffer.buffer, 0)
                && r[2].DrawCall? && r[2].firstVertex == 0 && r[2].firstInstance == 0
                && (|vertexData| < U32_MODULUS ==> r[2].vertexCount == |vertexData|)
                && (firstInvisible < U32_MODULUS ==> r[2].instanceCount == firstInvisible)
    {
      if vertexBuffer != null && instanceBuffer != null && firstInvisible > 0 then
        [BindVertexBuffers(0, vertexBuffer.buffer, 0),
         BindVertexBuffers(1, instanceBuffer.buffer, 0),
         DrawCall(AsU32(|vertexData|), AsU32(firstInvisible), 0, 0)]
      else []
    }
  }

  /** The bit patterns of the three `f32` values the cube uses. */
  const MINUS_ONE: F32 := 0xBF80_0000
  const ONE: F32 := 0x3F80_0000
  const ZERO: F32 := 0

  /** A corner of the cube: x and y are -1 or 1, z is 0 or 1. */
  predicate IsCorner(v: Vec3)
  {
    (v.x == MINUS_ONE || v.x == ONE) && (v.y == MINUS_ONE || v.y == ONE) && (v.z == ZERO || v.z == ONE)
  }

  /** The face a vertex of `cube()` lies on: 0 bottom (y = 1), 1 top
      (y = -1), 2 front (z = 0), 3 back (z = 1), 4 left (x = -1), 5 right
      (x = 1). */
  predicate OnFace(v: Vec3, face: nat)
  {
    match face
    case 0 => v.y == ONE
    case 1 => v.y == MINUS_ONE
    case 2 => v.z == ZERO
    case 3 => v.z == ONE
    case 4 => v.x == MINUS_ONE
    case _ => v.x == ONE
  }

  /** The 36 vertices of `cube()`: two triangles for each of six faces, in
      the order bottom, top, front, back, left, right. Every vertex is a
      corner, and each run of six lies on its face. */
  function CubeVertices(): (r: seq<Vec3>)
    ensures |r| == 36
    ensures forall k | 0 <= k < 36 :: IsCorner(r[k]) && OnFace(r[k], k / 6)
  {
    var lbf := Vec3(MINUS_ONE, ONE, ZERO);
    var lbb := Vec3(MINUS_ONE, ONE, ONE);
    var ltf := Vec3(MINUS_ONE, MINUS_ONE, ZERO);
    var ltb := Vec3(MINUS_ONE, MINUS_ONE, ONE);
    var rbf := Vec3(ONE, ONE, ZERO);
    var rbb := Vec3(ONE, ONE, ONE);
    var rtf := Vec3(ONE, MINUS_ONE, ZERO);
    var rtb := Vec3(ONE, MINUS_ONE, ONE);
    [lbf, lbb, rbb, lbf, rbb, rbf,
     ltf, rtb, ltb, ltf, rtf, rtb,
     lbf, rtf, ltf, lbf, rbf, rtf,
     lbb, ltb, rtb, lbb, rtb, rbb,
     lbf, ltf, lbb, lbb, ltf, ltb,
     rbf, rbb, rtf, rbb, rtb, rtf]
  }

  /** `Model::cube()`: the cube mesh, no instances, no buffers. */
  method Cube() returns (m: Model<Vec3, InstanceData>)
    ensures fresh(m)
    ensures m.vertexData == CubeVertices() && |m.vertexData| == 36
    ensures m.Abs() == Empty() && m.Draw() == []
    ensures m.vertexBuffer == null && m.instanceBuffer == null
  {
    m := new Model<Vec3, InstanceData>.Init(CubeVertices());
  }
}
