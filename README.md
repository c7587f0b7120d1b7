# learning-vulkan-rust: the engine's resource bookkeeping in Dafny

This project models the parts of the `learning-vulkan-rust` engine that keep
track of GPU resources without being Vulkan calls themselves. It then proves
what those parts do and do not guarantee.

- **Instance store** (`Model<V, I>`, `src/engine/model.rs`). A sparse set of
  per-instance records with:
  - dense `instances` and `handles` vectors;
  - a `handle_to_index` map;
  - a `first_invisible` boundary that splits the dense vectors into a visible
    prefix and an invisible suffix;
  - a `next_handle` counter.

  It is modelled three ways:
  - `StoreSpec` gives every operation as a function on a `Store` value, exactly
    as the code performs it;
  - `ModelStore.Model` is a class whose methods change its fields in place and
    are proved to end in the state the matching `StoreSpec` function gives;
  - `StoreFixed` holds the definitions the design evidently intends, with the
    sparse-set invariant proved for them.
- **Growable buffer** (`EngineBuffer`, `src/engine/buffer.rs`), in module
  `Buffer`. The device and the memory allocator are modelled together as a
  `Gpu` object that tracks:
  - the live buffers and allocations, as ghost sets;
  - a ghost log of every request made to it;
  - the handles it has issued.

  Mapped memory is a sequence of elements.
- **Queue-family selection** (`QueueFamilies::init`,
  `src/engine/queue_families.rs`), in module `QueueFamilySelection`. It works
  over a list of family records, each carrying the answer
  `get_physical_device_surface_support` would give for that family.
- **Light packing** (`LightManager`, `src/engine/light.rs`), in module
  `Lights`. The packed storage-buffer layout and the descriptor refresh. The
  `len() as f32` cast is modelled bit-exactly in module `F32Cast`.
- **Swapchain bookkeeping** (`src/engine/swapchain.rs`), in module `Swapchain`:
  - the image-count clamp;
  - the frame ring counter;
  - the per-image objects that `init` and `create_framebuffers` create.

`f32` values are carried as their 32-bit patterns (`Common.F32`) and only
copied. Every Vulkan handle is a natural number. The handles the modelled
code creates itself are issued by `Gpu`. Those it is handed are parameters:
the swapchain images, the depth image view and the descriptor sets.

Where the design intent and the code disagree, the model follows the code:
- `remove` swaps position `first_invisible` with the last slot, not the removed
  element itself.
- The map writes in `swap_by_index` and `swap_by_handle` are keyed by position,
  not by handle.
- A buffer's capacity after a series of fills is the largest of its initial
  size and every payload, not only the largest payload.
- `light.rs` calls `fill` with two arguments, unlike the three-argument `fill`
  of `buffer.rs`. The model uses the `buffer.rs` definition for both.
- `update_index_buffer` does not exist in `model.rs` and is not modelled.

## Model

| member | source | states |
|---|---|---|
| StoreSpec.Get | src/engine/model.rs:38-45 | a record is returned only for a handle with a map entry, and it is one of the stored instances; an unknown handle gives `None` |
| StoreSpec.GetMut | src/engine/model.rs:47-53 | the mutable reference designates an in-range position holding exactly the record `get` returns, and is `None` exactly when `get` is |
| StoreSpec.IsVisible | src/engine/model.rs:88-95 | `Err(InvalidHandle)` exactly for a handle without a map entry |
| StoreSpec.SwapByIndex | src/engine/model.rs:75-86 | equal indices change nothing; otherwise the two positions of both vectors are exchanged, the boundary and counter are kept, and the map gains the two positions as keys, each mapped to the handle now stored there |
| StoreSpec.SwapByIndexElsewhere | src/engine/model.rs:75-86 | every other position of both vectors, and every other map key, is unchanged |
| StoreSpec.SwapByHandle | src/engine/model.rs:55-73 | `Err` exactly when the handles differ and one is unknown, and then nothing changes; equal handles change nothing; otherwise the looked-up positions are exchanged and the map is written at those positions |
| StoreSpec.MakeVisible | src/engine/model.rs:97-109 | `Err` exactly for an unknown handle; an `Ok` no-op for a visible one; otherwise the element moves to position `first_invisible` and the boundary grows by one |
| StoreSpec.MakeInvisible | src/engine/model.rs:111-123 | `Err` exactly for an unknown handle; an `Ok` no-op for an invisible one; otherwise the element moves to position `first_invisible - 1` and the boundary shrinks by one |
| StoreSpec.Insert | src/engine/model.rs:125-135 | the handle returned is the old `next_handle`, which then grows; the record and the handle are appended; the boundary is kept; `get` of the new handle gives the record |
| StoreSpec.InsertVisibly | src/engine/model.rs:137-141 | one handle is issued, both vectors grow by one, and the boundary grows by one unless the new position was already inside it; in a well-shaped store the new record and handle sit at the old boundary |
| StoreSpec.RemoveHide | src/engine/model.rs:144-148 | the first stage of `remove` moves the boundary to `RemoveSwapStart`. It adds no map key other than the element's own position and that boundary position, and every other key keeps its value. A visible element's record ends up at the new boundary, the slot the second stage pops. An invisible element leaves the store unchanged |
| StoreSpec.RemovePop | src/engine/model.rs:150-154 | the second stage shrinks `instances` by one and `handles` by one (or leaves it empty), deletes the handle's key, and returns the record at position `first_invisible`, not the removed handle's own record |
| StoreSpec.Remove | src/engine/model.rs:143-158 | `Err` exactly for an unknown handle, and then nothing changes; otherwise both vectors shrink by one, the handle's key is gone, the boundary shrinks by one exactly when the element was visible, and no handle is issued |
| StoreSpec.StepKeepsShape | src/engine/model.rs:99-104 | `handles.len() == instances.len()` and `first_invisible <= len` survive every call whose looked-up positions are in range, and such a call does not panic |
| StoreSpec.SwapKeepsHandles | src/engine/model.rs:80-82 | a swap stores no handle that was not stored before |
| StoreSpec.RemoveKeepsHandles | src/engine/model.rs:143-158 | `remove` stores no handle that was not stored before |
| StoreSpec.InsertVisiblyKeepsHandles | src/engine/model.rs:137-141 | `insert_visibly` stores only the handles it found and the one it issued |
| StoreSpec.SwapByHandleKeepsHandles | src/engine/model.rs:64 | `swap_by_handle` stores only the handles it found |
| StoreSpec.StepHandles | src/engine/model.rs:125-135 | a call issues the old `next_handle` and increments it, or issues nothing and keeps it; every stored handle afterwards was stored before or was just issued |
| StoreSpec.HandlesNeverReissued | src/engine/model.rs:126-127 | over any sequence of calls that does not panic, the issued handles strictly increase, all lie at or above the starting counter, and the counter never decreases, so a removed handle is never issued again |
| StoreSpec.RunKeepsHandlesIssued | src/engine/model.rs:126-127 | every stored handle stays below `next_handle` after any sequence of calls, so the next handle issued is not stored |
| StoreSpec.MapKeyedByPosition | src/engine/model.rs:84-85 | after three inserts, `make_visible(1)` and `make_visible(2)`, handle 1 sits in the visible prefix yet `is_visible(1) == Ok(false)` and `get(1)` yields handle 0's record, so the store is not consistent |
| StoreSpec.RemovePopsWrongRecord | src/engine/model.rs:150 | removing handle 2 from three invisible inserts returns handle 0's record, leaves handle 2 stored, and handle 0 no longer resolves |
| StoreSpec.NeverRemovedHandlePanics | src/engine/model.rs:150-152 | after two inserts and `remove(1)`, handle 0 was never removed yet `make_visible(0)` would index past the end |
| StoreSpec.VisiblePrefixOverrunsStore | src/engine/model.rs:143-158 | a sequence of calls, none of which panics, leaves `first_invisible == 3` with two instances stored |
| StoreFixed.HandlesDistinct | src/engine/model.rs:28-30 | in a consistent store no handle is stored twice |
| StoreFixed.ConsistentPartition | src/engine/model.rs:88-95 | in a consistent store a handle reports visible exactly when it is stored in the visible prefix, reports invisible exactly when it is stored in the suffix, and resolves exactly when stored, to the record beside it |
| StoreFixed.SwapByIndexFixedKeepsConsistent | src/engine/model.rs:75-86 | with the map keyed by handle, a swap keeps the store consistent, exchanges the two handles' positions, leaves every other handle's position alone and keeps every handle bound to its record |
| StoreFixed.MakeVisibleFixedCorrect | src/engine/model.rs:97-109 | corrected `make_visible`: `Err` exactly for an unknown handle; the handle becomes visible, no other handle changes visibility or record, the store stays consistent, and the boundary grows exactly when the handle was invisible |
| StoreFixed.MakeInvisibleFixedCorrect | src/engine/model.rs:111-123 | corrected `make_invisible`: the mirror image, with the element ending at position `first_invisible - 1` |
| StoreFixed.InsertKeepsConsistent | src/engine/model.rs:125-135 | `insert` keeps the store consistent and every handle issued; the new handle is fresh, invisible and resolves to the record; other handles are untouched |
| StoreFixed.RemovePopFixedCorrect | src/engine/model.rs:150-154 | popping an invisible element after swapping its own position to the end returns its record, forgets it, and changes no other handle's record or visibility |
| StoreFixed.RemoveFixedCorrect | src/engine/model.rs:143-158 | corrected `remove`: `Err` exactly for an unknown handle; otherwise it returns the handle's own record, forgets the handle, shrinks the boundary exactly when it was visible, keeps every other handle's record and visibility, and keeps the store consistent |
| StoreFixed.SwapByHandleFixedCorrect | src/engine/model.rs:55-73 | corrected `swap_by_handle`: `Err` exactly when the handles differ and one is unknown; the two handles trade positions, every handle keeps its record, and the store stays consistent |
| StoreFixed.StepFixedKeepsConsistent | src/engine/model.rs:97-158 | every corrected call keeps the store consistent and its handles issued, and advances the counter by one exactly when it issues a handle |
| StoreFixed.RunFixedKeepsConsistent | src/engine/model.rs:97-158 | the sparse-set invariant holds after any sequence of corrected calls, `swap_by_index` included, and the counter advances by the number of handles issued |
| ModelStore.Model.Init | src/engine/model.rs:245-261 | a new model holds the given vertex data, an empty store with counter 0, and no buffers |
| ModelStore.Model.Get | src/engine/model.rs:38-45 | `get`, defined as `StoreSpec.Get` of the fields: a record is returned only for a handle in the map and is one of the stored instances; an unknown handle gives `None` |
| ModelStore.Model.GetMut | src/engine/model.rs:47-53 | `get_mut` gives an in-range position holding exactly the record `get` returns, and `None` exactly when `get` does |
| ModelStore.Model.IsVisible | src/engine/model.rs:88-95 | `is_visible` is `Err(InvalidHandle)` exactly for a handle without a map entry |
| ModelStore.Model.SwapByIndex | src/engine/model.rs:75-86 | the in-place swap leaves the store `StoreSpec.SwapByIndex` gives |
| ModelStore.Model.SwapByHandle | src/engine/model.rs:55-73 | result and new store are `StoreSpec.SwapByHandle`'s |
| ModelStore.Model.MakeVisible | src/engine/model.rs:97-109 | result and new store are `StoreSpec.MakeVisible`'s |
| ModelStore.Model.MakeInvisible | src/engine/model.rs:111-123 | result and new store are `StoreSpec.MakeInvisible`'s |
| ModelStore.Model.Insert | src/engine/model.rs:125-135 | new store and returned handle are `StoreSpec.Insert`'s |
| ModelStore.Model.InsertVisibly | src/engine/model.rs:137-141 | new store and returned handle are `StoreSpec.InsertVisibly`'s |
| ModelStore.Model.RemoveHideStep | src/engine/model.rs:144-148 | the first stage of `remove` in place leaves `StoreSpec.RemoveHide`'s store |
| ModelStore.Model.RemovePopStep | src/engine/model.rs:150-154 | the second stage in place returns and leaves what `StoreSpec.RemovePop` gives |
| ModelStore.Model.Remove | src/engine/model.rs:143-158 | result and new store are `StoreSpec.Remove`'s |
| ModelStore.Model.VisibleInstances | src/engine/model.rs:183 | the uploaded slice has `first_invisible` records and contains the record of every handle that reports visible and resolves |
| ModelStore.Model.UpdateVertexBuffer | src/engine/model.rs:160-179 | afterwards a vertex buffer exists (new only if there was none, then with exactly `len * size` bytes, vertex usage, CPU-to-GPU memory), its capacity holds the data, its mapped memory starts with the vertex data, and the live allocations grow by one only when it was created. An existing buffer is kept, the same object with the same usage and location, and its capacity becomes the larger of its old size and `len * size` |
| ModelStore.Model.UpdateInstanceBuffer | src/engine/model.rs:181-200 | the same for the instance buffer, over exactly the visible prefix `instances[0..first_invisible]`: a new buffer has exactly `first_invisible * size` bytes; an existing one is kept with its usage and location and grows to the larger of its old size and `first_invisible * size` |
| ModelStore.Model.Draw | src/engine/model.rs:202-232 | no command unless both buffers exist and some instance is visible; otherwise bind the vertex buffer at binding 0, the instance buffer at binding 1, then one draw of every vertex for `first_invisible` instances, from vertex 0 and instance 0; each count is exact whenever it fits in a `u32` |
| ModelStore.CubeVertices | src/engine/model.rs:237-254 | 36 vertices, each a cube corner, each run of six lying on its face in the order bottom, top, front, back, left, right |
| ModelStore.Cube | src/engine/model.rs:236-263 | `cube()` starts with the cube vertices, an empty store, counter 0 and no buffers, so nothing is drawn |
| Buffer.Overwrite | src/engine/buffer.rs:79-85 | after the copy the mapped memory starts with the data and keeps whatever followed it |
| Buffer.CapacityIsHighWaterMark | src/engine/buffer.rs:62-77 | after a sequence of fills the capacity is at least the initial size and every payload, and equals one of them |
| Buffer.CapacityNeverShrinks | src/engine/buffer.rs:62-77 | further fills never lower the capacity |
| Buffer.EngineBuffer.New | src/engine/buffer.rs:13-52 | `new` creates, allocates and binds, in that order; it records the requested size, usage and memory location unchanged and holds a fresh live allocation bound to a fresh live buffer |
| Buffer.EngineBuffer.Fill | src/engine/buffer.rs:54-88 | a payload that fits keeps the buffer, allocation and capacity and makes no device call; a larger one frees the old allocation and destroys the old buffer before creating one of exactly the payload size with the same usage and location; the number of live allocations is unchanged. While an allocation is held, the mapped memory starts with the data, over the old contents if the buffer was kept and over fresh memory if it was replaced. Without an allocation the copy is skipped and the mapped memory is unchanged |
| Buffer.EngineBuffer.Cleanup | src/engine/buffer.rs:90-97 | the allocation is taken (`None` afterwards, so a second call would panic), freed, and the buffer destroyed; one live allocation fewer |
| QueueFamilySelection.Init | src/engine/queue_families.rs:10-43 | the loop returns exactly `Selection` of the families |
| QueueFamilySelection.SelectionSpec | src/engine/queue_families.rs:22-35 | `Err` exactly when some graphics family's surface query fails, with the first such error; the graphics index is the greatest family with queues, GRAPHICS and surface support, or none; the transfer index is none exactly when no family with queues has TRANSFER, else the last such family without GRAPHICS if one exists, else the first such family |
| QueueFamilySelection.FirstFailureIsFirst | src/engine/queue_families.rs:24-26 | the error returned is the first failing query's, and there is none exactly when no query fails |
| QueueFamilySelection.LastPresentableIsLast | src/engine/queue_families.rs:23-29 | the graphics choice is the greatest presentable index, none exactly when there is none |
| QueueFamilySelection.LastDedicatedIsLast | src/engine/queue_families.rs:31-34 | the greatest transfer family without GRAPHICS, none exactly when there is none |
| QueueFamilySelection.FirstTransferIsFirst | src/engine/queue_families.rs:31-34 | the least transfer family, none exactly when there is none |
| QueueFamilySelection.DedicatedHasTransfer | src/engine/queue_families.rs:31-34 | the transfer choice is none exactly when no transfer family exists |
| QueueFamilySelection.FirstFailureExtends | src/engine/queue_families.rs:25 | a failing query after a failure-free prefix makes `init` return that error |
| QueueFamilySelection.SupportOfOtherFamiliesIgnored | src/engine/queue_families.rs:24-25 | the surface support of a family without queues or without GRAPHICS is never consulted: changing it leaves the selection unchanged |
| F32Cast.Log2 | src/engine/light.rs:71-72 | the exponent of a count is the position of its highest set bit |
| F32Cast.CountAsF32Exact | src/engine/light.rs:71-72 | every count below 2^24 converts to an `f32` that reads back as that count |
| Lights.RecordsLayout | src/engine/light.rs:76-96 | each light adds one 8-word record, and record k sits at words `8k` to `8k + 8` |
| Lights.PackedHeader | src/engine/light.rs:69-74 | the packed data has `4 + 8 * (nd + np)` words and starts with `[nd as f32, np as f32, 0, 0]` |
| Lights.PackedDirectional | src/engine/light.rs:76-85 | directional record k occupies words `4 + 8k` to `12 + 8k` as direction, 0, illuminance, 0 |
| Lights.PackedPoint | src/engine/light.rs:87-96 | point record k starts at `4 + 8 * nd + 8k`, after every directional record, with the same padded layout |
| Lights.PackedRoundTrip | src/engine/light.rs:69-96 | reading the packed data the way the shader does gives back both light lists, in order, whenever each count is below 2^24 |
| Lights.LightManager.Default | src/engine/light.rs:39-46 | both lists start empty |
| Lights.LightManager.AddLight | src/engine/light.rs:49-60 | a directional light is appended to the directional list and a point light to the point list; the other list is unchanged |
| Lights.LightManager.PackData | src/engine/light.rs:69-96 | the push loops build exactly `Packed` of the two lists |
| Lights.LightManager.UpdateBuffer | src/engine/light.rs:62-124 | the buffer's capacity becomes the larger of its old size and `4 * data.len()`, its mapped memory starts with the packed lights, and descriptor writes are made exactly when the fill replaced the buffer: one per set, in order |
| Lights.LightWrites | src/engine/light.rs:103-115 | one write per descriptor set, in order, pointing binding 0 at the whole buffer as a storage buffer with offset 0 and range `4 * data.len()` |
| Lights.WriteDescriptorSets | src/engine/light.rs:103-120 | the loop makes exactly `LightWrites` |
| Swapchain.ClampPrefersThree | src/engine/swapchain.rs:102-105 | the request is 3 whenever the surface's bounds admit 3 |
| Swapchain.ClampBounds | src/engine/swapchain.rs:102-105 | the request never exceeds `maxImageCount`, is at least `minImageCount` when `minImageCount <= maxImageCount`, and is 0 exactly when `maxImageCount == 0` |
| Swapchain.ClampOnUnboundedSurface | src/engine/swapchain.rs:102-105 | a surface without an image limit (`maxImageCount == 0`) and minimum 2 is asked for 0 images, below its minimum |
| Swapchain.ClampUnboundedWithinSurface | src/engine/swapchain.rs:102-105 | with `maxImageCount == 0` read as "no limit", the request lies within the surface's bounds for every valid surface, is 3 whenever the bounds admit 3, and is always one of 3, the minimum or the maximum |
| Swapchain.NextImage | src/engine/swapchain.rs:218-220 | the next index is in range; it is `current + 1` below the last index and wraps to 0 after it |
| Swapchain.AdvanceIsModular | src/engine/swapchain.rs:219 | after n calls from an index in range the counter is at `(current + n) mod amount_of_images` |
| Swapchain.RingReturns | src/engine/swapchain.rs:219 | after `amount_of_images` calls the counter is back where it started |
| Swapchain.RingVisits | src/engine/swapchain.rs:219 | every image index is reached within fewer than `amount_of_images` calls |
| Swapchain.EngineSwapchain.Init | src/engine/swapchain.rs:122-172 | one image view per swapchain image, created in order; `amount_of_images` is the image count as `u32`; that many semaphore pairs and fences, created in the order available, finished, fence; no framebuffers; the frame index starts at 0 |
| Swapchain.EngineSwapchain.CreateFramebuffers | src/engine/swapchain.rs:193-216 | one framebuffer per image view is appended, in order, each with attachments `[view, depth view]`; the earlier framebuffers are kept |
| Swapchain.EngineSwapchain.CalculateCurrentImage | src/engine/swapchain.rs:218-220 | the frame index becomes `NextImage` of the old one, the only field that changes, and the per-image invariant is kept |

## Left out

- Vulkan and allocator calls are modelled only by what they create and free, as
  ids issued by `Gpu`. Their failures (`unwrap` panics and the `?` paths) are
  not modelled. `EngineBuffer::new` never returns `Err`, because its calls
  `unwrap`.
- Integer widths are not modelled. `usize` and `u64` arithmetic is unbounded
  (`next_handle += 1`, `len * size_of::<T>()`). The `as u32` casts in `draw`,
  `init` and queue selection are modelled.
- `size_of::<T>()` is a parameter (76 bytes for `InstanceData`, 12 for a
  vertex), and mapped memory is a sequence of elements rather than bytes.
- StoreFixed.StepFixed: a `swap_by_index` with an index out of range panics
  in `Vec::swap`. The corrected run drops that call instead of stopping, so
  `RunFixedKeepsConsistent` says nothing about a run cut short by a panic.
- Buffer.EngineBuffer.Fill: the element size is a parameter rather than
  `size_of::<T>()`, and the copy is an element-wise overwrite of the mapped
  sequence.
- `EngineBuffer` is generic in its element type. The Rust struct is untyped
  and `fill` is generic.
- ModelStore.Model.GetMut: returns the position of the record instead of a
  mutable reference, so writing through the reference is not modelled.
- The store's fields are updated in place, but the two vectors and the map are
  Dafny values, so aliasing into them is not modelled.
- ModelStore.CubeVertices: states that every vertex is a corner on its face.
  It does not state triangle winding, or that no triangle repeats a corner.
- F32Cast.CountAsF32Exact: round-to-nearest-even is defined for counts of
  2^24 and above but nothing is proved about it. Lights.PackedRoundTrip holds
  only below 2^24, where the cast is exact.
- The shader that reads the light buffer is not part of the repository.
  `Lights.Unpack` is a reading of the layout written for the round trip.
- QueueFamilySelection.SelectionSpec: stated for at most 2^32 families, the
  most a `u32` count allows. `Init` itself is exact for any length.
- The swapchain handle, its loader, the depth image and its allocation, the
  surface format and extent, and `cleanup` are not modelled. `init` is
  modelled from the point where the swapchain images exist.
- Swapchain.EngineSwapchain.Init: Vulkan fences created with the SIGNALED flag
  and semaphores are plain ids.
- The classes keep the code as written. The corrected store definitions in
  `StoreFixed` and the corrected clamp stand beside them and are not wired
  into the classes.
- `src/engine/allocator.rs`, `camera.rs`, `texture.rs`, `pipeline.rs`,
  `surface.rs`, `debug.rs`, `pools.rs`, `mod.rs` (including drop ordering) and
  `src/main.rs` are not part of this model. They are foreign calls, I/O,
  floating-point maths or GPU/CPU concurrency.
- The vertex-layout stride in `pipeline.rs`, which does not match the 76-byte
  `InstanceData`, is not part of this model.
- The `From` conversions into `Light` are not modelled separately: `AddLight`
  takes a `Light`.

## Findings

| source | as written | input that shows it | evidently intended | confidence | as-written member | corrected member |
|---|---|---|---|---|---|---|
| src/engine/model.rs:66-67, 84-85 | `handle_to_index.insert(index, handle)`: the map is written with the position as key | `cube()`, insert three records, `make_visible(1)`, `make_visible(2)`: `is_visible(1)` is `Ok(false)` although handle 1 is at position 0, and `get(1)` yields handle 0's record | `handle_to_index.insert(handle, index)`, keeping the map the inverse of `handles` | high (not executed) | StoreSpec.MapKeyedByPosition | StoreFixed.SwapByIndexFixedKeepsConsistent |
| src/engine/model.rs:150 | `remove` swaps position `first_invisible` with the last slot and pops | `cube()`, insert 10, 11, 12 (handles 0, 1, 2), `remove(2)`: returns `Ok(10)`, handle 2 stays stored and handle 0 no longer resolves | swap the removed element's own position with the last slot, so its record is popped | high (not executed) | StoreSpec.RemovePopsWrongRecord | StoreFixed.RemoveFixedCorrect |
| src/engine/swapchain.rs:102-105 | `3.max(min_image_count).min(max_image_count)` | a surface with `min_image_count == 2` and `max_image_count == 0` (no limit): the request is 0 images | apply the upper bound only when `max_image_count > 0` | high (not executed) | Swapchain.ClampOnUnboundedSurface | Swapchain.ClampUnboundedWithinSurface |
