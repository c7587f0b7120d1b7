/** The per-image bookkeeping of `EngineSwapchain` (src/engine/swapchain.rs):
    the image count requested from the surface, one image view and one set
    of synchronisation objects per swapchain image, one framebuffer per image
    view, and the ring counter that picks the frame in flight. */
module Swapchain {
  import opened Common
  import opened Buffer

  /** The image count the engine prefers. */
  const PREFERRED_IMAGE_COUNT: nat := 3

  function Min(a: nat, b: nat): (r: nat)
  {
    if a < b then a else b
  }

  /** `3.max(min_image_count).min(max_image_count)` as written: the upper
      bound is applied even when it is 0. */
  function ClampImageCount(minImageCount: nat, maxImageCount: nat): (r: nat)
  {
    Min(Max(PREFERRED_IMAGE_COUNT, minImageCount), maxImageCount)
  }

  /** The clamp asks for three images whenever the surface allows three. */
  lemma ClampPrefersThree(minImageCount: nat, maxImageCount: nat)
    requires minImageCount <= PREFERRED_IMAGE_COUNT <= maxImageCount
    ensures ClampImageCount(minImageCount, maxImageCount) == PREFERRED_IMAGE_COUNT
  {
  }

  /** As written, the request never exceeds `maxImageCount`, and it is at
      least the surface's minimum whenever the surface states a maximum at
      or above that minimum. */
  lemma ClampBounds(minImageCount: nat, maxImageCount: nat)
    ensures ClampImageCount(minImageCount, maxImageCount) <= maxImageCount
    ensures minImageCount <= maxImageCount ==> minImageCount <= ClampImageCount(minImageCount, maxImageCount)
    ensures ClampImageCount(minImageCount, maxImageCount) == 0 <==> maxImageCount == 0
  {
  }

  /** A surface with no limit on the image count reports `maxImageCount == 0`
      (VkSurfaceCapabilitiesKHR, in the Surface Queries section of the WSI
      chapter of the Vulkan specification). For such a surface the clamp
      asks for zero images, below every surface's minimum of at least one. */
  lemma ClampOnUnboundedSurface()
    ensures ClampImageCount(2, 0) == 0
    ensures ClampImageCount(2, 0) < 2
  {
  }

  /** The clamp that treats `maxImageCount == 0` as "no limit". */
  function ClampImageCountUnbounded(minImageCount: nat, maxImageCount: nat): (r: nat)
  {
    if maxImageCount == 0 then Max(PREFERRED_IMAGE_COUNT, minImageCount)
    else ClampImageCount(minImageCount, maxImageCount)
  }

  /** For every surface the Vulkan specification allows (a maximum of 0, or
      one at least the minimum), the corrected request lies within the
      surface's bounds, and it is three whenever the bounds allow three. */
  lemma ClampUnboundedWithinSurface(minImageCount: nat, maxImageCount: nat)
    requires maxImageCount == 0 || minImageCount <= maxImageCount
    ensures var r := ClampImageCountUnbounded(minImageCount, maxImageCount);
            && minImageCount <= r
            && (maxImageCount > 0 ==> r <= maxImageCount)
            && ((minImageCount <= PREFERRED_IMAGE_COUNT
                 && (maxImageCount == 0 || PREFERRED_IMAGE_COUNT <= maxImageCount)) ==> r == PREFERRED_IMAGE_COUNT)
            && (r == PREFERRED_IMAGE_COUNT || r == minImageCount || r == maxImageCount)
  {
  }

  /** `(current_image + 1) % amount_of_images`. */
  function NextImage(current: nat, amountOfImages: nat): (r: nat)
    requires amountOfImages > 0
    ensures r < amountOfImages
    ensures current + 1 < amountOfImages ==> r == current + 1
    ensures current + 1 == amountOfImages ==> r == 0
  {
    (current + 1) % amountOfImages
  }

  /** The frame index after `steps` calls. */
  function Advance(current: nat, amountOfImages: nat, steps: nat): (r: nat)
    requires amountOfImages > 0
  {
    if steps == 0 then current else NextImage(Advance(current, amountOfImages, steps - 1), amountOfImages)
  }

  /** Stepping a reduced value is stepping the value. */
  lemma StepMod(x: nat, a: nat)
    requires a > 0
    ensures (x % a + 1) % a == (x + 1) % a
  {
    var q, r := x / a, x % a;
    assert x == q * a + r;
    if r + 1 < a {
      DivModUnique(0, a, r + 1);
      DivModUnique(q, a, r + 1);
    } else {
      DivModUnique(1, a, 0);
      DivModUnique(q + 1, a, 0);
      assert x + 1 == (q + 1) * a + 0;
    }
  }

  /** After `n` calls from an index in range, the counter is at
      `(current + n) mod amount_of_images`. */
  lemma {:induction false} AdvanceIsModular(current: nat, amountOfImages: nat, steps: nat)
    requires current < amountOfImages
    ensures Advance(current, amountOfImages, steps) == (current + steps) % amountOfImages
  {
    if steps == 0 {
      DivModUnique(0, amountOfImages, current);
    } else {
      AdvanceIsModular(current, amountOfImages, steps - 1);
      StepMod(current + steps - 1, amountOfImages);
    }
  }

  /** After `amount_of_images` calls the counter is back where it started. */
  lemma RingReturns(current: nat, amountOfImages: nat)
    requires current < amountOfImages
    ensures Advance(current, amountOfImages, amountOfImages) == current
  {
    AdvanceIsModular(current, amountOfImages, amountOfImages);
    DivModUnique(1, amountOfImages, current);
  }

  /** Every image index is reached within `amount_of_images` calls. */
  lemma RingVisits(current: nat, amountOfImages: nat, target: nat) returns (steps: nat)
    requires current < amountOfImages && target < amountOfImages
    ensures steps < amountOfImages && Advance(current, amountOfImages, steps) == target
  {
    if current <= target {
      steps := target - current;
      AdvanceIsModular(current, amountOfImages, steps);
      DivModUnique(0, amountOfImages, target);
    } else {
      steps := amountOfImages - current + target;
      AdvanceIsModular(current, amountOfImages, steps);
      DivModUnique(1, amountOfImages, target);
    }
  }

  /** A `vk::Framebuffer` with its attachments. */
  datatype Framebuffer = Framebuffer(handle: nat, attachments: seq<nat>)

  /** The per-image state of `EngineSwapchain`. The swapchain handle, the
      depth image and its allocation, format and extent are left out. */
  class EngineSwapchain {
    var images: seq<nat>
    var imageViews: seq<nat>
    var depthImageView: nat
    var framebuffers: seq<Framebuffer>
    var imageAvailable: seq<nat>
    var renderingFinished: seq<nat>
    var mayBeginDrawing: seq<nat>
    var amountOfImages: nat
    var currentImage: nat

    /** The frame in flight indexes every per-image vector. */
    ghost predicate Valid()
      reads this
    {
      && currentImage < amountOfImages
      && |imageAvailable| == |renderingFinished| == |mayBeginDrawing| == amountOfImages
    }

    /** The per-image part of `init`: given the images the swapchain was
        created with and the depth image view, create one image view per
        image, then two semaphores and a fence per image, in that order. */
    constructor Init(gpu: Gpu, swapchainImages: seq<nat>, depthImageView: nat)
      requires gpu.Valid()
      modifies gpu`nextHandle
      ensures gpu.Valid()
      ensures images == swapchainImages && this.depthImageView == depthImageView
      ensures amountOfImages == AsU32(|swapchainImages|)
      ensures |imageViews| == |swapchainImages|
      ensures forall k | 0 <= k < |imageViews| :: imageViews[k] == old(gpu.nextHandle) + k
      ensures |imageAvailable| == |renderingFinished| == |mayBeginDrawing| == amountOfImages
      ensures forall k | 0 <= k < amountOfImages ::
                var base := old(gpu.nextHandle) + |swapchainImages| + 3 * k;
                && imageAvailable[k] == base
                && renderingFinished[k] == base + 1
                && mayBeginDrawing[k] == base + 2
      ensures gpu.nextHandle == old(gpu.nextHandle) + |swapchainImages| + 3 * amountOfImages
      ensures framebuffers == [] && currentImage == 0
      ensures 0 < |swapchainImages| < U32_MODULUS ==> Valid()
    {
      var views: seq<nat> := [];
      for i := 0 to |swapchainImages|
        invariant gpu.Valid()
        invariant |views| == i && gpu.nextHandle == old(gpu.nextHandle) + i
        invariant forall k | 0 <= k < i :: views[k] == old(gpu.nextHandle) + k
      {
        var view := gpu.CreateObject();
        views := views + [view];
      }
      var amount := AsU32(|swapchainImages|);
      var start := gpu.nextHandle;
      var available: seq<nat> := [];
      var finished: seq<nat> := [];
      var fences: seq<nat> := [];
      for i := 0 to amount
        invariant gpu.Valid()
        invariant |available| == |finished| == |fences| == i
        invariant gpu.nextHandle == start + 3 * i
        invariant forall k | 0 <= k < i ::
                    available[k] == start + 3 * k && finished[k] == start + 3 * k + 1 && fences[k] == start + 3 * k + 2
      {
        var semaphoreAvailable := gpu.CreateObject();
        var semaphoreFinished := gpu.CreateObject();
        available := available + [semaphoreAvailable];
        finished := finished + [semaphoreFinished];
        var fence := gpu.CreateObject();
        fences := fences + [fence];
      }
      images := swapchainImages;
      imageViews := views;
      this.depthImageView := depthImageView;
      framebuffers := [];
      imageAvailable, renderingFinished, mayBeginDrawing := available, finished, fences;
      amountOfImages := amount;
      currentImage := 0;
    }

    /** `create_framebuffers`: one framebuffer per image view, with that view
        and the depth view as attachments, appended in order. */
    method CreateFramebuffers(gpu: Gpu)
      requires gpu.Valid()
      modifies this`framebuffers, gpu`nextHandle
      ensures gpu.Valid()
      ensures |framebuffers| == |old(framebuffers)| + |imageViews|
      ensures framebuffers[..|old(framebuffers)|] == old(framebuffers)
      ensures forall k | 0 <= k < |imageViews| ::
                framebuffers[|old(framebuffers)| + k]
                  == Framebuffer(old(gpu.nextHandle) + k, [imageViews[k], depthImageView])
      ensures gpu.nextHandle == old(gpu.nextHandle) + |imageViews|
    {
      for i := 0 to |imageViews|
        invariant gpu.Valid()
        invariant gpu.nextHandle == old(gpu.nextHandle) + i
        invariant |framebuffers| == |old(framebuffers)| + i
        invariant framebuffers[..|old(framebuffers)|] == old(framebuffers)
        invariant forall k | 0 <= k < i ::
                    framebuffers[|old(framebuffers)| + k]
                      == Framebuffer(old(gpu.nextHandle) + k, [imageViews[k], depthImageView])
      {
        var handle := gpu.CreateObject();
        framebuffers := framebuffers + [Framebuffer(handle, [imageViews[i], depthImageView])];
      }
    }

    /** `calculate_current_image`; the `%` panics when there are no images. */
    method CalculateCurrentImage()
      requires amountOfImages > 0
      modifies this`currentImage
      ensures currentImage == NextImage(old(currentImage), amountOfImages)
      ensures old(Valid()) ==> Valid()
    {
      currentImage := (currentImage + 1) % amountOfImages;
    }
  }
}
