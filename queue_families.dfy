/** Queue-family selection (`QueueFamilies::init`,
    src/engine/queue_families.rs): one pass over the device's queue
    families picks a graphics family that can present to the surface and a
    transfer family, preferring one without graphics. */
module QueueFamilySelection {
  import opened Common

  /** A failing Vulkan call's `vk::Result` code. */
  datatype VkError = VkError(code: int)

  /** One entry of `get_physical_device_queue_family_properties`, with the
      answer `get_physical_device_surface_support` would give for it. */
  datatype QueueFamily = QueueFamily(
    queueCount: nat,
    graphics: bool,
    transfer: bool,
    surfaceSupport: Result<bool, VkError>)

  datatype QueueFamilies = QueueFamilies(graphicsIndex: Option<nat>, transferIndex: Option<nat>)

  /** The surface-support query is made, and its error propagated, only for
      families with queues and the GRAPHICS flag (`&&` short-circuits). */
  predicate QueryFails(f: QueueFamily)
  {
    f.queueCount > 0 && f.graphics && f.surfaceSupport.Err?
  }

  predicate Presentable(f: QueueFamily)
  {
    f.queueCount > 0 && f.graphics && f.surfaceSupport == Ok(true)
  }

  predicate TransferCapable(f: QueueFamily)
  {
    f.queueCount > 0 && f.transfer
  }

  /** A transfer family without graphics. */
  predicate Dedicated(f: QueueFamily)
  {
    TransferCapable(f) && !f.graphics
  }

  /** `Some(i) as u32` for an index. */
  function IndexAsU32(i: Option<nat>): (r: Option<nat>)
  {
    if i.Some? then Some(AsU32(i.value)) else None
  }

  /** The first family whose surface query fails. */
  function FirstFailure(fs: seq<QueueFamily>): (r: Option<nat>)
    ensures r.Some? ==> r.value < |fs| && QueryFails(fs[r.value])
    decreases |fs|
  {
    if |fs| == 0 then None
    else
      var k := FirstFailure(fs[..|fs| - 1]);
      if k.Some? then k
      else if QueryFails(fs[|fs| - 1]) then Some(|fs| - 1)
      else None
  }

  /** The last presentable family. */
  function LastPresentable(fs: seq<QueueFamily>): (r: Option<nat>)
    decreases |fs|
  {
    if |fs| == 0 then None
    else if Presentable(fs[|fs| - 1]) then Some(|fs| - 1)
    else LastPresentable(fs[..|fs| - 1])
  }

  /** The last dedicated transfer family. */
  function LastDedicated(fs: seq<QueueFamily>): (r: Option<nat>)
    decreases |fs|
  {
    if |fs| == 0 then None
    else if Dedicated(fs[|fs| - 1]) then Some(|fs| - 1)
    else LastDedicated(fs[..|fs| - 1])
  }

  /** The first transfer-capable family. */
  function FirstTransfer(fs: seq<QueueFamily>): (r: Option<nat>)
    decreases |fs|
  {
    if |fs| == 0 then None
    else
      var k := FirstTransfer(fs[..|fs| - 1]);
      if k.Some? then k
      else if TransferCapable(fs[|fs| - 1]) then Some(|fs| - 1)
      else None
  }

  /** The transfer family the loop settles on: the last dedicated one if
      there is one, else the first capable one. */
  function TransferChoice(fs: seq<QueueFamily>): (r: Option<nat>)
  {
    if LastDedicated(fs).Some? then LastDedicated(fs) else FirstTransfer(fs)
  }

  /** What `init` returns for a device with these families. */
  function Selection(fs: seq<QueueFamily>): (r: Result<QueueFamilies, VkError>)
  {
    var k := FirstFailure(fs);
    if k.Some? then Err(fs[k.value].surfaceSupport.error)
    else Ok(QueueFamilies(IndexAsU32(LastPresentable(fs)), IndexAsU32(TransferChoice(fs))))
  }

  /** `QueueFamilies::init`. */
  method Init(families: seq<QueueFamily>) returns (r: Result<QueueFamilies, VkError>)
    ensures r == Selection(families)
  {
    var graphicsIndex: Option<nat> := None;
    var transferIndex: Option<nat> := None;
    for i := 0 to |families|
      invariant FirstFailure(families[..i]).None?
      invariant graphicsIndex == IndexAsU32(LastPresentable(families[..i]))
      invariant transferIndex == IndexAsU32(TransferChoice(families[..i]))
    {
      var family := families[i];
      assert families[..i + 1][..i] == families[..i];
      assert families[..i + 1][i] == family;
      if family.queueCount > 0 {
        if family.graphics {
          match family.surfaceSupport {
            case Err(e) =>
              FirstFailureExtends(families, i);
              return Err(e);
            case Ok(supported) =>
              if supported {
                graphicsIndex := Some(AsU32(i));
              }
          }
        }
        if family.transfer {
          DedicatedHasTransfer(families[..i]);
          if transferIndex.None? || !family.graphics {
            transferIndex := Some(AsU32(i));
          }
        }
      }
    }
    assert families[..|families|] == families;
    r := Ok(QueueFamilies(graphicsIndex, transferIndex));
  }

  /** A failure in the family after a failure-free prefix is the first. */
  lemma FirstFailureExtends(fs: seq<QueueFamily>, i: nat)
    requires i < |fs| && FirstFailure(fs[..i]).None? && QueryFails(fs[i])
    ensures Selection(fs) == Err(fs[i].surfaceSupport.error)
  {
    FirstFailureStops(fs, i + 1);
    assert fs[..i + 1][..i] == fs[..i];
  }

  /** Once found in a prefix, the first failure stays the first. */
  lemma {:induction false} FirstFailureStops(fs: seq<QueueFamily>, n: nat)
    requires n <= |fs| && FirstFailure(fs[..n]).Some?
    ensures FirstFailure(fs) == FirstFailure(fs[..n])
    decreases |fs| - n
  {
    if n < |fs| {
      assert fs[..n + 1][..n] == fs[..n];
      FirstFailureStops(fs, n + 1);
    } else {
      assert fs[..n] == fs;
    }
  }

  /** A dedicated transfer family is transfer-capable, so when none is
      capable none is dedicated. */
  lemma {:induction false} DedicatedHasTransfer(fs: seq<QueueFamily>)
    ensures FirstTransfer(fs).None? ==> LastDedicated(fs).None?
    ensures TransferChoice(fs).None? <==> FirstTransfer(fs).None?
    decreases |fs|
  {
    if |fs| > 0 {
      DedicatedHasTransfer(fs[..|fs| - 1]);
    }
  }

  /** The first failure is a family whose query fails, after none that does;
      there is none exactly when no query fails. */
  lemma {:induction false} FirstFailureIsFirst(fs: seq<QueueFamily>)
    ensures FirstFailure(fs).None? <==> forall i | 0 <= i < |fs| :: !QueryFails(fs[i])
    ensures FirstFailure(fs).Some? ==>
              var k := FirstFailure(fs).value;
              && k < |fs| && QueryFails(fs[k])
              && forall j | 0 <= j < k :: !QueryFails(fs[j])
    decreases |fs|
  {
    if |fs| > 0 {
      var init := fs[..|fs| - 1];
      FirstFailureIsFirst(init);
      assert forall j | 0 <= j < |init| :: init[j] == fs[j];
    }
  }

  /** The graphics family is the greatest presentable index, and there is
      none exactly when no family is presentable. */
  lemma {:induction false} LastPresentableIsLast(fs: seq<QueueFamily>)
    ensures LastPresentable(fs).None? <==> forall i | 0 <= i < |fs| :: !Presentable(fs[i])
    ensures LastPresentable(fs).Some? ==>
              var k := LastPresentable(fs).value;
              && k < |fs| && Presentable(fs[k])
              && forall j | k < j < |fs| :: !Presentable(fs[j])
    decreases |fs|
  {
    if |fs| > 0 {
      var init := fs[..|fs| - 1];
      LastPresentableIsLast(init);
      assert forall j | 0 <= j < |init| :: init[j] == fs[j];
    }
  }

  /** The greatest dedicated transfer index, or none exactly when there is none. */
  lemma {:induction false} LastDedicatedIsLast(fs: seq<QueueFamily>)
    ensures LastDedicated(fs).None? <==> forall i | 0 <= i < |fs| :: !Dedicated(fs[i])
    ensures LastDedicated(fs).Some? ==>
              var k := LastDedicated(fs).value;
              && k < |fs| && Dedicated(fs[k])
              && forall j | k < j < |fs| :: !Dedicated(fs[j])
    decreases |fs|
  {
    if |fs| > 0 {
      var init := fs[..|fs| - 1];
      LastDedicatedIsLast(init);
      assert forall j | 0 <= j < |init| :: init[j] == fs[j];
    }
  }

  /** The least transfer-capable index, or none exactly when there is none. */
  lemma {:induction false} FirstTransferIsFirst(fs: seq<QueueFamily>)
    ensures FirstTransfer(fs).None? <==> forall i | 0 <= i < |fs| :: !TransferCapable(fs[i])
    ensures FirstTransfer(fs).Some? ==>
              var k := FirstTransfer(fs).value;
              && k < |fs| && TransferCapable(fs[k])
              && forall j | 0 <= j < k :: !TransferCapable(fs[j])
    decreases |fs|
  {
    if |fs| > 0 {
      var init := fs[..|fs| - 1];
      FirstTransferIsFirst(init);
      assert forall j | 0 <= j < |init| :: init[j] == fs[j];
    }
  }

  /** What `init` promises, over indices below 2^32 (a Vulkan family count
      is a `u32`):
      - `Err` exactly when some graphics family's surface query fails, with
        the first such error;
      - the graphics index is the greatest presentable family, or `None`
        when there is none;
      - the transfer index is `None` exactly when no family with queues has
        TRANSFER; otherwise it is the last such family without GRAPHICS if
        there is one, else the first such family;
      - every selected family has queues and lies within the list. */
  lemma SelectionSpec(fs: seq<QueueFamily>)
    requires |fs| <= U32_MODULUS
    ensures Selection(fs).Err? <==> exists i | 0 <= i < |fs| :: QueryFails(fs[i])
    ensures Selection(fs).Err? ==>
              exists k | 0 <= k < |fs| :: QueryFails(fs[k]) && Selection(fs).error == fs[k].surfaceSupport.error
                                        && forall j | 0 <= j < k :: !QueryFails(fs[j])
    ensures Selection(fs).Ok? ==>
              var q := Selection(fs).value;
              && (q.graphicsIndex.None? <==> forall i | 0 <= i < |fs| :: !Presentable(fs[i]))
              && (q.graphicsIndex.Some? ==>
                    && q.graphicsIndex.value < |fs| && Presentable(fs[q.graphicsIndex.value])
                    && forall j | q.graphicsIndex.value < j < |fs| :: !Presentable(fs[j]))
              && (q.transferIndex.None? <==> forall i | 0 <= i < |fs| :: !TransferCapable(fs[i]))
              && (q.transferIndex.Some? ==>
                    var t := q.transferIndex.value;
                    && t < |fs| && TransferCapable(fs[t])
                    && (if exists i | 0 <= i < |fs| :: Dedicated(fs[i])
                        then Dedicated(fs[t]) && forall j | t < j < |fs| :: !Dedicated(fs[j])
                        else forall j | 0 <= j < t :: !TransferCapable(fs[j])))
  {
    FirstFailureIsFirst(fs);
    LastPresentableIsLast(fs);
    LastDedicatedIsLast(fs);
    FirstTransferIsFirst(fs);
    DedicatedHasTransfer(fs);
  }

  /** Two family lists that agree on everything the loop looks at. */
  predicate SameForSelection(fs: seq<QueueFamily>, gs: seq<QueueFamily>)
  {
    && |fs| == |gs|
    && forall i | 0 <= i < |fs| ::
         && (fs[i].queueCount > 0) == (gs[i].queueCount > 0)
         && fs[i].graphics == gs[i].graphics && fs[i].transfer == gs[i].transfer
         && (fs[i].queueCount > 0 && fs[i].graphics ==> fs[i].surfaceSupport == gs[i].surfaceSupport)
  }

  /** The surface support of a family without queues or without GRAPHICS is
      never consulted: changing it cannot change the selection. */
  lemma {:induction false} SupportOfOtherFamiliesIgnored(fs: seq<QueueFamily>, gs: seq<QueueFamily>)
    requires SameForSelection(fs, gs)
    ensures Selection(fs) == Selection(gs)
    decreases |fs|
  {
    SameForSelectionPrefixes(fs, gs);
  }

  lemma {:induction false} SameForSelectionPrefixes(fs: seq<QueueFamily>, gs: seq<QueueFamily>)
    requires SameForSelection(fs, gs)
    ensures FirstFailure(fs) == FirstFailure(gs)
    ensures LastPresentable(fs) == LastPresentable(gs)
    ensures LastDedicated(fs) == LastDedicated(gs)
    ensures FirstTransfer(fs) == FirstTransfer(gs)
    decreases |fs|
  {
    if |fs| > 0 {
      var n := |fs| - 1;
      assert SameForSelection(fs[..n], gs[..n]) by {
        forall i | 0 <= i < n ensures fs[..n][i] == fs[i] && gs[..n][i] == gs[i] { }
      }
      SameForSelectionPrefixes(fs[..n], gs[..n]);
    }
  }
}
