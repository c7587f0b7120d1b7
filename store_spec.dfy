/** The bookkeeping of `Model<V, I>` (src/engine/model.rs) as values: the
    handle-indexed instance store and every operation on it, exactly as the
    code performs it, with what does and does not hold of it.

    The store is meant to be a sparse set: `handles[i]` is the handle stored
    at dense position `i`, `handle_to_index` inverts it, and the positions
    below `first_invisible` are the visible ones. Two defects keep the code
    from meeting that design: `swap_by_index` and `swap_by_handle` write the
    map keyed by position instead of by handle, and `remove` moves the
    element at `first_invisible`, not the removed one, to the end before
    popping. The functions below keep both; corrected ones follow them. */
module StoreSpec {
  import opened Common

  type Handle = nat

  /** The error of every handle lookup that misses. */
  datatype InvalidHandle = InvalidHandle

  datatype Store<I> = Store(
    handleToIndex: map<nat, nat>,
    handles: seq<Handle>,
    instances: seq<I>,
    firstInvisible: nat,
    nextHandle: Handle)

  /** The store `cube()` starts with: nothing stored, no handle issued. */
  function Empty<I>(): (r: Store<I>)
  {
    Store(map[], [], [], 0, 0)
  }

  /** The two dense vectors have one length and the visible prefix fits. */
  predicate WellShaped<I>(s: Store<I>)
  {
    |s.handles| == |s.instances| && s.firstInvisible <= |s.instances|
  }

  /** The intended invariant: `handle_to_index` is the inverse of `handles`. */
  predicate Consistent<I>(s: Store<I>)
  {
    && WellShaped(s)
    && (forall i | 0 <= i < |s.handles| ::
          s.handles[i] in s.handleToIndex && s.handleToIndex[s.handles[i]] == i)
    && (forall h | h in s.handleToIndex ::
          s.handleToIndex[h] < |s.handles| && s.handles[s.handleToIndex[h]] == h)
  }

  /** Every stored handle was issued before `next_handle`. */
  predicate HandlesIssued<I>(s: Store<I>)
  {
    forall i | 0 <= i < |s.handles| :: s.handles[i] < s.nextHandle
  }

  // ---------------------------------------------------------------------
  // Lookups
  // ---------------------------------------------------------------------

  /** `get`: the instance at the position the map gives, if that is in range. */
  function Get<I>(s: Store<I>, h: Handle): (r: Option<I>)
    ensures r.Some? ==> h in s.handleToIndex && r.value in s.instances
    ensures h !in s.handleToIndex ==> r == None
  {
    if h in s.handleToIndex && s.handleToIndex[h] < |s.instances|
    then Some(s.instances[s.handleToIndex[h]]) else None
  }

  /** `get_mut`: the dense position the returned mutable reference designates. */
  function GetMut<I>(s: Store<I>, h: Handle): (r: Option<nat>)
    ensures r.Some? ==> r.value < |s.instances| && Get(s, h) == Some(s.instances[r.value])
    ensures r.None? ==> Get(s, h) == None
  {
    if h in s.handleToIndex && s.handleToIndex[h] < |s.instances|
    then Some(s.handleToIndex[h]) else None
  }

  /** `is_visible`: whether the position the map gives lies in the visible prefix. */
  function IsVisible<I>(s: Store<I>, h: Handle): (r: Result<bool, InvalidHandle>)
    ensures r.Err? <==> h !in s.handleToIndex
  {
    if h in s.handleToIndex then Ok(s.handleToIndex[h] < s.firstInvisible)
    else Err(InvalidHandle)
  }

  // ---------------------------------------------------------------------
  // Mutations, as written
  // ---------------------------------------------------------------------

  /** `swap_by_index` indexes both vectors unless the two indices are equal. */
  predicate CanSwap<I>(s: Store<I>, i: nat, j: nat)
  {
    i != j ==> i < |s.handles| && j < |s.handles| && i < |s.instances| && j < |s.instances|
  }

  /** `swap_by_index`: exchange two dense positions; the map is then written
      at the two POSITIONS as keys, each with the handle now stored there. */
  function SwapByIndex<I>(s: Store<I>, i: nat, j: nat): (r: Store<I>)
    requires CanSwap(s, i, j)
    ensures i == j ==> r == s
    ensures |r.handles| == |s.handles| && |r.instances| == |s.instances|
    ensures r.firstInvisible == s.firstInvisible && r.nextHandle == s.nextHandle
    ensures i != j ==>
              && r.handles[i] == s.handles[j] && r.handles[j] == s.handles[i]
              && r.instances[i] == s.instances[j] && r.instances[j] == s.instances[i]
    ensures i != j ==>
              && r.handleToIndex.Keys == s.handleToIndex.Keys + {i, j}
              && r.handleToIndex[i] == r.handles[i] && r.handleToIndex[j] == r.handles[j]
  {
    if i == j then s
    else
      var h1 := s.handles[i];
      var h2 := s.handles[j];
      s.(handles := s.handles[i := h2][j := h1],
         instances := s.instances[i := s.instances[j]][j := s.instances[i]],
         handleToIndex := s.handleToIndex[i := h2][j := h1])
  }

  /** Apart from the two swapped positions, and the map keys equal to them,
      `swap_by_index` changes nothing. */
  lemma SwapByIndexElsewhere<I>(s: Store<I>, i: nat, j: nat)
    requires CanSwap(s, i, j)
    ensures var r := SwapByIndex(s, i, j);
            && (forall k | 0 <= k < |s.handles| && k != i && k != j :: r.handles[k] == s.handles[k])
            && (forall k | 0 <= k < |s.instances| && k != i && k != j :: r.instances[k] == s.instances[k])
            && (forall k | k in s.handleToIndex && k != i && k != j :: r.handleToIndex[k] == s.handleToIndex[k])
  {
  }

  /** `Vec::swap` bounds-checks both looked-up positions. */
  predicate CanSwapHandles<I>(s: Store<I>, h1: Handle, h2: Handle)
  {
    h1 != h2 && h1 in s.handleToIndex && h2 in s.handleToIndex ==>
      var i1 := s.handleToIndex[h1];
      var i2 := s.handleToIndex[h2];
      i1 < |s.handles| && i2 < |s.handles| && i1 < |s.instances| && i2 < |s.instances|
  }

  /** `swap_by_handle`: exchange the positions the map gives for two handles,
      then write the map with those positions as keys. */
  function SwapByHandle<I>(s: Store<I>, h1: Handle, h2: Handle): (r: (Result<(), InvalidHandle>, Store<I>))
    requires CanSwapHandles(s, h1, h2)
    ensures r.0.Err? <==> h1 != h2 && (h1 !in s.handleToIndex || h2 !in s.handleToIndex)
    ensures r.0.Err? || h1 == h2 ==> r.1 == s
    ensures r.0.Ok? && h1 != h2 ==>
              var i1 := s.handleToIndex[h1];
              var i2 := s.handleToIndex[h2];
              && |r.1.handles| == |s.handles| && |r.1.instances| == |s.instances|
              && r.1.handles[i1] == s.handles[i2] && r.1.handles[i2] == s.handles[i1]
              && r.1.instances[i1] == s.instances[i2] && r.1.instances[i2] == s.instances[i1]
              && r.1.handleToIndex.Keys == s.handleToIndex.Keys + {i1, i2}
              && r.1.handleToIndex[i2] == h1
              && (i1 != i2 ==> r.1.handleToIndex[i1] == h2)
              && r.1.firstInvisible == s.firstInvisible && r.1.nextHandle == s.nextHandle
  {
    if h1 == h2 then (Ok(()), s)
    else if h1 in s.handleToIndex && h2 in s.handleToIndex then
      var i1 := s.handleToIndex[h1];
      var i2 := s.handleToIndex[h2];
      (Ok(()), s.(handles := s.handles[i1 := s.handles[i2]][i2 := s.handles[i1]],
                  instances := s.instances[i1 := s.instances[i2]][i2 := s.instances[i1]],
                  handleToIndex := s.handleToIndex[i1 := h2][i2 := h1]))
    else (Err(InvalidHandle), s)
  }

  /** `make_visible` swaps only when the looked-up position is past the boundary. */
  predicate CanMakeVisible<I>(s: Store<I>, h: Handle)
  {
    h in s.handleToIndex && s.handleToIndex[h] > s.firstInvisible ==>
      s.handleToIndex[h] < |s.handles| && s.handleToIndex[h] < |s.instances|
  }

  /** `make_visible`: move the element to position `first_invisible` and grow
      the visible prefix by one; a no-op when it is already visible. */
  function MakeVisible<I>(s: Store<I>, h: Handle): (r: (Result<(), InvalidHandle>, Store<I>))
    requires CanMakeVisible(s, h)
    ensures r.0.Err? <==> h !in s.handleToIndex
    ensures r.0.Err? || s.handleToIndex[h] < s.firstInvisible ==> r.1 == s
    ensures r.0.Ok? && s.handleToIndex[h] >= s.firstInvisible ==>
              var index := s.handleToIndex[h];
              && r.1.firstInvisible == s.firstInvisible + 1
              && r.1.nextHandle == s.nextHandle
              && |r.1.handles| == |s.handles| && |r.1.instances| == |s.instances|
              && (index < |s.instances| ==> r.1.instances[s.firstInvisible] == s.instances[index])
              && (index < |s.handles| ==> r.1.handles[s.firstInvisible] == s.handles[index])
  {
    if h in s.handleToIndex then
      var index := s.handleToIndex[h];
      if index < s.firstInvisible then (Ok(()), s)
      else (Ok(()), SwapByIndex(s, index, s.firstInvisible).(firstInvisible := s.firstInvisible + 1))
    else (Err(InvalidHandle), s)
  }

  /** `make_invisible` swaps only when the position is below `first_invisible - 1`. */
  predicate CanMakeInvisible<I>(s: Store<I>, h: Handle)
  {
    h in s.handleToIndex && s.handleToIndex[h] + 1 < s.firstInvisible ==>
      s.firstInvisible - 1 < |s.handles| && s.firstInvisible - 1 < |s.instances|
  }

  /** `make_invisible`: move the element to position `first_invisible - 1` and
      shrink the visible prefix by one; a no-op when it is already invisible. */
  function MakeInvisible<I>(s: Store<I>, h: Handle): (r: (Result<(), InvalidHandle>, Store<I>))
    requires CanMakeInvisible(s, h)
    ensures r.0.Err? <==> h !in s.handleToIndex
    ensures r.0.Err? || s.handleToIndex[h] >= s.firstInvisible ==> r.1 == s
    ensures r.0.Ok? && s.handleToIndex[h] < s.firstInvisible ==>
              var index := s.handleToIndex[h];
              && r.1.firstInvisible == s.firstInvisible - 1
              && r.1.nextHandle == s.nextHandle
              && |r.1.handles| == |s.handles| && |r.1.instances| == |s.instances|
              && (index < |s.instances| ==> r.1.instances[s.firstInvisible - 1] == s.instances[index])
              && (index < |s.handles| ==> r.1.handles[s.firstInvisible - 1] == s.handles[index])
  {
    if h in s.handleToIndex then
      var index := s.handleToIndex[h];
      if index >= s.firstInvisible then (Ok(()), s)
      else (Ok(()), SwapByIndex(s, index, s.firstInvisible - 1).(firstInvisible := s.firstInvisible - 1))
    else (Err(InvalidHandle), s)
  }

  /** `insert`: append the record, issue `next_handle` and register it at the
      old length of `instances`. */
  function Insert<I>(s: Store<I>, x: I): (r: (Store<I>, Handle))
    ensures r.1 == s.nextHandle && r.0.nextHandle > r.1
    ensures r.0.firstInvisible == s.firstInvisible
    ensures r.0.instances == s.instances + [x] && r.0.handles == s.handles + [r.1]
    ensures IsVisible(r.0, r.1) == Ok(|s.instances| < s.firstInvisible)
    ensures Get(r.0, r.1) == Some(x)
  {
    var h := s.nextHandle;
    (s.(nextHandle := h + 1,
        instances := s.instances + [x],
        handles := s.handles + [h],
        handleToIndex := s.handleToIndex[h := |s.instances|]), h)
  }

  /** `insert_visibly` calls `make_visible` on the fresh handle. */
  predicate CanInsertVisibly<I>(s: Store<I>)
  {
    s.firstInvisible < |s.instances| ==> |s.instances| <= |s.handles|
  }

  /** `insert_visibly`: `insert`, then `make_visible` with its result ignored. */
  function InsertVisibly<I>(s: Store<I>, x: I): (r: (Store<I>, Handle))
    requires CanInsertVisibly(s)
    ensures r.1 == s.nextHandle && r.0.nextHandle == s.nextHandle + 1
    ensures |r.0.instances| == |s.instances| + 1 && |r.0.handles| == |s.handles| + 1
    ensures r.0.firstInvisible == if |s.instances| < s.firstInvisible then s.firstInvisible
                                  else s.firstInvisible + 1
    ensures WellShaped(s) ==>
              && WellShaped(r.0)
              && r.0.instances[s.firstInvisible] == x && r.0.handles[s.firstInvisible] == r.1
  {
    var (s1, h) := Insert(s, x);
    var (_, s2) := MakeVisible(s1, h);
    (s2, h)
  }

  /** The position `remove` swaps with the last slot: `first_invisible`,
      after the visible prefix has shrunk if the element was visible. */
  function RemoveSwapStart<I>(s: Store<I>, h: Handle): (r: nat)
    requires h in s.handleToIndex
  {
    if s.handleToIndex[h] < s.firstInvisible then s.firstInvisible - 1 else s.firstInvisible
  }

  /** `remove` indexes in both swaps and pops `instances` with `unwrap`. */
  predicate CanRemove<I>(s: Store<I>, h: Handle)
  {
    h in s.handleToIndex ==>
      var index := s.handleToIndex[h];
      var f := RemoveSwapStart(s, h);
      && (index < s.firstInvisible ==> CanSwap(s, index, s.firstInvisible - 1))
      && |s.instances| > 0
      && CanSwap(s, f, |s.instances| - 1)
  }

  /** The first stage of `remove`: a visible element is swapped to the end
      of the visible prefix, which then shrinks by one. */
  function RemoveHide<I>(s: Store<I>, h: Handle): (r: Store<I>)
    requires h in s.handleToIndex
    requires s.handleToIndex[h] < s.firstInvisible ==> CanSwap(s, s.handleToIndex[h], s.firstInvisible - 1)
    ensures r.firstInvisible == RemoveSwapStart(s, h) && r.nextHandle == s.nextHandle
    ensures |r.instances| == |s.instances| && |r.handles| == |s.handles|
    ensures r.handleToIndex.Keys <= s.handleToIndex.Keys + {s.handleToIndex[h], RemoveSwapStart(s, h)}
    ensures forall k | k in s.handleToIndex && k != s.handleToIndex[h] && k != RemoveSwapStart(s, h) ::
              k in r.handleToIndex && r.handleToIndex[k] == s.handleToIndex[k]
    ensures s.handleToIndex[h] < s.firstInvisible && s.handleToIndex[h] < |s.instances| ==>
              r.firstInvisible < |r.instances| && r.instances[r.firstInvisible] == s.instances[s.handleToIndex[h]]
    ensures s.handleToIndex[h] >= s.firstInvisible ==> r == s
    ensures CanRemove(s, h) ==> |r.instances| > 0 && CanSwap(r, r.firstInvisible, |r.instances| - 1)
  {
    var index := s.handleToIndex[h];
    if index < s.firstInvisible
    then SwapByIndex(s, index, s.firstInvisible - 1).(firstInvisible := s.firstInvisible - 1)
    else s
  }

  /** The second stage of `remove`: swap position `first_invisible` with the
      last slot, pop both vectors (`Vec::pop` leaves an empty `handles`
      empty), delete the handle's key, and yield the popped record. */
  function RemovePop<I>(s: Store<I>, h: Handle): (r: (I, Store<I>))
    requires |s.instances| > 0 && CanSwap(s, s.firstInvisible, |s.instances| - 1)
    ensures |r.1.instances| == |s.instances| - 1
    ensures |r.1.handles| == if |s.handles| == 0 then 0 else |s.handles| - 1
    ensures r.1.handleToIndex.Keys <= s.handleToIndex.Keys + {s.firstInvisible, |s.instances| - 1} - {h}
    ensures r.1.firstInvisible == s.firstInvisible && r.1.nextHandle == s.nextHandle
    ensures r.0 == if s.firstInvisible < |s.instances| then s.instances[s.firstInvisible] else s.instances[|s.instances| - 1]
  {
    var last := |s.instances| - 1;
    var s2 := SwapByIndex(s, s.firstInvisible, last);
    (s2.instances[last],
     s2.(handles := if |s2.handles| == 0 then [] else s2.handles[..|s2.handles| - 1],
         instances := s2.instances[..last],
         handleToIndex := s2.handleToIndex - {h}))
  }

  /** Proof helper: `RemovePop` unfolded stage by stage, the swap with the
      last slot, then the pops. */
  lemma RemovePopStages<I>(s: Store<I>, h: Handle, s2: Store<I>)
    requires |s.instances| > 0 && CanSwap(s, s.firstInvisible, |s.instances| - 1)
    requires s2 == SwapByIndex(s, s.firstInvisible, |s.instances| - 1)
    ensures RemovePop(s, h).0 == s2.instances[|s2.instances| - 1]
    ensures RemovePop(s, h).1 == s2.(handles := if |s2.handles| == 0 then [] else s2.handles[..|s2.handles| - 1],
                                     instances := s2.instances[..|s2.instances| - 1],
                                     handleToIndex := s2.handleToIndex - {h})
  {
  }

  /** `remove`: hide the element if it is visible, then pop position
      `first_invisible`, which is the element itself only when it sits there. */
  function Remove<I>(s: Store<I>, h: Handle): (r: (Result<I, InvalidHandle>, Store<I>))
    requires CanRemove(s, h)
    ensures r.0.Err? <==> h !in s.handleToIndex
    ensures r.0.Err? ==> r.1 == s
    ensures r.0.Ok? ==>
              && |r.1.instances| == |s.instances| - 1
              && |r.1.handles| == (if |s.handles| == 0 then 0 else |s.handles| - 1)
              && r.1.handleToIndex.Keys <= s.handleToIndex.Keys + {s.handleToIndex[h], RemoveSwapStart(s, h), |s.instances| - 1} - {h}
              && h !in r.1.handleToIndex
              && r.1.firstInvisible == RemoveSwapStart(s, h)
              && r.1.nextHandle == s.nextHandle
  {
    if h in s.handleToIndex then
      var (x, t) := RemovePop(RemoveHide(s, h), h);
      (Ok(x), t)
    else (Err(InvalidHandle), s)
  }

  // ---------------------------------------------------------------------
  // Sequences of calls
  // ---------------------------------------------------------------------

  /** A call a caller can make on the store. */
  datatype Op<I> =
    | InsertOp(x: I)
    | InsertVisiblyOp(x: I)
    | RemoveOp(h: Handle)
    | MakeVisibleOp(h: Handle)
    | MakeInvisibleOp(h: Handle)
    | SwapByHandleOp(h1: Handle, h2: Handle)
    | SwapByIndexOp(i: nat, j: nat)

  /** One call: the new store and the handle an insert issued, or None when
      the call panics. */
  function Step<I>(s: Store<I>, op: Op<I>): (r: Option<(Store<I>, Option<Handle>)>)
  {
    match op
    case InsertOp(x) =>
      var (t, h) := Insert(s, x); Some((t, Some(h)))
    case InsertVisiblyOp(x) =>
      if CanInsertVisibly(s) then var (t, h) := InsertVisibly(s, x); Some((t, Some(h))) else None
    case RemoveOp(h) =>
      if CanRemove(s, h) then Some((Remove(s, h).1, None)) else None
    case MakeVisibleOp(h) =>
      if CanMakeVisible(s, h) then Some((MakeVisible(s, h).1, None)) else None
    case MakeInvisibleOp(h) =>
      if CanMakeInvisible(s, h) then Some((MakeInvisible(s, h).1, None)) else None
    case SwapByHandleOp(h1, h2) =>
      if CanSwapHandles(s, h1, h2) then Some((SwapByHandle(s, h1, h2).1, None)) else None
    case SwapByIndexOp(i, j) =>
      if CanSwap(s, i, j) then Some((SwapByIndex(s, i, j), None)) else None
  }

  /** A sequence of calls: the final store and the handles issued, in order,
      or None when some call panics. */
  function Run<I>(s: Store<I>, ops: seq<Op<I>>): (r: Option<(Store<I>, seq<Handle>)>)
    decreases |ops|
  {
    if ops == [] then Some((s, []))
    else
      match Step(s, ops[0])
      case None => None
      case Some((t, issued)) =>
        match Run(t, ops[1..])
        case None => None
        case Some((u, hs)) => Some((u, (if issued.Some? then [issued.value] else []) + hs))
  }

  /** The positions a call looks up in the map are inside the dense vectors. */
  predicate LookupInRange<I>(s: Store<I>, op: Op<I>)
  {
    match op
    case InsertOp(_) => true
    case InsertVisiblyOp(_) => true
    case RemoveOp(h) => h in s.handleToIndex ==> s.handleToIndex[h] < |s.instances|
    case MakeVisibleOp(h) => h in s.handleToIndex ==> s.handleToIndex[h] < |s.instances|
    case MakeInvisibleOp(h) => true
    case SwapByHandleOp(h1, h2) =>
      && (h1 in s.handleToIndex ==> s.handleToIndex[h1] < |s.instances|)
      && (h2 in s.handleToIndex ==> s.handleToIndex[h2] < |s.instances|)
    case SwapByIndexOp(i, j) => i < |s.instances| && j < |s.instances|
  }

  /** `handles.len() == instances.len()` and `first_invisible <= len` survive
      every call whose looked-up positions are in range, and such a call does
      not panic. */
  lemma StepKeepsShape<I>(s: Store<I>, op: Op<I>)
    requires WellShaped(s) && LookupInRange(s, op)
    ensures Step(s, op).Some? && WellShaped(Step(s, op).value.0)
  {
    match op
    case InsertOp(x) =>
    case InsertVisiblyOp(x) =>
    case RemoveOp(h) =>
      if h in s.handleToIndex {
        var index := s.handleToIndex[h];
        assert |s.instances| > 0;
        assert CanRemove(s, h);
      }
    case MakeVisibleOp(h) =>
    case MakeInvisibleOp(h) =>
    case SwapByHandleOp(h1, h2) =>
    case SwapByIndexOp(i, j) =>
  }

  /** Every handle a swap leaves stored was stored before. */
  lemma SwapKeepsHandles<I>(s: Store<I>, i: nat, j: nat)
    requires CanSwap(s, i, j)
    ensures forall k | 0 <= k < |SwapByIndex(s, i, j).handles| :: SwapByIndex(s, i, j).handles[k] in s.handles
  {
    var r := SwapByIndex(s, i, j);
    SwapByIndexElsewhere(s, i, j);
    forall k | 0 <= k < |r.handles| ensures r.handles[k] in s.handles {
      if i != j && k == i { assert r.handles[k] == s.handles[j]; }
      else if i != j && k == j { assert r.handles[k] == s.handles[i]; }
      else { assert r.handles[k] == s.handles[k]; }
    }
  }

  /** Proof helper: a successful `remove` unfolded into its two stages. */
  lemma RemoveIsStages<I>(s: Store<I>, h: Handle)
    requires CanRemove(s, h) && h in s.handleToIndex
    ensures Remove(s, h) == (Ok(RemovePop(RemoveHide(s, h), h).0), RemovePop(RemoveHide(s, h), h).1)
  {
  }

  /** Every handle the hiding stage of `remove` leaves stored was stored before. */
  lemma RemoveHideKeepsHandles<I>(s: Store<I>, h: Handle)
    requires CanRemove(s, h) && h in s.handleToIndex
    ensures forall k | 0 <= k < |RemoveHide(s, h).handles| :: RemoveHide(s, h).handles[k] in s.handles
  {
    var index := s.handleToIndex[h];
    if index < s.firstInvisible {
      SwapKeepsHandles(s, index, s.firstInvisible - 1);
    }
  }

  /** Every handle the popping stage of `remove` leaves stored was stored before. */
  lemma RemovePopKeepsHandles<I>(s: Store<I>, h: Handle)
    requires |s.instances| > 0 && CanSwap(s, s.firstInvisible, |s.instances| - 1)
    ensures forall k | 0 <= k < |RemovePop(s, h).1.handles| :: RemovePop(s, h).1.handles[k] in s.handles
  {
    var s2 := SwapByIndex(s, s.firstInvisible, |s.instances| - 1);
    SwapKeepsHandles(s, s.firstInvisible, |s.instances| - 1);
    RemovePopStages(s, h, s2);
    var kept := RemovePop(s, h).1.handles;
    forall k | 0 <= k < |kept| ensures kept[k] in s.handles {
      assert kept[k] == s2.handles[k];
    }
  }

  /** Every handle `remove` leaves stored was stored before. */
  lemma RemoveKeepsHandles<I>(s: Store<I>, h: Handle)
    requires CanRemove(s, h)
    ensures forall k | 0 <= k < |Remove(s, h).1.handles| :: Remove(s, h).1.handles[k] in s.handles
  {
    if h in s.handleToIndex {
      var s1 := RemoveHide(s, h);
      RemoveHideKeepsHandles(s, h);
      RemovePopKeepsHandles(s1, h);
      RemoveIsStages(s, h);
      var t := Remove(s, h).1;
      forall k | 0 <= k < |t.handles| ensures t.handles[k] in s.handles {
        var j :| 0 <= j < |s1.handles| && s1.handles[j] == t.handles[k];
      }
    }
  }

  /** A call issues `next_handle` or nothing, never lowers `next_handle`, and
      stores no handle that it did not find stored or issue itself. */
  lemma StepHandles<I>(s: Store<I>, op: Op<I>)
    requires Step(s, op).Some?
    ensures var (t, issued) := Step(s, op).value;
            && (issued.Some? ==> issued.value == s.nextHandle && t.nextHandle == s.nextHandle + 1)
            && (issued.None? ==> t.nextHandle == s.nextHandle)
            && (forall k | 0 <= k < |t.handles| ::
                  t.handles[k] in s.handles || (issued.Some? && t.handles[k] == issued.value))
  {
    match op
    case InsertOp(x) =>
    case InsertVisiblyOp(x) =>
      InsertVisiblyKeepsHandles(s, x);
    case RemoveOp(h) =>
      RemoveKeepsHandles(s, h);
    case MakeVisibleOp(h) =>
      if h in s.handleToIndex && s.handleToIndex[h] >= s.firstInvisible {
        SwapKeepsHandles(s, s.handleToIndex[h], s.firstInvisible);
      }
    case MakeInvisibleOp(h) =>
      if h in s.handleToIndex && s.handleToIndex[h] < s.firstInvisible {
        SwapKeepsHandles(s, s.handleToIndex[h], s.firstInvisible - 1);
      }
    case SwapByHandleOp(h1, h2) =>
      SwapByHandleKeepsHandles(s, h1, h2);
    case SwapByIndexOp(i, j) =>
      SwapKeepsHandles(s, i, j);
  }

  /** `insert_visibly` stores only the handles it found and the one it issues. */
  lemma InsertVisiblyKeepsHandles<I>(s: Store<I>, x: I)
    requires CanInsertVisibly(s)
    ensures var (t, h) := InsertVisibly(s, x);
            forall k | 0 <= k < |t.handles| :: t.handles[k] in s.handles || t.handles[k] == h
  {
    var (s1, h) := Insert(s, x);
    if s1.handleToIndex[h] >= s1.firstInvisible {
      SwapKeepsHandles(s1, s1.handleToIndex[h], s1.firstInvisible);
    }
    var t := InsertVisibly(s, x).0;
    forall k | 0 <= k < |t.handles| ensures t.handles[k] in s.handles || t.handles[k] == h {
      assert t.handles[k] in s1.handles;
    }
  }

  /** `swap_by_handle` stores only the handles it found. */
  lemma SwapByHandleKeepsHandles<I>(s: Store<I>, h1: Handle, h2: Handle)
    requires CanSwapHandles(s, h1, h2)
    ensures var t := SwapByHandle(s, h1, h2).1;
            forall k | 0 <= k < |t.handles| :: t.handles[k] in s.handles
  {
    if h1 != h2 && h1 in s.handleToIndex && h2 in s.handleToIndex {
      var i1, i2 := s.handleToIndex[h1], s.handleToIndex[h2];
      var t := SwapByHandle(s, h1, h2).1;
      forall k | 0 <= k < |t.handles| ensures t.handles[k] in s.handles {
        if k == i2 { assert t.handles[k] == s.handles[i1]; }
        else if k == i1 { assert t.handles[k] == s.handles[i2]; }
        else { assert t.handles[k] == s.handles[k]; }
      }
    }
  }

  /** Handles are never reissued: along any sequence of calls that does not
      panic, the issued handles strictly increase and all lie at or above the
      starting `next_handle`, so none equals a handle issued (and perhaps
      removed) before; and `next_handle` never decreases. */
  lemma {:induction false} HandlesNeverReissued<I>(s: Store<I>, ops: seq<Op<I>>)
    requires Run(s, ops).Some?
    ensures var (u, hs) := Run(s, ops).value;
            && s.nextHandle <= u.nextHandle
            && (forall k | 0 <= k < |hs| :: s.nextHandle <= hs[k] < u.nextHandle)
            && (forall j, k | 0 <= j < k < |hs| :: hs[j] < hs[k])
    decreases |ops|
  {
    if ops != [] {
      var (t, issued) := Step(s, ops[0]).value;
      StepHandles(s, ops[0]);
      HandlesNeverReissued(t, ops[1..]);
    }
  }

  /** Every stored handle stays below `next_handle` along any sequence of
      calls, so the next handle issued is not among those stored. */
  lemma {:induction false} RunKeepsHandlesIssued<I>(s: Store<I>, ops: seq<Op<I>>)
    requires HandlesIssued(s) && Run(s, ops).Some?
    ensures HandlesIssued(Run(s, ops).value.0)
    ensures forall k | 0 <= k < |Run(s, ops).value.0.handles| ::
              Run(s, ops).value.0.handles[k] != Run(s, ops).value.0.nextHandle
    decreases |ops|
  {
    if ops != [] {
      var (t, issued) := Step(s, ops[0]).value;
      StepHandles(s, ops[0]);
      assert HandlesIssued(t) by {
        forall k | 0 <= k < |t.handles| ensures t.handles[k] < t.nextHandle {
          if t.handles[k] in s.handles {
            var i :| 0 <= i < |s.handles| && s.handles[i] == t.handles[k];
          }
        }
      }
      RunKeepsHandlesIssued(t, ops[1..]);
    }
  }

  // ---------------------------------------------------------------------
  // What goes wrong, on concrete calls
  // ---------------------------------------------------------------------

  /** `cube()` followed by three inserts of the records 10, 11, 12, which
      receive the handles 0, 1, 2 and stay invisible. */
  function ThreeInserted(): (r: Store<nat>)
  {
    Insert(Insert(Insert(Empty(), 10).0, 11).0, 12).0
  }

  /** The same store after `make_visible(1)` and `make_visible(2)`. */
  function TwoMadeVisible(): (r: Store<nat>)
  {
    var s := MakeVisible(ThreeInserted(), 1).1;
    MakeVisible(s, 2).1
  }

  /** The map is written keyed by position (src/engine/model.rs:84-85): after
      `make_visible(1)` and `make_visible(2)` handle 1 sits in the visible
      prefix, yet `is_visible(1)` answers false and `get(1)` yields handle 0's
      record; handle 0 sits past the prefix, yet reports itself visible. */
  lemma MapKeyedByPosition()
    ensures Consistent(ThreeInserted())
    ensures var s := TwoMadeVisible();
            && s.handles == [1, 2, 0] && s.instances == [11, 12, 10] && s.firstInvisible == 2
            && IsVisible(s, 1) == Ok(false) && Get(s, 1) == Some(10)
            && IsVisible(s, 0) == Ok(true)
            && !Consistent(s)
  {
    ThreeInsertedIs();
    TwoMadeVisibleIs();
    var s2 := TwoMadeVisible();
    assert s2.handleToIndex[s2.handles[0]] != 0;
  }

  /** The store `TwoMadeVisible` builds, written out. */
  lemma TwoMadeVisibleIs()
    ensures TwoMadeVisible() == Store(map[0 := 1, 1 := 2, 2 := 0], [1, 2, 0], [11, 12, 10], 2, 3)
  {
    OneMadeVisibleIs();
    var s1 := Store(map[0 := 1, 1 := 0, 2 := 2], [1, 0, 2], [11, 10, 12], 1, 3);
    var w := SwapByIndex(s1, 2, 1);
    assert w == Store(map[0 := 1, 1 := 2, 2 := 0], [1, 2, 0], [11, 12, 10], 1, 3);
    assert MakeVisible(s1, 2).1 == w.(firstInvisible := 2);
  }

  /** `remove` moves position `first_invisible`, not the removed element, to
      the end (src/engine/model.rs:150): removing handle 2 from three
      invisible instances returns handle 0's record, leaves the removed
      handle 2 stored, and handle 0 no longer resolves. */
  lemma RemovePopsWrongRecord()
    ensures var (r, s) := Remove(ThreeInserted(), 2);
            && r == Ok(10)
            && s.handles == [2, 1] && s.instances == [12, 11]
            && Get(s, 0) == None
  {
    var s0 := ThreeInserted();
    assert s0 == Store(map[0 := 0, 1 := 1, 2 := 2], [0, 1, 2], [10, 11, 12], 0, 3);
    var s2 := SwapByIndex(s0, 0, 2);
    assert s2 == Store(map[0 := 2, 1 := 1, 2 := 0], [2, 1, 0], [12, 11, 10], 0, 3);
    assert s2.handles[..2] == [2, 1] && s2.instances[..2] == [12, 11];
    assert s2.handleToIndex - {2} == map[0 := 2, 1 := 1];
  }

  /** The two defects together make a handle that was never removed panic:
      insert two records, remove handle 1 (which returns handle 0's record),
      and `make_visible(0)` indexes past the end. */
  lemma NeverRemovedHandlePanics()
    ensures var s := Insert(Insert(Empty<nat>(), 10).0, 11).0;
            var (r, t) := Remove(s, 1);
            && r == Ok(10)
            && 0 in t.handleToIndex
            && !CanMakeVisible(t, 0)
  {
    var s := Insert(Insert(Empty<nat>(), 10).0, 11).0;
    assert s == Store(map[0 := 0, 1 := 1], [0, 1], [10, 11], 0, 2);
    var s2 := SwapByIndex(s, 0, 1);
    assert s2 == Store(map[0 := 1, 1 := 0], [1, 0], [11, 10], 0, 2);
    assert s2.handleToIndex - {1} == map[0 := 1];
  }

  /** The store after three inserts, written out. */
  lemma ThreeInsertedIs()
    ensures ThreeInserted() == Store(map[0 := 0, 1 := 1, 2 := 2], [0, 1, 2], [10, 11, 12], 0, 3)
  {
  }

  /** The store after three inserts and `make_visible(1)`, written out. */
  lemma OneMadeVisibleIs()
    ensures MakeVisible(ThreeInserted(), 1).1
            == Store(map[0 := 1, 1 := 0, 2 := 2], [1, 0, 2], [11, 10, 12], 1, 3)
  {
    ThreeInsertedIs();
  }

  /** `remove(2)` on that store, written out. */
  lemma RemoveAfterOneMadeVisible()
    ensures var s := Store(map[0 := 1, 1 := 0, 2 := 2], [1, 0, 2], [11, 10, 12], 1, 3);
            CanRemove(s, 2) && Remove(s, 2).1 == Store(map[0 := 1, 1 := 2], [1, 2], [11, 12], 1, 3)
  {
    var s := Store(map[0 := 1, 1 := 0, 2 := 2], [1, 0, 2], [11, 10, 12], 1, 3);
    var s2 := SwapByIndex(s, 1, 2);
    assert s2 == Store(map[0 := 1, 1 := 2, 2 := 0], [1, 2, 0], [11, 12, 10], 1, 3);
    assert s2.handleToIndex - {2} == map[0 := 1, 1 := 2];
  }

  /** Nor does `first_invisible <= instances.len()` survive: after three
      inserts, `make_visible(1)`, `remove(2)`, `make_visible(0)` and
      `make_visible(1)`, none of which panics, the visible prefix claims
      three instances while two are stored. */
  lemma VisiblePrefixOverrunsStore()
    ensures var s := MakeVisible(ThreeInserted(), 1).1;
            && CanRemove(s, 2)
            && var t := Remove(s, 2).1;
            && CanMakeVisible(t, 0)
            && var u := MakeVisible(t, 0).1;
            && CanMakeVisible(u, 1)
            && var w := MakeVisible(u, 1).1;
            && w.firstInvisible == 3 && |w.instances| == 2 && !WellShaped(w)
  {
    OneMadeVisibleIs();
    RemoveAfterOneMadeVisible();
    var t := Store(map[0 := 1, 1 := 2], [1, 2], [11, 12], 1, 3);
    var u := MakeVisible(t, 0).1;
    assert u == Store(map[0 := 1, 1 := 2], [1, 2], [11, 12], 2, 3);
  }
}
