/** The instance store as its design intends it: the map is written keyed by
    handle (`handle_to_index.insert(handle, index)`), and `remove` moves the
    removed element itself to the end before popping. Under these
    definitions the sparse-set invariant `Consistent` holds after every call,
    handles keep resolving to their own records, and the visible prefix is
    exactly the set of handles that report themselves visible. */
module StoreFixed {
  import opened Common
  import opened StoreSpec

  /** In a consistent store no handle is stored twice. */
  lemma HandlesDistinct<I>(s: Store<I>, i: nat, j: nat)
    requires Consistent(s) && i < |s.handles| && j < |s.handles| && i != j
    ensures s.handles[i] != s.handles[j]
  {
    assert s.handleToIndex[s.handles[i]] == i;
    assert s.handleToIndex[s.handles[j]] == j;
  }

  /** The partition invariant: in a consistent store a handle reports itself
      visible exactly when it is stored in the visible prefix, and it resolves
      exactly when it is stored at all, to the record beside it. */
  lemma ConsistentPartition<I>(s: Store<I>)
    requires Consistent(s)
    ensures forall h :: IsVisible(s, h) == Ok(true) <==> h in s.handles[..s.firstInvisible]
    ensures forall h :: IsVisible(s, h) == Ok(false) <==> h in s.handles[s.firstInvisible..]
    ensures forall i | 0 <= i < |s.handles| :: Get(s, s.handles[i]) == Some(s.instances[i])
    ensures forall h :: Get(s, h).Some? <==> h in s.handles
  {
    forall h ensures IsVisible(s, h) == Ok(true) <==> h in s.handles[..s.firstInvisible] {
      if h in s.handles[..s.firstInvisible] {
        var i :| 0 <= i < s.firstInvisible && s.handles[..s.firstInvisible][i] == h;
        assert s.handles[i] == h;
      }
      if h in s.handleToIndex && s.handleToIndex[h] < s.firstInvisible {
        assert s.handles[..s.firstInvisible][s.handleToIndex[h]] == h;
      }
    }
    forall h ensures IsVisible(s, h) == Ok(false) <==> h in s.handles[s.firstInvisible..] {
      if h in s.handles[s.firstInvisible..] {
        var i :| 0 <= i < |s.handles| - s.firstInvisible && s.handles[s.firstInvisible..][i] == h;
        assert s.handles[s.firstInvisible + i] == h;
      }
      if h in s.handleToIndex && s.handleToIndex[h] >= s.firstInvisible {
        assert s.handles[s.firstInvisible..][s.handleToIndex[h] - s.firstInvisible] == h;
      }
    }
    forall h ensures Get(s, h).Some? <==> h in s.handles {
      if h in s.handleToIndex {
        assert s.handles[s.handleToIndex[h]] == h;
      }
    }
  }

  /** `swap_by_index` with the map written as `(handle, index)`. */
  function SwapByIndexFixed<I>(s: Store<I>, i: nat, j: nat): (r: Store<I>)
    requires i < |s.handles| && j < |s.handles| && |s.instances| == |s.handles|
  {
    if i == j then s
    else
      var h1 := s.handles[i];
      var h2 := s.handles[j];
      s.(handles := s.handles[i := h2][j := h1],
         instances := s.instances[i := s.instances[j]][j := s.instances[i]],
         handleToIndex := s.handleToIndex[h2 := i][h1 := j])
  }

  /** The corrected swap keeps the store consistent, keeps every handle bound
      to its record, and moves the two handles to each other's positions. */
  lemma SwapByIndexFixedKeepsConsistent<I>(s: Store<I>, i: nat, j: nat)
    requires Consistent(s) && i < |s.handles| && j < |s.handles|
    ensures var r := SwapByIndexFixed(s, i, j);
            && Consistent(r)
            && r.handleToIndex.Keys == s.handleToIndex.Keys
            && r.firstInvisible == s.firstInvisible && r.nextHandle == s.nextHandle
            && r.handleToIndex[s.handles[i]] == j && r.handleToIndex[s.handles[j]] == i
            && (forall h | h in s.handleToIndex && h != s.handles[i] && h != s.handles[j] ::
                  r.handleToIndex[h] == s.handleToIndex[h])
            && (forall h :: Get(r, h) == Get(s, h))
  {
    var r := SwapByIndexFixed(s, i, j);
    if i != j {
      var h1, h2 := s.handles[i], s.handles[j];
      HandlesDistinct(s, i, j);
      forall k | 0 <= k < |r.handles|
        ensures r.handles[k] in r.handleToIndex && r.handleToIndex[r.handles[k]] == k
      {
        if k != i && k != j {
          HandlesDistinct(s, k, i);
          HandlesDistinct(s, k, j);
        }
      }
      forall h | h in r.handleToIndex
        ensures r.handleToIndex[h] < |r.handles| && r.handles[r.handleToIndex[h]] == h
      {
        if h != h1 && h != h2 {
          var k := s.handleToIndex[h];
          assert s.handles[k] == h;
          assert k != i && k != j;
        }
      }
      forall h ensures Get(r, h) == Get(s, h) {
        if h in s.handleToIndex && h != h1 && h != h2 {
          var k := s.handleToIndex[h];
          assert s.handles[k] == h;
          assert k != i && k != j;
        }
      }
    }
  }

  /** `make_visible` over the corrected swap. */
  function MakeVisibleFixed<I>(s: Store<I>, h: Handle): (r: (Result<(), InvalidHandle>, Store<I>))
    requires Consistent(s)
  {
    if h in s.handleToIndex then
      var index := s.handleToIndex[h];
      if index < s.firstInvisible then (Ok(()), s)
      else (Ok(()), SwapByIndexFixed(s, index, s.firstInvisible).(firstInvisible := s.firstInvisible + 1))
    else (Err(InvalidHandle), s)
  }

  /** Corrected `make_visible`: the handle becomes visible, every other
      handle keeps its visibility and its record, the store stays
      consistent, and the visible prefix grows by one iff the handle was
      invisible. */
  lemma MakeVisibleFixedCorrect<I>(s: Store<I>, h: Handle)
    requires Consistent(s)
    ensures var (res, r) := MakeVisibleFixed(s, h);
            && (res.Err? <==> h !in s.handleToIndex)
            && Consistent(r)
            && (res.Ok? ==> IsVisible(r, h) == Ok(true))
            && (res.Ok? ==> r.firstInvisible == if IsVisible(s, h) == Ok(true) then s.firstInvisible
                                                else s.firstInvisible + 1)
            && (forall g | g != h :: IsVisible(r, g) == IsVisible(s, g))
            && (forall g :: Get(r, g) == Get(s, g))
  {
    if h in s.handleToIndex && s.handleToIndex[h] >= s.firstInvisible {
      var index := s.handleToIndex[h];
      assert s.handles[index] == h;
      SwapMoveBoundary(s, index, s.firstInvisible, s.firstInvisible + 1);
      assert MakeVisibleFixed(s, h).1 == SwapByIndexFixed(s, index, s.firstInvisible).(firstInvisible := s.firstInvisible + 1);
    } else {
      assert MakeVisibleFixed(s, h).1 == s;
    }
  }

  /** Swapping `handles[i]` into slot `j` just inside or just outside the
      boundary and moving the boundary past `j` keeps the store consistent,
      keeps every record, and changes the visibility of no other handle. */
  lemma SwapMoveBoundary<I>(s: Store<I>, i: nat, j: nat, fi: nat)
    requires Consistent(s) && i < |s.handles| && j < |s.handles|
    requires || (j == s.firstInvisible && fi == j + 1 && i >= j)
             || (fi == s.firstInvisible - 1 && j == fi && i <= j)
    ensures var r := SwapByIndexFixed(s, i, j).(firstInvisible := fi);
            && Consistent(r)
            && r.handleToIndex[s.handles[i]] == j
            && (forall g | g != s.handles[i] :: IsVisible(r, g) == IsVisible(s, g))
            && (forall g :: Get(r, g) == Get(s, g))
  {
    var w := SwapByIndexFixed(s, i, j);
    var r := w.(firstInvisible := fi);
    SwapByIndexFixedKeepsConsistent(s, i, j);
    forall g ensures Get(r, g) == Get(s, g) {
      assert Get(r, g) == Get(w, g);
    }
    forall g | g != s.handles[i] ensures IsVisible(r, g) == IsVisible(s, g) {
      if g in s.handleToIndex && g != s.handles[j] {
        assert w.handleToIndex[g] == s.handleToIndex[g];
        assert s.handles[s.handleToIndex[g]] == g;
      }
    }
  }

  /** `make_invisible` over the corrected swap. */
  function MakeInvisibleFixed<I>(s: Store<I>, h: Handle): (r: (Result<(), InvalidHandle>, Store<I>))
    requires Consistent(s)
  {
    if h in s.handleToIndex then
      var index := s.handleToIndex[h];
      if index >= s.firstInvisible then (Ok(()), s)
      else (Ok(()), SwapByIndexFixed(s, index, s.firstInvisible - 1).(firstInvisible := s.firstInvisible - 1))
    else (Err(InvalidHandle), s)
  }

  /** Corrected `make_invisible`: the mirror image of `MakeVisibleFixedCorrect`. */
  lemma MakeInvisibleFixedCorrect<I>(s: Store<I>, h: Handle)
    requires Consistent(s)
    ensures var (res, r) := MakeInvisibleFixed(s, h);
            && (res.Err? <==> h !in s.handleToIndex)
            && Consistent(r)
            && (res.Ok? ==> IsVisible(r, h) == Ok(false))
            && (res.Ok? ==> r.firstInvisible == if IsVisible(s, h) == Ok(true) then s.firstInvisible - 1
                                                else s.firstInvisible)
            && (res.Ok? ==> r.handleToIndex[h] == if IsVisible(s, h) == Ok(true) then s.firstInvisible - 1
                                                  else s.handleToIndex[h])
            && (forall g | g != h :: IsVisible(r, g) == IsVisible(s, g))
            && (forall g :: Get(r, g) == Get(s, g))
  {
    if h in s.handleToIndex && s.handleToIndex[h] < s.firstInvisible {
      var index := s.handleToIndex[h];
      assert s.handles[index] == h;
      SwapMoveBoundary(s, index, s.firstInvisible - 1, s.firstInvisible - 1);
      assert MakeInvisibleFixed(s, h).1 == SwapByIndexFixed(s, index, s.firstInvisible - 1).(firstInvisible := s.firstInvisible - 1);
    } else {
      assert MakeInvisibleFixed(s, h).1 == s;
    }
  }

  /** `insert` was already correct: a fresh handle keeps the store consistent,
      and the new instance is stored, resolvable and invisible. */
  lemma InsertKeepsConsistent<I>(s: Store<I>, x: I)
    requires Consistent(s) && HandlesIssued(s)
    ensures var (r, h) := Insert(s, x);
            && Consistent(r) && HandlesIssued(r)
            && h !in s.handleToIndex
            && IsVisible(r, h) == Ok(false) && Get(r, h) == Some(x)
            && (forall g | g != h :: Get(r, g) == Get(s, g) && IsVisible(r, g) == IsVisible(s, g))
  {
    forall g | g in s.handleToIndex ensures g < s.nextHandle {
      assert s.handles[s.handleToIndex[g]] == g;
    }
  }

  /** A swap of two positions on the same side of the boundary changes no
      handle's visibility. */
  lemma SwapSameSideKeepsVisibility<I>(s: Store<I>, i: nat, j: nat)
    requires Consistent(s) && i < |s.handles| && j < |s.handles|
    requires i < s.firstInvisible <==> j < s.firstInvisible
    ensures forall g :: IsVisible(SwapByIndexFixed(s, i, j), g) == IsVisible(s, g)
  {
    SwapByIndexFixedKeepsConsistent(s, i, j);
  }

  /** Drop the last slot, which holds `h`, and forget `h`. */
  function PopLast<I>(s: Store<I>, h: Handle): (r: Store<I>)
    requires 0 < |s.handles| == |s.instances|
  {
    var last := |s.handles| - 1;
    s.(handles := s.handles[..last], instances := s.instances[..last],
       handleToIndex := s.handleToIndex - {h})
  }

  /** Popping the last slot, which holds `h`, from a consistent store whose
      visible prefix does not reach it forgets `h` and nothing else. */
  lemma PopLastKeepsConsistent<I>(s: Store<I>, h: Handle)
    requires Consistent(s) && |s.handles| > 0
    requires s.handles[|s.handles| - 1] == h && s.firstInvisible < |s.handles|
    ensures var r := PopLast(s, h);
            && Consistent(r)
            && h !in r.handles
            && (forall g | g != h :: Get(r, g) == Get(s, g) && IsVisible(r, g) == IsVisible(s, g))
  {
    var last := |s.handles| - 1;
    var r := PopLast(s, h);
    forall k | 0 <= k < |r.handles|
      ensures r.handles[k] in r.handleToIndex && r.handleToIndex[r.handles[k]] == k
    {
      HandlesDistinct(s, k, last);
    }
    forall g | g in r.handleToIndex
      ensures r.handleToIndex[g] < |r.handles| && r.handles[r.handleToIndex[g]] == g
    {
      assert s.handles[s.handleToIndex[g]] == g;
    }
    forall k | 0 <= k < |r.handles| ensures r.handles[k] != h {
      HandlesDistinct(s, k, last);
    }
  }

  /** The second stage of `remove` as intended: swap the element's own
      position with the last slot, pop, and yield the popped record. */
  function RemovePopFixed<I>(s: Store<I>, h: Handle): (r: (I, Store<I>))
    requires Consistent(s) && h in s.handleToIndex
  {
    var s2 := SwapToLast(s, h);
    (s2.instances[|s2.instances| - 1], PopLast(s2, h))
  }

  /** The swap that moves `h` to the last slot. */
  function SwapToLast<I>(s: Store<I>, h: Handle): (r: Store<I>)
    requires Consistent(s) && h in s.handleToIndex
    ensures 0 < |r.handles| == |r.instances|
  {
    SwapByIndexFixed(s, s.handleToIndex[h], |s.instances| - 1)
  }

  /** Moving an invisible `h` to the last slot keeps the store consistent,
      puts `h` and its record there, and changes no handle's record or
      visibility. */
  lemma SwapToLastCorrect<I>(s: Store<I>, h: Handle)
    requires Consistent(s) && h in s.handleToIndex && s.handleToIndex[h] >= s.firstInvisible
    ensures var s2 := SwapToLast(s, h);
            var last := |s.handles| - 1;
            && Consistent(s2) && s2.handles[last] == h && s2.firstInvisible < |s2.handles|
            && |s2.handles| == |s.handles|
            && Get(s, h) == Some(s2.instances[last])
            && s2.firstInvisible == s.firstInvisible
            && (forall g :: Get(s2, g) == Get(s, g) && IsVisible(s2, g) == IsVisible(s, g))
  {
    var pos := s.handleToIndex[h];
    var last := |s.instances| - 1;
    assert s.handles[pos] == h;
    SwapByIndexFixedKeepsConsistent(s, pos, last);
    SwapSameSideKeepsVisibility(s, pos, last);
  }

  /** Popping an invisible element returns its record, forgets it, and
      changes no other handle's record or visibility. */
  lemma RemovePopFixedCorrect<I>(s: Store<I>, h: Handle)
    requires Consistent(s) && h in s.handleToIndex && s.handleToIndex[h] >= s.firstInvisible
    ensures var (x, r) := RemovePopFixed(s, h);
            && Get(s, h) == Some(x)
            && Consistent(r)
            && h !in r.handleToIndex && h !in r.handles && |r.handles| == |s.handles| - 1
            && r.firstInvisible == s.firstInvisible
            && (forall g | g != h :: Get(r, g) == Get(s, g) && IsVisible(r, g) == IsVisible(s, g))
  {
    SwapToLastCorrect(s, h);
    PopLastKeepsConsistent(SwapToLast(s, h), h);
  }

  /** `remove` as intended: make the element invisible, then pop it from
      wherever that left it. */
  function RemoveFixed<I>(s: Store<I>, h: Handle): (r: (Result<I, InvalidHandle>, Store<I>))
    requires Consistent(s)
  {
    if h in s.handleToIndex then
      MakeInvisibleFixedCorrect(s, h);
      var (x, t) := RemovePopFixed(MakeInvisibleFixed(s, h).1, h);
      (Ok(x), t)
    else (Err(InvalidHandle), s)
  }

  /** Corrected `remove`: it returns the handle's own record, forgets the
      handle, leaves every other handle with its record and its visibility,
      shrinks the visible prefix iff the element was visible, and keeps the
      store consistent. */
  lemma RemoveFixedCorrect<I>(s: Store<I>, h: Handle)
    requires Consistent(s)
    ensures var (res, r) := RemoveFixed(s, h);
            && (res.Err? <==> h !in s.handleToIndex)
            && (res.Ok? ==> Get(s, h) == Some(res.value))
            && Consistent(r)
            && (res.Ok? ==> h !in r.handleToIndex && h !in r.handles && |r.handles| == |s.handles| - 1)
            && (res.Ok? ==> r.firstInvisible == if IsVisible(s, h) == Ok(true) then s.firstInvisible - 1
                                                else s.firstInvisible)
            && (forall g | g != h :: Get(r, g) == Get(s, g) && IsVisible(r, g) == IsVisible(s, g))
  {
    if h in s.handleToIndex {
      MakeInvisibleFixedCorrect(s, h);
      var s1 := MakeInvisibleFixed(s, h).1;
      RemovePopFixedCorrect(s1, h);
    }
  }

  /** `swap_by_handle` with the map written as `(handle, index)`. */
  function SwapByHandleFixed<I>(s: Store<I>, h1: Handle, h2: Handle): (r: (Result<(), InvalidHandle>, Store<I>))
    requires Consistent(s)
  {
    if h1 == h2 then (Ok(()), s)
    else if h1 in s.handleToIndex && h2 in s.handleToIndex then
      (Ok(()), SwapByIndexFixed(s, s.handleToIndex[h1], s.handleToIndex[h2]))
    else (Err(InvalidHandle), s)
  }

  /** Corrected `swap_by_handle`: the two handles trade positions, every
      handle keeps its record, and the store stays consistent. */
  lemma SwapByHandleFixedCorrect<I>(s: Store<I>, h1: Handle, h2: Handle)
    requires Consistent(s)
    ensures var (res, r) := SwapByHandleFixed(s, h1, h2);
            && (res.Err? <==> h1 != h2 && (h1 !in s.handleToIndex || h2 !in s.handleToIndex))
            && Consistent(r)
            && (res.Ok? && h1 != h2 ==>
                  r.handleToIndex[h1] == s.handleToIndex[h2] && r.handleToIndex[h2] == s.handleToIndex[h1])
            && (forall g :: Get(r, g) == Get(s, g))
  {
    if h1 != h2 && h1 in s.handleToIndex && h2 in s.handleToIndex {
      var i1, i2 := s.handleToIndex[h1], s.handleToIndex[h2];
      assert s.handles[i1] == h1 && s.handles[i2] == h2;
      SwapByIndexFixedKeepsConsistent(s, i1, i2);
    }
  }

  /** One call on the corrected store; none of them panics on a consistent store. */
  function StepFixed<I>(s: Store<I>, op: Op<I>): (r: (Store<I>, Option<Handle>))
    requires Consistent(s) && HandlesIssued(s)
  {
    match op
    case InsertOp(x) =>
      var (t, h) := Insert(s, x); (t, Some(h))
    case InsertVisiblyOp(x) =>
      InsertKeepsConsistent(s, x);
      var (t, h) := Insert(s, x); (MakeVisibleFixed(t, h).1, Some(h))
    case RemoveOp(h) => (RemoveFixed(s, h).1, None)
    case MakeVisibleOp(h) => (MakeVisibleFixed(s, h).1, None)
    case MakeInvisibleOp(h) => (MakeInvisibleFixed(s, h).1, None)
    case SwapByHandleOp(h1, h2) => (SwapByHandleFixed(s, h1, h2).1, None)
    case SwapByIndexOp(i, j) =>
      // An out-of-range index panics in `Vec::swap`; such a call is dropped.
      if i < |s.handles| && j < |s.handles| then (SwapByIndexFixed(s, i, j), None) else (s, None)
  }

  /** Each corrected call keeps the store consistent and every stored handle
      below `next_handle`. */
  lemma StepFixedKeepsConsistent<I>(s: Store<I>, op: Op<I>)
    requires Consistent(s) && HandlesIssued(s)
    ensures Consistent(StepFixed(s, op).0) && HandlesIssued(StepFixed(s, op).0)
    ensures StepFixed(s, op).0.nextHandle == s.nextHandle + (if StepFixed(s, op).1.Some? then 1 else 0)
  {
    StepFixedIssues(s, op);
    var t := StepFixed(s, op).0;
    match op
    case InsertOp(x) =>
      InsertKeepsConsistent(s, x);
    case InsertVisiblyOp(x) =>
      var (t1, h) := Insert(s, x);
      assert Consistent(t) && HandlesIssued(t) by {
        InsertKeepsConsistent(s, x);
        MakeVisibleFixedCorrect(t1, h);
        HandlesStayIssued(t1, t);
      }
    case RemoveOp(h) =>
      assert Consistent(t) && HandlesIssued(t) by {
        RemoveFixedCorrect(s, h);
        HandlesStayIssued(s, t);
      }
    case MakeVisibleOp(h) =>
      assert Consistent(t) && HandlesIssued(t) by {
        MakeVisibleFixedCorrect(s, h);
        HandlesStayIssued(s, t);
      }
    case MakeInvisibleOp(h) =>
      assert Consistent(t) && HandlesIssued(t) by {
        MakeInvisibleFixedCorrect(s, h);
        HandlesStayIssued(s, t);
      }
    case SwapByHandleOp(h1, h2) =>
      assert Consistent(t) && HandlesIssued(t) by {
        SwapByHandleFixedCorrect(s, h1, h2);
        HandlesStayIssued(s, t);
      }
    case SwapByIndexOp(i, j) =>
      if i < |s.handles| && j < |s.handles| {
        assert Consistent(t) && HandlesIssued(t) by {
          SwapByIndexFixedKeepsConsistent(s, i, j);
          HandlesStayIssued(s, t);
        }
      }
  }

  /** Only the two inserts issue a handle, and each issues one. */
  lemma StepFixedIssues<I>(s: Store<I>, op: Op<I>)
    requires Consistent(s) && HandlesIssued(s)
    ensures StepFixed(s, op).0.nextHandle == s.nextHandle + (if StepFixed(s, op).1.Some? then 1 else 0)
  {
    match op
    case InsertOp(x) =>
    case InsertVisiblyOp(x) =>
      InsertKeepsConsistent(s, x);
      var (t1, h) := Insert(s, x);
      SwapByIndexFixedKeepsConsistent(t1, t1.handleToIndex[h], t1.firstInvisible);
    case RemoveOp(h) =>
      RemoveFixedCorrect(s, h);
    case MakeVisibleOp(h) =>
    case MakeInvisibleOp(h) =>
    case SwapByHandleOp(h1, h2) =>
    case SwapByIndexOp(i, j) =>
      if i < |s.handles| && j < |s.handles| {
        SwapByIndexFixedKeepsConsistent(s, i, j);
      }
  }

  /** A consistent store whose handles all resolve in an older one, with the
      same `next_handle`, stores only issued handles. */
  lemma HandlesStayIssued<I>(s: Store<I>, t: Store<I>)
    requires Consistent(s) && HandlesIssued(s) && Consistent(t)
    requires t.nextHandle == s.nextHandle
    requires forall g :: Get(t, g).Some? ==> Get(s, g).Some?
    ensures HandlesIssued(t)
  {
    forall k | 0 <= k < |t.handles| ensures t.handles[k] < t.nextHandle {
      var g := t.handles[k];
      assert Get(t, g).Some?;
      assert s.handles[s.handleToIndex[g]] == g;
    }
  }

  /** A sequence of calls on the corrected store, with the handles it issued. */
  function RunFixed<I>(s: Store<I>, ops: seq<Op<I>>): (r: (Store<I>, seq<Handle>))
    requires Consistent(s) && HandlesIssued(s)
    decreases |ops|
  {
    if ops == [] then (s, [])
    else
      StepFixedKeepsConsistent(s, ops[0]);
      var (t, issued) := StepFixed(s, ops[0]);
      var (u, hs) := RunFixed(t, ops[1..]);
      (u, (if issued.Some? then [issued.value] else []) + hs)
  }

  /** The sparse-set invariant holds after any sequence of corrected calls
      from `cube()`'s empty store, or from any consistent store. */
  lemma {:induction false} RunFixedKeepsConsistent<I>(s: Store<I>, ops: seq<Op<I>>)
    requires Consistent(s) && HandlesIssued(s)
    ensures Consistent(RunFixed(s, ops).0) && HandlesIssued(RunFixed(s, ops).0)
    ensures RunFixed(s, ops).0.nextHandle == s.nextHandle + |RunFixed(s, ops).1|
    decreases |ops|
  {
    if ops != [] {
      StepFixedKeepsConsistent(s, ops[0]);
      var (t, issued) := StepFixed(s, ops[0]);
      RunFixedKeepsConsistent(t, ops[1..]);
    }
  }
}
