/**
 The bump allocator over a budget. The block source is the environment: a call that may acquire
 or reset takes the source's answer as a parameter, and an acquired block is a fresh array of the
 offered size. Addresses are offsets into that block.
 */
module BoundedArena {
  import opened Arithmetic
  import opened BitStrings
  import opened MemoryBudget
  import opened Words

  // ---- Alignments ----

  function RoundUp(offset: nat, alignment: nat): (r: nat)
    requires alignment > 0
    ensures r >= offset && r % alignment == 0 && r < offset + alignment
  {
    var remainder := offset % alignment;
    if remainder == 0 then offset
    else
      RoundedUp(offset, alignment);
      offset + (alignment - remainder)
  }

  lemma RoundedUp(offset: nat, alignment: nat)
    requires alignment > 0 && offset % alignment != 0
    ensures (offset + (alignment - offset % alignment)) % alignment == 0
  {
    var q := offset / alignment;
    assert offset + (alignment - offset % alignment) == (q + 1) * alignment;
    DivisionIs((q + 1) * alignment, alignment, q + 1, 0);
  }

  /** Two multiples less than one step apart are the same. */
  lemma SameMultiple(a: nat, b: nat, step: nat)
    requires step > 0 && a % step == 0 && b % step == 0 && a < b + step && b < a + step
    ensures a == b
  {
    var p, q := a / step, b / step;
    QuotientAndRemainder(a, step);
    QuotientAndRemainder(b, step);
    OneMore(step, p);
    OneMore(step, q);
    Cancel(p, q + 1, step);
    Cancel(q, p + 1, step);
  }

  method Padding(offset: nat, alignment: nat) returns (padding: nat)
    requires alignment > 0
    ensures offset + padding == RoundUp(offset, alignment)
  {
    var remainder := offset % alignment;
    padding := if remainder == 0 then 0 else alignment - remainder;
  }

  /** The alignment test on a machine word: one bit set, and no other. */
  method IsValidAlignment(alignment: nat) returns (valid: bool)
    requires alignment <= U64_MAX
    ensures valid <==> PowerOfTwo(alignment)
    ensures valid <==> exists k: nat :: alignment == Pow2(k)
  {
    PowersOfTwo(alignment);
    if alignment == 0 {
      return false;
    }
    WordFits(alignment);
    SingleBitTest(alignment, 64);
    valid := And(Bits(alignment, 64), Bits(alignment - 1, 64)) == Zeros(64);
  }

  lemma WordFits(a: nat)
    requires a <= U64_MAX
    ensures a < Pow2(64)
  {
    BytePower(8);
    assert Pow256(4) == 0x1_0000_0000;
  }

  // ---- The arena ----

  /** A borrowed range of the arena, stamped with the generation that issued it. */
  datatype View = View(offset: nat, size: nat, generation: nat)

  datatype Boundary = Boundary(arena: BoundedArena, generation: nat)

  function Active(pins: seq<bool>): nat {
    if pins == [] then 0 else Active(pins[..|pins| - 1]) + if pins[|pins| - 1] then 1 else 0
  }

  lemma {:induction false} ActiveUpdate(pins: seq<bool>, k: nat, b: bool)
    requires k < |pins|
    ensures Active(pins[k := b]) == Active(pins) - (if pins[k] then 1 else 0) + (if b then 1 else 0)
    ensures pins[k] ==> Active(pins) > 0
    decreases |pins|
  {
    var n := |pins| - 1;
    if k < n {
      ActiveUpdate(pins[..n], k, b);
      assert pins[k := b][..n] == pins[..n][k := b];
    } else {
      assert pins[k := b][..n] == pins[..n];
    }
  }

  lemma ActiveAppend(pins: seq<bool>)
    ensures Active(pins + [true]) == Active(pins) + 1
  {
    assert (pins + [true])[..|pins|] == pins;
  }

  lemma {:induction false} NoneActive(pins: seq<bool>)
    ensures Active(pins) == 0 <==> forall k :: 0 <= k < |pins| ==> !pins[k]
  {
    if pins != [] {
      NoneActive(pins[..|pins| - 1]);
    }
  }

  /** Views handed out one after another: each above the previous, all below `offset`. */
  ghost predicate Stacked(views: seq<View>, offset: nat) {
    && (forall i :: 0 <= i < |views| && views[i].size > 0 ==> views[i].offset + views[i].size <= offset)
    && (forall i, j :: 0 <= i < j < |views| && views[i].size > 0 && views[j].size > 0 ==>
          views[i].offset + views[i].size <= views[j].offset)
  }

  /** Views of this generation, and views that a reset has left behind. */
  ghost predicate Stamped(issued: seq<View>, expired: seq<View>, generation: nat) {
    && (forall i :: 0 <= i < |issued| ==> issued[i].generation == generation)
    && (forall i :: 0 <= i < |expired| ==> expired[i].generation < generation)
  }

  lemma PushView(views: seq<View>, expired: seq<View>, offset: nat, v: View, top: nat)
    requires Stacked(views, offset) && Stamped(views, expired, v.generation)
    requires offset <= top && (v.size > 0 ==> offset <= v.offset && v.offset + v.size <= top)
    ensures Stacked(views + [v], top) && Stamped(views + [v], expired, v.generation)
  {
  }

  lemma ExpireViews(issued: seq<View>, expired: seq<View>, generation: nat)
    requires Stamped(issued, expired, generation)
    ensures Stamped([], expired + issued, generation + 1) && Stacked([], 0)
  {
  }

  /** The doubling loop's target. */
  function Doubled(target: nat, required: nat, maximum: nat): (r: nat)
    requires 0 < target <= maximum && required <= maximum
    ensures required <= r <= maximum && target <= r
    decreases maximum - target
  {
    if target >= required then target
    else if target > maximum - target then maximum
    else Doubled(2 * target, required, maximum)
  }

  /** A number doubled k times. */
  function Doublings(target: nat, k: nat): nat
    decreases k
  {
    if k == 0 then target else Doublings(2 * target, k - 1)
  }

  /** The least doubling of the target that is large enough, but no more than the maximum. */
  ghost predicate LeastDoubling(target: nat, required: nat, maximum: nat, k: nat, r: nat) {
    && Doublings(target, k) >= required && (k == 0 || Doublings(target, k - 1) < required)
    && r == if Doublings(target, k) <= maximum then Doublings(target, k) else maximum
  }

  lemma {:induction false} DoubledMeans(target: nat, required: nat, maximum: nat) returns (k: nat)
    requires 0 < target <= maximum && required <= maximum
    ensures LeastDoubling(target, required, maximum, k, Doubled(target, required, maximum))
    decreases maximum - target
  {
    if target >= required {
      k := 0;
    } else if target > maximum - target {
      assert Doublings(target, 1) == 2 * target;
      k := 1;
    } else {
      var more := DoubledMeans(2 * target, required, maximum);
      k := more + 1;
      assert more > 0 ==> Doublings(target, more) == Doublings(2 * target, more - 1);
    }
  }

  /** The number of reservations behind a handle. */
  function Holds(handle: Option<nat>): nat {
    if handle.Some? then 1 else 0
  }

  class BoundedArena {
    const worker: nat
    const tree: BudgetTree
    const node: nat
    const hasSource: bool
    const initial: nat
    const maximum: nat
    var storage: array?<byte>
    var handle: Option<nat>
    var capacity: nat
    var offset: nat
    var livePins: nat
    var generation: nat
    var pins: seq<bool>
    ghost var issued: seq<View>
    ghost var expired: seq<View>

    ghost predicate Valid()
      reads this, tree
    {
      && tree.Valid() && node < |tree.budgets| && tree.budgets[node].alive
      && maximum <= U64_MAX && offset <= capacity <= maximum
      && Charged()
      && livePins == Active(pins) <= U64_MAX
      && 1 <= generation <= U64_MAX
      && Stacked(issued, offset) && Stamped(issued, expired, generation)
    }

    /** The capacity is exactly what is reserved, and the block behind it is large enough. */
    ghost predicate Charged()
      reads this, tree
    {
      match handle
      case None => capacity == 0 && storage == null
      case Some(h) =>
        && h < |tree.reservations| && tree.reservations[h] == Reservation(Some(node), capacity)
        && node < |tree.budgets| && tree.budgets[node].worker == worker
        && storage != null && storage.Length >= maximum && capacity > 0
    }

    constructor (worker: nat, tree: BudgetTree, node: nat, hasSource: bool, initial: nat, maximum: nat)
      requires tree.Valid() && node < |tree.budgets| && tree.budgets[node].alive && maximum <= U64_MAX
      ensures Valid() && this.tree == tree && this.node == node && this.worker == worker
      ensures this.initial == initial && this.maximum == maximum && this.hasSource == hasSource
      ensures capacity == 0 && offset == 0 && generation == 1 && issued == [] && pins == []
    {
      this.worker, this.tree, this.node := worker, tree, node;
      this.hasSource, this.initial, this.maximum := hasSource, initial, maximum;
      storage, handle, capacity, offset, livePins, generation, pins := null, None, 0, 0, 0, 1, [];
      issued, expired := [], [];
    }

    /** The capacity a request makes the arena grow to. */
    ghost function Target(required: nat): nat
      reads this
      requires required <= maximum && offset <= capacity <= maximum && 0 < initial <= maximum
    {
      if required <= capacity then capacity
      else Doubled(if capacity == 0 then initial else capacity, required, maximum)
    }

    /** What comes of an offer of the block source. */
    function Offered(offer: Result<nat>): Result<Unit> {
      if offer.Err? then Err(offer.error) else if offer.value < maximum then Err(Exhaustion) else Ok(Unit)
    }

    /** Why a request for `required` bytes of capacity is refused, given the source's offer. */
    ghost function GrowthError(required: nat, offer: Result<nat>): Option<ErrorCode>
      reads this, tree
      requires Valid() && required <= maximum
    {
      if !hasSource || initial == 0 || initial > maximum then Some(InvalidInput)
      else if required <= capacity then None
      else if handle.None? then
        var refused := Refusal(tree.parents, tree.budgets, node, worker, Target(required));
        if refused.Some? then refused
        else if offer.Err? then Some(offer.error)
        else if offer.value < maximum then Some(Exhaustion)
        else None
      else Refusal(tree.parents, tree.budgets, node, worker, Target(required) - capacity)
    }

    /** Everybody else's reservations stay as they are, and so do the owners of all budgets. */
    twostate predicate OthersKept()
      reads this, tree
    {
      && tree.parents == old(tree.parents) && SameStaff(old(tree.budgets), tree.budgets)
      && |tree.reservations| >= |old(tree.reservations)|
      && (forall k :: 0 <= k < |old(tree.reservations)| && Some(k) != old(handle) ==>
            tree.reservations[k] == old(tree.reservations)[k])
      && (handle == old(handle) || handle.None? || handle.value >= |old(tree.reservations)|)
    }

    /** The budgets above the arena are charged with the change of its capacity, and no others. */
    twostate predicate Recharged()
      reads this, tree
    {
      && Tree(tree.parents) && |tree.parents| == |old(tree.budgets)| && node < |tree.parents|
      && ChainBumped(tree.parents, old(tree.budgets), tree.budgets, node,
                     capacity - old(capacity), Holds(handle) - Holds(old(handle)))
    }

    lemma Unbumped()
      requires Valid()
      ensures Tree(tree.parents) && |tree.parents| == |tree.budgets| && node < |tree.parents|
      ensures ChainBumped(tree.parents, tree.budgets, tree.budgets, node, 0, 0)
      ensures SameStaff(tree.budgets, tree.budgets)
    {
      hide BooksBalance, HandleOk, Stacked, Stamped, Active;
      NotBumped(tree.parents, tree.budgets, node);
    }

    /** Whatever others do to the tree, an arena whose reservation they leave alone stays valid. */
    twostate lemma Undisturbed()
      requires old(Valid()) && tree.Valid() && unchanged(this)
      requires tree.parents == old(tree.parents) && SameStaff(old(tree.budgets), tree.budgets)
      requires handle.Some? ==>
                 && handle.value < |tree.reservations|
                 && tree.reservations[handle.value] == old(tree.reservations)[handle.value]
      ensures Valid()
    {
      hide BooksBalance, HandleOk, Stacked, Stamped, Active;
    }

    method EnsureCapacity(required: nat, offer: Result<nat>) returns (r: Result<Unit>)
      requires Valid() && required <= maximum
      modifies this`storage, this`handle, this`capacity, tree
      ensures Valid() && OthersKept() && Recharged()
      ensures r == match old(GrowthError(required, offer)) case Some(e) => Err(e) case None => Ok(Unit)
      ensures r.Ok? ==> capacity == old(Target(required)) && required <= capacity
      ensures r.Ok? && required > 0 ==> storage != null && capacity <= storage.Length
      ensures r.Err? ==> capacity == old(capacity) && handle == old(handle) && tree.budgets == old(tree.budgets)
      ensures old(storage) != null ==> storage == old(storage)
      ensures old(storage) == null && storage != null ==> fresh(storage)
    {
      hide BudgetTree.Valid, Refusal, ChainBumped, Stacked, Stamped, Active;
      Unbumped();
      if !hasSource || initial == 0 || initial > maximum {
        return Err(InvalidInput);
      }
      if required <= capacity {
        return Ok(Unit);
      }
      var target := NextCapacity(required);
      if handle.None? {
        r := Acquire(target, offer);
      } else {
        r := Expand(target);
      }
    }

    method NextCapacity(required: nat) returns (target: nat)
      requires offset <= capacity <= maximum && 0 < initial <= maximum && capacity < required <= maximum
      ensures target == Target(required) && required <= target <= maximum
      ensures var first := if capacity == 0 then initial else capacity;
              exists k: nat :: LeastDoubling(first, required, maximum, k, target)
    {
      target := if capacity == 0 then initial else capacity;
      ghost var first := target;
      ghost var k := DoubledMeans(first, required, maximum);
      while target < required
        invariant 0 < target <= maximum && Doubled(target, required, maximum) == Doubled(first, required, maximum)
        decreases maximum - target
      {
        if target > maximum - target {
          target := maximum;
        } else {
          target := target * 2;
        }
      }
      if target > maximum {
        assert false;
      }
    }

    /** The first block, charged before it is acquired. */
    method Acquire(target: nat, offer: Result<nat>) returns (r: Result<Unit>)
      requires Valid() && handle.None? && 0 < target <= maximum
      modifies this`storage, this`handle, this`capacity, tree
      ensures Valid() && OthersKept() && Recharged()
      ensures r == match old(Refusal(tree.parents, tree.budgets, node, worker, target))
                   case Some(e) => Err(e)
                   case None => Offered(offer)
      ensures r.Ok? ==> capacity == target && fresh(storage)
      ensures r.Err? ==> capacity == old(capacity) && handle == old(handle) && tree.budgets == old(tree.budgets)
      ensures r.Err? ==> storage == null
    {
      hide BudgetTree.Valid, Preflight, ChainBumped, Stacked, Stamped, Active;
      Unbumped();
      var reservation := tree.ReserveForAllocation(node, worker, target, Offered(offer));
      if reservation.Err? {
        return Err(reservation.error);
      }
      storage := new byte[offer.value];
      handle := Some(reservation.value);
      capacity := target;
      r := Ok(Unit);
    }

    /** More of the same block. */
    method Expand(target: nat) returns (r: Result<Unit>)
      requires Valid() && handle.Some? && capacity < target <= maximum
      modifies this`capacity, tree
      ensures Valid() && OthersKept() && Recharged()
      ensures r == match old(Refusal(tree.parents, tree.budgets, node, worker, target - capacity))
                   case Some(e) => Err(e)
                   case None => Ok(Unit)
      ensures capacity == if r.Ok? then target else old(capacity)
      ensures r.Err? ==> tree.budgets == old(tree.budgets)
    {
      hide BudgetTree.Valid, Refusal, ChainBumped, Stacked, Stamped, Active;
      Unbumped();
      var expanded := tree.Grow(handle.value, worker, target - capacity);
      if expanded.Err? {
        return expanded;
      }
      capacity := target;
      r := Ok(Unit);
    }

    /** Why an allocation is refused. */
    ghost function AllocationError(caller: nat, bytes: nat, alignment: nat, offer: Result<nat>): Option<ErrorCode>
      reads this, tree
      requires Valid()
    {
      if caller != worker then Some(InvalidState)
      else if !PowerOfTwo(alignment) then Some(InvalidInput)
      else if bytes == 0 then None
      else if RoundUp(offset, alignment) > U64_MAX || RoundUp(offset, alignment) + bytes > U64_MAX then Some(Overflow)
      else if RoundUp(offset, alignment) + bytes > maximum then Some(Exhaustion)
      else GrowthError(RoundUp(offset, alignment) + bytes, offer)
    }

    /** Growing succeeds exactly if the arena is set up, the budgets allow it, and there is a block to begin with. */
    lemma GrowthMeans(required: nat, offer: Result<nat>)
      requires Valid() && required <= maximum
      ensures GrowthError(required, offer).None?
              <==> && hasSource && 0 < initial <= maximum
                   && (required > capacity ==>
                         && Affordable(tree.parents, tree.budgets, node, worker, Target(required) - capacity)
                         && (capacity == 0 ==> offer.Ok? && offer.value >= maximum))
      ensures !hasSource || initial == 0 || initial > maximum ==> GrowthError(required, offer) == Some(InvalidInput)
    {
      hide BooksBalance, HandleOk, Stacked, Stamped, Active, Refusal, Affordable;
      if hasSource && 0 < initial <= maximum && required > capacity {
        RefusalMeans(tree.parents, tree.budgets, node, worker, Target(required) - capacity);
      }
    }

    /** The errors of an allocation, in the order of the tests. */
    lemma AllocationMeans(caller: nat, bytes: nat, alignment: nat, offer: Result<nat>, aligned: nat)
      requires Valid()
      requires alignment > 0 ==> offset <= aligned < offset + alignment && aligned % alignment == 0
      ensures var e := AllocationError(caller, bytes, alignment, offer);
              && (caller != worker ==> e == Some(InvalidState))
              && (caller == worker && !PowerOfTwo(alignment) ==> e == Some(InvalidInput))
              && (caller == worker && PowerOfTwo(alignment) ==>
                    if bytes == 0 then e == None
                    else if aligned + bytes > U64_MAX then e == Some(Overflow)
                    else if aligned + bytes > maximum then e == Some(Exhaustion)
                    else e == GrowthError(aligned + bytes, offer))
    {
      hide BudgetTree.Valid, Stacked, Stamped, Active, GrowthError, PowerOfTwo, RoundUp;
      if PowerOfTwo(alignment) {
        PositivePower(alignment);
        SameMultiple(aligned, RoundUp(offset, alignment), alignment);
      }
    }

    /**
     A successful allocation is aligned, lies within the capacity, and is disjoint from every
     allocation of this generation; a refused one changes nothing.
     */
    method TryAllocate(caller: nat, bytes: nat, alignment: nat, offer: Result<nat>) returns (r: Result<View>)
      requires Valid() && bytes <= U64_MAX && alignment <= U64_MAX
      modifies this, tree
      ensures Valid() && OthersKept() && Recharged()
      ensures generation == old(generation) && pins == old(pins) && expired == old(expired)
      ensures match old(AllocationError(caller, bytes, alignment, offer))
              case Some(e) =>
                && r == Err(e) && offset == old(offset) && capacity == old(capacity) && handle == old(handle)
                && issued == old(issued) && tree.budgets == old(tree.budgets)
              case None =>
                && r.Ok? && r.value.size == bytes && r.value.generation == generation
                && issued == old(issued) + [r.value]
                && if bytes == 0 then offset == old(offset)
                   else
                     && r.value.offset == RoundUp(old(offset), alignment) && r.value.offset % alignment == 0
                     && old(offset) <= r.value.offset && r.value.offset + bytes == offset <= capacity
                     && storage != null && capacity <= storage.Length
      ensures old(storage) != null ==> storage == old(storage)
      ensures old(storage) == null && storage != null ==> fresh(storage)
    {
      hide BudgetTree.Valid, GrowthError, ChainBumped, SameStaff, Stacked, Stamped, Active, RoundUp,
           PowerOfTwo;
      Unbumped();
      if caller != worker {
        return Err(InvalidState);
      }
      var valid := IsValidAlignment(alignment);
      if !valid {
        return Err(InvalidInput);
      }
      PositivePower(alignment);
      if bytes == 0 {
        var view := View(0, 0, generation);
        PushView(issued, expired, offset, view, offset);
        issued := issued + [view];
        return Ok(view);
      }
      var padding := Padding(offset, alignment);
      if padding > U64_MAX - offset {
        return Err(Overflow);
      }
      var aligned := offset + padding;
      if bytes > U64_MAX - aligned {
        return Err(Overflow);
      }
      if aligned + bytes > maximum {
        return Err(Exhaustion);
      }
      r := Place(aligned, bytes, offer);
    }

    /** The range from `aligned` on, once there is capacity for it. */
    method Place(aligned: nat, bytes: nat, offer: Result<nat>) returns (r: Result<View>)
      requires Valid() && offset <= aligned && 0 < bytes && aligned + bytes <= maximum
      modifies this, tree
      ensures Valid() && OthersKept() && Recharged()
      ensures generation == old(generation) && pins == old(pins) && expired == old(expired)
      ensures match old(GrowthError(aligned + bytes, offer))
              case Some(e) =>
                && r == Err(e) && offset == old(offset) && capacity == old(capacity) && handle == old(handle)
                && issued == old(issued) && tree.budgets == old(tree.budgets)
              case None =>
                && r == Ok(View(aligned, bytes, generation)) && issued == old(issued) + [r.value]
                && offset == aligned + bytes <= capacity && storage != null && capacity <= storage.Length
      ensures old(storage) != null ==> storage == old(storage)
      ensures old(storage) == null && storage != null ==> fresh(storage)
    {
      hide BudgetTree.Valid, GrowthError, ChainBumped, SameStaff, Stacked, Stamped, Active, Doubled;
      var required := aligned + bytes;
      var ensured := EnsureCapacity(required, offer);
      if ensured.Err? {
        return Err(ensured.error);
      }
      var view := View(aligned, bytes, generation);
      PushView(issued, expired, offset, view, required);
      offset := required;
      issued := issued + [view];
      r := Ok(view);
    }

    /** A view reads exactly as long as no reset has happened since it was issued; an empty view never does. */
    method Read(v: Option<View>) returns (r: Result<Unit>)
      requires Valid() && (v.Some? ==> v.value in issued || v.value in expired)
      ensures r.Ok? <==> v.Some? && v.value in issued
      ensures r.Err? <==> v.None? || v.value in expired
      ensures r.Err? ==> r.error == InvalidState
    {
      if v.None? {
        return Err(InvalidState);
      }
      if v.value.generation != generation {
        return Err(InvalidState);
      }
      r := Ok(Unit);
    }

    method QuiescentBoundary(caller: nat) returns (r: Result<Boundary>)
      ensures r == if caller != worker then Err(InvalidState) else Ok(Boundary(this, generation))
    {
      if caller != worker {
        return Err(InvalidState);
      }
      r := Ok(Boundary(this, generation));
    }

    /** A reset never happens while a pin lives, refunds the whole capacity, and expires every view. */
    method Reset(caller: nat, boundary: Boundary, source: Result<Unit>) returns (r: Result<Unit>)
      requires Valid()
      modifies this, tree
      ensures Valid() && pins == old(pins) && OthersKept() && Recharged()
      ensures r == if caller != worker then Err(InvalidState)
                   else if boundary != Boundary(this, old(generation)) then Err(InvalidState)
                   else if exists k :: 0 <= k < |pins| && pins[k] then Err(InvalidState)
                   else if old(generation) == U64_MAX then Err(Overflow)
                   else if !hasSource then Err(InvalidInput)
                   else source
      ensures r.Err? ==> && offset == old(offset) && capacity == old(capacity) && generation == old(generation)
                         && issued == old(issued) && expired == old(expired) && storage == old(storage)
                         && tree.budgets == old(tree.budgets) && tree.reservations == old(tree.reservations)
      ensures r.Ok? ==> && offset == 0 && capacity == 0 && handle == None && generation == old(generation) + 1
                        && issued == [] && expired == old(expired) + old(issued)
    {
      hide BudgetTree.Valid, ChainBumped, Stacked, Stamped, Active;
      Unbumped();
      if caller != worker {
        return Err(InvalidState);
      }
      if boundary.arena != this || boundary.generation != generation {
        return Err(InvalidState);
      }
      NoneActive(pins);
      if livePins != 0 {
        return Err(InvalidState);
      }
      if generation == U64_MAX {
        return Err(Overflow);
      }
      if !hasSource {
        return Err(InvalidInput);
      }
      if source.Err? {
        return source;
      }
      Vacate();
      r := source;
    }

    /** The effects of a reset: the reservation is released, which cannot fail, and the block is given up. */
    method Vacate()
      requires Valid() && generation < U64_MAX
      modifies this, tree
      ensures Valid() && pins == old(pins) && OthersKept() && Recharged()
      ensures offset == 0 && capacity == 0 && handle == None && generation == old(generation) + 1
      ensures issued == [] && expired == old(expired) + old(issued)
    {
      hide BudgetTree.Valid, ChainBumped, Stacked, Stamped, Active;
      Unbumped();
      if handle.Some? {
        // The source ignores this result; it cannot be an error.
        var released := tree.Release(handle.value, worker);
        assert released.Ok?;
      }
      handle, storage, capacity, offset := None, null, 0, 0;
      ExpireViews(issued, expired, generation);
      generation := generation + 1;
      expired, issued := expired + issued, [];
    }

    // ---- Pins ----

    method Pin(caller: nat) returns (r: Result<nat>)
      requires Valid()
      modifies this`livePins, this`pins
      ensures Valid()
      ensures r == if caller != worker then Err(InvalidState)
                   else if Active(old(pins)) == U64_MAX then Err(Exhaustion)
                   else Ok(|old(pins)|)
      ensures pins == if r.Ok? then old(pins) + [true] else old(pins)
    {
      hide BudgetTree.Valid, Stacked, Stamped, Active;
      if caller != worker {
        return Err(InvalidState);
      }
      if livePins == U64_MAX {
        return Err(Exhaustion);
      }
      ActiveAppend(pins);
      livePins := livePins + 1;
      pins := pins + [true];
      r := Ok(|pins| - 1);
    }

    /** The destructor of a pin; the `std::terminate` in the arena's count is dead. */
    method ReleasePin(k: nat)
      requires Valid() && k < |pins|
      modifies this`livePins, this`pins
      ensures Valid() && pins == old(pins)[k := false]
    {
      hide BooksBalance, HandleOk, Stacked, Stamped, Active;
      ActiveUpdate(pins, k, false);
      if pins[k] {
        if livePins == 0 {
          assert false;
        }
        livePins := livePins - 1;
      }
      pins := pins[k := false];
    }

    method MovePin(from: nat, to: nat)
      requires Valid() && from < |pins| && to < |pins|
      modifies this`livePins, this`pins
      ensures Valid()
      ensures pins == if from == to then old(pins) else old(pins)[to := old(pins)[from]][from := false]
    {
      hide BooksBalance, HandleOk, Stacked, Stamped, Active;
      if from != to {
        ReleasePin(to);
        ActiveUpdate(pins, to, pins[from]);
        ActiveUpdate(pins[to := pins[from]], from, false);
        pins := pins[to := pins[from]][from := false];
      }
    }
  }
}
