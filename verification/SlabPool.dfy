/**
 The fixed pool of slots with an intrusive free list. Leases are handles in a sequence, so that
 moving, dropping and releasing one are methods of the pool that name it by index.
 */
module SlabPool {
  import opened Words
  import opened Arithmetic
  import opened BitStrings
  import BoundedArena

  /** The index that stands for no slot. */
  const NO_SLOT: nat := U64_MAX

  datatype Slot<T> = Slot(value: Option<T>, next: nat, occupied: bool)

  /** A lease that was moved from has left its pool; a released one is still pooled but not active. */
  datatype Lease = Lease(pooled: bool, index: nat, active: bool)

  const EMPTY_LEASE: Lease := Lease(false, NO_SLOT, false)

  function At(chain: seq<nat>, i: nat): nat {
    if i < |chain| then chain[i] else NO_SLOT
  }

  /** The links from `head` spell out `chain`: distinct slots in range, then the sentinel. */
  ghost predicate Linked<T>(slots: seq<Slot<T>>, chain: seq<nat>, head: nat) {
    && head == At(chain, 0)
    && (forall i, j :: 0 <= i < j < |chain| ==> chain[i] != chain[j])
    && (forall i :: 0 <= i < |chain| ==> chain[i] < |slots| && slots[chain[i]].next == At(chain, i + 1))
  }

  /** The free list holds exactly the slots that are not occupied. */
  ghost predicate FreeExactly<T>(slots: seq<Slot<T>>, chain: seq<nat>) {
    forall i :: 0 <= i < |slots| ==> (i in chain <==> !slots[i].occupied)
  }

  /** Occupied slots and active leases correspond one to one. */
  ghost predicate Held<T>(slots: seq<Slot<T>>, leases: seq<Lease>, holder: map<nat, nat>) {
    && (forall i :: 0 <= i < |slots| ==> (i in holder <==> slots[i].occupied))
    && (forall i :: i in holder ==>
          i < |slots| && holder[i] < |leases| && leases[holder[i]].active && leases[holder[i]].index == i)
    && (forall k :: 0 <= k < |leases| && leases[k].active ==>
          leases[k].pooled && leases[k].index in holder && holder[leases[k].index] == k)
  }

  function Active(leases: seq<Lease>): nat {
    if leases == [] then 0
    else Active(leases[..|leases| - 1]) + if leases[|leases| - 1].active then 1 else 0
  }

  lemma ActiveAppend(leases: seq<Lease>, l: Lease)
    ensures Active(leases + [l]) == Active(leases) + if l.active then 1 else 0
  {
    assert (leases + [l])[..|leases|] == leases;
  }

  lemma {:induction false} ActiveUpdate(leases: seq<Lease>, k: nat, l: Lease)
    requires k < |leases|
    ensures Active(leases[k := l])
            == Active(leases) + (if l.active then 1 else 0) - (if leases[k].active then 1 else 0)
  {
    var n := |leases| - 1;
    if k < n {
      ActiveUpdate(leases[..n], k, l);
      assert leases[k := l][..n] == leases[..n][k := l];
    } else {
      assert leases[k := l][..n] == leases[..n];
    }
  }

  // ---- Taking the first free slot ----

  function Taken<T>(slots: seq<Slot<T>>, i: nat, value: T): seq<Slot<T>>
    requires i < |slots|
  {
    slots[i := slots[i].(value := Some(value), occupied := true)]
  }

  lemma TakenLinked<T>(slots: seq<Slot<T>>, chain: seq<nat>, value: T)
    requires Linked(slots, chain, At(chain, 0)) && FreeExactly(slots, chain) && chain != []
    ensures chain[0] < |slots| && !slots[chain[0]].occupied
    ensures Linked(Taken(slots, chain[0], value), chain[1..], slots[chain[0]].next)
    ensures FreeExactly(Taken(slots, chain[0], value), chain[1..])
  {
    var after, rest := Taken(slots, chain[0], value), chain[1..];
    assert chain[0] in chain;
    forall i | 0 <= i < |rest|
      ensures rest[i] < |after| && after[rest[i]].next == At(rest, i + 1)
    {
      assert rest[i] == chain[i + 1];
    }
    forall i | 0 <= i < |after|
      ensures i in rest <==> !after[i].occupied
    {
      if i in chain && i != chain[0] {
        var j :| 0 <= j < |chain| && chain[j] == i;
        assert rest[j - 1] == i;
      }
    }
  }

  lemma TakenHeld<T>(slots: seq<Slot<T>>, leases: seq<Lease>, holder: map<nat, nat>, i: nat, value: T)
    requires Held(slots, leases, holder) && i < |slots| && !slots[i].occupied
    ensures Held(Taken(slots, i, value), leases + [Lease(true, i, true)], holder[i := |leases|])
  {
  }

  // ---- Giving a slot back ----

  function Vacated<T>(slots: seq<Slot<T>>, i: nat, head: nat): seq<Slot<T>>
    requires i < |slots|
  {
    slots[i := Slot(None, head, false)]
  }

  lemma VacatedLinked<T>(slots: seq<Slot<T>>, chain: seq<nat>, i: nat, head: nat)
    requires Linked(slots, chain, head) && i < |slots| && i !in chain
    ensures Linked(Vacated(slots, i, head), [i] + chain, i)
  {
    hide Linked;
    var after, more := Vacated(slots, i, head), [i] + chain;
    forall j | 0 <= j < |more|
      ensures more[j] < |after| && after[more[j]].next == At(more, j + 1)
    {
      VacatedLink(slots, chain, i, head, j);
    }
    DistinctMore(slots, chain, i, head);
    IsLinked(after, more, i);
  }

  lemma IsLinked<T>(slots: seq<Slot<T>>, chain: seq<nat>, head: nat)
    requires head == At(chain, 0)
    requires forall i, j :: 0 <= i < j < |chain| ==> chain[i] != chain[j]
    requires forall i :: 0 <= i < |chain| ==> chain[i] < |slots| && slots[chain[i]].next == At(chain, i + 1)
    ensures Linked(slots, chain, head)
  {
  }

  lemma VacatedLink<T>(slots: seq<Slot<T>>, chain: seq<nat>, i: nat, head: nat, j: nat)
    requires Linked(slots, chain, head) && i < |slots| && i !in chain && j <= |chain|
    ensures var more, after := [i] + chain, Vacated(slots, i, head);
            more[j] < |after| && after[more[j]].next == At(more, j + 1)
  {
    if j > 0 {
      assert chain[j - 1] in chain && slots[chain[j - 1]].next == At(chain, j);
    }
  }

  lemma DistinctMore<T>(slots: seq<Slot<T>>, chain: seq<nat>, i: nat, head: nat)
    requires Linked(slots, chain, head) && i !in chain
    ensures forall j, k :: 0 <= j < k < |chain| + 1 ==> ([i] + chain)[j] != ([i] + chain)[k]
  {
  }

  lemma VacatedFree<T>(slots: seq<Slot<T>>, chain: seq<nat>, i: nat, head: nat)
    requires FreeExactly(slots, chain) && i < |slots| && slots[i].occupied
    ensures i !in chain && FreeExactly(Vacated(slots, i, head), [i] + chain)
  {
    assert ([i] + chain)[0] == i;
  }

  lemma VacatedHeld<T>(slots: seq<Slot<T>>, leases: seq<Lease>, holder: map<nat, nat>, k: nat, head: nat)
    requires Held(slots, leases, holder) && k < |leases| && leases[k].active && leases[k].index < |slots|
    ensures Held(Vacated(slots, leases[k].index, head), leases[k := leases[k].(active := false)],
                 holder - {leases[k].index})
  {
  }

  /** Moving a lease: the slot has another holder, and everything else stays. */
  lemma MovedHeld<T>(slots: seq<Slot<T>>, leases: seq<Lease>, holder: map<nat, nat>, from: nat, to: nat)
    requires Held(slots, leases, holder) && from < |leases| && to < |leases| && from != to && !leases[to].active
    ensures Held(slots, leases[to := leases[from]][from := EMPTY_LEASE],
                 if leases[from].active then holder[leases[from].index := to] else holder)
  {
  }

  lemma HeadIs<T>(slots: seq<Slot<T>>, chain: seq<nat>, head: nat)
    requires Linked(slots, chain, head) && FreeExactly(slots, chain) && |slots| <= NO_SLOT
    ensures head == At(chain, 0) && (head == NO_SLOT <==> chain == [])
    ensures chain != [] ==> head < |slots| && !slots[head].occupied
  {
    if chain != [] {
      assert chain[0] in chain;
    }
  }

  lemma ActiveLease<T>(slots: seq<Slot<T>>, leases: seq<Lease>, holder: map<nat, nat>, k: nat)
    requires Held(slots, leases, holder) && k < |leases| && leases[k].active
    ensures leases[k].index < |slots| && slots[leases[k].index].occupied && Active(leases) > 0
  {
    ActiveUpdate(leases, k, EMPTY_LEASE);
  }

  lemma ActiveIsPooled<T>(slots: seq<Slot<T>>, leases: seq<Lease>, holder: map<nat, nat>, k: nat)
    requires Held(slots, leases, holder) && k < |leases|
    ensures leases[k].active ==> leases[k].pooled
  {
  }

  lemma AllOccupied<T>(slots: seq<Slot<T>>, leases: seq<Lease>, holder: map<nat, nat>)
    requires Held(slots, leases, holder)
    ensures forall k :: 0 <= k < |leases| && leases[k].active ==>
              leases[k].index < |slots| && slots[leases[k].index].occupied
  {
  }

  lemma NotYet<T>(slots: seq<Slot<T>>, chain: seq<nat>, head: nat)
    requires Linked(slots, chain, head) && slots == []
    ensures chain == [] && head == NO_SLOT
  {
  }

  /** A pool whose slots have just been strung together. */
  lemma Strung<T>(slots: seq<Slot<T>>, leases: seq<Lease>, holder: map<nat, nat>)
    requires forall i :: 0 <= i < |slots| ==>
               !slots[i].occupied && slots[i].next == if i + 1 == |slots| then NO_SLOT else i + 1
    requires Held<T>([], leases, holder)
    ensures var chain := seq(|slots|, i => i);
            && Linked(slots, chain, if |slots| == 0 then NO_SLOT else 0) && FreeExactly(slots, chain)
            && Held(slots, leases, holder)
  {
    var chain := seq(|slots|, i => i);
    forall i | 0 <= i < |slots|
      ensures i in chain
    {
      assert chain[i] == i;
    }
  }

  method StringTogether<T>(slots: array<Slot<T>>, capacity: nat)
    requires capacity <= slots.Length
    modifies slots
    ensures forall i :: 0 <= i < capacity ==>
              !slots[i].occupied && slots[i].next == if i + 1 == capacity then NO_SLOT else i + 1
  {
    for i := 0 to capacity
      invariant forall j :: 0 <= j < i ==>
                  !slots[j].occupied && slots[j].next == if j + 1 == capacity then NO_SLOT else j + 1
    {
      slots[i] := slots[i].(next := if i + 1 == capacity then NO_SLOT else i + 1, occupied := false);
    }
  }

  class SlabPool<T> {
    const worker: nat
    const slots: array<Slot<T>>
    const capacity: nat
    const alignment: nat
    const slotSize: nat
    const slotAlignment: nat
    const aligned: bool
    var freeHead: nat
    var liveLeases: nat
    var initialized: bool
    var leases: seq<Lease>
    ghost var chain: seq<nat>
    ghost var holder: map<nat, nat>

    constructor (worker: nat, slots: array<Slot<T>>, capacity: nat, alignment: nat,
                 slotSize: nat, slotAlignment: nat, aligned: bool)
      requires capacity <= U64_MAX && alignment <= U64_MAX
      ensures Valid() && leases == []
    {
      this.worker, this.slots, this.capacity, this.alignment := worker, slots, capacity, alignment;
      this.slotSize, this.slotAlignment, this.aligned := slotSize, slotAlignment, aligned;
      freeHead, liveLeases, initialized, leases := NO_SLOT, 0, false, [];
      chain, holder := [], map[];
    }

    /** The slots in use: the first `capacity` ones, once the pool is initialised. */
    ghost function Slots(): seq<Slot<T>>
      reads this, slots
    {
      if initialized && capacity <= slots.Length then slots[..capacity] else []
    }

    ghost predicate Valid()
      reads this, slots
    {
      && capacity <= NO_SLOT && alignment <= U64_MAX
      && (initialized ==> capacity <= slots.Length)
      && Linked(Slots(), chain, freeHead) && FreeExactly(Slots(), chain)
      && Held(Slots(), leases, holder)
      && liveLeases == Active(leases) && |chain| + liveLeases == |Slots()|
    }

    /** Why the pool cannot be laid out in its storage. */
    ghost function LayoutError(): Option<ErrorCode> {
      if capacity * slotSize > U64_MAX then Some(Overflow)
      else if !PowerOfTwo(alignment) || alignment < slotAlignment then Some(InvalidInput)
      else if capacity > 1 && alignment > 0 && slotSize % alignment != 0 then Some(InvalidInput)
      else if capacity == 0 then None
      else if slots.Length < capacity || !aligned then Some(InvalidInput)
      else None
    }

    method Initialize() returns (r: Result<Unit>)
      requires Valid()
      modifies this`freeHead, this`initialized, this`chain, slots
      ensures Valid()
      ensures r == if old(initialized) || LayoutError().None? then Ok(Unit) else Err(LayoutError().value)
      ensures initialized == r.Ok?
      ensures !old(initialized) ==>
                && (r == Err(Overflow) <==> capacity * slotSize > U64_MAX)
                && (r.Ok? <==>
                      && capacity * slotSize <= U64_MAX && (exists k: nat :: alignment == Pow2(k))
                      && alignment >= slotAlignment && (capacity <= 1 || slotSize % alignment == 0)
                      && (capacity == 0 || (slots.Length >= capacity && aligned)))
                && (r.Err? ==> r.error in {Overflow, InvalidInput})
      ensures old(initialized) || r.Err? ==> Slots() == old(Slots())
      ensures r.Ok? && !old(initialized) ==> |Slots()| == capacity && forall i :: 0 <= i < capacity ==>
                !slots[i].occupied
    {
      hide Linked, FreeExactly, Held, Active;
      if initialized {
        return Ok(Unit);
      }
      NotYet(Slots(), chain, freeHead);
      PowersOfTwo(alignment);
      if slotSize != 0 && capacity > U64_MAX / slotSize {
        ProductFits(slotSize, capacity, U64_MAX);
        return Err(Overflow);
      }
      ProductFits(slotSize, capacity, U64_MAX);
      var valid := BoundedArena.IsValidAlignment(alignment);
      if !valid || alignment < slotAlignment {
        return Err(InvalidInput);
      }
      PositivePower(alignment);
      if capacity > 1 && slotSize % alignment != 0 {
        return Err(InvalidInput);
      }
      if capacity == 0 {
        initialized := true;
        return Ok(Unit);
      }
      if slots.Length < capacity || !aligned {
        return Err(InvalidInput);
      }
      StringTogether(slots, capacity);
      Strung(slots[..capacity], leases, holder);
      freeHead := 0;
      initialized := true;
      chain := seq(capacity, i => i);
      r := Ok(Unit);
    }

    /** The first free slot, holding `value`; both `std::terminate` tests are dead. */
    method TryAcquire(caller: nat, value: T) returns (r: Result<nat>)
      requires Valid()
      modifies this, slots
      ensures Valid()
      ensures r == if caller != worker then Err(InvalidState)
                   else if !old(initialized) && LayoutError().Some? then Err(LayoutError().value)
                   else if old(liveLeases) == capacity then Err(Exhaustion)
                   else Ok(|old(leases)|)
      ensures r.Err? ==> leases == old(leases)
      ensures r.Ok? ==>
                && |leases| == |old(leases)| + 1 && leases[..r.value] == old(leases) && leases[r.value].active
                && leases[r.value].index < |Slots()| && Slots()[leases[r.value].index].value == Some(value)
      ensures forall k :: 0 <= k < |old(leases)| && old(leases)[k].active && old(leases)[k].index < |old(Slots())| ==>
                && old(leases)[k].index < |Slots()|
                && Slots()[old(leases)[k].index].value == old(Slots())[old(leases)[k].index].value
    {
      hide Linked, FreeExactly, Held, Active;
      if caller != worker {
        return Err(InvalidState);
      }
      Unused();
      var ready := Initialize();
      if ready.Err? {
        return Err(ready.error);
      }
      HeadIs(Slots(), chain, freeHead);
      AllOccupied(Slots(), leases, holder);
      if freeHead == NO_SLOT {
        return Err(Exhaustion);
      }
      r := Take(value);
    }

    /** A pool that is not initialised has no live lease. */
    lemma Unused()
      requires Valid()
      ensures !initialized ==> liveLeases == 0 && Slots() == []
    {
      hide Linked, FreeExactly, Held, Active;
    }

    method Take(value: T) returns (r: Result<nat>)
      requires Valid() && initialized && freeHead != NO_SLOT
      modifies this`freeHead, this`liveLeases, this`leases, this`chain, this`holder, slots
      ensures Valid() && r == Ok(|old(leases)|) && liveLeases == old(liveLeases) + 1
      ensures old(freeHead) < |old(Slots())| && !old(Slots())[old(freeHead)].occupied
      ensures leases == old(leases) + [Lease(true, old(freeHead), true)]
      ensures Slots() == Taken(old(Slots()), old(freeHead), value)
    {
      hide Linked, FreeExactly, Held, Active;
      ghost var before := Slots();
      HeadIs(before, chain, freeHead);
      var index := freeHead;
      if slots[index].occupied || liveLeases == capacity {
        assert false;
      }
      TakenLinked(before, chain, value);
      TakenHeld(before, leases, holder, index, value);
      ActiveAppend(leases, Lease(true, index, true));
      freeHead := slots[index].next;
      slots[index] := slots[index].(value := Some(value), occupied := true);
      liveLeases := liveLeases + 1;
      holder := holder[index := |leases|];
      chain := chain[1..];
      leases := leases + [Lease(true, index, true)];
      assert Slots() == Taken(before, index, value);
      r := Ok(|leases| - 1);
    }

    /** The slot of an active lease goes to the front of the free list; no `std::terminate` test can fire. */
    method ReleaseUnchecked(k: nat)
      requires Valid() && k < |leases| && leases[k].active
      modifies this`freeHead, this`liveLeases, this`leases, this`chain, this`holder, slots
      ensures Valid() && liveLeases == old(liveLeases) - 1
      ensures leases == old(leases)[k := old(leases)[k].(active := false)]
      ensures old(leases)[k].index < |old(Slots())|
      ensures Slots() == Vacated(old(Slots()), old(leases)[k].index, old(freeHead))
    {
      hide Linked, FreeExactly, Held, Active;
      var lease := leases[k];
      ActiveUpdate(leases, k, lease.(active := false));
      ActiveLease(Slots(), leases, holder, k);
      if !initialized || lease.index >= capacity || liveLeases == 0 {
        assert false;
      }
      if !slots[lease.index].occupied {
        assert false;
      }
      ghost var before := Slots();
      VacatedFree(before, chain, lease.index, freeHead);
      VacatedLinked(before, chain, lease.index, freeHead);
      VacatedHeld(before, leases, holder, k, freeHead);
      slots[lease.index] := Slot(None, freeHead, false);
      freeHead := lease.index;
      liveLeases := liveLeases - 1;
      leases := leases[k := lease.(active := false)];
      chain := [lease.index] + chain;
      holder := holder - {lease.index};
      assert Slots() == Vacated(before, lease.index, old(freeHead));
    }

    /** Releasing a lease twice is reported, and changes nothing. */
    method Release(k: nat, caller: nat) returns (r: Result<Unit>, reported: bool)
      requires Valid() && k < |leases|
      modifies this`freeHead, this`liveLeases, this`leases, this`chain, this`holder, slots
      ensures Valid()
      ensures r == if old(leases)[k].active && caller == worker then Ok(Unit) else Err(InvalidState)
      ensures reported == (old(leases)[k].pooled && !old(leases)[k].active)
      ensures r.Err? ==> leases == old(leases) && Slots() == old(Slots()) && liveLeases == old(liveLeases)
      ensures r.Ok? ==>
                leases == old(leases)[k := old(leases)[k].(active := false)] && liveLeases == old(liveLeases) - 1
      ensures r.Ok? ==> old(leases)[k].index < |old(Slots())|
                        && Slots() == Vacated(old(Slots()), old(leases)[k].index, old(freeHead))
    {
      hide Linked, FreeExactly, Held, Active;
      ActiveIsPooled(Slots(), leases, holder, k);
      if !leases[k].pooled {
        return Err(InvalidState), false;
      }
      if !leases[k].active {
        return Err(InvalidState), true;
      }
      if caller != worker {
        return Err(InvalidState), false;
      }
      ReleaseUnchecked(k);
      return Ok(Unit), false;
    }

    /** The destructor of a lease. */
    method Drop(k: nat)
      requires Valid() && k < |leases|
      modifies this`freeHead, this`liveLeases, this`leases, this`chain, this`holder, slots
      ensures Valid()
      ensures leases == if old(leases)[k].active
                        then old(leases)[k := old(leases)[k].(active := false)] else old(leases)
      ensures liveLeases == if old(leases)[k].active then old(liveLeases) - 1 else old(liveLeases)
      ensures if old(leases)[k].active
              then old(leases)[k].index < |old(Slots())|
                   && Slots() == Vacated(old(Slots()), old(leases)[k].index, old(freeHead))
              else Slots() == old(Slots())
    {
      hide Linked, FreeExactly, Held, Active;
      if leases[k].active {
        ReleaseUnchecked(k);
      }
    }

    /** Move assignment: the target gives its slot back and takes over the source's. */
    method Move(from: nat, to: nat)
      requires Valid() && from < |leases| && to < |leases|
      modifies this`freeHead, this`liveLeases, this`leases, this`chain, this`holder, slots
      ensures Valid()
      ensures leases == if from == to then old(leases) else old(leases)[to := old(leases)[from]][from := EMPTY_LEASE]
      ensures liveLeases == if from != to && old(leases)[to].active then old(liveLeases) - 1 else old(liveLeases)
      ensures if from != to && old(leases)[to].active
              then old(leases)[to].index < |old(Slots())|
                   && Slots() == Vacated(old(Slots()), old(leases)[to].index, old(freeHead))
              else Slots() == old(Slots())
    {
      hide Linked, FreeExactly, Held, Active;
      if from == to {
        return;
      }
      Drop(to);
      MovedHeld(Slots(), leases, holder, from, to);
      var lease := leases[from];
      ActiveUpdate(leases, to, lease);
      ActiveUpdate(leases[to := lease], from, EMPTY_LEASE);
      if lease.active {
        holder := holder[lease.index := to];
      }
      leases := leases[to := lease][from := EMPTY_LEASE];
    }

    /** The free list is empty exactly when every slot is leased; the sentinel is no slot. */
    lemma EmptyExactlyWhenFull()
      requires Valid() && initialized
      ensures freeHead == NO_SLOT <==> liveLeases == capacity
      ensures forall i :: i in chain ==> i < NO_SLOT
    {
    }
  }
}
