/**
 The tree of memory budgets. Budgets and reservation handles are records in two sequences and
 point at each other by index; a budget is created after its parent, so parents have smaller
 indices. `parents` is apart from the records because a budget never changes its parent.
 */
module MemoryBudget {
  import opened Words

  datatype Budget = Budget(
    worker: nat, limit: nat, charged: nat, liveReservations: nat, liveChildren: nat, alive: bool)

  /** A handle: active when it names a budget. */
  datatype Reservation = Reservation(budget: Option<nat>, bytes: nat)

  const INACTIVE: Reservation := Reservation(None, 0)

  type parentage = seq<Option<nat>>

  predicate Tree(parents: parentage) {
    forall i :: 0 <= i < |parents| && parents[i].Some? ==> parents[i].value < i
  }

  /** Whether budget `b` lies in the subtree of budget `i`. */
  predicate Under(parents: parentage, b: nat, i: nat)
    requires Tree(parents) && b < |parents|
    decreases b
  {
    b == i || (parents[b].Some? && Under(parents, parents[b].value, i))
  }

  lemma {:induction false} UnderOrder(parents: parentage, b: nat, i: nat)
    requires Tree(parents) && b < |parents| && Under(parents, b, i)
    ensures i <= b
    decreases b
  {
    if b != i {
      UnderOrder(parents, parents[b].value, i);
    }
  }

  // ---- What a set of reservations charges to a budget ----

  predicate Counts(parents: parentage, r: Reservation, i: nat)
    requires Tree(parents)
  {
    r.budget.Some? && r.budget.value < |parents| && Under(parents, r.budget.value, i)
  }

  /** Bytes of the live reservations in the subtree of `i`. */
  function Charge(parents: parentage, rs: seq<Reservation>, i: nat): nat
    requires Tree(parents)
  {
    if rs == [] then 0
    else
      var init, last := rs[..|rs| - 1], rs[|rs| - 1];
      Charge(parents, init, i) + if Counts(parents, last, i) then last.bytes else 0
  }

  /** Number of the live reservations in the subtree of `i`. */
  function Number(parents: parentage, rs: seq<Reservation>, i: nat): nat
    requires Tree(parents)
  {
    if rs == [] then 0
    else
      var init, last := rs[..|rs| - 1], rs[|rs| - 1];
      Number(parents, init, i) + if Counts(parents, last, i) then 1 else 0
  }

  function Share(parents: parentage, r: Reservation, i: nat): nat
    requires Tree(parents)
  {
    if Counts(parents, r, i) then r.bytes else 0
  }

  function One(parents: parentage, r: Reservation, i: nat): nat
    requires Tree(parents)
  {
    if Counts(parents, r, i) then 1 else 0
  }

  lemma ChargeAppend(parents: parentage, rs: seq<Reservation>, r: Reservation, i: nat)
    requires Tree(parents)
    ensures Charge(parents, rs + [r], i) == Charge(parents, rs, i) + Share(parents, r, i)
    ensures Number(parents, rs + [r], i) == Number(parents, rs, i) + One(parents, r, i)
  {
    assert (rs + [r])[..|rs|] == rs;
  }

  lemma {:induction false} ChargeUpdate(parents: parentage, rs: seq<Reservation>, k: nat, r: Reservation, i: nat)
    requires Tree(parents) && k < |rs|
    ensures Charge(parents, rs[k := r], i)
            == Charge(parents, rs, i) - Share(parents, rs[k], i) + Share(parents, r, i)
    ensures Number(parents, rs[k := r], i) == Number(parents, rs, i) - One(parents, rs[k], i) + One(parents, r, i)
    ensures Charge(parents, rs, i) >= Share(parents, rs[k], i)
    ensures Number(parents, rs, i) >= One(parents, rs[k], i)
    decreases |rs|
  {
    var n := |rs|;
    var init := rs[..n - 1];
    if k < n - 1 {
      ChargeUpdate(parents, init, k, r, i);
      assert rs[k := r][..n - 1] == init[k := r];
    } else {
      assert rs[k := r][..n - 1] == init;
    }
  }

  /** A new budget changes what no existing budget is charged. */
  lemma {:induction false} ChargeExtend(parents: parentage, p: Option<nat>, rs: seq<Reservation>, i: nat)
    requires Tree(parents) && Tree(parents + [p])
    requires forall k :: 0 <= k < |rs| && rs[k].budget.Some? ==> rs[k].budget.value < |parents|
    ensures Charge(parents + [p], rs, i) == if i < |parents| then Charge(parents, rs, i) else 0
    ensures Number(parents + [p], rs, i) == if i < |parents| then Number(parents, rs, i) else 0
  {
    if rs != [] {
      var init, last := rs[..|rs| - 1], rs[|rs| - 1];
      ChargeExtend(parents, p, init, i);
      if last.budget.Some? {
        UnderExtend(parents, p, last.budget.value, i);
      }
    }
  }

  lemma {:induction false} UnderExtend(parents: parentage, p: Option<nat>, b: nat, i: nat)
    requires Tree(parents) && Tree(parents + [p]) && b < |parents|
    ensures Under(parents + [p], b, i) == Under(parents, b, i)
    ensures i >= |parents| ==> !Under(parents, b, i)
    decreases b
  {
    if parents[b].Some? {
      UnderExtend(parents, p, parents[b].value, i);
    }
  }

  // ---- Walking up the parent chain ----

  /** Whether `i` is still ahead of a walk that stands at `current`. */
  predicate Ahead(parents: parentage, current: Option<nat>, i: nat)
    requires Tree(parents) && (current.Some? ==> current.value < |parents|)
  {
    current.Some? && Under(parents, current.value, i)
  }

  lemma AheadStep(parents: parentage, c: nat, i: nat)
    requires Tree(parents) && c < |parents|
    ensures Ahead(parents, Some(c), i) <==> i == c || Ahead(parents, parents[c], i)
    ensures !Ahead(parents, parents[c], c)
  {
    if parents[c].Some? && Under(parents, parents[c].value, c) {
      UnderOrder(parents, parents[c].value, c);
    }
  }

  /** A budget charged (or refunded) by a walk. */
  function Bumped(b: Budget, bytes: int, count: int): Budget
    requires b.charged + bytes >= 0 && b.liveReservations + count >= 0
  {
    b.(charged := b.charged + bytes, liveReservations := b.liveReservations + count)
  }

  /** Every budget on the chain from `b` up is changed by the same amounts, and no other. */
  ghost predicate ChainBumped(parents: parentage, before: seq<Budget>, after: seq<Budget>, b: nat,
                              bytes: int, count: int)
    requires Tree(parents) && |parents| == |before| && b < |parents|
  {
    && |after| == |before|
    && forall i :: 0 <= i < |before| ==>
         && (Under(parents, b, i) ==> before[i].charged + bytes >= 0 && before[i].liveReservations + count >= 0)
         && after[i] == if Under(parents, b, i) then Bumped(before[i], bytes, count) else before[i]
  }

  /** Changing every budget on a chain by nothing changes nothing. */
  lemma NotBumped(parents: parentage, budgets: seq<Budget>, b: nat)
    requires Tree(parents) && |parents| == |budgets| && b < |parents|
    ensures ChainBumped(parents, budgets, budgets, b, 0, 0)
  {
    hide Under;
  }

  /** The first budget up the chain that cannot take a reservation, and why. */
  function Preflight(parents: parentage, budgets: seq<Budget>, b: nat, bytes: nat): Option<ErrorCode>
    requires Tree(parents) && |parents| == |budgets| && b < |parents|
    decreases b
  {
    var node := budgets[b];
    if bytes > node.limit - node.charged then Some(Exhaustion)
    else if node.liveReservations == U64_MAX then Some(Overflow)
    else if parents[b].None? then None
    else Preflight(parents, budgets, parents[b].value, bytes)
  }

  /** A reservation passes exactly when every budget up the chain can take it. */
  lemma {:induction false} PreflightAll(parents: parentage, budgets: seq<Budget>, b: nat, bytes: nat)
    requires Tree(parents) && |parents| == |budgets| && b < |parents|
    ensures Preflight(parents, budgets, b, bytes).None?
            <==> forall i :: 0 <= i < |budgets| && Under(parents, b, i) ==>
                   budgets[i].charged + bytes <= budgets[i].limit && budgets[i].liveReservations != U64_MAX
    decreases b
  {
    if parents[b].Some? {
      PreflightAll(parents, budgets, parents[b].value, bytes);
    }
    assert Under(parents, b, b);
  }

  /** Budget `i` is the lowest on the chain that cannot take the bytes, and the error says what it lacks. */
  ghost predicate Refuses(parents: parentage, budgets: seq<Budget>, b: nat, bytes: nat, i: nat, error: ErrorCode)
    requires Tree(parents) && |parents| == |budgets| && b < |parents|
  {
    && i < |budgets| && Under(parents, b, i)
    && (forall j :: 0 <= j < |budgets| && j != i && Under(parents, b, j) && Under(parents, j, i) ==>
          budgets[j].charged + bytes <= budgets[j].limit && budgets[j].liveReservations < U64_MAX)
    && if budgets[i].charged + bytes > budgets[i].limit then error == Exhaustion
       else budgets[i].liveReservations == U64_MAX && error == Overflow
  }

  lemma {:induction false} PreflightRefuses(parents: parentage, budgets: seq<Budget>, b: nat, bytes: nat)
    requires Tree(parents) && |parents| == |budgets| && b < |parents|
    requires forall i :: 0 <= i < |budgets| ==> budgets[i].liveReservations <= U64_MAX
    ensures var e := Preflight(parents, budgets, b, bytes);
            e.Some? ==> exists i: nat :: Refuses(parents, budgets, b, bytes, i, e.value)
    decreases b
  {
    var e := Preflight(parents, budgets, b, bytes);
    if e.Some? {
      if budgets[b].charged + bytes > budgets[b].limit || budgets[b].liveReservations == U64_MAX {
        forall j | 0 <= j < |budgets| && Under(parents, b, j) && Under(parents, j, b)
          ensures j == b
        {
          UnderOrder(parents, b, j);
          UnderOrder(parents, j, b);
        }
        assert Refuses(parents, budgets, b, bytes, b, e.value);
      } else {
        PreflightRefuses(parents, budgets, parents[b].value, bytes);
        var i: nat :| Refuses(parents, budgets, parents[b].value, bytes, i, e.value);
        assert Refuses(parents, budgets, b, bytes, i, e.value);
      }
    }
  }

  // ---- The invariant ----

  function Children(parents: parentage, budgets: seq<Budget>, i: nat): nat
    requires |budgets| <= |parents|
  {
    if budgets == [] then 0
    else
      var n := |budgets| - 1;
      Children(parents, budgets[..n], i) + if budgets[n].alive && parents[n] == Some(i) then 1 else 0
  }

  /** Only liveness and parents matter for the number of children. */
  lemma {:induction false} ChildrenSame(parents: parentage, a: seq<Budget>, b: seq<Budget>, i: nat)
    requires |a| == |b| <= |parents|
    requires forall j :: 0 <= j < |a| ==> a[j].alive == b[j].alive
    ensures Children(parents, a, i) == Children(parents, b, i)
  {
    if a != [] {
      ChildrenSame(parents, a[..|a| - 1], b[..|b| - 1], i);
    }
  }

  /** A budget's books: conserved charges, the limit, the counters, and its place in the tree. */
  ghost predicate BooksBalance(parents: parentage, budgets: seq<Budget>, rs: seq<Reservation>, i: nat)
    requires Tree(parents) && |budgets| == |parents| && i < |budgets|
  {
    var b := budgets[i];
    && b.charged == Charge(parents, rs, i) <= b.limit <= U64_MAX
    && b.liveReservations == Number(parents, rs, i) <= U64_MAX
    && b.liveChildren == Children(parents, budgets, i)
    && (b.alive && parents[i].Some? ==>
          budgets[parents[i].value].alive && budgets[parents[i].value].worker == b.worker)
  }

  ghost predicate HandleOk(budgets: seq<Budget>, r: Reservation) {
    match r.budget
    case None => r.bytes == 0
    case Some(b) => b < |budgets| && budgets[b].alive
  }

  /** Charging and refunding change no budget's owner, limit or liveness. */
  ghost predicate SameStaff(before: seq<Budget>, after: seq<Budget>) {
    && |after| == |before|
    && forall i :: 0 <= i < |before| ==>
         after[i].worker == before[i].worker && after[i].limit == before[i].limit && after[i].alive == before[i].alive
  }

  class BudgetTree {
    var parents: parentage
    var budgets: seq<Budget>
    var reservations: seq<Reservation>

    ghost predicate Valid()
      reads this
    {
      && Tree(parents) && |budgets| == |parents| <= U64_MAX
      && (forall i :: 0 <= i < |budgets| ==> BooksBalance(parents, budgets, reservations, i))
      && (forall k :: 0 <= k < |reservations| ==> HandleOk(budgets, reservations[k]))
    }

    constructor ()
      ensures Valid() && budgets == [] && reservations == []
    {
      parents, budgets, reservations := [], [], [];
    }

    // ---- The two loops up the parent chain ----

    lemma Counters()
      requires Valid()
      ensures forall i :: 0 <= i < |budgets| ==> budgets[i].liveReservations <= U64_MAX
    {
      forall i | 0 <= i < |budgets|
        ensures budgets[i].liveReservations <= U64_MAX
      {
        assert BooksBalance(parents, budgets, reservations, i);
      }
    }

    method CheckChain(b: nat, bytes: nat) returns (refusal: Option<ErrorCode>)
      requires Tree(parents) && |budgets| == |parents| && b < |budgets|
      ensures refusal == Preflight(parents, budgets, b, bytes)
    {
      var current: Option<nat> := Some(b);
      while current.Some?
        invariant current.Some? ==> current.value < |budgets|
        invariant Preflight(parents, budgets, b, bytes)
               == if current.None? then None else Preflight(parents, budgets, current.value, bytes)
        decreases if current.None? then 0 else 1 + current.value
      {
        var node := budgets[current.value];
        if bytes > node.limit - node.charged {
          return Some(Exhaustion);
        }
        if node.liveReservations == U64_MAX {
          return Some(Overflow);
        }
        current := parents[current.value];
      }
      refusal := None;
    }

    method ChargeChain(b: nat, bytes: nat, count: nat)
      requires Tree(parents) && |budgets| == |parents| && b < |budgets|
      modifies this`budgets
      ensures ChainBumped(parents, old(budgets), budgets, b, bytes, count)
    {
      var tree := parents;
      var current: Option<nat> := Some(b);
      ghost var before := budgets;
      while current.Some?
        invariant |budgets| == |before| && (current.Some? ==> current.value < |tree|)
        invariant forall i :: 0 <= i < |tree| && Ahead(tree, current, i) ==> Under(tree, b, i)
        invariant forall i :: 0 <= i < |tree| ==>
          budgets[i] == if Under(tree, b, i) && !Ahead(tree, current, i) then Bumped(before[i], bytes, count)
                        else before[i]
        decreases if current.None? then 0 else 1 + current.value
      {
        var c := current.value;
        forall i | 0 <= i < |tree|
          ensures Ahead(tree, Some(c), i) <==> i == c || Ahead(tree, tree[c], i)
          ensures !Ahead(tree, tree[c], c)
        {
          AheadStep(tree, c, i);
        }
        budgets := budgets[c := Bumped(budgets[c], bytes, count)];
        current := tree[c];
      }
    }

    /** The refunding walk; its `std::terminate` branch is dead. */
    method RefundChain(b: nat, bytes: nat, count: nat)
      requires Tree(parents) && |budgets| == |parents| && b < |budgets|
      requires forall i :: 0 <= i < |budgets| && Under(parents, b, i) ==>
                 budgets[i].charged >= bytes && budgets[i].liveReservations >= count
      modifies this`budgets
      ensures ChainBumped(parents, old(budgets), budgets, b, -(bytes as int), -(count as int))
    {
      var tree := parents;
      var current: Option<nat> := Some(b);
      ghost var before := budgets;
      while current.Some?
        invariant |budgets| == |before| && (current.Some? ==> current.value < |tree|)
        invariant forall i :: 0 <= i < |tree| && Ahead(tree, current, i) ==> Under(tree, b, i)
        invariant forall i :: 0 <= i < |tree| ==>
          budgets[i] == if Under(tree, b, i) && !Ahead(tree, current, i)
                        then Bumped(before[i], -(bytes as int), -(count as int))
                        else before[i]
        decreases if current.None? then 0 else 1 + current.value
      {
        var c := current.value;
        forall i | 0 <= i < |tree|
          ensures Ahead(tree, Some(c), i) <==> i == c || Ahead(tree, tree[c], i)
          ensures !Ahead(tree, tree[c], c)
        {
          AheadStep(tree, c, i);
        }
        assert Ahead(tree, Some(c), c);
        if budgets[c].charged < bytes || budgets[c].liveReservations < count {
          assert false;
        }
        budgets := budgets[c := Bumped(budgets[c], -(bytes as int), -(count as int))];
        current := tree[c];
      }
    }

    // ---- Budgets ----

    method NewRoot(worker: nat, limit: nat) returns (b: nat)
      requires Valid() && limit <= U64_MAX && |budgets| < U64_MAX
      modifies this
      ensures Valid() && b == |old(budgets)| && reservations == old(reservations)
      ensures parents == old(parents) + [None]
      ensures budgets == old(budgets) + [NewBudget(worker, limit)]
    {
      b := |budgets|;
      AddBalances(parents, budgets, reservations, None, worker, limit);
      parents := parents + [None];
      budgets := WithBudget(budgets, None, worker, limit);
    }

    /** A child inherits its parent's worker and is registered with it. */
    method NewChild(parent: nat, limit: nat) returns (b: nat)
      requires Valid() && limit <= U64_MAX && |budgets| < U64_MAX
      requires parent < |budgets| && budgets[parent].alive
      modifies this
      ensures Valid() && b == |old(budgets)| && reservations == old(reservations)
      ensures parents == old(parents) + [Some(parent)]
      ensures budgets == WithBudget(old(budgets), Some(parent), old(budgets)[parent].worker, limit)
    {
      b := |budgets|;
      assert BooksBalance(parents, budgets, reservations, parent);
      ChildrenBound(parents, budgets, parent);
      if budgets[parent].liveChildren == U64_MAX {
        assert false;
      }
      var worker := budgets[parent].worker;
      AddBalances(parents, budgets, reservations, Some(parent), worker, limit);
      parents := parents + [Some(parent)];
      budgets := WithBudget(budgets, Some(parent), worker, limit);
    }

    /** A budget may go only when nothing hangs on it; it then leaves its parent's count. */
    method Destroy(b: nat, worker: nat) returns (r: Result<Unit>)
      requires Valid() && b < |budgets| && budgets[b].alive
      modifies this`budgets
      ensures Valid()
      ensures r == if old(budgets)[b].worker != worker || Number(parents, reservations, b) != 0
                      || Children(parents, old(budgets), b) != 0
                   then Err(InvalidState) else Ok(Unit)
      ensures budgets == if r.Ok? then WithoutBudget(parents, old(budgets), b) else old(budgets)
      ensures r.Ok? && parents[b].Some? ==>
                budgets[parents[b].value].liveChildren == old(budgets)[parents[b].value].liveChildren - 1
    {
      assert BooksBalance(parents, budgets, reservations, b);
      HasParent(parents, budgets, reservations, b);
      if budgets[b].worker != worker {
        return Err(InvalidState);
      }
      if budgets[b].liveReservations != 0 || budgets[b].liveChildren != 0 {
        return Err(InvalidState);
      }
      DestroyBalances(parents, budgets, reservations, b);
      ghost var after := WithoutBudget(parents, budgets, b);
      budgets := budgets[b := budgets[b].(alive := false)];
      if parents[b].Some? {
        var p := parents[b].value;
        if budgets[p].liveChildren == 0 {
          assert false;
        }
        budgets := budgets[p := budgets[p].(liveChildren := budgets[p].liveChildren - 1)];
      }
      assert budgets == after;
      r := Ok(Unit);
    }

    // ---- Reservations ----

    /** Charges every budget up the chain, or nothing at all. */
    method Reserve(b: nat, worker: nat, bytes: nat) returns (r: Result<nat>)
      requires Valid() && b < |budgets| && budgets[b].alive
      modifies this
      ensures Valid() && parents == old(parents) && SameStaff(old(budgets), budgets)
      ensures r == match Refusal(parents, old(budgets), b, worker, bytes)
                   case Some(error) => Err(error)
                   case None => Ok(|old(reservations)|)
      ensures r.Ok? <==> Affordable(parents, old(budgets), b, worker, bytes)
      ensures r == Err(InvalidState) <==> old(budgets)[b].worker != worker
      ensures r.Err? && old(budgets)[b].worker == worker ==>
                exists i: nat :: Refuses(parents, old(budgets), b, bytes, i, r.error)
      ensures r.Err? ==> budgets == old(budgets) && reservations == old(reservations)
      ensures r.Ok? ==> reservations == old(reservations) + [Reservation(Some(b), bytes)]
      ensures r.Ok? ==> ChainBumped(parents, old(budgets), budgets, b, bytes, 1)
    {
      RefusalMeans(parents, budgets, b, worker, bytes);
      hide Affordable;
      if budgets[b].worker != worker {
        return Err(InvalidState);
      }
      Counters();
      PreflightRefuses(parents, budgets, b, bytes);
      hide Refuses;
      var refusal := CheckChain(b, bytes);
      if refusal.Some? {
        return Err(refusal.value);
      }
      ghost var before, rs := budgets, reservations;
      ChargeChain(b, bytes, 1);
      reservations := reservations + [Reservation(Some(b), bytes)];
      ReserveBalances(parents, before, budgets, rs, b, bytes);
      r := Ok(|reservations| - 1);
    }

    /** Charges first, acquires second; a failed acquisition restores every charge. */
    method ReserveForAllocation(b: nat, worker: nat, bytes: nat, acquisition: Result<Unit>) returns (r: Result<nat>)
      requires Valid() && b < |budgets| && budgets[b].alive
      modifies this
      ensures Valid() && parents == old(parents) && SameStaff(old(budgets), budgets)
      ensures r == match Refusal(parents, old(budgets), b, worker, bytes)
                   case Some(error) => Err(error)
                   case None => if acquisition.Err? then Err(acquisition.error) else Ok(|old(reservations)|)
      ensures r.Err? ==> budgets == old(budgets) && LiveHandles(reservations) == LiveHandles(old(reservations))
      ensures r.Ok? ==> reservations == old(reservations) + [Reservation(Some(b), bytes)]
      ensures r.Ok? ==> ChainBumped(parents, old(budgets), budgets, b, bytes, 1)
      ensures old(reservations) <= reservations
    {
      hide Valid, Refusal, ChainBumped, LiveHandles;
      ghost var before, rs := budgets, reservations;
      r := Reserve(b, worker, bytes);
      if r.Err? {
        return r;
      }
      if acquisition.Err? {
        ghost var charged := budgets;
        ReleaseHandle(r.value);
        BumpedBack(parents, before, charged, budgets, b, bytes, 1);
        LiveHandlesAppend(rs, INACTIVE);
        assert reservations == rs + [INACTIVE];
        return Err(acquisition.error);
      }
    }

    /** The destructor of a handle, and the unchecked half of `release`. */
    method ReleaseHandle(k: nat)
      requires Valid() && k < |reservations|
      modifies this
      ensures Valid() && parents == old(parents) && SameStaff(old(budgets), budgets)
      ensures reservations == old(reservations)[k := INACTIVE]
      ensures var r := old(reservations)[k];
              if r.budget.None? then budgets == old(budgets)
              else ChainBumped(parents, old(budgets), budgets, r.budget.value, -(r.bytes as int), -1)
    {
      var r := reservations[k];
      ghost var before, rs := budgets, reservations;
      if r.budget.Some? {
        RefundFits(parents, budgets, reservations, k);
        reservations := reservations[k := INACTIVE];
        RefundChain(r.budget.value, r.bytes, 1);
        UpdateBalances(parents, before, budgets, rs, k, INACTIVE, r.budget.value, -(r.bytes as int), -1);
      } else {
        assert reservations == reservations[k := INACTIVE];
      }
    }

    method Release(k: nat, worker: nat) returns (r: Result<Unit>)
      requires Valid() && k < |reservations|
      modifies this
      ensures Valid() && parents == old(parents) && SameStaff(old(budgets), budgets)
      ensures r == (var h := old(reservations)[k];
                    if h.budget.Some? && old(budgets)[h.budget.value].worker != worker then Err(InvalidState)
                    else Ok(Unit))
      ensures reservations == if r.Ok? then old(reservations)[k := INACTIVE] else old(reservations)
      ensures var h := old(reservations)[k];
              if r.Err? || h.budget.None? then budgets == old(budgets)
              else ChainBumped(parents, old(budgets), budgets, h.budget.value, -(h.bytes as int), -1)
    {
      var h := reservations[k];
      assert HandleOk(budgets, h);
      if h.budget.None? {
        assert reservations == reservations[k := INACTIVE];
        return Ok(Unit);
      }
      if budgets[h.budget.value].worker != worker {
        return Err(InvalidState);
      }
      ReleaseHandle(k);
      r := Ok(Unit);
    }

    /** Move assignment: the target is released, then takes over what the source held. */
    method MoveHandle(from: nat, to: nat)
      requires Valid() && from < |reservations| && to < |reservations|
      modifies this
      ensures Valid() && parents == old(parents) && SameStaff(old(budgets), budgets)
      ensures from == to ==> reservations == old(reservations) && budgets == old(budgets)
      ensures from != to ==> reservations == old(reservations)[to := old(reservations)[from]][from := INACTIVE]
      ensures var r := old(reservations)[to];
              if from == to || r.budget.None? then budgets == old(budgets)
              else ChainBumped(parents, old(budgets), budgets, r.budget.value, -(r.bytes as int), -1)
    {
      if from != to {
        ReleaseHandle(to);
        MoveBalances(parents, budgets, reservations, from, to);
        reservations := reservations[to := reservations[from]][from := INACTIVE];
      }
    }

    /** Grows a reservation along the whole chain or not at all; its size cannot overflow. */
    method Grow(k: nat, worker: nat, additional: nat) returns (r: Result<Unit>)
      requires Valid() && k < |reservations|
      modifies this
      ensures Valid() && parents == old(parents) && SameStaff(old(budgets), budgets)
      ensures var h := old(reservations)[k];
              r == if h.budget.None? then Err(InvalidState)
                   else match Refusal(parents, old(budgets), h.budget.value, worker, additional)
                        case Some(error) => Err(error)
                        case None => Ok(Unit)
      ensures r.Err? ==> budgets == old(budgets) && reservations == old(reservations)
      ensures r.Ok? ==> var h := old(reservations)[k];
                && reservations == old(reservations)[k := h.(bytes := h.bytes + additional)]
                && ChainBumped(parents, old(budgets), budgets, h.budget.value, additional, 0)
    {
      var h := reservations[k];
      assert HandleOk(budgets, h);
      if h.budget.None? {
        return Err(InvalidState);
      }
      var b := h.budget.value;
      if budgets[b].worker != worker {
        return Err(InvalidState);
      }
      var refusal := CheckChain(b, additional);
      if refusal.Some? {
        return Err(refusal.value);
      }
      GrowFits(parents, budgets, reservations, k, additional);
      if additional > U64_MAX - h.bytes {
        assert false;
      }
      ghost var before, rs := budgets, reservations;
      PreflightAll(parents, budgets, b, additional);
      ChargeChain(b, additional, 0);
      var grown := h.(bytes := h.bytes + additional);
      reservations := reservations[k := grown];
      UpdateBalances(parents, before, budgets, rs, k, grown, b, additional, 0);
      r := Ok(Unit);
    }

    method Shrink(k: nat, worker: nat, bytes: nat) returns (r: Result<Unit>)
      requires Valid() && k < |reservations|
      modifies this
      ensures Valid() && parents == old(parents) && SameStaff(old(budgets), budgets)
      ensures var h := old(reservations)[k];
              r == if h.budget.None? || old(budgets)[h.budget.value].worker != worker then Err(InvalidState)
                   else if bytes > h.bytes then Err(InvalidRange)
                   else Ok(Unit)
      ensures r.Err? ==> budgets == old(budgets) && reservations == old(reservations)
      ensures r.Ok? ==> var h := old(reservations)[k];
                && reservations == old(reservations)[k := h.(bytes := h.bytes - bytes)]
                && ChainBumped(parents, old(budgets), budgets, h.budget.value, -(bytes as int), 0)
    {
      var h := reservations[k];
      assert HandleOk(budgets, h);
      if h.budget.None? {
        return Err(InvalidState);
      }
      if budgets[h.budget.value].worker != worker {
        return Err(InvalidState);
      }
      if bytes > h.bytes {
        return Err(InvalidRange);
      }
      ghost var before, rs := budgets, reservations;
      RefundFits(parents, budgets, reservations, k);
      RefundChain(h.budget.value, bytes, 0);
      var shrunk := h.(bytes := h.bytes - bytes);
      reservations := reservations[k := shrunk];
      UpdateBalances(parents, before, budgets, rs, k, shrunk, h.budget.value, -(bytes as int), 0);
      r := Ok(Unit);
    }
  }

  // ---- Why the books stay balanced ----

  /** Why a reservation on `b` is refused: the wrong worker, or the first budget that cannot take it. */
  function Refusal(parents: parentage, budgets: seq<Budget>, b: nat, worker: nat, bytes: nat): Option<ErrorCode>
    requires Tree(parents) && |parents| == |budgets| && b < |parents|
  {
    if budgets[b].worker != worker then Some(InvalidState) else Preflight(parents, budgets, b, bytes)
  }

  /** The worker owns the budget, and every budget up the chain can take so many more bytes. */
  ghost predicate Affordable(parents: parentage, budgets: seq<Budget>, b: nat, worker: nat, bytes: nat)
    requires Tree(parents) && |parents| == |budgets| && b < |parents|
  {
    && budgets[b].worker == worker
    && forall i :: 0 <= i < |budgets| && Under(parents, b, i) ==>
         budgets[i].charged + bytes <= budgets[i].limit && budgets[i].liveReservations != U64_MAX
  }

  lemma RefusalMeans(parents: parentage, budgets: seq<Budget>, b: nat, worker: nat, bytes: nat)
    requires Tree(parents) && |parents| == |budgets| && b < |parents|
    ensures Refusal(parents, budgets, b, worker, bytes).None? <==> Affordable(parents, budgets, b, worker, bytes)
  {
    hide Preflight;
    PreflightAll(parents, budgets, b, bytes);
  }

  /** The multiset of live reservations, whichever handles hold them. */
  function LiveHandles(rs: seq<Reservation>): multiset<Reservation> {
    if rs == [] then multiset{}
    else
      var init, last := rs[..|rs| - 1], rs[|rs| - 1];
      if last.budget.None? then LiveHandles(init) else LiveHandles(init) + multiset{last}
  }

  /** A charge that is taken back leaves no trace. */
  lemma BumpedBack(parents: parentage, a: seq<Budget>, b: seq<Budget>, c: seq<Budget>, node: nat, bytes: nat,
                   count: nat)
    requires Tree(parents) && |parents| == |a| == |b| && node < |parents|
    requires ChainBumped(parents, a, b, node, bytes, count)
    requires ChainBumped(parents, b, c, node, -(bytes as int), -(count as int))
    ensures c == a
  {
    hide Under;
    forall i | 0 <= i < |a|
      ensures c[i] == a[i]
    {
    }
  }

  lemma LiveHandlesAppend(rs: seq<Reservation>, r: Reservation)
    ensures LiveHandles(rs + [r]) == if r.budget.None? then LiveHandles(rs) else LiveHandles(rs) + multiset{r}
  {
    assert (rs + [r])[..|rs|] == rs;
  }

  ghost predicate Balanced(parents: parentage, budgets: seq<Budget>, rs: seq<Reservation>) {
    && Tree(parents) && |budgets| == |parents|
    && (forall i :: 0 <= i < |budgets| ==> BooksBalance(parents, budgets, rs, i))
    && (forall k :: 0 <= k < |rs| ==> HandleOk(budgets, rs[k]))
  }

  lemma ReserveBalances(parents: parentage, before: seq<Budget>, after: seq<Budget>, rs: seq<Reservation>,
                        b: nat, bytes: nat)
    requires Balanced(parents, before, rs) && b < |before| && before[b].alive
    requires Preflight(parents, before, b, bytes).None?
    requires ChainBumped(parents, before, after, b, bytes, 1)
    ensures Balanced(parents, after, rs + [Reservation(Some(b), bytes)])
  {
    var r := Reservation(Some(b), bytes);
    PreflightAll(parents, before, b, bytes);
    hide Charge, Number, Children, Preflight;
    forall i | 0 <= i < |after|
      ensures BooksBalance(parents, after, rs + [r], i)
    {
      assert BooksBalance(parents, before, rs, i);
      ChargeAppend(parents, rs, r, i);
      ChildrenSame(parents, before, after, i);
    }
  }

  /** Replacing one handle's bytes by a walk that changes every budget above it by the difference. */
  lemma UpdateBalances(parents: parentage, before: seq<Budget>, after: seq<Budget>, rs: seq<Reservation>,
                       k: nat, r: Reservation, b: nat, bytes: int, count: int)
    requires Balanced(parents, before, rs) && k < |rs| && rs[k].budget == Some(b)
    requires ChainBumped(parents, before, after, b, bytes, count)
    requires bytes > 0 ==>
      forall i :: 0 <= i < |before| && Under(parents, b, i) ==> before[i].charged + bytes <= before[i].limit
    requires if r.budget.None? then r == INACTIVE && bytes == -(rs[k].bytes as int) && count == -1
             else r.budget == Some(b) && r.bytes as int == rs[k].bytes + bytes && count == 0
    ensures Balanced(parents, after, rs[k := r])
  {
    hide Charge, Number, Children;
    assert HandleOk(before, rs[k]);
    var updated := rs[k := r];
    forall i | 0 <= i < |after|
      ensures BooksBalance(parents, after, updated, i)
    {
      assert BooksBalance(parents, before, rs, i);
      ChargeUpdate(parents, rs, k, r, i);
      ChildrenSame(parents, before, after, i);
    }
  }

  /** Every budget above a live handle holds at least its bytes and one reservation. */
  lemma RefundFits(parents: parentage, budgets: seq<Budget>, rs: seq<Reservation>, k: nat)
    requires Balanced(parents, budgets, rs) && k < |rs| && rs[k].budget.Some?
    ensures rs[k].budget.value < |budgets|
    ensures forall i :: 0 <= i < |budgets| && Under(parents, rs[k].budget.value, i) ==>
              budgets[i].charged >= rs[k].bytes && budgets[i].liveReservations >= 1
  {
    hide Charge, Number, Children;
    assert HandleOk(budgets, rs[k]);
    forall i | 0 <= i < |budgets| && Under(parents, rs[k].budget.value, i)
      ensures budgets[i].charged >= rs[k].bytes && budgets[i].liveReservations >= 1
    {
      assert BooksBalance(parents, budgets, rs, i);
      ChargeUpdate(parents, rs, k, rs[k], i);
    }
  }

  /** A reservation that the preflight lets grow never exceeds a machine word. */
  lemma GrowFits(parents: parentage, budgets: seq<Budget>, rs: seq<Reservation>, k: nat, additional: nat)
    requires Balanced(parents, budgets, rs) && k < |rs| && rs[k].budget.Some? && rs[k].budget.value < |budgets|
    requires Preflight(parents, budgets, rs[k].budget.value, additional).None?
    ensures rs[k].bytes + additional <= U64_MAX
  {
    var b := rs[k].budget.value;
    assert Under(parents, b, b) && BooksBalance(parents, budgets, rs, b);
    RefundFits(parents, budgets, rs, k);
    PreflightAll(parents, budgets, b, additional);
  }

  lemma MoveBalances(parents: parentage, budgets: seq<Budget>, rs: seq<Reservation>, from: nat, to: nat)
    requires Balanced(parents, budgets, rs) && from < |rs| && to < |rs| && from != to && rs[to] == INACTIVE
    ensures Balanced(parents, budgets, rs[to := rs[from]][from := INACTIVE])
  {
    hide Charge, Number, Children;
    var moved := rs[to := rs[from]];
    var updated := moved[from := INACTIVE];
    forall i | 0 <= i < |budgets|
      ensures BooksBalance(parents, budgets, updated, i)
    {
      assert BooksBalance(parents, budgets, rs, i);
      ChargeUpdate(parents, rs, to, rs[from], i);
      ChargeUpdate(parents, moved, from, INACTIVE, i);
    }
  }

  /** The budgets after `b` is gone from its parent's count. */
  function WithoutBudget(parents: parentage, budgets: seq<Budget>, b: nat): seq<Budget>
    requires |budgets| == |parents| && b < |budgets|
  {
    var dead := budgets[b := budgets[b].(alive := false)];
    match parents[b]
    case None => dead
    case Some(p) =>
      if p < |dead| && dead[p].liveChildren > 0
      then dead[p := dead[p].(liveChildren := dead[p].liveChildren - 1)] else dead
  }

  /** The parent of a live budget counts at least one child, so the count cannot underflow. */
  lemma HasParent(parents: parentage, budgets: seq<Budget>, rs: seq<Reservation>, b: nat)
    requires Balanced(parents, budgets, rs) && b < |budgets| && budgets[b].alive
    ensures parents[b].Some? ==> parents[b].value < b && budgets[parents[b].value].liveChildren > 0
  {
    if parents[b].Some? {
      var p := parents[b].value;
      assert BooksBalance(parents, budgets, rs, p);
      if Children(parents, budgets, p) == 0 {
        NoLiveChild(parents, budgets, p);
        assert false;
      }
    }
  }

  lemma {:induction false} ChildrenBound(parents: parentage, budgets: seq<Budget>, i: nat)
    requires |budgets| <= |parents|
    ensures Children(parents, budgets, i) <= |budgets|
  {
    if budgets != [] {
      ChildrenBound(parents, budgets[..|budgets| - 1], i);
    }
  }

  lemma {:induction false} ChildrenWithout(parents: parentage, budgets: seq<Budget>, b: nat, i: nat)
    requires |budgets| <= |parents| && b < |budgets| && budgets[b].alive
    ensures Children(parents, budgets[b := budgets[b].(alive := false)], i)
            == Children(parents, budgets, i) - (if parents[b] == Some(i) then 1 else 0)
    decreases |budgets|
  {
    var n := |budgets| - 1;
    var dead := budgets[b := budgets[b].(alive := false)];
    if b < n {
      ChildrenWithout(parents, budgets[..n], b, i);
      assert dead[..n] == budgets[..n][b := budgets[b].(alive := false)];
    } else {
      assert dead[..n] == budgets[..n];
    }
  }

  lemma {:induction false} NoneOfThem(parents: parentage, rs: seq<Reservation>, b: nat)
    requires Tree(parents) && b < |parents| && Number(parents, rs, b) == 0
    ensures forall k :: 0 <= k < |rs| ==> rs[k].budget != Some(b)
  {
    if rs != [] {
      NoneOfThem(parents, rs[..|rs| - 1], b);
    }
  }

  lemma {:induction false} NoLiveChild(parents: parentage, budgets: seq<Budget>, b: nat)
    requires |budgets| <= |parents| && Children(parents, budgets, b) == 0
    ensures forall j :: 0 <= j < |budgets| && budgets[j].alive ==> parents[j] != Some(b)
  {
    if budgets != [] {
      NoLiveChild(parents, budgets[..|budgets| - 1], b);
    }
  }

  lemma DestroyBalances(parents: parentage, budgets: seq<Budget>, rs: seq<Reservation>, b: nat)
    requires Balanced(parents, budgets, rs) && b < |budgets| && budgets[b].alive
    requires budgets[b].liveReservations == 0 && budgets[b].liveChildren == 0
    ensures Balanced(parents, WithoutBudget(parents, budgets, b), rs)
  {
    var after := WithoutBudget(parents, budgets, b);
    var dead := budgets[b := budgets[b].(alive := false)];
    assert BooksBalance(parents, budgets, rs, b);
    NoneOfThem(parents, rs, b);
    NoLiveChild(parents, budgets, b);
    hide Charge, Number, Children;
    forall i | 0 <= i < |after|
      ensures BooksBalance(parents, after, rs, i)
    {
      assert BooksBalance(parents, budgets, rs, i);
      ChildrenWithout(parents, budgets, b, i);
      ChildrenSame(parents, dead, after, i);
    }
    forall k | 0 <= k < |rs|
      ensures HandleOk(after, rs[k])
    {
      assert HandleOk(budgets, rs[k]);
    }
  }

  function NewBudget(worker: nat, limit: nat): Budget {
    Budget(worker, limit, 0, 0, 0, true)
  }

  /** The budgets after one more is created under `p`. */
  function WithBudget(budgets: seq<Budget>, p: Option<nat>, worker: nat, limit: nat): seq<Budget>
    requires p.Some? ==> p.value < |budgets|
  {
    (if p.None? then budgets
     else budgets[p.value := budgets[p.value].(liveChildren := budgets[p.value].liveChildren + 1)])
    + [NewBudget(worker, limit)]
  }

  lemma {:induction false} ChildrenPrefix(parents: parentage, p: Option<nat>, budgets: seq<Budget>, i: nat)
    requires |budgets| <= |parents|
    ensures Children(parents + [p], budgets, i) == Children(parents, budgets, i)
  {
    if budgets != [] {
      ChildrenPrefix(parents, p, budgets[..|budgets| - 1], i);
    }
  }

  lemma {:induction false} NoChildrenYet(parents: parentage, budgets: seq<Budget>, i: nat)
    requires Tree(parents) && |budgets| <= |parents| && |budgets| <= i + 1
    ensures Children(parents, budgets, i) == 0
  {
    if budgets != [] {
      NoChildrenYet(parents, budgets[..|budgets| - 1], i);
    }
  }

  lemma AddBalances(parents: parentage, budgets: seq<Budget>, rs: seq<Reservation>, p: Option<nat>,
                    worker: nat, limit: nat)
    requires Tree(parents) && |budgets| == |parents| && limit <= U64_MAX
    requires forall i :: 0 <= i < |budgets| ==> BooksBalance(parents, budgets, rs, i)
    requires forall k :: 0 <= k < |rs| ==> HandleOk(budgets, rs[k])
    requires p.Some? ==> p.value < |budgets| && budgets[p.value].alive && budgets[p.value].worker == worker
    ensures Tree(parents + [p])
    ensures var after := WithBudget(budgets, p, worker, limit);
            && |after| == |parents + [p]|
            && (forall i :: 0 <= i < |after| ==> BooksBalance(parents + [p], after, rs, i))
            && (forall k :: 0 <= k < |rs| ==> HandleOk(after, rs[k]))
  {
    var after, tree, n := WithBudget(budgets, p, worker, limit), parents + [p], |budgets|;
    forall i | 0 <= i < |after|
      ensures BooksBalance(tree, after, rs, i)
    {
      hide Charge, Number, Children;
      ChargeExtend(parents, p, rs, i);
      NewChildren(parents, budgets, p, worker, limit, i);
      if i < n {
        assert BooksBalance(parents, budgets, rs, i);
      }
    }
  }

  lemma NewChildren(parents: parentage, budgets: seq<Budget>, p: Option<nat>, worker: nat, limit: nat, i: nat)
    requires Tree(parents) && Tree(parents + [p]) && |budgets| == |parents| && (p.Some? ==> p.value < |budgets|)
    ensures Children(parents + [p], WithBudget(budgets, p, worker, limit), i)
            == if i < |budgets| then Children(parents, budgets, i) + (if p == Some(i) then 1 else 0) else 0
  {
    var after, n := WithBudget(budgets, p, worker, limit), |budgets|;
    ChildrenSame(parents + [p], after[..n], budgets, i);
    ChildrenPrefix(parents, p, budgets, i);
    if i >= n {
      NoChildrenYet(parents + [p], after, i);
    }
  }
}
