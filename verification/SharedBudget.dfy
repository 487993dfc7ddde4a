/**
 Arenas and buffers that draw on one tree of budgets and one source of blocks. Whatever they do in
 whatever order, each stays valid, and together they never hold more than any budget above them allows.
 */
module SharedBudget {
  import opened Words
  import opened MemoryBudget
  import opened BoundedArena
  import opened BoundedBuffer

  // ---- What the clients hold, against what the budgets are charged ----

  /** One client: its handle in the tree, the budget it belongs to, and its capacity. */
  datatype Holding = Holding(handle: Option<nat>, node: nat, capacity: nat)

  ghost predicate BackedBy(h: Holding, rs: seq<Reservation>) {
    match h.handle
    case None => h.capacity == 0
    case Some(k) => k < |rs| && rs[k] == Reservation(Some(h.node), h.capacity)
  }

  /** Every capacity is a reservation of its own. */
  ghost predicate Backed(hs: seq<Holding>, rs: seq<Reservation>) {
    && (forall c :: 0 <= c < |hs| ==> BackedBy(hs[c], rs))
    && (forall c, d :: 0 <= c < d < |hs| && hs[c].handle.Some? ==> hs[c].handle != hs[d].handle)
  }

  /** The capacity of all clients in the subtree of a budget. */
  ghost function Held(parents: parentage, hs: seq<Holding>, i: nat): nat
    requires Tree(parents)
  {
    if hs == [] then 0
    else
      var last := hs[|hs| - 1];
      Held(parents, hs[..|hs| - 1], i)
      + Share(parents, Reservation(Some(last.node), last.capacity), i)
  }

  /** Clients without a common reservation hold no more than what is charged. */
  lemma {:induction false} HeldCharged(parents: parentage, hs: seq<Holding>, rs: seq<Reservation>, i: nat)
    requires Tree(parents) && Backed(hs, rs)
    ensures Held(parents, hs, i) <= Charge(parents, rs, i)
    decreases |hs|
  {
    hide Charge, Counts;
    if hs != [] {
      var init, last := hs[..|hs| - 1], hs[|hs| - 1];
      if last.handle.None? {
        HeldCharged(parents, init, rs, i);
      } else {
        var h := last.handle.value;
        ChargeUpdate(parents, rs, h, INACTIVE, i);
        NothingCounts(parents, i);
        Unshared(hs, rs);
        HeldCharged(parents, init, rs[h := INACTIVE], i);
      }
    }
  }

  lemma NothingCounts(parents: parentage, i: nat)
    requires Tree(parents)
    ensures Share(parents, INACTIVE, i) == 0
  {
  }

  /** The last client's reservation backs nobody else. */
  lemma Unshared(hs: seq<Holding>, rs: seq<Reservation>)
    requires Backed(hs, rs) && hs != [] && hs[|hs| - 1].handle.Some?
    ensures Backed(hs[..|hs| - 1], rs[hs[|hs| - 1].handle.value := INACTIVE])
  {
  }

  /** No two of the sets have a member in common. */
  ghost predicate Apart(sets: seq<set<nat>>) {
    forall i, j :: 0 <= i < j < |sets| ==> sets[i] !! sets[j]
  }

  // ---- The clients ----

  datatype Clients = Clients(tree: BudgetTree, blocks: BlockSource, arenas: seq<BoundedArena>, buffers: seq<Buffer>)

  datatype Command =
    | Allocate(arena: nat, caller: nat, bytes: nat, alignment: nat, offer: Result<nat>)
    | ResetArena(arena: nat, caller: nat, source: Result<Unit>)
    | Reserve(buffer: nat, caller: nat, minimum: nat, offer: Result<nat>)
    | Release(buffer: nat, caller: nat)

  /** A command that machine words can carry, for a client that exists. */
  predicate Possible(c: Command, arenas: nat, buffers: nat) {
    match c
    case Allocate(i, _, bytes, alignment, _) => i < arenas && bytes <= U64_MAX && alignment <= U64_MAX
    case ResetArena(i, _, _) => i < arenas
    case Reserve(i, _, minimum, _) => i < buffers && minimum <= U64_MAX
    case Release(i, _) => i < buffers
  }

  ghost predicate Valid(all: Clients)
    reads all.tree, all.blocks, all.arenas, all.buffers
  {
    && all.tree.Valid()
    && (forall i :: 0 <= i < |all.arenas| ==> all.arenas[i].tree == all.tree && all.arenas[i].Valid())
    && (forall i :: 0 <= i < |all.buffers| ==>
          all.buffers[i].tree == all.tree && all.buffers[i].source == all.blocks && all.buffers[i].Valid())
    && Distinct(all.arenas) && Distinct(all.buffers)
    && Backed(Holdings(all.arenas, all.buffers), all.tree.reservations) && Apart(Blocks(all.buffers))
  }

  predicate Distinct<T(==)>(clients: seq<T>) {
    forall i, j :: 0 <= i < j < |clients| ==> clients[i] != clients[j]
  }

  ghost function ArenaHoldings(arenas: seq<BoundedArena>): (hs: seq<Holding>)
    reads arenas
    ensures |hs| == |arenas|
    ensures forall i :: 0 <= i < |hs| ==> hs[i] == Holding(arenas[i].handle, arenas[i].node, arenas[i].capacity)
  {
    if arenas == [] then []
    else
      var last := arenas[|arenas| - 1];
      ArenaHoldings(arenas[..|arenas| - 1]) + [Holding(last.handle, last.node, last.capacity)]
  }

  ghost function BufferHoldings(buffers: seq<Buffer>): (hs: seq<Holding>)
    reads buffers
    ensures |hs| == |buffers|
    ensures forall i :: 0 <= i < |hs| ==> hs[i] == Holding(buffers[i].handle, buffers[i].node, buffers[i].capacity)
  {
    if buffers == [] then []
    else
      var last := buffers[|buffers| - 1];
      BufferHoldings(buffers[..|buffers| - 1]) + [Holding(last.handle, last.node, last.capacity)]
  }

  ghost function Holdings(arenas: seq<BoundedArena>, buffers: seq<Buffer>): seq<Holding>
    reads arenas, buffers
  {
    ArenaHoldings(arenas) + BufferHoldings(buffers)
  }

  /** The blocks that each buffer has acquired so far. */
  ghost function Blocks(buffers: seq<Buffer>): (r: seq<set<nat>>)
    reads buffers
    ensures |r| == |buffers| && forall i :: 0 <= i < |r| ==> r[i] == buffers[i].mine
  {
    if buffers == [] then [] else Blocks(buffers[..|buffers| - 1]) + [buffers[|buffers| - 1].mine]
  }

  /** All clients below a budget together stay within its limit. */
  lemma WithinLimit(all: Clients, i: nat)
    requires Valid(all) && i < |all.tree.budgets|
    ensures Tree(all.tree.parents)
    ensures Held(all.tree.parents, Holdings(all.arenas, all.buffers), i)
            <= all.tree.budgets[i].charged <= all.tree.budgets[i].limit
  {
    hide Held, HandleOk, Backed, Apart, Holdings, BoundedArena.Valid, Buffer.Valid;
    assert BooksBalance(all.tree.parents, all.tree.budgets, all.tree.reservations, i);
    HeldCharged(all.tree.parents, Holdings(all.arenas, all.buffers), all.tree.reservations, i);
  }

  // ---- One client moves ----

  /** The reservations of everybody but the one client are as they were. */
  ghost predicate OthersIn(before: seq<Reservation>, after: seq<Reservation>, own: Option<nat>) {
    && |after| >= |before|
    && forall k :: 0 <= k < |before| && Some(k) != own ==> after[k] == before[k]
  }

  lemma BackedUpdate(hs: seq<Holding>, before: seq<Reservation>, after: seq<Reservation>, m: nat, h: Holding)
    requires Backed(hs, before) && m < |hs| && OthersIn(before, after, hs[m].handle)
    requires BackedBy(h, after)
    requires h.handle == hs[m].handle || h.handle.None? || h.handle.value >= |before|
    ensures Backed(hs[m := h], after)
  {
  }

  lemma ApartUpdate(sets: seq<set<nat>>, bound: nat, m: nat, s: set<nat>)
    requires Apart(sets) && m < |sets|
    requires forall i, k :: 0 <= i < |sets| && i != m && k in sets[i] ==> k < bound
    requires forall k :: k in s && k < bound ==> k in sets[m]
    ensures Apart(sets[m := s])
  {
    var after := sets[m := s];
    forall i, j | 0 <= i < j < |after|
      ensures after[i] !! after[j]
    {
      assert sets[i] !! sets[j];
    }
  }

  lemma OtherHandle(hs: seq<Holding>, before: seq<Reservation>, after: seq<Reservation>, m: nat, c: nat)
    requires Backed(hs, before) && m < |hs| && c < |hs| && c != m && OthersIn(before, after, hs[m].handle)
    ensures hs[c].handle.Some? ==>
              hs[c].handle.value < |before| && after[hs[c].handle.value] == before[hs[c].handle.value]
  {
    assert BackedBy(hs[c], before);
  }

  lemma OtherBlocks(sets: seq<set<nat>>, i: nat, j: nat)
    requires Apart(sets) && i < |sets| && j < |sets| && i != j
    ensures sets[i] !! sets[j]
  {
  }

  lemma ArenaBacked(a: BoundedArena)
    requires a.Valid()
    ensures a.tree.Valid() && BackedBy(Holding(a.handle, a.node, a.capacity), a.tree.reservations)
  {
    hide BudgetTree.Valid, Stacked, Stamped, Active;
  }

  lemma BufferBacked(b: Buffer)
    requires b.Valid()
    ensures b.tree.Valid() && BackedBy(Holding(b.handle, b.node, b.capacity), b.tree.reservations)
  {
    hide BudgetTree.Valid, Settled;
  }

  twostate lemma AcquiredBefore(b: Buffer)
    requires old(b.Valid())
    ensures forall k :: k in old(b.mine) ==> k < |old(b.source.releases)|
  {
    hide BudgetTree.Valid;
  }

  /** The clients, and the one whose turn it is. */
  datatype Turn = Turn(all: Clients, mover: nat)

  /** The client whose turn it is has worked, and nobody else has. */
  twostate predicate OnlyMoved(t: Turn)
    reads t.all.tree, t.all.blocks, t.all.arenas, t.all.buffers
  {
    && old(Valid(t.all)) && t.mover < |t.all.arenas| + |t.all.buffers|
    && (forall j :: 0 <= j < |t.all.arenas| && j != t.mover ==> unchanged(t.all.arenas[j]))
    && (forall j :: 0 <= j < |t.all.buffers| && |t.all.arenas| + j != t.mover ==> unchanged(t.all.buffers[j]))
    && if t.mover < |t.all.arenas| then
         t.all.arenas[t.mover].Valid() && t.all.arenas[t.mover].OthersKept() && unchanged(t.all.blocks)
       else t.all.buffers[t.mover - |t.all.arenas|].Valid() && t.all.buffers[t.mover - |t.all.arenas|].OthersKept()
  }

  twostate lemma HoldingsMoved(t: Turn)
    requires OnlyMoved(t)
    ensures t.all.tree.Valid() && Backed(Holdings(t.all.arenas, t.all.buffers), t.all.tree.reservations)
  {
    hide BoundedArena.Valid, Buffer.Valid, BudgetTree.Valid, SameStaff, Backed, Apart, ArenaHoldings, BufferHoldings,
      Blocks;
    var hs, after := old(Holdings(t.all.arenas, t.all.buffers)), Holdings(t.all.arenas, t.all.buffers);
    if t.mover < |t.all.arenas| {
      ArenaBacked(t.all.arenas[t.mover]);
    } else {
      BufferBacked(t.all.buffers[t.mover - |t.all.arenas|]);
    }
    BackedUpdate(hs, old(t.all.tree.reservations), t.all.tree.reservations, t.mover, after[t.mover]);
    assert after == hs[t.mover := after[t.mover]];
  }

  twostate lemma BlocksMoved(t: Turn)
    requires OnlyMoved(t)
    ensures Apart(Blocks(t.all.buffers))
  {
    hide BoundedArena.Valid, Buffer.Valid, BudgetTree.Valid, SameStaff, Backed, Apart, ArenaHoldings, BufferHoldings,
      Blocks;
    var sets := old(Blocks(t.all.buffers));
    if t.mover < |t.all.arenas| {
      assert Blocks(t.all.buffers) == sets;
    } else {
      var i := t.mover - |t.all.arenas|;
      forall j | 0 <= j < |t.all.buffers|
        ensures forall k :: k in sets[j] ==> k < |old(t.all.blocks.releases)|
      {
        AcquiredBefore(t.all.buffers[j]);
      }
      ApartUpdate(sets, |old(t.all.blocks.releases)|, i, t.all.buffers[i].mine);
      assert Blocks(t.all.buffers) == sets[i := t.all.buffers[i].mine];
    }
  }

  twostate lemma ArenasStay(t: Turn)
    requires OnlyMoved(t)
    ensures forall j :: 0 <= j < |t.all.arenas| ==> t.all.arenas[j].Valid()
  {
    hide BoundedArena.Valid, Buffer.Valid, BudgetTree.Valid, SameStaff, Backed, Apart, ArenaHoldings, BufferHoldings,
      Blocks;
    var hs := old(Holdings(t.all.arenas, t.all.buffers));
    HoldingsMoved(t);
    forall j | 0 <= j < |t.all.arenas| && j != t.mover
      ensures t.all.arenas[j].Valid()
    {
      OtherHandle(hs, old(t.all.tree.reservations), t.all.tree.reservations, t.mover, j);
      t.all.arenas[j].Undisturbed();
    }
  }

  twostate lemma BuffersStay(t: Turn)
    requires OnlyMoved(t)
    ensures forall j :: 0 <= j < |t.all.buffers| ==> t.all.buffers[j].Valid()
  {
    hide BoundedArena.Valid, Buffer.Valid, BudgetTree.Valid, SameStaff, Backed, Apart, ArenaHoldings, BufferHoldings,
      Blocks;
    var n, hs, sets := |t.all.arenas|, old(Holdings(t.all.arenas, t.all.buffers)), old(Blocks(t.all.buffers));
    HoldingsMoved(t);
    forall j | 0 <= j < |t.all.buffers| && n + j != t.mover
      ensures t.all.buffers[j].Valid()
    {
      OtherHandle(hs, old(t.all.tree.reservations), t.all.tree.reservations, t.mover, n + j);
      AcquiredBefore(t.all.buffers[j]);
      if t.mover >= n {
        OtherBlocks(sets, t.mover - n, j);
      }
      t.all.buffers[j].Undisturbed();
    }
  }

  /** What one client does leaves every client valid. */
  twostate lemma AllStay(t: Turn)
    requires OnlyMoved(t)
    ensures Valid(t.all)
  {
    hide BoundedArena.Valid, Buffer.Valid, BudgetTree.Valid, Backed, Apart, Holdings, Blocks, SameStaff;
    HoldingsMoved(t);
    BlocksMoved(t);
    ArenasStay(t);
    BuffersStay(t);
  }

  // ---- Whole runs ----

  ghost function Storages(buffers: seq<Buffer>): set<object?>
    reads buffers
  {
    set b | b in buffers :: b.storage
  }

  /** Budgets keep their parents, workers and limits; storage is where it was, or new. */
  twostate predicate Kept(all: Clients)
    reads all.tree, all.buffers
  {
    && all.tree.parents == old(all.tree.parents) && SameStaff(old(all.tree.budgets), all.tree.budgets)
    && forall b :: b in all.buffers ==> b.storage == null || b.storage == old(b.storage) || fresh(b.storage)
  }

  method AllocateFrom(all: Clients, i: nat, caller: nat, bytes: nat, alignment: nat, offer: Result<nat>)
    requires Valid(all) && i < |all.arenas| && bytes <= U64_MAX && alignment <= U64_MAX
    modifies all.tree, all.arenas[i]
    ensures Valid(all) && Kept(all)
  {
    hide BudgetTree.Valid, BoundedArena.Valid, Buffer.Valid, SameStaff, Backed, Apart, Holdings, Blocks;
    var view := all.arenas[i].TryAllocate(caller, bytes, alignment, offer);
    AllStay(Turn(all, i));
  }

  method ResetOne(all: Clients, i: nat, caller: nat, source: Result<Unit>)
    requires Valid(all) && i < |all.arenas|
    modifies all.tree, all.arenas[i]
    ensures Valid(all) && Kept(all)
  {
    hide BudgetTree.Valid, BoundedArena.Valid, Buffer.Valid, SameStaff, Backed, Apart, Holdings, Blocks;
    var boundary := all.arenas[i].QuiescentBoundary(caller);
    if boundary.Err? {
      SameStaffAgain(all.tree.budgets);
      return;
    }
    var done := all.arenas[i].Reset(caller, boundary.value, source);
    AllStay(Turn(all, i));
  }

  method ReserveIn(all: Clients, i: nat, caller: nat, minimum: nat, offer: Result<nat>)
    requires Valid(all) && i < |all.buffers| && minimum <= U64_MAX
    modifies all.tree, all.blocks, all.buffers[i], all.buffers[i].storage
    ensures Valid(all) && Kept(all)
  {
    hide BudgetTree.Valid, BoundedArena.Valid, Buffer.Valid, SameStaff, Backed, Apart, Holdings, Blocks;
    var done := all.buffers[i].Reserve(caller, minimum, offer);
    AllStay(Turn(all, |all.arenas| + i));
  }

  method ReleaseOne(all: Clients, i: nat, caller: nat)
    requires Valid(all) && i < |all.buffers|
    modifies all.tree, all.blocks, all.buffers[i]
    ensures Valid(all) && Kept(all)
  {
    hide BudgetTree.Valid, BoundedArena.Valid, Buffer.Valid, SameStaff, Backed, Apart, Holdings, Blocks;
    var done := all.buffers[i].Release(caller);
    AllStay(Turn(all, |all.arenas| + i));
    Emptied(all.buffers[i]);
  }

  lemma Emptied(b: Buffer)
    requires b.Valid()
    ensures b.handle.None? ==> b.storage == null
  {
    hide BudgetTree.Valid, Settled;
  }

  lemma SameStaffAgain(budgets: seq<Budget>)
    ensures SameStaff(budgets, budgets)
  {
  }

  method Step(all: Clients, command: Command)
    requires Valid(all) && Possible(command, |all.arenas|, |all.buffers|)
    modifies all.tree, all.blocks, all.arenas, all.buffers, Storages(all.buffers)
    ensures Valid(all) && Kept(all)
  {
    hide Valid;
    match command {
      case Allocate(i, caller, bytes, alignment, offer) =>
        AllocateFrom(all, i, caller, bytes, alignment, offer);
      case ResetArena(i, caller, source) =>
        ResetOne(all, i, caller, source);
      case Reserve(i, caller, minimum, offer) =>
        assert all.buffers[i].storage in Storages(all.buffers);
        ReserveIn(all, i, caller, minimum, offer);
      case Release(i, caller) =>
        ReleaseOne(all, i, caller);
    }
  }

  /**
   Any run of commands: every client is valid at the end of it, and the clients below any budget
   together hold no more than the limit that the budget had from the start.
   */
  method Run(all: Clients, commands: seq<Command>)
    requires Valid(all)
    requires forall k :: 0 <= k < |commands| ==> Possible(commands[k], |all.arenas|, |all.buffers|)
    modifies all.tree, all.blocks, all.arenas, all.buffers, Storages(all.buffers)
    ensures Valid(all) && Kept(all)
    ensures Tree(all.tree.parents) && forall i :: 0 <= i < |old(all.tree.budgets)| ==>
              Held(all.tree.parents, Holdings(all.arenas, all.buffers), i) <= old(all.tree.budgets)[i].limit
    decreases |commands|
  {
    hide Valid, Held, Holdings, Tree;
    if commands == [] {
      SameStaffAgain(all.tree.budgets);
      AllWithin(all);
      return;
    }
    Step(all, commands[0]);
    Run(all, commands[1..]);
  }

  lemma AllWithin(all: Clients)
    requires Valid(all)
    ensures Tree(all.tree.parents) && forall i :: 0 <= i < |all.tree.budgets| ==>
              Held(all.tree.parents, Holdings(all.arenas, all.buffers), i) <= all.tree.budgets[i].limit
  {
    hide Held, Holdings, Backed, Apart, BoundedArena.Valid, Buffer.Valid, BooksBalance, HandleOk;
    forall i | 0 <= i < |all.tree.budgets|
      ensures Held(all.tree.parents, Holdings(all.arenas, all.buffers), i) <= all.tree.budgets[i].limit
    {
      WithinLimit(all, i);
    }
  }
}
