/**
 The growable FIFO byte buffer. Its blocks come from a block source, whose ledger counts how often
 every acquired block has been released; its capacity is charged to a memory budget.
 */
module BoundedBuffer {
  import opened Words
  import opened MemoryBudget
  import Arena = BoundedArena

  /** The source of blocks, as a ledger: how often each block handed out has come back. */
  class BlockSource {
    var releases: seq<nat>

    constructor ()
      ensures releases == []
    {
      releases := [];
    }

    method Acquire(size: nat) returns (id: nat, block: array<byte>)
      modifies this
      ensures id == |old(releases)| && releases == old(releases) + [0]
      ensures fresh(block) && block.Length == size
    {
      id := |releases|;
      releases := releases + [0];
      block := new byte[size];
    }

    method Release(id: nat)
      requires id < |releases|
      modifies this
      ensures releases == old(releases)[id := old(releases)[id] + 1]
    {
      releases := releases[id := releases[id] + 1];
    }
  }

  /** Every acquired block but the one in use has been released exactly once. */
  ghost predicate Settled(releases: seq<nat>, mine: set<nat>, block: Option<nat>) {
    && (block.Some? ==> block.value in mine)
    && forall k :: k in mine ==> k < |releases| && releases[k] == if block == Some(k) then 0 else 1
  }

  /** The block `id` may take the place of the one in use, which then goes back. */
  ghost predicate TakesOver(releases: seq<nat>, mine: set<nat>, block: Option<nat>, id: nat) {
    match block
    case None => Settled(releases, mine, Some(id))
    case Some(b) => b in mine && b < |releases| && Settled(releases[b := releases[b] + 1], mine, Some(id))
  }

  /** One more block: either it goes straight back, or it takes over and the old one goes back. */
  lemma SettledAcquired(releases: seq<nat>, mine: set<nat>, block: Option<nat>)
    requires Settled(releases, mine, block)
    ensures var id, more := |releases|, releases + [0];
            && Settled(more[id := more[id] + 1], mine + {id}, block)
            && TakesOver(more, mine + {id}, block, id)
  {
  }

  lemma SettledReleased(releases: seq<nat>, mine: set<nat>, block: Option<nat>)
    requires Settled(releases, mine, block)
    ensures block.Some? ==> block.value in mine && block.value < |releases|
    ensures var after := if block.None? then releases else releases[block.value := releases[block.value] + 1];
            Settled(after, mine, None) && forall k :: k in mine ==> k < |after| && after[k] == 1
  {
  }

  /** What comes of an offer of the block source. */
  function Offered(offer: Result<nat>, target: nat): Result<Unit> {
    if offer.Err? then Err(offer.error) else if offer.value < target then Err(Exhaustion) else Ok(Unit)
  }

  /** Moves `count` bytes to the front, front to back: the overlap does no harm. */
  method MoveDown(a: array<byte>, from: nat, count: nat)
    requires from + count <= a.Length
    modifies a
    ensures a[..count] == old(a[from..from + count])
  {
    ghost var before := a[..];
    var i := 0;
    while i < count
      invariant i <= count
      invariant a[..i] == before[from..from + i] && a[i..] == before[i..]
    {
      assert a[from + i] == a[i..][from] == before[from + i];
      a[i] := a[from + i];
      assert a[..i + 1] == a[..i] + [before[from + i]];
      assert a[i + 1..] == before[i..][1..];
      i := i + 1;
    }
  }

  method CopyOut(a: array<byte>, from: nat, count: nat, b: array<byte>)
    requires from + count <= a.Length && count <= b.Length && a != b
    modifies b
    ensures b[..count] == a[from..from + count]
  {
    var i := 0;
    while i < count
      invariant i <= count && b[..i] == a[from..from + i]
      invariant a[..] == old(a[..])
    {
      b[i] := a[from + i];
      assert b[..i + 1] == b[..i] + [a[from + i]];
      i := i + 1;
    }
  }

  method WriteAt(a: array<byte>, p: nat, data: seq<byte>)
    requires p + |data| <= a.Length
    modifies a
    ensures a[..] == old(a[..p]) + data + old(a[p + |data|..])
  {
    ghost var before := a[..];
    var i := 0;
    while i < |data|
      invariant i <= |data|
      invariant a[..] == before[..p] + data[..i] + before[p + i..]
    {
      a[p + i] := data[i];
      i := i + 1;
    }
    assert data[..i] == data;
  }

  lemma WrittenSlices(s: seq<byte>, r: nat, w: nat, c: nat, data: seq<byte>)
    requires r <= w && w + |data| <= c <= |s|
    ensures var t := s[..w] + data + s[w + |data|..];
            t[r..w] == s[r..w] && t[w..c] == data + s[w..c][|data|..]
  {
    var t := s[..w] + data + s[w + |data|..];
    assert s[w..c][|data|..] == s[w + |data|..c];
    assert t[w..c] == data + s[w + |data|..c];
  }

  lemma CommittedSlices(s: seq<byte>, r: nat, w: nat, c: nat, n: nat)
    requires r <= w && w + n <= c <= |s|
    ensures s[r..w + n] == s[r..w] + s[w..c][..n] && s[w + n..c] == s[w..c][n..]
  {
    assert s[w..c][..n] == s[w..w + n];
  }

  lemma ConsumedSlice(s: seq<byte>, r: nat, w: nat, n: nat)
    requires r + n <= w <= |s|
    ensures s[r + n..w] == s[r..w][n..]
  {
  }

  class Buffer {
    const worker: nat
    const tree: BudgetTree
    const node: nat
    const source: BlockSource
    const hasSource: bool
    const initial: nat
    const maximum: nat
    var block: Option<nat>
    var storage: array?<byte>
    var handle: Option<nat>
    var capacity: nat
    var readOffset: nat
    var writeOffset: nat
    ghost var mine: set<nat>

    ghost predicate Valid()
      reads this, tree, source
    {
      && tree.Valid() && node < |tree.budgets| && tree.budgets[node].alive
      && readOffset <= writeOffset <= capacity <= maximum <= U64_MAX
      && Charged() && Settled(source.releases, mine, block)
    }

    /** The capacity is exactly what is reserved, and there is one block behind it. */
    ghost predicate Charged()
      reads this, tree
    {
      match handle
      case None => capacity == 0 && block.None? && storage == null
      case Some(h) =>
        && h < |tree.reservations| && tree.reservations[h] == Reservation(Some(node), capacity)
        && node < |tree.budgets| && tree.budgets[node].worker == worker
        && block.Some? && storage != null && storage.Length >= capacity && capacity > 0
    }

    constructor (worker: nat, tree: BudgetTree, node: nat, source: BlockSource, hasSource: bool, initial: nat,
                 maximum: nat)
      requires tree.Valid() && node < |tree.budgets| && tree.budgets[node].alive && maximum <= U64_MAX
      ensures Valid() && Contents() == [] && mine == {}
      ensures this.worker == worker && this.tree == tree && this.node == node && this.source == source
      ensures this.hasSource == hasSource && this.initial == initial && this.maximum == maximum
    {
      this.worker, this.tree, this.node, this.source := worker, tree, node, source;
      this.hasSource, this.initial, this.maximum := hasSource, initial, maximum;
      block, storage, handle, capacity, readOffset, writeOffset := None, null, None, 0, 0, 0;
      mine := {};
    }

    /** The bytes queued, oldest first. */
    ghost function Contents(): seq<byte>
      reads this, storage
    {
      if storage != null && readOffset <= writeOffset <= storage.Length then storage[readOffset..writeOffset] else []
    }

    /** The bytes written behind the queue and not committed yet. */
    ghost function Room(): seq<byte>
      reads this, storage
    {
      if storage != null && writeOffset <= capacity <= storage.Length then storage[writeOffset..capacity] else []
    }

    /** Nothing of the buffer, its charge or its block has changed. */
    twostate predicate Untouched()
      reads this, tree
    {
      && block == old(block) && storage == old(storage) && handle == old(handle) && capacity == old(capacity)
      && readOffset == old(readOffset) && writeOffset == old(writeOffset)
      && tree.budgets == old(tree.budgets)
    }

    /** Everybody else's reservations and blocks stay as they are. */
    twostate predicate OthersKept()
      reads this, tree, source
    {
      && tree.parents == old(tree.parents) && SameStaff(old(tree.budgets), tree.budgets)
      && (handle == old(handle) || handle.None? || handle.value >= |old(tree.reservations)|)
      && |tree.reservations| >= |old(tree.reservations)|
      && (forall k :: 0 <= k < |old(tree.reservations)| && Some(k) != old(handle) ==>
            tree.reservations[k] == old(tree.reservations)[k])
      && |source.releases| >= |old(source.releases)|
      && (forall k :: 0 <= k < |old(source.releases)| && k !in old(mine) ==>
            k !in mine && source.releases[k] == old(source.releases)[k])
    }

    /** The budgets above the buffer are charged with the change of its capacity, and no others. */
    twostate predicate Recharged()
      reads this, tree
    {
      && Tree(tree.parents) && |tree.parents| == |old(tree.budgets)| && node < |tree.parents|
      && ChainBumped(tree.parents, old(tree.budgets), tree.budgets, node,
                     capacity - old(capacity), Arena.Holds(handle) - Arena.Holds(old(handle)))
    }

    lemma Unbumped()
      requires Valid()
      ensures Tree(tree.parents) && |tree.parents| == |tree.budgets| && node < |tree.parents|
      ensures ChainBumped(tree.parents, tree.budgets, tree.budgets, node, 0, 0)
      ensures SameStaff(tree.budgets, tree.budgets)
    {
      hide BooksBalance, HandleOk;
      NotBumped(tree.parents, tree.budgets, node);
    }

    /** Whatever others do to the tree and the source, a buffer whose holdings they leave alone stays valid. */
    twostate lemma Undisturbed()
      requires old(Valid()) && tree.Valid() && unchanged(this)
      requires tree.parents == old(tree.parents) && SameStaff(old(tree.budgets), tree.budgets)
      requires handle.Some? ==>
                 && handle.value < |tree.reservations|
                 && tree.reservations[handle.value] == old(tree.reservations)[handle.value]
      requires forall k :: k in mine ==>
                 && k < |source.releases| && k < |old(source.releases)|
                 && source.releases[k] == old(source.releases)[k]
      ensures Valid()
    {
      hide BudgetTree.Valid;
    }

    ghost function Target(required: nat): nat
      reads this
      requires capacity <= maximum && 0 < initial <= maximum && required <= maximum
    {
      Arena.Doubled(if capacity == 0 then initial else capacity, required, maximum)
    }

    /** Why growing is refused, given what the block source offers. */
    ghost function GrowthError(required: nat, offer: Result<nat>): Option<ErrorCode>
      reads this, tree
      requires tree.Valid() && node < |tree.budgets| && capacity < required <= maximum
    {
      if !hasSource || initial == 0 || initial > maximum then Some(InvalidInput)
      else
        var refused := Refusal(tree.parents, tree.budgets, node, worker, Target(required) - capacity);
        if refused.Some? then refused
        else
          match Offered(offer, Target(required))
          case Err(e) => Some(e)
          case Ok(_) => None
    }

    /** Growing succeeds exactly if the buffer is set up, the budgets allow it, and the block is large enough. */
    lemma GrowthMeans(required: nat, offer: Result<nat>)
      requires Valid() && capacity < required <= maximum
      ensures Tree(tree.parents) && |tree.parents| == |tree.budgets|
      ensures GrowthError(required, offer).None?
              <==> && hasSource && 0 < initial <= maximum
                   && Affordable(tree.parents, tree.budgets, node, worker, Target(required) - capacity)
                   && offer.Ok? && offer.value >= Target(required)
      ensures !hasSource || initial == 0 || initial > maximum ==> GrowthError(required, offer) == Some(InvalidInput)
    {
      hide BooksBalance, HandleOk, Settled, Refusal, Affordable;
      if hasSource && 0 < initial <= maximum {
        RefusalMeans(tree.parents, tree.budgets, node, worker, Target(required) - capacity);
      }
    }

    method NextCapacity(required: nat) returns (target: nat)
      requires capacity <= maximum && 0 < initial <= maximum && required <= maximum
      ensures target == Target(required) && required <= target <= maximum
      ensures var first := if capacity == 0 then initial else capacity;
              exists k: nat :: Arena.LeastDoubling(first, required, maximum, k, target)
    {
      target := if capacity == 0 then initial else capacity;
      ghost var first := target;
      ghost var k := Arena.DoubledMeans(first, required, maximum);
      while target < required
        invariant 0 < target <= maximum
        invariant Arena.Doubled(target, required, maximum) == Arena.Doubled(first, required, maximum)
        decreases maximum - target
      {
        if target > maximum - target {
          target := maximum;
        } else {
          target := target * 2;
        }
      }
    }

    method Grow(required: nat, offer: Result<nat>) returns (r: Result<Unit>)
      requires Valid() && capacity < required <= maximum
      modifies this, tree, source
      ensures Valid() && OthersKept() && Recharged()
      ensures r == match old(GrowthError(required, offer)) case Some(e) => Err(e) case None => Ok(Unit)
      ensures Contents() == old(Contents())
      ensures r.Err? ==> Untouched()
      ensures r.Ok? ==> capacity == old(Target(required)) && writeOffset - readOffset == old(writeOffset - readOffset)
                        && readOffset == 0 && fresh(storage)
    {
      hide BudgetTree.Valid, Refusal, ChainBumped, Settled;
      Unbumped();
      if !hasSource || initial == 0 || initial > maximum {
        return Err(InvalidInput);
      }
      var target := NextCapacity(required);
      if target > maximum {
        assert false;
      }
      if handle.None? {
        r := FirstBlock(target, offer);
      } else {
        r := NextBlock(target, offer);
      }
    }

    /** A block of at least the target size; one that is too small goes straight back. */
    method Obtain(target: nat, offer: Result<nat>) returns (id: Result<nat>, bytes: array?<byte>)
      requires Settled(source.releases, mine, block)
      modifies this`mine, source
      ensures match Offered(offer, target)
              case Err(e) => id == Err(e) && Settled(source.releases, mine, block)
              case Ok(_) =>
                && id == Ok(|old(source.releases)|) && bytes != null && fresh(bytes) && bytes.Length >= target
                && TakesOver(source.releases, mine, block, id.value)
      ensures |source.releases| >= |old(source.releases)|
      ensures forall k :: 0 <= k < |old(source.releases)| ==>
                source.releases[k] == old(source.releases)[k] && (k in mine <==> k in old(mine))
    {
      hide Settled, TakesOver;
      bytes := null;
      if offer.Err? {
        return Err(offer.error), bytes;
      }
      SettledAcquired(source.releases, mine, block);
      var acquired;
      acquired, bytes := source.Acquire(offer.value);
      mine := mine + {acquired};
      if offer.value < target {
        source.Release(acquired);
        return Err(Exhaustion), null;
      }
      id := Ok(acquired);
    }

    /** The first block: charged before it is acquired. */
    method FirstBlock(target: nat, offer: Result<nat>) returns (r: Result<Unit>)
      requires Valid() && handle.None? && 0 < target <= maximum
      modifies this, tree, source
      ensures Valid() && OthersKept() && Recharged()
      ensures r == match old(Refusal(tree.parents, tree.budgets, node, worker, target))
                   case Some(e) => Err(e)
                   case None => Offered(offer, target)
      ensures r.Err? ==> Untouched()
      ensures r.Ok? ==> capacity == target && readOffset == 0 == writeOffset && fresh(storage)
    {
      hide BudgetTree.Valid, Preflight, ChainBumped, Settled;
      Unbumped();
      ghost var before := tree.budgets;
      var reservation := tree.Reserve(node, worker, target);
      if reservation.Err? {
        return Err(reservation.error);
      }
      var id, bytes := Obtain(target, offer);
      if id.Err? {
        GiveBack(reservation.value, target, before);
        return Err(id.error);
      }
      block, storage, handle, capacity := Some(id.value), bytes, Some(reservation.value), target;
      r := Ok(Unit);
    }

    /** Dropping a reservation restores every budget it was charged to. */
    method GiveBack(k: nat, bytes: nat, ghost before: seq<Budget>)
      requires tree.Valid() && k < |tree.reservations| && tree.reservations[k] == Reservation(Some(node), bytes)
      requires node < |tree.budgets| == |before| && ChainBumped(tree.parents, before, tree.budgets, node, bytes, 1)
      modifies tree
      ensures tree.Valid() && tree.parents == old(tree.parents) && tree.budgets == before
      ensures tree.reservations == old(tree.reservations)[k := INACTIVE]
    {
      hide BooksBalance, HandleOk, ChainBumped;
      ghost var charged := tree.budgets;
      tree.ReleaseHandle(k);
      BumpedBack(tree.parents, before, charged, tree.budgets, node, bytes, 1);
    }

    /** A larger block: the charge is taken back when the source lets us down. */
    method NextBlock(target: nat, offer: Result<nat>) returns (r: Result<Unit>)
      requires Valid() && handle.Some? && capacity < target <= maximum
      modifies this, tree, source
      ensures Valid() && OthersKept() && Recharged()
      ensures r == match old(Refusal(tree.parents, tree.budgets, node, worker, target - capacity))
                   case Some(e) => Err(e)
                   case None => Offered(offer, target)
      ensures Contents() == old(Contents())
      ensures r.Err? ==> Untouched()
      ensures r.Ok? ==>
                capacity == target && readOffset == 0 && writeOffset == old(writeOffset - readOffset) && fresh(storage)
    {
      hide BudgetTree.Valid, Refusal, ChainBumped, Settled;
      Unbumped();
      ghost var before := tree.budgets;
      var h := handle.value;
      var additional := target - capacity;
      var charged := tree.Grow(h, worker, additional);
      if charged.Err? {
        return charged;
      }
      var id, bytes := Obtain(target, offer);
      if id.Err? {
        TakeBack(h, additional, before);
        return Err(id.error);
      }
      SwapBlock(id.value, bytes, target);
      r := Ok(Unit);
    }

    /** The queue moves to the front of a larger block, and the old block goes back to the source. */
    method SwapBlock(id: nat, bytes: array<byte>, target: nat)
      requires storage != null && storage != bytes && capacity <= storage.Length && target <= bytes.Length
      requires readOffset <= writeOffset <= capacity <= target
      requires block.Some? && block.value < |source.releases|
      modifies this`block, this`storage, this`capacity, this`readOffset, this`writeOffset, source, bytes
      ensures block == Some(id) && storage == bytes && capacity == target
      ensures readOffset == 0 && writeOffset == old(writeOffset - readOffset)
      ensures Contents() == old(Contents())
      ensures source.releases == old(source.releases)[old(block).value := old(source.releases)[old(block).value] + 1]
    {
      var readable := writeOffset - readOffset;
      if readable != 0 {
        CopyOut(storage, readOffset, readable, bytes);
      }
      source.Release(block.value);
      block, storage, capacity, readOffset, writeOffset := Some(id), bytes, target, 0, readable;
    }

    /** The rollback, which the code expects never to fail. */
    method TakeBack(h: nat, additional: nat, ghost before: seq<Budget>)
      requires tree.Valid() && h < |tree.reservations| && tree.reservations[h].budget == Some(node)
      requires node < |tree.budgets| && tree.budgets[node].worker == worker && additional <= tree.reservations[h].bytes
      requires |before| == |tree.budgets|
      requires ChainBumped(tree.parents, before, tree.budgets, node, additional, 0)
      modifies tree
      ensures tree.Valid() && tree.parents == old(tree.parents) && tree.budgets == before
      ensures var bytes := old(tree.reservations)[h].bytes - additional;
              tree.reservations == old(tree.reservations)[h := Reservation(Some(node), bytes)]
    {
      hide BooksBalance, Refusal, ChainBumped;
      ghost var grown := tree.budgets;
      var rollback := tree.Shrink(h, worker, additional);
      if rollback.Err? {
        assert false;
      }
      BumpedBack(tree.parents, before, grown, tree.budgets, node, additional, 0);
    }

    /** Slides the queue to the front of its block. */
    method CompactUnchecked()
      requires Valid()
      modifies this`readOffset, this`writeOffset, storage
      ensures Valid() && Contents() == old(Contents())
      ensures readOffset == 0 && writeOffset == old(writeOffset - readOffset)
    {
      hide BudgetTree.Valid, Settled;
      if readOffset == 0 {
        return;
      }
      var readable := writeOffset - readOffset;
      if readable != 0 {
        MoveDown(storage, readOffset, readable);
      }
      readOffset, writeOffset := 0, readable;
    }

    /** Room for `minimum` more bytes, or the queue, its block and its charge as they were. */
    method Reserve(caller: nat, minimum: nat, offer: Result<nat>) returns (r: Result<Unit>)
      requires Valid() && minimum <= U64_MAX
      modifies this, tree, source, storage
      ensures Valid() && OthersKept() && Recharged() && Contents() == old(Contents())
      ensures r == if caller != worker then Err(InvalidState)
                   else if minimum == 0 then Ok(Unit)
                   else if minimum > maximum - |old(Contents())| then Err(Exhaustion)
                   else if |old(Contents())| + minimum <= old(capacity) then Ok(Unit)
                   else
                     match old(GrowthError(|Contents()| + minimum, offer))
                     case Some(e) => Err(e)
                     case None => Ok(Unit)
      ensures r.Err? ==> Untouched()
      ensures r.Ok? ==> minimum <= |Room()|
      ensures r.Ok? && (minimum == 0 || |old(Contents())| + minimum <= old(capacity)) ==>
                capacity == old(capacity) && block == old(block) && tree.budgets == old(tree.budgets)
      ensures storage == old(storage) || fresh(storage)
    {
      hide BudgetTree.Valid, Settled, GrowthError, ChainBumped, SameStaff;
      Unbumped();
      Sizes();
      if caller != worker {
        return Err(InvalidState);
      }
      if minimum == 0 {
        return Ok(Unit);
      }
      if minimum > maximum - (writeOffset - readOffset) {
        return Err(Exhaustion);
      }
      if minimum > capacity - writeOffset {
        r := MakeRoom(writeOffset - readOffset + minimum, offer);
        return;
      }
      r := Ok(Unit);
    }

    lemma Sizes()
      requires Valid()
      ensures |Contents()| == writeOffset - readOffset && |Room()| == capacity - writeOffset
    {
      hide BudgetTree.Valid, Settled;
    }

    /** Compacts if the block is large enough for what is queued and wanted, and grows otherwise. */
    method MakeRoom(required: nat, offer: Result<nat>) returns (r: Result<Unit>)
      requires Valid() && required <= maximum
      modifies this, tree, source, storage
      ensures Valid() && OthersKept() && Recharged() && Contents() == old(Contents())
      ensures r == if required <= old(capacity) then Ok(Unit)
                   else match old(GrowthError(required, offer)) case Some(e) => Err(e) case None => Ok(Unit)
      ensures r.Err? ==> Untouched()
      ensures r.Ok? ==> |Contents()| + |Room()| == capacity >= required
      ensures required <= old(capacity) ==>
                capacity == old(capacity) && block == old(block) && tree.budgets == old(tree.budgets)
      ensures storage == old(storage) || fresh(storage)
    {
      hide BudgetTree.Valid, Settled, GrowthError, ChainBumped, SameStaff;
      Unbumped();
      if required <= capacity {
        CompactUnchecked();
        Sizes();
        return Ok(Unit);
      }
      r := Grow(required, offer);
      Sizes();
    }

    /** Writing behind the queue leaves the queue alone. */
    method Write(data: seq<byte>)
      requires Valid() && |data| <= |Room()|
      modifies storage
      ensures Valid() && Contents() == old(Contents()) && Room() == data + old(Room())[|data|..]
    {
      hide BudgetTree.Valid, Settled;
      if |data| == 0 {
        return;
      }
      ghost var before := storage[..];
      WriteAt(storage, writeOffset, data);
      WrittenSlices(before, readOffset, writeOffset, capacity, data);
    }

    /** Appends to the queue the bytes written behind it. */
    method Commit(caller: nat, bytes: nat) returns (r: Result<Unit>)
      requires Valid()
      modifies this`writeOffset
      ensures Valid()
      ensures r == if caller != worker then Err(InvalidState)
                   else if bytes > |old(Room())| then Err(InvalidRange) else Ok(Unit)
      ensures if r.Ok? then Contents() == old(Contents()) + old(Room())[..bytes] && Room() == old(Room())[bytes..]
              else writeOffset == old(writeOffset)
    {
      hide BudgetTree.Valid, Settled;
      Sizes();
      if caller != worker {
        return Err(InvalidState);
      }
      if bytes > capacity - writeOffset {
        return Err(InvalidRange);
      }
      if writeOffset + bytes > U64_MAX {
        assert false;
      }
      Append(bytes);
      r := Ok(Unit);
    }

    method Append(bytes: nat)
      requires Valid() && bytes <= capacity - writeOffset && bytes <= |Room()|
      modifies this`writeOffset
      ensures Valid() && Contents() == old(Contents()) + old(Room())[..bytes] && Room() == old(Room())[bytes..]
    {
      hide BudgetTree.Valid, Settled;
      if storage != null {
        CommittedSlices(storage[..], readOffset, writeOffset, capacity, bytes);
      }
      writeOffset := writeOffset + bytes;
    }

    /** Drops the oldest bytes; an emptied buffer starts over at the front of its block. */
    method Consume(caller: nat, bytes: nat) returns (r: Result<Unit>)
      requires Valid()
      modifies this`readOffset, this`writeOffset
      ensures Valid()
      ensures r == if caller != worker then Err(InvalidState)
                   else if bytes > |old(Contents())| then Err(InvalidRange) else Ok(Unit)
      ensures if r.Ok? then Contents() == old(Contents())[bytes..]
              else readOffset == old(readOffset) && writeOffset == old(writeOffset)
      ensures r.Ok? && Contents() == [] ==> |Room()| == capacity
    {
      hide BudgetTree.Valid, Settled;
      Sizes();
      if caller != worker {
        return Err(InvalidState);
      }
      if bytes > writeOffset - readOffset {
        return Err(InvalidRange);
      }
      if readOffset + bytes > U64_MAX {
        assert false;
      }
      Advance(bytes);
      Rewind();
      r := Ok(Unit);
    }

    method Advance(bytes: nat)
      requires Valid() && bytes <= writeOffset - readOffset
      modifies this`readOffset
      ensures Valid() && Contents() == old(Contents())[bytes..]
    {
      hide BudgetTree.Valid, Settled;
      if storage != null {
        ConsumedSlice(storage[..], readOffset, writeOffset, bytes);
      }
      readOffset := readOffset + bytes;
    }

    method Rewind()
      requires Valid()
      modifies this`readOffset, this`writeOffset
      ensures Valid() && Contents() == old(Contents())
      ensures Contents() == [] ==> |Room()| == capacity
    {
      hide BudgetTree.Valid, Settled;
      Sizes();
      if readOffset == writeOffset {
        readOffset, writeOffset := 0, 0;
        Sizes();
      }
    }

    method Compact(caller: nat) returns (r: Result<Unit>)
      requires Valid()
      modifies this`readOffset, this`writeOffset, storage
      ensures Valid() && Contents() == old(Contents())
      ensures r == if caller != worker then Err(InvalidState) else Ok(Unit)
      ensures if r.Ok? then |Room()| == capacity - |Contents()|
              else readOffset == old(readOffset) && writeOffset == old(writeOffset)
    {
      hide BudgetTree.Valid, Settled;
      if caller != worker {
        return Err(InvalidState);
      }
      CompactUnchecked();
      r := Ok(Unit);
    }

    method Readable(caller: nat) returns (r: Result<seq<byte>>)
      requires Valid()
      ensures r == if caller != worker then Err(InvalidState) else Ok(Contents())
    {
      hide BudgetTree.Valid, Settled;
      if caller != worker {
        return Err(InvalidState);
      }
      r := if storage == null then Ok([]) else Ok(storage[readOffset..writeOffset]);
    }

    /** The block goes back to the source and the charge to the budgets; also what the destructor does. */
    method ReleaseUnchecked()
      requires Valid()
      modifies this, tree, source
      ensures Valid() && OthersKept() && Recharged()
      ensures Contents() == [] && capacity == 0 && block == None && handle == None
      ensures mine == old(mine) && forall k :: k in mine ==> source.releases[k] == 1
    {
      hide BudgetTree.Valid, ChainBumped, Settled;
      Unbumped();
      SettledReleased(source.releases, mine, block);
      if block.Some? {
        source.Release(block.value);
      }
      if handle.Some? {
        tree.ReleaseHandle(handle.value);
      }
      block, storage, handle, capacity, readOffset, writeOffset := None, null, None, 0, 0, 0;
    }

    method Release(caller: nat) returns (r: Result<Unit>)
      requires Valid()
      modifies this, tree, source
      ensures Valid() && OthersKept() && Recharged()
      ensures r == if caller != worker then Err(InvalidState) else Ok(Unit)
      ensures if r.Err? then Untouched() && source.releases == old(source.releases)
              else Contents() == [] && capacity == 0 && handle == None
                   && forall k :: k in mine ==> source.releases[k] == 1
    {
      hide BudgetTree.Valid, ChainBumped;
      Unbumped();
      if caller != worker {
        return Err(InvalidState);
      }
      ReleaseUnchecked();
      r := Ok(Unit);
    }
  }
}
