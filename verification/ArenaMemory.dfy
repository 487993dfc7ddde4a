/**
 The first-fit malloc/realloc/free layer over an arena. A pointer is the offset of a payload; its
 header sits right below it. Headers are the records placed into the arena, by their offset;
 payload bytes are the bytes of the arena's block.
 */
module ArenaMemory {
  import opened Arithmetic
  import BitStrings
  import opened Words
  import opened MemoryBudget
  import opened BoundedArena

  const HEADER_SIZE: nat := 32
  const ALIGNMENT: nat := 16

  datatype Header = Header(capacity: nat, used: nat, next: Option<nat>)

  /** The blocks below `top`, and the free ones among them in list order. */
  datatype Heap = Heap(headers: map<nat, Header>, chain: seq<nat>, head: Option<nat>, top: nat)

  function End(headers: map<nat, Header>, h: nat): nat
    requires h in headers
  {
    h + HEADER_SIZE + headers[h].capacity
  }

  /** Blocks, header included, are aligned, lie below `top`, and are pairwise disjoint. */
  ghost predicate Disjoint(headers: map<nat, Header>, top: nat) {
    && (forall h :: h in headers ==>
          h % ALIGNMENT == 0 && End(headers, h) <= top && 1 <= headers[h].used <= headers[h].capacity)
    && (forall g, h :: g in headers && h in headers && g < h ==> End(headers, g) <= h)
  }

  /** The links spell out the chain: every free block once, no cycle, nothing else. */
  ghost predicate Linked(headers: map<nat, Header>, chain: seq<nat>, head: Option<nat>) {
    && head == At(chain, 0)
    && (forall i, j :: 0 <= i < j < |chain| ==> chain[i] != chain[j])
    && (forall i :: 0 <= i < |chain| ==> chain[i] in headers && headers[chain[i]].next == At(chain, i + 1))
  }

  function At(chain: seq<nat>, i: nat): Option<nat> {
    if i < |chain| then Some(chain[i]) else None
  }

  /** The block in front of the i-th. */
  function Before(chain: seq<nat>, i: nat): Option<nat> {
    if 0 < i <= |chain| then Some(chain[i - 1]) else None
  }

  ghost predicate WellFormed(s: Heap) {
    Disjoint(s.headers, s.top) && Linked(s.headers, s.chain, s.head)
  }

  /** A block is live when it is not on the free list. */
  ghost predicate IsLive(s: Heap, h: nat) {
    h in s.headers && h !in s.chain
  }

  /** The header at an offset; what is not a block has an empty one. */
  function HeaderAt(headers: map<nat, Header>, h: nat): Header {
    if h in headers then headers[h] else Header(0, 0, None)
  }

  // ---- The list operations ----

  function Without(chain: seq<nat>, i: nat): seq<nat>
    requires i < |chain|
  {
    chain[..i] + chain[i + 1..]
  }

  /** Unlinking the i-th free block and handing it out with `size` bytes in use. */
  function Unlinked(s: Heap, i: nat, size: nat): Heap
    requires i < |s.chain|
  {
    var h := s.chain[i];
    var next := HeaderAt(s.headers, h).next;
    var relinked := if i == 0 then s.headers
                    else s.headers[s.chain[i - 1] := HeaderAt(s.headers, s.chain[i - 1]).(next := next)];
    Heap(relinked[h := HeaderAt(s.headers, h).(used := size, next := None)], Without(s.chain, i),
         if i == 0 then next else s.head, s.top)
  }

  lemma WithoutMembers(chain: seq<nat>, i: nat)
    requires i < |chain| && forall j, k :: 0 <= j < k < |chain| ==> chain[j] != chain[k]
    ensures forall j :: 0 <= j < |chain| - 1 ==> Without(chain, i)[j] == chain[if j < i then j else j + 1]
    ensures forall j, k :: 0 <= j < k < |chain| - 1 ==> Without(chain, i)[j] != Without(chain, i)[k]
    ensures forall g :: g in Without(chain, i) <==> g in chain && g != chain[i]
  {
    var rest := Without(chain, i);
    forall g
      ensures g in rest <==> g in chain && g != chain[i]
    {
      if g in chain && g != chain[i] {
        var k :| 0 <= k < |chain| && chain[k] == g;
        assert rest[if k < i then k else k - 1] == g;
      }
    }
  }

  lemma UnlinkedHeaders(s: Heap, i: nat, size: nat)
    requires WellFormed(s) && i < |s.chain| && 1 <= size <= s.headers[s.chain[i]].capacity
    ensures var after := Unlinked(s, i, size).headers;
            && after.Keys == s.headers.Keys
            && (forall g :: g in s.headers ==> after[g].capacity == s.headers[g].capacity)
            && (forall g :: g in s.headers && g != s.chain[i] ==> after[g].used == s.headers[g].used)
            && after[s.chain[i]] == Header(s.headers[s.chain[i]].capacity, size, None)
            && (forall g :: g in s.headers && g != s.chain[i] ==>
                  after[g].next == if i > 0 && g == s.chain[i - 1] then At(s.chain, i + 1) else s.headers[g].next)
  {
    hide Disjoint;
  }

  lemma UnlinkedParts(s: Heap, i: nat, size: nat)
    requires WellFormed(s) && i < |s.chain|
    ensures var after := Unlinked(s, i, size);
            && after.chain == Without(s.chain, i) && |after.chain| == |s.chain| - 1 && after.top == s.top
            && after.head == if i == 0 then At(s.chain, 1) else s.head
  {
  }

  lemma UnlinkedNext(s: Heap, i: nat, size: nat, j: nat)
    requires WellFormed(s) && i < |s.chain| && 1 <= size <= s.headers[s.chain[i]].capacity && j < |s.chain| - 1
    ensures var after := Unlinked(s, i, size);
            && |after.chain| == |s.chain| - 1
            && after.chain[j] in after.headers && after.headers[after.chain[j]].next == At(after.chain, j + 1)
  {
    hide *;
    DistinctChain(s);
    var k := if j < i then j else j + 1;
    assert s.chain[k] != s.chain[i];
    assert i > 0 && k != i - 1 ==> s.chain[k] != s.chain[i - 1];
    assert s.chain[k] in s.headers && s.headers[s.chain[k]].next == At(s.chain, k + 1);
    UnlinkedParts(s, i, size);
    UnlinkedHeaderAt(s, i, size, s.chain[k]);
    WithoutAt(s.chain, i, j);
    if j + 1 < |s.chain| - 1 {
      WithoutAt(s.chain, i, j + 1);
    }
    NextOfRest(s.chain, i, j, Unlinked(s, i, size).chain);
  }

  lemma NextOfRest(chain: seq<nat>, i: nat, j: nat, rest: seq<nat>)
    requires i < |chain| && j < |chain| - 1 == |rest|
    requires j + 1 < |rest| ==> rest[j + 1] == chain[if j + 1 < i then j + 1 else j + 2]
    ensures var k := if j < i then j else j + 1;
            At(rest, j + 1) == if i > 0 && k == i - 1 then At(chain, i + 1) else At(chain, k + 1)
  {
  }

  lemma WithoutAt(chain: seq<nat>, i: nat, j: nat)
    requires i < |chain| && j < |chain| - 1
    ensures |Without(chain, i)| == |chain| - 1 && Without(chain, i)[j] == chain[if j < i then j else j + 1]
  {
  }

  lemma UnlinkedHeaderAt(s: Heap, i: nat, size: nat, g: nat)
    requires WellFormed(s) && i < |s.chain| && g in s.headers && g != s.chain[i]
    ensures var after := Unlinked(s, i, size).headers;
            && g in after
            && after[g].next == if i > 0 && g == s.chain[i - 1] then At(s.chain, i + 1) else s.headers[g].next
  {
  }

  lemma UnlinkedLinked(s: Heap, i: nat, size: nat)
    requires WellFormed(s) && i < |s.chain| && 1 <= size <= s.headers[s.chain[i]].capacity
    ensures var after := Unlinked(s, i, size); Linked(after.headers, after.chain, after.head)
  {
    hide WellFormed, Without, Unlinked;
    DistinctChain(s);
    var after := Unlinked(s, i, size);
    UnlinkedParts(s, i, size);
    WithoutMembers(s.chain, i);
    assert after.head == At(after.chain, 0);
    forall j | 0 <= j < |after.chain|
      ensures after.chain[j] in after.headers && after.headers[after.chain[j]].next == At(after.chain, j + 1)
    {
      UnlinkedNext(s, i, size, j);
    }
  }

  /** Disjointness is a matter of block positions and capacities. */
  lemma SameBlocksDisjoint(a: map<nat, Header>, b: map<nat, Header>, top: nat)
    requires Disjoint(a, top) && b.Keys == a.Keys
    requires forall h :: h in b ==> b[h].capacity == a[h].capacity && 1 <= b[h].used <= b[h].capacity
    ensures Disjoint(b, top)
  {
    assert forall h :: h in b ==> h in a && End(b, h) == End(a, h);
  }

  lemma UnlinkedWellFormed(s: Heap, i: nat, size: nat)
    requires WellFormed(s) && i < |s.chain| && 1 <= size <= s.headers[s.chain[i]].capacity
    ensures WellFormed(Unlinked(s, i, size)) && IsLive(Unlinked(s, i, size), s.chain[i])
    ensures !IsLive(s, s.chain[i]) && OthersLive(s, Unlinked(s, i, size), s.chain[i])
  {
    UnlinkedDisjoint(s, i, size);
    UnlinkedLinked(s, i, size);
    UnlinkedLive(s, i, size);
  }

  lemma UnlinkedDisjoint(s: Heap, i: nat, size: nat)
    requires WellFormed(s) && i < |s.chain| && 1 <= size <= s.headers[s.chain[i]].capacity
    ensures Disjoint(Unlinked(s, i, size).headers, Unlinked(s, i, size).top)
  {
    hide Unlinked, Linked;
    UnlinkedParts(s, i, size);
    UnlinkedHeaders(s, i, size);
    SameBlocksDisjoint(s.headers, Unlinked(s, i, size).headers, s.top);
  }

  lemma UnlinkedLive(s: Heap, i: nat, size: nat)
    requires WellFormed(s) && i < |s.chain| && 1 <= size <= s.headers[s.chain[i]].capacity
    ensures IsLive(Unlinked(s, i, size), s.chain[i]) && !IsLive(s, s.chain[i])
    ensures OthersLive(s, Unlinked(s, i, size), s.chain[i])
  {
    hide Unlinked, Without, WellFormed, IsLive, HeaderAt;
    DistinctChain(s);
    forall g
      ensures g == s.chain[i] ==> IsLive(Unlinked(s, i, size), g) && !IsLive(s, g)
      ensures g != s.chain[i] ==> (IsLive(s, g) <==> IsLive(Unlinked(s, i, size), g))
      ensures g != s.chain[i] && IsLive(s, g) ==>
                HeaderAt(Unlinked(s, i, size).headers, g) == HeaderAt(s.headers, g)
    {
      UnlinkedLiveAt(s, i, size, g);
    }
  }

  lemma UnlinkedLiveAt(s: Heap, i: nat, size: nat, g: nat)
    requires WellFormed(s) && i < |s.chain| && 1 <= size <= s.headers[s.chain[i]].capacity
    ensures g == s.chain[i] ==> IsLive(Unlinked(s, i, size), g) && !IsLive(s, g)
    ensures g != s.chain[i] ==> (IsLive(s, g) <==> IsLive(Unlinked(s, i, size), g))
    ensures g != s.chain[i] && IsLive(s, g) ==>
              HeaderAt(Unlinked(s, i, size).headers, g) == HeaderAt(s.headers, g)
  {
    hide Unlinked, Without, WellFormed;
    DistinctChain(s);
    UnlinkedParts(s, i, size);
    UnlinkedHeaders(s, i, size);
    WithoutMembers(s.chain, i);
    assert s.chain[i] in s.chain && (i > 0 ==> s.chain[i - 1] in s.chain);
  }

  lemma ChainStep(s: Heap, i: nat)
    requires WellFormed(s)
    ensures s.head == At(s.chain, 0)
    ensures i < |s.chain| ==> s.chain[i] in s.headers && s.headers[s.chain[i]].next == At(s.chain, i + 1)
  {
  }

  lemma DistinctChain(s: Heap)
    requires WellFormed(s)
    ensures s.head == At(s.chain, 0)
    ensures forall j, k :: 0 <= j < k < |s.chain| ==> s.chain[j] != s.chain[k]
    ensures forall j :: 0 <= j < |s.chain| ==>
              s.chain[j] in s.headers && s.headers[s.chain[j]].next == At(s.chain, j + 1)
  {
  }

  /** Putting a live block at the front of the free list. */
  function Pushed(s: Heap, h: nat): Heap {
    Heap(s.headers[h := HeaderAt(s.headers, h).(next := s.head)], [h] + s.chain, Some(h), s.top)
  }

  lemma PushedWellFormed(s: Heap, h: nat)
    requires WellFormed(s) && IsLive(s, h)
    ensures WellFormed(Pushed(s, h)) && !IsLive(Pushed(s, h), h) && OthersLive(s, Pushed(s, h), h)
  {
    PushedLinked(s, h);
    PushedLive(s, h);
    hide Linked;
    SameBlocksDisjoint(s.headers, Pushed(s, h).headers, s.top);
  }

  lemma PushedLinked(s: Heap, h: nat)
    requires WellFormed(s) && IsLive(s, h)
    ensures var after := Pushed(s, h); Linked(after.headers, after.chain, after.head)
  {
    hide WellFormed, HeaderAt;
    DistinctChain(s);
    var after := Pushed(s, h);
    forall j | 0 <= j < |after.chain|
      ensures after.chain[j] in after.headers && after.headers[after.chain[j]].next == At(after.chain, j + 1)
    {
      PushedNext(s, h, j);
    }
    assert after.chain[0] == h;
  }

  lemma PushedNext(s: Heap, h: nat, j: nat)
    requires WellFormed(s) && IsLive(s, h) && j < |Pushed(s, h).chain|
    ensures var after := Pushed(s, h);
            && after.chain[j] in after.headers && after.headers[after.chain[j]].next == At(after.chain, j + 1)
  {
    hide WellFormed;
    DistinctChain(s);
    var after := Pushed(s, h);
    if j > 0 {
      assert after.chain[j] == s.chain[j - 1] != h;
    }
  }

  lemma PushedLive(s: Heap, h: nat)
    requires WellFormed(s) && IsLive(s, h)
    ensures !IsLive(Pushed(s, h), h) && OthersLive(s, Pushed(s, h), h)
  {
    hide Disjoint;
    assert Pushed(s, h).chain[0] == h;
    assert forall g :: g in Pushed(s, h).chain <==> g == h || g in s.chain;
  }

  /** A new block at the end of what the arena has handed out. */
  function Extended(s: Heap, h: nat, size: nat): Heap {
    Heap(s.headers[h := Header(size, size, None)], s.chain, s.head, h + HEADER_SIZE + size)
  }

  lemma ExtendedWellFormed(s: Heap, h: nat, size: nat)
    requires WellFormed(s) && s.top <= h && h % ALIGNMENT == 0 && size > 0
    ensures WellFormed(Extended(s, h, size)) && IsLive(Extended(s, h, size), h) && h !in s.headers
    ensures OthersLive(s, Extended(s, h, size), h)
  {
    ExtendedDisjoint(s, h, size);
    ExtendedLinked(s, h, size);
    hide Disjoint, Linked;
  }

  lemma ExtendedLinked(s: Heap, h: nat, size: nat)
    requires Linked(s.headers, s.chain, s.head) && h !in s.headers
    ensures Linked(Extended(s, h, size).headers, s.chain, s.head) && h !in s.chain
  {
    var after := Extended(s, h, size).headers;
    forall j | 0 <= j < |s.chain|
      ensures s.chain[j] in after && after[s.chain[j]] == s.headers[s.chain[j]] && s.chain[j] != h
    {
    }
  }

  lemma ExtendedDisjoint(s: Heap, h: nat, size: nat)
    requires Disjoint(s.headers, s.top) && s.top <= h && h % ALIGNMENT == 0 && size > 0
    ensures Disjoint(Extended(s, h, size).headers, Extended(s, h, size).top) && h !in s.headers
  {
    var after := Extended(s, h, size);
    forall g | g in s.headers
      ensures g < h && End(after.headers, g) <= h
    {
      assert End(s.headers, g) <= s.top;
    }
  }

  /** Resizing a live block within its capacity. */
  lemma ResizedWellFormed(s: Heap, h: nat, size: nat)
    requires WellFormed(s) && IsLive(s, h) && 1 <= size <= s.headers[h].capacity
    ensures WellFormed(s.(headers := s.headers[h := s.headers[h].(used := size)]))
  {
    var after := s.headers[h := s.headers[h].(used := size)];
    ResizedLinked(s, h, size);
    hide Linked;
    SameBlocksDisjoint(s.headers, after, s.top);
  }

  lemma ResizedLinked(s: Heap, h: nat, size: nat)
    requires WellFormed(s) && IsLive(s, h)
    ensures Linked(s.headers[h := s.headers[h].(used := size)], s.chain, s.head)
  {
    hide Disjoint;
    var after := s.headers[h := s.headers[h].(used := size)];
    forall j | 0 <= j < |s.chain|
      ensures s.chain[j] in after && after[s.chain[j]].next == At(s.chain, j + 1)
    {
      assert s.chain[j] != h;
    }
  }

  /** No free block is large enough. */
  ghost predicate NoneFits(s: Heap, size: nat) {
    forall i :: 0 <= i < |s.chain| ==> HeaderAt(s.headers, s.chain[i]).capacity < size
  }

  /** The first free block that is large enough. */
  ghost predicate FirstFit(s: Heap, size: nat, i: nat) {
    && i < |s.chain| && HeaderAt(s.headers, s.chain[i]).capacity >= size
    && forall j :: 0 <= j < i ==> HeaderAt(s.headers, s.chain[j]).capacity < size
  }

  // ---- What a call does to the heap ----

  function SizeOf(requested: nat): nat {
    if requested == 0 then 1 else requested
  }

  /** First fit; the arena is asked only when no free block is large enough. */
  ghost predicate Allocated(s: Heap, after: Heap, size: nat, p: Option<nat>) {
    if NoneFits(s, size) then
      if p.None? then after == s
      else
        && p.value >= HEADER_SIZE && s.top <= p.value - HEADER_SIZE && (p.value - HEADER_SIZE) % ALIGNMENT == 0
        && after == Extended(s, p.value - HEADER_SIZE, size)
    else
      exists i: nat :: FirstFit(s, size, i) && p == Some(s.chain[i] + HEADER_SIZE) && after == Unlinked(s, i, size)
  }

  /** Live blocks other than `h` are untouched. */
  ghost predicate OthersLive(s: Heap, after: Heap, h: nat) {
    forall g :: g != h ==>
      (IsLive(s, g) <==> IsLive(after, g)) && (IsLive(s, g) ==> HeaderAt(after.headers, g) == HeaderAt(s.headers, g))
  }

  lemma AllocatedKeeps(s: Heap, after: Heap, size: nat, p: Option<nat>)
    requires WellFormed(s) && size > 0 && Allocated(s, after, size, p)
    ensures WellFormed(after)
    ensures p.None? ==> after == s
    ensures p.Some? ==>
              && p.value >= HEADER_SIZE && !IsLive(s, p.value - HEADER_SIZE)
              && IsLive(after, p.value - HEADER_SIZE) && OthersLive(s, after, p.value - HEADER_SIZE)
              && HeaderAt(after.headers, p.value - HEADER_SIZE).used == size
  {
    hide WellFormed, IsLive, OthersLive, Unlinked;
    if NoneFits(s, size) {
      if p.Some? {
        ExtendedWellFormed(s, p.value - HEADER_SIZE, size);
        NotABlock(s, p.value - HEADER_SIZE);
      }
    } else {
      var i: nat :| FirstFit(s, size, i) && p == Some(s.chain[i] + HEADER_SIZE) && after == Unlinked(s, i, size);
      FreeBlock(s, i);
      UnlinkedWellFormed(s, i, size);
      UnlinkedUsed(s, i, size);
    }
  }

  lemma FirstFitMeans(s: Heap, size: nat, i: nat)
    requires FirstFit(s, size, i)
    ensures i < |s.chain| && HeaderAt(s.headers, s.chain[i]).capacity >= size
    ensures forall j :: 0 <= j < i ==> HeaderAt(s.headers, s.chain[j]).capacity < size
  {
  }

  lemma NoneFitsMeans(s: Heap, size: nat)
    requires NoneFits(s, size)
    ensures forall j :: 0 <= j < |s.chain| ==> HeaderAt(s.headers, s.chain[j]).capacity < size
  {
  }

  /** Taking a block off the list, as the two or three assignments do it. */
  lemma TakenIs(s: Heap, i: nat, size: nat)
    requires WellFormed(s) && FirstFit(s, size, i) && size > 0
    ensures i < |s.chain| && s.chain[i] in s.headers && WellFormed(Unlinked(s, i, size))
    ensures var h, before := s.chain[i], Before(s.chain, i);
            var next, used := s.headers[h].next, s.headers[h].(used := size, next := None);
            && (before.Some? ==> before.value in s.headers && before.value != h)
            && Unlinked(s, i, size)
               == if before.None? then Heap(s.headers[h := used], Without(s.chain, i), next, s.top)
                  else Heap(s.headers[before.value := s.headers[before.value].(next := next)][h := used],
                            Without(s.chain, i), s.head, s.top)
  {
    DistinctChain(s);
    UnlinkedWellFormed(s, i, size);
    hide WellFormed, Without;
  }

  lemma NotABlock(s: Heap, h: nat)
    requires h !in s.headers
    ensures !IsLive(s, h)
  {
  }

  lemma FreeBlock(s: Heap, i: nat)
    requires WellFormed(s) && i < |s.chain|
    ensures s.chain[i] in s.headers
  {
  }

  lemma UnlinkedUsed(s: Heap, i: nat, size: nat)
    requires i < |s.chain|
    ensures HeaderAt(Unlinked(s, i, size).headers, s.chain[i]).used == size
  {
  }

  // ---- Payload bytes ----

  function Zeros(n: nat): (r: seq<byte>)
    ensures |r| == n
  {
    seq(n, _ => 0)
  }

  function Overwritten(bytes: seq<byte>, p: nat, with: seq<byte>): (r: seq<byte>)
    ensures |r| == |bytes|
  {
    if p + |with| <= |bytes| then bytes[..p] + with + bytes[p + |with|..] else bytes
  }

  /** The bytes in use behind a pointer. */
  function Payload(s: Heap, bytes: seq<byte>, p: nat): seq<byte> {
    if p >= HEADER_SIZE && p + HeaderAt(s.headers, p - HEADER_SIZE).used <= |bytes| then
      bytes[p..p + HeaderAt(s.headers, p - HEADER_SIZE).used]
    else
      []
  }

  function Prefix(s: Heap, bytes: seq<byte>, p: nat, n: nat): seq<byte> {
    var payload := Payload(s, bytes, p);
    if n <= |payload| then payload[..n] else payload
  }

  ghost predicate LiveAt(s: Heap, p: nat) {
    p >= HEADER_SIZE && IsLive(s, p - HEADER_SIZE)
  }

  /** Every live payload, except the one behind `p`, is still live and has the same bytes. */
  ghost predicate Kept(s: Heap, bytes: seq<byte>, after: Heap, now: seq<byte>, p: Option<nat>) {
    forall q: nat :: Some(q) != p && LiveAt(s, q) ==> LiveAt(after, q) && Payload(after, now, q) == Payload(s, bytes, q)
  }

  lemma KeptThen(s: Heap, bytes: seq<byte>, mid: Heap, between: seq<byte>, after: Heap, now: seq<byte>,
                 p: Option<nat>, q: Option<nat>)
    requires Kept(s, bytes, mid, between, p) && Kept(mid, between, after, now, q)
    requires q == p || (q.Some? && !LiveAt(s, q.value)) || p.None?
    ensures Kept(s, bytes, after, now, if q == p || (q.Some? && !LiveAt(s, q.value)) then p else q)
  {
    hide LiveAt, Payload;
  }

  lemma OthersLiveKept(s: Heap, after: Heap, bytes: seq<byte>, p: nat)
    requires p >= HEADER_SIZE && OthersLive(s, after, p - HEADER_SIZE)
    ensures Kept(s, bytes, after, bytes, Some(p))
  {
    hide IsLive;
    forall q: nat | q != p && LiveAt(s, q)
      ensures LiveAt(after, q) && Payload(after, bytes, q) == Payload(s, bytes, q)
    {
      assert q - HEADER_SIZE != p - HEADER_SIZE;
    }
  }

  lemma AllocatedKept(s: Heap, after: Heap, size: nat, p: Option<nat>, bytes: seq<byte>, now: seq<byte>)
    requires WellFormed(s) && size > 0 && Allocated(s, after, size, p) && (now == bytes || s.headers == map[])
    ensures Kept(s, bytes, after, now, None)
  {
    hide WellFormed, OthersLive, Allocated;
    AllocatedKeeps(s, after, size, p);
    if p.Some? && now == bytes {
      OthersLiveKept(s, after, bytes, p.value);
    }
  }

  /** Two live blocks do not overlap. */
  lemma Apart(s: Heap, g: nat, h: nat)
    requires WellFormed(s) && IsLive(s, g) && IsLive(s, h) && g != h
    ensures var from := g + HEADER_SIZE; var to := h + HEADER_SIZE;
            from + HeaderAt(s.headers, g).used <= to || to + HeaderAt(s.headers, h).used <= from
  {
    hide Linked;
    assert End(s.headers, g) <= h || End(s.headers, h) <= g;
  }

  /** Writing inside one live block changes no other. */
  lemma OverwrittenKept(s: Heap, bytes: seq<byte>, p: nat, with: seq<byte>)
    requires WellFormed(s) && LiveAt(s, p) && |with| <= HeaderAt(s.headers, p - HEADER_SIZE).used
    ensures Kept(s, bytes, s, Overwritten(bytes, p, with), Some(p))
  {
    hide WellFormed, LiveAt, Payload, Overwritten, HeaderAt;
    forall q: nat | q != p && LiveAt(s, q)
      ensures Payload(s, Overwritten(bytes, p, with), q) == Payload(s, bytes, q)
    {
      OverwrittenPayload(s, bytes, p, with, q);
    }
  }

  lemma OverwrittenPayload(s: Heap, bytes: seq<byte>, p: nat, with: seq<byte>, q: nat)
    requires WellFormed(s) && LiveAt(s, p) && |with| <= HeaderAt(s.headers, p - HEADER_SIZE).used
    requires LiveAt(s, q) && q != p
    ensures Payload(s, Overwritten(bytes, p, with), q) == Payload(s, bytes, q)
  {
    hide WellFormed, IsLive, Overwritten, HeaderAt;
    Apart(s, q - HEADER_SIZE, p - HEADER_SIZE);
    OverwrittenApart(bytes, p, with, q, q + HeaderAt(s.headers, q - HEADER_SIZE).used);
  }

  lemma OverwrittenApart(bytes: seq<byte>, p: nat, with: seq<byte>, from: nat, to: nat)
    requires from <= to && (to <= p || p + |with| <= from)
    ensures to <= |bytes| ==> Overwritten(bytes, p, with)[from..to] == bytes[from..to]
  {
  }

  lemma OverwrittenNone(bytes: seq<byte>, p: nat)
    ensures Overwritten(bytes, p, []) == bytes
  {
  }

  lemma OverwrittenStep(bytes: seq<byte>, p: nat, with: seq<byte>, x: byte)
    requires p + |with| < |bytes|
    ensures Overwritten(bytes, p, with)[p + |with| := x] == Overwritten(bytes, p, with + [x])
  {
  }

  lemma OverwrittenAt(bytes: seq<byte>, p: nat, with: seq<byte>, k: nat)
    requires k < |bytes| && (k < p || p + |with| <= k)
    ensures Overwritten(bytes, p, with)[k] == bytes[k]
  {
  }

  lemma OverwrittenRead(bytes: seq<byte>, p: nat, with: seq<byte>)
    requires p + |with| <= |bytes|
    ensures Overwritten(bytes, p, with)[p..p + |with|] == with
  {
  }

  // ---- What realloc does to the heap ----

  function Resized(s: Heap, h: nat, size: nat): Heap {
    s.(headers := s.headers[h := HeaderAt(s.headers, h).(used := size)])
  }

  /** Whether `realloc` has to look for another block. */
  predicate Moves(s: Heap, p: Option<nat>, size: nat) {
    match p
    case None => true
    case Some(q) => size > 0 && q >= HEADER_SIZE && HeaderAt(s.headers, q - HEADER_SIZE).capacity < size
  }

  ghost predicate Reallocated(s: Heap, after: Heap, p: Option<nat>, size: nat, r: Option<nat>) {
    match p
    case None => Allocated(s, after, SizeOf(size), r)
    case Some(q) =>
      && q >= HEADER_SIZE
      && var h := q - HEADER_SIZE;
         if size == 0 then r.None? && after == Pushed(s, h)
         else if size <= HeaderAt(s.headers, h).capacity then r == p && after == Resized(s, h, size)
         else if r.None? then NoneFits(s, size) && after == s
         else exists mid :: Allocated(s, mid, size, r) && after == Pushed(mid, h)
  }

  lemma ResizedIs(s: Heap, h: nat, size: nat)
    requires h in s.headers
    ensures Resized(s, h, size) == s.(headers := s.headers[h := s.headers[h].(used := size)])
  {
  }

  lemma ResizedKept(s: Heap, p: nat, size: nat, bytes: seq<byte>)
    requires LiveAt(s, p)
    ensures Kept(s, bytes, Resized(s, p - HEADER_SIZE, size), bytes, Some(p))
  {
  }

  lemma ResizedPrefix(s: Heap, p: nat, size: nat, bytes: seq<byte>)
    requires LiveAt(s, p) && p + HeaderAt(s.headers, p - HEADER_SIZE).used <= |bytes| && p + size <= |bytes|
    ensures Prefix(s, bytes, p, size)
         == Prefix(Resized(s, p - HEADER_SIZE, size), bytes, p, HeaderAt(s.headers, p - HEADER_SIZE).used)
  {
  }

  /** Copying the common prefix makes the payloads agree on it. */
  lemma CopiedPrefix(s: Heap, after: Heap, bytes: seq<byte>, p: nat, r: nat, count: nat)
    requires p >= HEADER_SIZE && r >= HEADER_SIZE
    requires p + HeaderAt(s.headers, p - HEADER_SIZE).used <= |bytes|
    requires r + HeaderAt(after.headers, r - HEADER_SIZE).used <= |bytes|
    requires var was, room := HeaderAt(s.headers, p - HEADER_SIZE).used, HeaderAt(after.headers, r - HEADER_SIZE).used;
             count == if was < room then was else room
    ensures var now := Overwritten(bytes, r, bytes[p..p + count]);
            Prefix(s, bytes, p, HeaderAt(after.headers, r - HEADER_SIZE).used)
            == Prefix(after, now, r, HeaderAt(s.headers, p - HEADER_SIZE).used)
  {
    hide Overwritten;
    var now := Overwritten(bytes, r, bytes[p..p + count]);
    OverwrittenRead(bytes, r, bytes[p..p + count]);
    assert Prefix(s, bytes, p, HeaderAt(after.headers, r - HEADER_SIZE).used) == bytes[p..p + count];
    assert Prefix(after, now, r, HeaderAt(s.headers, p - HEADER_SIZE).used) == now[r..r + count];
  }

  /** Moving a live block: the new one is another block, and the old one is as it was. */
  lemma MovedLive(s: Heap, mid: Heap, p: nat, size: nat, r: Option<nat>, bytes: seq<byte>)
    requires WellFormed(s) && LiveAt(s, p) && size > 0 && Allocated(s, mid, size, r)
    ensures WellFormed(mid) && LiveAt(mid, p)
    ensures HeaderAt(mid.headers, p - HEADER_SIZE) == HeaderAt(s.headers, p - HEADER_SIZE)
    ensures r.None? ==> NoneFits(s, size) && mid == s && Kept(s, bytes, mid, bytes, Some(p))
    ensures r.Some? ==> r.value != p && !LiveAt(s, r.value) && LiveAt(mid, r.value)
                        && HeaderAt(mid.headers, r.value - HEADER_SIZE).used == size
  {
    hide WellFormed, Allocated, OthersLive, IsLive, HeaderAt, NoneFits;
    AllocatedKeeps(s, mid, size, r);
    NoneAllocated(s, mid, size, r);
    if r.Some? {
      assert r.value - HEADER_SIZE != p - HEADER_SIZE;
      OtherHeader(s, mid, r.value - HEADER_SIZE, p - HEADER_SIZE);
    }
  }

  lemma NotMoved(s: Heap, p: nat, size: nat)
    requires p >= HEADER_SIZE && HeaderAt(s.headers, p - HEADER_SIZE).capacity < size && NoneFits(s, size)
    ensures Reallocated(s, s, Some(p), size, None)
  {
    hide NoneFits, HeaderAt;
  }

  /** The move as a whole: allocate, copy the common prefix, free. */
  lemma MovedKept(s: Heap, mid: Heap, bytes: seq<byte>, p: nat, r: nat, size: nat, count: nat)
    requires WellFormed(s) && LiveAt(s, p) && Allocated(s, mid, size, Some(r))
    requires HeaderAt(s.headers, p - HEADER_SIZE).capacity < size && Kept(s, bytes, mid, bytes, None)
    requires p + HeaderAt(s.headers, p - HEADER_SIZE).used <= |bytes| && r >= HEADER_SIZE && r + size <= |bytes|
    requires var used := HeaderAt(s.headers, p - HEADER_SIZE).used; count == if used < size then used else size
    ensures var now, after := Overwritten(bytes, r, bytes[p..p + count]), Pushed(mid, p - HEADER_SIZE);
            && Reallocated(s, after, Some(p), size, Some(r)) && Kept(s, bytes, after, now, Some(p))
            && Prefix(s, bytes, p, size) == Prefix(after, now, r, HeaderAt(s.headers, p - HEADER_SIZE).used)
  {
    hide WellFormed, IsLive, Allocated, NoneFits, OthersLive, Prefix, Kept, Pushed, Overwritten, HeaderAt, Payload;
    var with := bytes[p..p + count];
    var now, after := Overwritten(bytes, r, with), Pushed(mid, p - HEADER_SIZE);
    MovedLive(s, mid, p, size, Some(r), bytes);
    CopiedPrefix(s, mid, bytes, p, r, count);
    OverwrittenKept(mid, bytes, r, with);
    KeptThen(s, bytes, mid, bytes, mid, now, None, Some(r));
    PushedKept(mid, p, r, now);
    SamePrefix(mid, after, now, r, HeaderAt(s.headers, p - HEADER_SIZE).used);
    KeptThen(s, bytes, mid, now, after, now, None, Some(p));
  }

  lemma NoneAllocated(s: Heap, after: Heap, size: nat, p: Option<nat>)
    requires Allocated(s, after, size, p)
    ensures p.None? ==> NoneFits(s, size)
  {
    hide Unlinked, Extended;
  }

  /** What `realloc` does to the block itself, case by case. */
  lemma ReallocatedMeans(s: Heap, after: Heap, p: nat, size: nat, r: Option<nat>)
    requires WellFormed(s) && LiveAt(s, p) && Reallocated(s, after, Some(p), size, r)
    ensures size == 0 ==> r == None && !LiveAt(after, p)
    ensures 0 < size <= s.headers[p - HEADER_SIZE].capacity ==>
              && r == Some(p) && LiveAt(after, p)
              && after.headers[p - HEADER_SIZE] == s.headers[p - HEADER_SIZE].(used := size)
    ensures size > s.headers[p - HEADER_SIZE].capacity ==>
              if r.None? then after == s
              else r != Some(p) && !LiveAt(after, p) && HeaderAt(after.headers, r.value - HEADER_SIZE).used == size
  {
    hide WellFormed, Allocated, OthersLive, NoneFits, Linked, Disjoint;
    var h := p - HEADER_SIZE;
    if size == 0 {
      PushedWellFormed(s, h);
    } else if size > s.headers[h].capacity && r.Some? {
      var mid :| Allocated(s, mid, size, r) && after == Pushed(mid, h);
      MovedLive(s, mid, p, size, r, []);
      PushedWellFormed(mid, h);
      OtherHeader(mid, after, h, r.value - HEADER_SIZE);
    }
  }

  /** Freeing one block keeps the payload behind every other pointer. */
  lemma PushedKept(s: Heap, p: nat, r: nat, bytes: seq<byte>)
    requires WellFormed(s) && LiveAt(s, p) && LiveAt(s, r) && r != p
    ensures var after := Pushed(s, p - HEADER_SIZE);
            && Kept(s, bytes, after, bytes, Some(p))
            && Payload(after, bytes, r) == Payload(s, bytes, r)
  {
    hide WellFormed, OthersLive, Pushed, IsLive, Payload;
    PushedWellFormed(s, p - HEADER_SIZE);
    OthersLiveKept(s, Pushed(s, p - HEADER_SIZE), bytes, p);
  }

  lemma OtherHeader(s: Heap, after: Heap, h: nat, g: nat)
    requires OthersLive(s, after, h) && IsLive(s, g) && g != h
    ensures IsLive(after, g) && HeaderAt(after.headers, g) == HeaderAt(s.headers, g)
  {
  }

  lemma SamePrefix(s: Heap, after: Heap, bytes: seq<byte>, p: nat, n: nat)
    requires Payload(after, bytes, p) == Payload(s, bytes, p)
    ensures Prefix(after, bytes, p, n) == Prefix(s, bytes, p, n)
  {
  }

  method Fill(storage: array<byte>, p: nat, total: nat)
    requires p + total <= storage.Length
    modifies storage
    ensures storage[..] == Overwritten(old(storage[..]), p, Zeros(total))
  {
    hide Overwritten;
    ghost var before := storage[..];
    OverwrittenNone(before, p);
    var i := 0;
    while i < total
      invariant i <= total
      invariant storage[..] == Overwritten(before, p, Zeros(i))
    {
      OverwrittenStep(before, p, Zeros(i), 0);
      assert Zeros(i + 1) == Zeros(i) + [0];
      storage[p + i] := 0;
      i := i + 1;
    }
  }

  method Copy(storage: array<byte>, from: nat, to: nat, count: nat)
    requires from + count <= storage.Length && to + count <= storage.Length
    requires from + count <= to || to + count <= from
    modifies storage
    ensures storage[..] == Overwritten(old(storage[..]), to, old(storage[from..from + count]))
  {
    hide Overwritten;
    ghost var before := storage[..];
    OverwrittenNone(before, to);
    assert before[from..from] == [];
    var i := 0;
    while i < count
      invariant i <= count
      invariant storage[..] == Overwritten(before, to, before[from..from + i])
    {
      OverwrittenStep(before, to, before[from..from + i], before[from + i]);
      OverwrittenAt(before, to, before[from..from + i], from + i);
      assert before[from..from + i + 1] == before[from..from + i] + [before[from + i]];
      assert storage[from + i] == storage[..][from + i];
      storage[to + i] := storage[from + i];
      i := i + 1;
    }
    assert before[from..from + count] == old(storage[from..from + count]);
  }

  /** Walks the free list for the first large enough block. */
  method Search(blocks: map<nat, Header>, head: Option<nat>, size: nat, ghost s: Heap)
    returns (previous: Option<nat>, allocation: Option<nat>, ghost i: nat)
    requires WellFormed(s) && blocks == s.headers && head == s.head
    ensures i <= |s.chain| && previous == Before(s.chain, i)
    ensures allocation.None? ==> NoneFits(s, size)
    ensures allocation.Some? ==> FirstFit(s, size, i) && allocation == Some(s.chain[i])
  {
    hide WellFormed;
    ChainStep(s, 0);
    previous, allocation, i := None, head, 0;
    while allocation.Some? && blocks[allocation.value].capacity < size
      invariant i <= |s.chain| && allocation == At(s.chain, i) && previous == Before(s.chain, i)
      invariant allocation.Some? ==> allocation.value in blocks && blocks[allocation.value].next == At(s.chain, i + 1)
      invariant forall j :: 0 <= j < i ==> HeaderAt(blocks, s.chain[j]).capacity < size
      decreases |s.chain| - i
    {
      previous := allocation;
      allocation := blocks[allocation.value].next;
      i := i + 1;
      ChainStep(s, i);
    }
  }

  class MemoryPool {
    const arena: BoundedArena
    const worker: nat
    var generation: nat
    var freeList: Option<nat>
    var headers: map<nat, Header>
    ghost var chain: seq<nat>

    constructor (worker: nat, arena: BoundedArena)
      requires arena.Valid()
      ensures Valid() && Current() && this.arena == arena && this.worker == worker
      ensures State() == Heap(map[], [], None, arena.offset)
    {
      this.worker, this.arena, generation := worker, arena, arena.generation;
      freeList, headers, chain := None, map[], [];
    }

    ghost function State(): Heap
      reads this, arena
    {
      Heap(headers, chain, freeList, arena.offset)
    }

    /** No reset of the arena has happened since the pool was last used. */
    ghost predicate Current()
      reads this, arena
    {
      generation == arena.generation
    }

    ghost predicate Valid()
      reads this, arena, arena.tree
    {
      arena.Valid() && generation <= arena.generation && (Current() ==> WellFormed(State()))
    }

    /** The heap as the next call sees it: a reset takes every block with it. */
    ghost function Synced(): Heap
      reads this, arena
    {
      if Current() then State() else Heap(map[], [], None, arena.offset)
    }

    ghost predicate Live(p: nat)
      reads this, arena
    {
      Current() && p >= HEADER_SIZE && IsLive(State(), p - HEADER_SIZE)
    }

    ghost function Bytes(): seq<byte>
      reads this, arena, arena.storage
    {
      if arena.storage == null then [] else arena.storage[..]
    }

    /** A live block lies within the storage of the arena. */
    lemma Stored(p: nat)
      requires Valid() && Live(p)
      ensures arena.storage != null && p - HEADER_SIZE in headers
      ensures p + headers[p - HEADER_SIZE].used <= p + headers[p - HEADER_SIZE].capacity <= arena.storage.Length
    {
      hide Linked, BooksBalance, HandleOk, Stacked, Stamped, Active;
      assert End(headers, p - HEADER_SIZE) <= arena.offset;
    }

    lemma Unstored()
      requires Valid() && Current() && arena.storage == null
      ensures State().headers == map[]
    {
      hide Linked, BooksBalance, HandleOk, Stacked, Stamped, Active;
      assert forall h :: h in headers ==> End(headers, h) <= arena.offset;
    }

    /** The other clients of the arena and of its budgets keep their pins and reservations. */
    twostate predicate ArenaShared()
      reads this, arena, arena.tree
    {
      arena.OthersKept() && arena.Recharged() && arena.pins == old(arena.pins)
    }

    lemma SyncedWellFormed()
      requires Valid()
      ensures WellFormed(Synced())
    {
    }

    lemma SyncedKept()
      ensures Kept(Synced(), Bytes(), State(), Bytes(), None)
    {
    }

    method Synchronize()
      requires Valid()
      modifies this
      ensures Valid() && Current() && State() == old(Synced())
    {
      if generation != arena.generation {
        generation := arena.generation;
        freeList := None;
        headers, chain := map[], [];
      }
    }

    method Malloc(requested: nat, offer: Result<nat>) returns (p: Option<nat>)
      requires Valid() && requested <= U64_MAX
      modifies this, arena, arena.tree
      ensures ArenaShared()
      ensures Valid() && Current() && arena.generation == old(arena.generation)
      ensures Allocated(old(Synced()), State(), SizeOf(requested), p)
      ensures p.Some? ==>
                Live(p.value)
                && HeaderAt(headers, p.value - HEADER_SIZE).used == if requested == 0 then 1 else requested
      ensures p.None? <==> NoneFits(old(Synced()), SizeOf(requested)) && old(ArenaRefuses(SizeOf(requested), offer))
      ensures Kept(old(Synced()), old(Bytes()), State(), Bytes(), None)
      ensures old(arena.storage) != null ==> arena.storage == old(arena.storage) && Bytes() == old(Bytes())
      ensures old(arena.storage) == null && arena.storage != null ==> fresh(arena.storage)
    {
      hide BoundedArena.Valid, ChainBumped, SameStaff, BoundedArena.AllocationError, WellFormed, Allocated, NoneFits,
           Kept;
      ghost var bytes := Bytes();
      Synchronize();
      ghost var s := State();
      if arena.storage == null {
        Unstored();
      }
      p := FromListOrArena(requested, offer);
      AllocatedKeeps(s, State(), SizeOf(requested), p);
      AllocatedKept(s, State(), SizeOf(requested), p, bytes, Bytes());
    }

    ghost predicate ArenaRefuses(size: nat, offer: Result<nat>)
      requires Valid()
      reads this, arena, arena.tree
    {
      || size > U64_MAX - HEADER_SIZE
      || arena.AllocationError(worker, HEADER_SIZE + size, ALIGNMENT, offer).Some?
    }

    method FromListOrArena(requested: nat, offer: Result<nat>) returns (p: Option<nat>)
      requires Valid() && Current() && requested <= U64_MAX
      modifies this, arena, arena.tree
      ensures ArenaShared()
      ensures Valid() && Current() && arena.generation == old(arena.generation)
      ensures Allocated(old(State()), State(), SizeOf(requested), p)
      ensures p.None? <==> NoneFits(old(State()), SizeOf(requested)) && old(ArenaRefuses(SizeOf(requested), offer))
      ensures old(arena.storage) != null ==> arena.storage == old(arena.storage)
      ensures old(arena.storage) == null && arena.storage != null ==> fresh(arena.storage)
    {
      hide BoundedArena.Valid, ChainBumped, SameStaff, BoundedArena.AllocationError, WellFormed, Unlinked, Extended;
      arena.Unbumped();
      ghost var s := State();
      var size := if requested == 0 then 1 else requested;
      ghost var i: nat;
      p, i := TakeFirstFit(size);
      if p.Some? {
        assert FirstFit(s, size, i) && !NoneFits(s, size);
        return;
      }
      if size > U64_MAX - HEADER_SIZE {
        return None;
      }
      p := Extend(size, offer);
    }

    /** Takes the first large enough block off the free list. */
    method TakeFirstFit(size: nat) returns (p: Option<nat>, ghost i: nat)
      requires Valid() && Current() && size > 0
      modifies this`freeList, this`headers, this`chain
      ensures Valid()
      ensures p.None? ==> NoneFits(old(State()), size) && State() == old(State())
      ensures p.Some? ==> FirstFit(old(State()), size, i) && p == Some(old(chain)[i] + HEADER_SIZE)
                          && State() == Unlinked(old(State()), i, size)
      ensures p.None? ==> forall j :: 0 <= j < |chain| ==> HeaderAt(headers, chain[j]).capacity < size
      ensures p.Some? ==>
                && i < |old(chain)| && chain == old(chain)[..i] + old(chain)[i + 1..]
                && HeaderAt(old(headers), old(chain)[i]).capacity >= size
                && forall j :: 0 <= j < i ==> HeaderAt(old(headers), old(chain)[j]).capacity < size
    {
      hide BoundedArena.Valid, Unlinked, WellFormed, NoneFits, FirstFit, Before, HeaderAt;
      ghost var s := State();
      var previous, allocation;
      previous, allocation, i := Search(headers, freeList, size, s);
      if allocation.None? {
        NoneFitsMeans(s, size);
        return None, i;
      }
      var h := allocation.value;
      TakenIs(s, i, size);
      FirstFitMeans(s, size, i);
      var next := headers[h].next;
      if previous.None? {
        freeList := next;
      } else {
        headers := headers[previous.value := headers[previous.value].(next := next)];
      }
      headers := headers[h := headers[h].(used := size, next := None)];
      chain := Without(chain, i);
      return Some(h + HEADER_SIZE), i;
    }

    /** A new block from the arena. */
    method Extend(size: nat, offer: Result<nat>) returns (p: Option<nat>)
      requires Valid() && Current() && 0 < size <= U64_MAX - HEADER_SIZE
      modifies this, arena, arena.tree
      ensures ArenaShared()
      ensures Valid() && Current() && arena.generation == old(arena.generation)
      ensures p.None? <==> old(ArenaRefuses(size, offer))
      ensures p.None? ==> State() == old(State())
      ensures p.Some? ==>
                && p.value >= HEADER_SIZE && old(State()).top <= p.value - HEADER_SIZE
                && (p.value - HEADER_SIZE) % ALIGNMENT == 0
                && State() == Extended(old(State()), p.value - HEADER_SIZE, size)
      ensures old(arena.storage) != null ==> arena.storage == old(arena.storage)
      ensures old(arena.storage) == null && arena.storage != null ==> fresh(arena.storage)
    {
      hide WellFormed, BudgetTree.Valid, BoundedArena.GrowthError, BoundedArena.Charged, ChainBumped, SameStaff,
           Stacked, Stamped, Active, RoundUp, BitStrings.PowerOfTwo;
      ghost var s := State();
      var allocation := arena.TryAllocate(worker, HEADER_SIZE + size, ALIGNMENT, offer);
      if allocation.Err? {
        return None;
      }
      var view := allocation.value;
      // The view was issued just now, so its bytes are readable.
      var bytes := arena.Read(Some(view));
      if bytes.Err? {
        assert false;
      }
      ExtendedWellFormed(s, view.offset, size);
      headers := headers[view.offset := Header(size, size, None)];
      p := Some(view.offset + HEADER_SIZE);
    }

    method Free(p: Option<nat>)
      requires Valid() && (p.Some? ==> Live(p.value))
      modifies this
      ensures Valid()
      ensures p.None? ==> State() == old(State()) && generation == old(generation)
      ensures p.Some? ==> Current() && State() == Pushed(old(State()), p.value - HEADER_SIZE)
      ensures p.Some? ==>
                && chain == [p.value - HEADER_SIZE] + old(chain) && freeList == Some(p.value - HEADER_SIZE)
                && headers.Keys == old(headers).Keys
                && forall g :: g in headers && g != p.value - HEADER_SIZE ==> headers[g] == old(headers)[g]
    {
      hide BoundedArena.Valid, WellFormed, OthersLive;
      if p.None? {
        return;
      }
      Synchronize();
      ghost var s := State();
      assert s == old(State());
      var h := p.value - HEADER_SIZE;
      PushedWellFormed(s, h);
      var blocks := headers;
      headers := blocks[h := blocks[h].(next := freeList)];
      freeList := Some(h);
      chain := [h] + chain;
    }

    method Calloc(count: nat, size: nat, offer: Result<nat>) returns (p: Option<nat>)
      requires Valid() && count <= U64_MAX && size <= U64_MAX
      modifies this, arena, arena.tree, arena.storage
      ensures ArenaShared()
      ensures Valid()
      ensures count * size > U64_MAX ==> p.None? && State() == old(State()) && generation == old(generation)
      ensures 0 <= count * size <= U64_MAX ==>
                Current() && Allocated(old(Synced()), State(), SizeOf(count * size), p)
      ensures 0 <= count * size <= U64_MAX ==>
                (p.None? <==>
                   && NoneFits(old(Synced()), SizeOf(count * size))
                   && old(ArenaRefuses(SizeOf(count * size), offer)))
      ensures p.Some? ==> 0 <= count * size && Prefix(State(), Bytes(), p.value, count * size) == Zeros(count * size)
      ensures Kept(old(Synced()), old(Bytes()), State(), Bytes(), None)
    {
      hide BoundedArena.Valid, ChainBumped, SameStaff, BoundedArena.AllocationError, WellFormed, IsLive, Allocated,
           NoneFits, OthersLive;
      arena.Unbumped();
      ghost var s, bytes := Synced(), Bytes();
      ProductFits(count, size, U64_MAX);
      if count != 0 && size > U64_MAX / count {
        SyncedKept();
        return None;
      }
      SyncedWellFormed();
      p := Malloc(count * size, offer);
      if p.Some? {
        AllocatedKeeps(s, State(), SizeOf(count * size), p);
        ghost var between := Bytes();
        Clear(p.value, count * size);
        KeptThen(s, bytes, State(), between, State(), Bytes(), None, p);
      }
    }

    /** Zeroes the first `total` bytes of a live block. */
    method Clear(p: nat, total: nat)
      requires Valid() && Live(p) && total <= headers[p - HEADER_SIZE].used
      modifies arena.storage
      ensures Valid() && State() == old(State()) && Current()
      ensures Prefix(State(), Bytes(), p, total) == Zeros(total)
      ensures Kept(State(), old(Bytes()), State(), Bytes(), Some(p))
    {
      Stored(p);
      hide BoundedArena.Valid, WellFormed, IsLive, Overwritten, Kept;
      ghost var before := Bytes();
      Fill(arena.storage, p, total);
      OverwrittenKept(State(), before, p, Zeros(total));
      OverwrittenRead(before, p, Zeros(total));
    }

    method Realloc(p: Option<nat>, size: nat, offer: Result<nat>) returns (r: Option<nat>)
      requires Valid() && size <= U64_MAX && (p.Some? ==> Live(p.value))
      modifies this, arena, arena.tree, arena.storage
      ensures ArenaShared()
      ensures Valid()
      ensures Reallocated(old(Synced()), State(), p, size, r)
      ensures Moves(old(Synced()), p, size) ==>
                (r.None? <==> NoneFits(old(Synced()), SizeOf(size)) && old(ArenaRefuses(SizeOf(size), offer)))
      ensures r.Some? && p.Some? ==>
                && p.value >= HEADER_SIZE
                && Prefix(old(Synced()), old(Bytes()), p.value, size)
                   == Prefix(State(), Bytes(), r.value, HeaderAt(old(Synced()).headers, p.value - HEADER_SIZE).used)
      ensures Kept(old(Synced()), old(Bytes()), State(), Bytes(), p)
    {
      hide BoundedArena.Valid, ChainBumped, SameStaff, BoundedArena.AllocationError, WellFormed, IsLive, Allocated,
           NoneFits, OthersLive, Prefix, Kept, Pushed, Resized;
      arena.Unbumped();
      ghost var s, bytes := Synced(), Bytes();
      if p.None? {
        r := Malloc(size, offer);
        return;
      }
      var h := p.value - HEADER_SIZE;
      if size == 0 {
        PushedWellFormed(s, h);
        OthersLiveKept(s, Pushed(s, h), bytes, p.value);
        Free(p);
        return None;
      }
      Stored(p.value);
      if size <= headers[h].capacity {
        ResizedWellFormed(s, h, size);
        ResizedIs(s, h, size);
        ResizedKept(s, p.value, size, bytes);
        ResizedPrefix(s, p.value, size, bytes);
        headers := headers[h := headers[h].(used := size)];
        return p;
      }
      r := Move(p.value, size, offer);
    }

    /** Realloc beyond the capacity: a new block, the common prefix, and the old block freed. */
    method Move(p: nat, size: nat, offer: Result<nat>) returns (r: Option<nat>)
      requires Valid() && Live(p) && headers[p - HEADER_SIZE].capacity < size <= U64_MAX
      modifies this, arena, arena.tree, arena.storage
      ensures ArenaShared()
      ensures Valid()
      ensures Reallocated(old(State()), State(), Some(p), size, r)
      ensures r.None? <==> NoneFits(old(State()), size) && old(ArenaRefuses(size, offer))
      ensures r.Some? ==>
                Prefix(old(State()), old(Bytes()), p, size)
                == Prefix(State(), Bytes(), r.value, HeaderAt(old(State()).headers, p - HEADER_SIZE).used)
      ensures Kept(old(State()), old(Bytes()), State(), Bytes(), Some(p))
    {
      hide BoundedArena.Valid, ChainBumped, SameStaff, BoundedArena.AllocationError, WellFormed, IsLive, Allocated,
           NoneFits, OthersLive, Prefix, Kept, Pushed, Overwritten;
      hide Reallocated, Payload;
      ghost var s, bytes := State(), Bytes();
      Stored(p);
      r := Malloc(size, offer);
      ghost var mid := State();
      MovedLive(s, mid, p, size, r, bytes);
      if r.None? {
        NotMoved(s, p, size);
        return;
      }
      Stored(p);
      Stored(r.value);
      Apart(mid, p - HEADER_SIZE, r.value - HEADER_SIZE);
      var used := headers[p - HEADER_SIZE].used;
      var count := if used < size then used else size;
      MovedKept(s, mid, bytes, p, r.value, size, count);
      Copy(arena.storage, p, r.value, count);
      assert State() == mid && Bytes() == Overwritten(bytes, r.value, bytes[p..p + count]);
      Free(Some(p));
    }
  }
}
