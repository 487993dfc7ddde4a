/**
 The query slots of the DNS resolver. What the native library does during a call is a parameter
 of that call: the socket changes it reports, and the answer it gives if it fires the query's
 callback. A sink may call back into the resolver, so every call also carries the script of calls
 that the sink makes when it is invoked; a call invokes it at most once.
 */
module DnsResolver {
  import opened Words

  const QUERIES: nat := 64
  const ADDRESSES: nat := 32
  const SOCKETS: nat := 1024

  /** The most sockets that the library keeps for one channel. */
  const CHANNEL_SOCKETS: nat := 16

  datatype Address = Address(v6: bool, bytes: seq<byte>, ttl: nat)

  datatype Family = Inet | Inet6 | OtherFamily

  /** A node of the library's result; the length of its socket address is that of the bytes. */
  datatype Node = Node(sockaddr: Option<seq<byte>>, family: Family, ttl: int)

  /** The callback's arguments: success with a list of nodes, some of them unusable, or a failure. */
  datatype Answer = Nodes(nodes: seq<Node>) | Cancelled | Failure

  datatype Change = Change(descriptor: int, readable: bool, writable: bool)

  /** What the native library does during one call on a query's channel. */
  datatype Native = Native(changes: seq<Change>, answer: Option<Answer>)

  type Completion = Result<seq<Address>>

  datatype Slot = Slot(
    active: bool, nativeDone: bool, canceling: bool, socketFailed: bool, token: nat, completed: Completion)

  datatype Socket = Socket(descriptor: int, query: nat, readable: bool, writable: bool)

  datatype Event = Issued(token: nat) | Delivered(token: nat, result: Completion)

  // ---- What a query completes with ----

  /** The address of a node, if it has one that can be used. */
  function Copied(node: Node): Option<Address> {
    match node.sockaddr
    case None => None
    case Some(bytes) =>
      if node.ttl < 0 then None
      else if node.family == Inet && |bytes| >= 16 then Some(Address(false, bytes[4..8], node.ttl))
      else if node.family == Inet6 && |bytes| >= 28 then Some(Address(true, bytes[8..24], node.ttl))
      else None
  }

  method CopyAddress(node: Node) returns (r: Option<Address>)
    ensures r == Copied(node)
    ensures r.Some? <==>
              && node.sockaddr.Some? && node.ttl >= 0
              && (|| (node.family.Inet? && |node.sockaddr.value| >= 16)
                  || (node.family.Inet6? && |node.sockaddr.value| >= 28))
    ensures r.Some? && node.family.Inet? ==> !r.value.v6 && r.value.bytes == node.sockaddr.value[4..8]
    ensures r.Some? && node.family.Inet6? ==> r.value.v6 && r.value.bytes == node.sockaddr.value[8..24]
    ensures r.Some? ==> r.value.ttl == node.ttl
  {
    if node.sockaddr.None? || node.ttl < 0 {
      return None;
    }
    var bytes := node.sockaddr.value;
    if node.family.Inet? && |bytes| >= 16 {
      return Some(Address(false, bytes[4..8], node.ttl));
    } else if node.family.Inet6? && |bytes| >= 28 {
      return Some(Address(true, bytes[8..24], node.ttl));
    } else {
      return None;
    }
  }

  function Usable(nodes: seq<Node>): seq<Address> {
    if nodes == [] then []
    else
      var last := Copied(nodes[|nodes| - 1]);
      Usable(nodes[..|nodes| - 1]) + if last.Some? then [last.value] else []
  }

  /** All usable addresses if there are some and they fit; otherwise an error. */
  function Outcome(answer: Answer, maximum: nat): Completion {
    match answer
    case Nodes(nodes) =>
      if |Usable(nodes)| > maximum then Err(Exhaustion)
      else if Usable(nodes) == [] then Err(Dependency)
      else Ok(Usable(nodes))
    case _ => Err(Dependency)
  }

  lemma UsableStep(nodes: seq<Node>, i: nat)
    requires i < |nodes|
    ensures Usable(nodes[..i + 1])
            == Usable(nodes[..i]) + if Copied(nodes[i]).Some? then [Copied(nodes[i]).value] else []
  {
    assert nodes[..i + 1][..i] == nodes[..i];
  }

  lemma {:induction false} UsableGrows(nodes: seq<Node>, i: nat)
    requires i <= |nodes|
    ensures |Usable(nodes[..i])| <= |Usable(nodes)|
    decreases |nodes| - i
  {
    hide Usable;
    if i < |nodes| {
      UsableStep(nodes, i);
      UsableGrows(nodes, i + 1);
    } else {
      assert nodes[..i] == nodes;
    }
  }

  // ---- Which addresses these are ----

  /** The indices of the nodes with an address. */
  ghost function With(nodes: seq<Node>): set<nat> {
    set i: nat | i < |nodes| && Copied(nodes[i]).Some?
  }

  /** The addresses are those of all nodes that have one, each once, in the order of the nodes. */
  ghost predicate InOrder(nodes: seq<Node>, addresses: seq<Address>, indices: seq<nat>) {
    && |indices| == |addresses|
    && (forall k :: 0 <= k < |indices| ==> indices[k] < |nodes| && Copied(nodes[indices[k]]) == Some(addresses[k]))
    && (forall j, k :: 0 <= j < k < |indices| ==> indices[j] < indices[k])
    && (forall i: nat :: i < |nodes| && Copied(nodes[i]).Some? ==> i in indices)
  }

  lemma {:induction false} UsableMeans(nodes: seq<Node>) returns (indices: seq<nat>)
    ensures |Usable(nodes)| == |With(nodes)| && InOrder(nodes, Usable(nodes), indices)
  {
    hide Copied, With, InOrder;
    if nodes == [] {
      indices := [];
      NoNodes();
      assert nodes == [] && Usable(nodes) == [];
    } else {
      var n := |nodes| - 1;
      var last := Copied(nodes[n]);
      indices := UsableMeans(nodes[..n]);
      WithLast(nodes);
      InOrderLast(nodes, Usable(nodes[..n]), indices);
      assert last.None? ==> Usable(nodes) == Usable(nodes[..n]);
      indices := if last.Some? then indices + [n] else indices;
    }
  }

  lemma NoNodes()
    ensures With([]) == {} && InOrder([], [], [])
  {
  }

  lemma WithLast(nodes: seq<Node>)
    requires nodes != []
    ensures var n := |nodes| - 1;
            |With(nodes)| == |With(nodes[..n])| + if Copied(nodes[n]).Some? then 1 else 0
  {
    hide Copied;
    var n := |nodes| - 1;
    assert With(nodes) == With(nodes[..n]) + if Copied(nodes[n]).Some? then {n} else {};
  }

  lemma InOrderLast(nodes: seq<Node>, addresses: seq<Address>, indices: seq<nat>)
    requires nodes != [] && InOrder(nodes[..|nodes| - 1], addresses, indices)
    ensures var n := |nodes| - 1;
            var last := Copied(nodes[n]);
            if last.Some? then InOrder(nodes, addresses + [last.value], indices + [n])
            else InOrder(nodes, addresses, indices)
  {
    hide Copied;
    var n := |nodes| - 1;
    var init, last, more := nodes[..n], Copied(nodes[n]), if Copied(nodes[n]).Some? then indices + [n] else indices;
    forall i: nat | i < |nodes| && Copied(nodes[i]).Some?
      ensures i in more
    {
      if i < n {
        assert init[i] == nodes[i] && i in indices;
        var k :| 0 <= k < |indices| && indices[k] == i;
        assert more[k] == i;
      } else {
        assert more[|indices|] == n;
      }
    }
    forall k | 0 <= k < |indices|
      ensures nodes[indices[k]] == init[indices[k]]
    {
    }
  }

  /** The callback's loop over the native nodes. */
  method Complete(answer: Answer, maximum: nat) returns (r: Completion)
    requires maximum > 0
    ensures r == Outcome(answer, maximum)
    ensures r.Ok? <==> answer.Nodes? && 1 <= |With(answer.nodes)| <= maximum
    ensures r == Err(Exhaustion) <==> answer.Nodes? && |With(answer.nodes)| > maximum
    ensures r.Err? ==> r.error in {Exhaustion, Dependency}
    ensures r.Ok? ==> |r.value| == |With(answer.nodes)| && exists indices :: InOrder(answer.nodes, r.value, indices)
  {
    hide Usable, Copied, With, InOrder;
    if !answer.Nodes? {
      return Err(Dependency);
    }
    var nodes := answer.nodes;
    ghost var indices := UsableMeans(nodes);
    var addresses: seq<Address> := [];
    var i := 0;
    NoneUsable(nodes);
    while i < |nodes|
      invariant i <= |nodes| && addresses == Usable(nodes[..i]) && |addresses| <= maximum
    {
      UsableStep(nodes, i);
      var address := CopyAddress(nodes[i]);
      if address.Some? {
        if |addresses| == maximum {
          UsableGrows(nodes, i + 1);
          return Err(Exhaustion);
        }
        addresses := addresses + [address.value];
      }
      i := i + 1;
    }
    assert nodes[..i] == nodes;
    r := if addresses == [] then Err(Dependency) else Ok(addresses);
  }

  lemma NoneUsable(nodes: seq<Node>)
    ensures Usable(nodes[..0]) == []
  {
  }

  // ---- Slots ----

  function Active(slots: seq<Slot>): nat {
    if slots == [] then 0
    else Active(slots[..|slots| - 1]) + if slots[|slots| - 1].active then 1 else 0
  }

  ghost function Tokens(slots: seq<Slot>): set<nat> {
    set i | 0 <= i < |slots| && slots[i].active :: slots[i].token
  }

  lemma {:induction false} ActiveUpdate(slots: seq<Slot>, q: nat, s: Slot)
    requires q < |slots|
    ensures Active(slots[q := s]) == Active(slots) + (if s.active then 1 else 0) - (if slots[q].active then 1 else 0)
  {
    var n := |slots| - 1;
    if q < n {
      ActiveUpdate(slots[..n], q, s);
      assert slots[q := s][..n] == slots[..n][q := s];
    } else {
      assert slots[q := s][..n] == slots[..n];
    }
  }

  /** If every slot is active, they are all counted. */
  lemma {:induction false} AllActive(slots: seq<Slot>)
    requires forall i :: 0 <= i < |slots| ==> slots[i].active
    ensures Active(slots) == |slots|
  {
    if slots != [] {
      AllActive(slots[..|slots| - 1]);
    }
  }

  // ---- The books ----

  function Issues(log: seq<Event>, t: nat): nat {
    if log == [] then 0
    else Issues(log[..|log| - 1], t) + if log[|log| - 1] == Issued(t) then 1 else 0
  }

  function Deliveries(log: seq<Event>, t: nat): nat {
    if log == [] then 0
    else
      var last := log[|log| - 1];
      Deliveries(log[..|log| - 1], t) + if last.Delivered? && last.token == t then 1 else 0
  }

  lemma Logged(log: seq<Event>, e: Event, t: nat)
    ensures Issues(log + [e], t) == Issues(log, t) + if e == Issued(t) then 1 else 0
    ensures Deliveries(log + [e], t) == Deliveries(log, t) + if e.Delivered? && e.token == t then 1 else 0
  {
    assert (log + [e])[..|log|] == log;
  }

  /** Every token is issued at most once, and was delivered once unless its query is still pending. */
  ghost predicate Balanced(log: seq<Event>, pending: set<nat>) {
    forall t: nat {:trigger Issues(log, t)} {:trigger Deliveries(log, t)} ::
      Deliveries(log, t) + (if t in pending then 1 else 0) == Issues(log, t) <= 1
  }

  /** Tokens count up from one; zero means that they have run out. */
  ghost predicate Numbered(log: seq<Event>, nextToken: nat) {
    && nextToken <= U64_MAX
    && forall t: nat {:trigger Issues(log, t)} :: Issues(log, t) > 0 ==>
          1 <= t <= U64_MAX && (nextToken != 0 ==> t < nextToken)
  }

  lemma IssueBalances(log: seq<Event>, pending: set<nat>, token: nat)
    requires Balanced(log, pending) && Numbered(log, token) && token != 0
    ensures token !in pending && Balanced(log + [Issued(token)], pending + {token})
    ensures Numbered(log + [Issued(token)], if token == U64_MAX then 0 else token + 1)
  {
    var after := log + [Issued(token)];
    assert Issues(log, token) == 0;
    forall t: nat
      ensures Deliveries(after, t) + (if t in pending + {token} then 1 else 0) == Issues(after, t) <= 1
      ensures Issues(after, t) > 0 ==> 1 <= t <= U64_MAX && t <= token
    {
      Logged(log, Issued(token), t);
      assert Deliveries(log, t) + (if t in pending then 1 else 0) == Issues(log, t);
    }
  }

  lemma DeliveryBalances(log: seq<Event>, pending: set<nat>, token: nat, result: Completion, nextToken: nat)
    requires Balanced(log, pending) && token in pending && Numbered(log, nextToken)
    ensures Balanced(log + [Delivered(token, result)], pending - {token})
    ensures Numbered(log + [Delivered(token, result)], nextToken)
  {
    var after := log + [Delivered(token, result)];
    forall t: nat
      ensures Deliveries(after, t) + (if t in pending - {token} then 1 else 0) == Issues(after, t) <= 1
      ensures Issues(after, t) == Issues(log, t)
    {
      Logged(log, Delivered(token, result), t);
      assert Deliveries(log, t) + (if t in pending then 1 else 0) == Issues(log, t);
    }
  }

  /** The same queries in the same slots, whatever their flags. */
  ghost predicate SameQueries(before: seq<Slot>, after: seq<Slot>) {
    && |after| == |before|
    && forall i :: 0 <= i < |before| ==> after[i].active == before[i].active && after[i].token == before[i].token
  }

  // ---- Between and within calls ----

  /** Nothing is half done in this slot. */
  predicate Quiet(s: Slot) {
    !s.nativeDone && !s.canceling
  }

  /** The slots agree with the pending tokens and the counter; only slot `open` may be in the middle of something. */
  ghost predicate Core(slots: seq<Slot>, outstanding: nat, pending: set<nat>, open: Option<nat>) {
    && |slots| == QUERIES
    && (open.Some? ==> open.value < |slots| && slots[open.value].active)
    && outstanding == Active(slots) - (if open.Some? && slots[open.value].nativeDone then 1 else 0)
    && pending == Tokens(slots)
    && (forall i, j :: 0 <= i < j < |slots| && slots[i].active && slots[j].active ==> slots[i].token != slots[j].token)
    && (forall i :: 0 <= i < |slots| && slots[i].active && Some(i) != open ==> Quiet(slots[i]))
  }

  /** A free slot becomes the open one. */
  lemma OpenSlot(slots: seq<Slot>, outstanding: nat, pending: set<nat>, q: nat, s: Slot)
    requires Core(slots, outstanding, pending, None) && q < |slots| && !slots[q].active
    requires s.active && !s.nativeDone && s.token !in pending
    ensures Core(slots[q := s], outstanding + 1, pending + {s.token}, Some(q))
  {
    var after := slots[q := s];
    ActiveUpdate(slots, q, s);
    forall i | 0 <= i < |slots| && slots[i].active
      ensures slots[i].token in pending
    {
    }
    assert Tokens(after) == pending + {s.token} by {
      assert after[q].token == s.token;
      forall i | 0 <= i < |slots| && slots[i].active
        ensures slots[i].token in Tokens(after)
      {
        assert after[i] == slots[i];
      }
    }
  }

  /** Flags of the open slot change; the counter follows `nativeDone`. */
  lemma ChangeSlot(slots: seq<Slot>, outstanding: nat, pending: set<nat>, q: nat, s: Slot)
    requires Core(slots, outstanding, pending, Some(q)) && s.active && s.token == slots[q].token
    ensures Active(slots) > 0
    ensures Core(slots[q := s], Active(slots) - (if s.nativeDone then 1 else 0), pending, Some(q))
  {
    var after := slots[q := s];
    ActiveUpdate(slots, q, s);
    ActiveUpdate(slots, q, s.(active := false));
    assert Tokens(after) == Tokens(slots) by {
      forall i | 0 <= i < |slots|
        ensures after[i].active == slots[i].active && after[i].token == slots[i].token
      {
      }
    }
  }

  /** The open slot is retired. */
  lemma CloseSlot(slots: seq<Slot>, outstanding: nat, pending: set<nat>, q: nat, s: Slot)
    requires Core(slots, outstanding, pending, Some(q)) && slots[q].nativeDone && !s.active
    ensures slots[q].token in pending
    ensures Core(slots[q := s], outstanding, pending - {slots[q].token}, None)
  {
    var after := slots[q := s];
    ActiveUpdate(slots, q, s);
    assert Tokens(after) == pending - {slots[q].token} by {
      forall i | 0 <= i < |slots| && slots[i].active && i != q
        ensures slots[i].token in Tokens(after) && slots[i].token != slots[q].token
      {
        assert after[i] == slots[i];
      }
    }
  }

  /** A slot in which nothing is half done can be opened and closed at will. */
  lemma QuietSlot(slots: seq<Slot>, outstanding: nat, pending: set<nat>, q: nat)
    requires q < |slots| && slots[q].active
    ensures Core(slots, outstanding, pending, None) ==> Quiet(slots[q]) && Core(slots, outstanding, pending, Some(q))
    ensures Core(slots, outstanding, pending, Some(q)) && Quiet(slots[q]) ==> Core(slots, outstanding, pending, None)
  {
  }

  lemma InRange(slots: seq<Slot>, outstanding: nat, pending: set<nat>, q: nat)
    requires Core(slots, outstanding, pending, Some(q))
    ensures q < |slots| && slots[q].active && slots[q].token in pending
    ensures outstanding == Active(slots) - if slots[q].nativeDone then 1 else 0
  {
  }

  lemma NoneActive(slots: seq<Slot>)
    requires |slots| == QUERIES && forall i :: 0 <= i < |slots| ==> !slots[i].active
    ensures Core(slots, 0, {}, None)
  {
    CountNone(slots);
  }

  lemma {:induction false} CountNone(slots: seq<Slot>)
    requires forall i :: 0 <= i < |slots| ==> !slots[i].active
    ensures Active(slots) == 0
  {
    if slots != [] {
      CountNone(slots[..|slots| - 1]);
    }
  }

  lemma SlotCount(slots: seq<Slot>, outstanding: nat, pending: set<nat>)
    requires Core(slots, outstanding, pending, None)
    ensures |slots| == QUERIES
  {
  }

  /** A pending token sits in a slot where nothing is half done. */
  lemma Inhabited(slots: seq<Slot>, outstanding: nat, pending: set<nat>, token: nat)
    requires Core(slots, outstanding, pending, None)
    ensures token in pending
            <==> exists i :: 0 <= i < |slots| && slots[i].active && !slots[i].nativeDone && slots[i].token == token
  {
    if token in pending {
      var i :| 0 <= i < |slots| && slots[i].active && slots[i].token == token;
      assert Quiet(slots[i]);
    }
  }

  /** The first slot that is not active. */
  ghost function Free(slots: seq<Slot>): (q: nat)
    ensures q <= |slots| && (q < |slots| ==> !slots[q].active)
    ensures forall i :: 0 <= i < q ==> slots[i].active
  {
    if slots == [] then 0
    else
      var n := |slots| - 1;
      var before := Free(slots[..n]);
      if before < n || !slots[n].active then before else n + 1
  }

  method FirstFree(slots: seq<Slot>) returns (q: nat)
    ensures q == Free(slots)
  {
    q := 0;
    while q < |slots| && slots[q].active
      invariant q <= |slots| && forall i :: 0 <= i < q ==> slots[i].active
    {
      q := q + 1;
    }
  }

  /** Below the limit there is always a free slot. */
  lemma FreeSlot(slots: seq<Slot>, outstanding: nat, pending: set<nat>)
    requires Core(slots, outstanding, pending, None) && outstanding < QUERIES
    ensures exists i :: 0 <= i < |slots| && !slots[i].active
  {
    if forall i :: 0 <= i < |slots| ==> slots[i].active {
      AllActive(slots);
      assert false;
    }
  }

  lemma FreeAgain(slots: seq<Slot>, outstanding: nat, pending: set<nat>, q: nat, s: Slot)
    requires Core(slots, outstanding, pending, None) && q < |slots| && !slots[q].active && !s.active
    ensures Core(slots[q := s], outstanding, pending, None)
  {
    var after := slots[q := s];
    ActiveUpdate(slots, q, s);
    assert Tokens(after) == Tokens(slots) by {
      forall i | 0 <= i < |slots|
        ensures after[i].active == slots[i].active && (slots[i].active ==> after[i].token == slots[i].token)
      {
      }
    }
  }

  lemma Advanced(log: seq<Event>, token: nat)
    requires Numbered(log, token) && token != 0
    ensures Numbered(log, if token == U64_MAX then 0 else token + 1)
  {
  }

  lemma Prefixes(before: seq<Event>, started: seq<Event>, after: seq<Event>, token: nat, answered: Completion,
                 done: bool)
    requires started == before + [Issued(token)] && started <= after
    requires done ==> started + [Delivered(token, answered)] <= after
    ensures before <= after && before + [Issued(token)] <= after
    ensures done ==> before + [Issued(token), Delivered(token, answered)] <= after
  {
    assert started + [Delivered(token, answered)] == before + [Issued(token), Delivered(token, answered)];
  }

  // ---- Sockets ----

  /** One entry per descriptor, and every entry belongs to an active query. */
  ghost predicate Registered(sockets: seq<Socket>, slots: seq<Slot>) {
    && |sockets| <= SOCKETS
    && (forall i, j :: 0 <= i < j < |sockets| ==> sockets[i].descriptor != sockets[j].descriptor)
    && (forall i :: 0 <= i < |sockets| ==> sockets[i].query < |slots| && slots[sockets[i].query].active)
  }

  ghost function Entries(sockets: seq<Socket>): set<Socket> {
    set i | 0 <= i < |sockets| :: sockets[i]
  }

  lemma StillRegistered(sockets: seq<Socket>, slots: seq<Slot>, q: nat, s: Slot)
    requires Registered(sockets, slots) && q < |slots| && s.active
    ensures Registered(sockets, slots[q := s])
  {
  }

  lemma ClosedRegistered(sockets: seq<Socket>, slots: seq<Slot>, q: nat, s: Slot)
    requires Registered(sockets, slots) && q < |slots| && forall e :: e in Entries(sockets) ==> e.query != q
    ensures Registered(sockets, slots[q := s])
  {
    forall i | 0 <= i < |sockets|
      ensures sockets[i].query != q
    {
      assert sockets[i] in Entries(sockets);
    }
  }

  lemma FreeRegistered(sockets: seq<Socket>, slots: seq<Slot>, q: nat, s: Slot)
    requires Registered(sockets, slots) && q < |slots| && !slots[q].active
    ensures Registered(sockets, slots[q := s])
  {
  }

  /** Why an event cannot be attributed to a query. */
  ghost function EventError(sockets: seq<Socket>, e: Change): Option<ErrorCode> {
    if e.descriptor < 0 || (!e.readable && !e.writable) then Some(InvalidInput)
    else if Find(sockets, e.descriptor).None? then Some(InvalidState)
    else None
  }

  /** The first reason why a list of events is refused. */
  ghost function EventsError(sockets: seq<Socket>, events: seq<Change>): Option<ErrorCode> {
    if events == [] then None
    else
      var before := EventsError(sockets, events[..|events| - 1]);
      if before.Some? then before else EventError(sockets, events[|events| - 1])
  }

  lemma NoEvents(sockets: seq<Socket>, events: seq<Change>)
    ensures EventsError(sockets, events[..0]) == None
  {
  }

  lemma EventsStep(sockets: seq<Socket>, events: seq<Change>, k: nat)
    requires k < |events|
    ensures EventsError(sockets, events[..k + 1])
            == var before := EventsError(sockets, events[..k]);
               if before.Some? then before else EventError(sockets, events[k])
  {
    assert events[..k + 1][..k] == events[..k];
  }

  lemma {:induction false} EventsFail(sockets: seq<Socket>, events: seq<Change>, k: nat)
    requires k <= |events| && EventsError(sockets, events[..k]).Some?
    ensures EventsError(sockets, events) == EventsError(sockets, events[..k])
    decreases |events| - k
  {
    if k < |events| {
      EventsStep(sockets, events, k);
      EventsFail(sockets, events, k + 1);
    } else {
      assert events[..k] == events;
    }
  }

  /** An event of a socket in the table, with a direction. */
  ghost predicate Attributable(sockets: seq<Socket>, e: Change) {
    && e.descriptor >= 0 && (e.readable || e.writable)
    && exists i :: 0 <= i < |sockets| && sockets[i].descriptor == e.descriptor
  }

  /** Events are accepted when all can be attributed; otherwise the first that cannot decides the error. */
  lemma {:induction false} EventsMeans(sockets: seq<Socket>, events: seq<Change>)
    ensures var r := EventsError(sockets, events);
            && (r.None? <==> forall i :: 0 <= i < |events| ==> Attributable(sockets, events[i]))
            && (r.Some? ==> exists k: nat :: FirstRefused(sockets, events, k, r.value))
  {
    if events != [] {
      var n := |events| - 1;
      EventsMeans(sockets, events[..n]);
      hide EventsError;
      EventsStep(sockets, events, n);
      assert events[..n + 1] == events;
      if EventsError(sockets, events[..n]).Some? {
        var k: nat :| FirstRefused(sockets, events[..n], k, EventsError(sockets, events[..n]).value);
        assert FirstRefused(sockets, events, k, EventsError(sockets, events).value);
        assert !Attributable(sockets, events[k]);
      } else {
        assert forall i :: 0 <= i < n ==> events[..n][i] == events[i];
        if EventError(sockets, events[n]).Some? {
          assert FirstRefused(sockets, events, n, EventsError(sockets, events).value);
        }
      }
    }
  }

  ghost predicate FirstRefused(sockets: seq<Socket>, events: seq<Change>, k: nat, error: ErrorCode) {
    && k < |events| && (forall i :: 0 <= i < k ==> Attributable(sockets, events[i]))
    && !Attributable(sockets, events[k])
    && error == if events[k].descriptor < 0 || !(events[k].readable || events[k].writable) then InvalidInput
                else InvalidState
  }

  function Find(sockets: seq<Socket>, descriptor: int): (r: Option<nat>)
    ensures r.Some? ==> r.value < |sockets| && sockets[r.value].descriptor == descriptor
    ensures r.None? ==> forall i :: 0 <= i < |sockets| ==> sockets[i].descriptor != descriptor
  {
    if sockets == [] then None
    else if sockets[|sockets| - 1].descriptor == descriptor && Find(sockets[..|sockets| - 1], descriptor).None?
    then Some(|sockets| - 1)
    else Find(sockets[..|sockets| - 1], descriptor)
  }

  lemma FindStep(sockets: seq<Socket>, descriptor: int, i: nat)
    requires i < |sockets| && Find(sockets[..i], descriptor).None?
    ensures if sockets[i].descriptor == descriptor then Find(sockets, descriptor) == Some(i)
            else Find(sockets[..i + 1], descriptor).None?
  {
    assert sockets[..i + 1][..i] == sockets[..i];
    if sockets[i].descriptor == descriptor {
      FirstMatch(sockets, descriptor, i);
    }
  }

  lemma {:induction false} FirstMatch(sockets: seq<Socket>, descriptor: int, i: nat)
    requires i < |sockets| && sockets[i].descriptor == descriptor && Find(sockets[..i], descriptor).None?
    ensures Find(sockets, descriptor) == Some(i)
  {
    var n := |sockets| - 1;
    if i < n {
      assert sockets[..n][..i] == sockets[..i];
      FirstMatch(sockets[..n], descriptor, i);
    }
  }

  /** The scan for a descriptor. */
  method Search(sockets: seq<Socket>, descriptor: int) returns (r: Option<nat>)
    ensures r == Find(sockets, descriptor)
  {
    var index := 0;
    while index < |sockets|
      invariant index <= |sockets| && Find(sockets[..index], descriptor).None?
    {
      FindStep(sockets, descriptor, index);
      if sockets[index].descriptor == descriptor {
        return Some(index);
      }
      index := index + 1;
    }
    assert sockets[..index] == sockets;
    r := None;
  }

  /** Removing an entry by moving the last one into its place. */
  function Removed(sockets: seq<Socket>, i: nat): seq<Socket>
    requires i < |sockets|
  {
    sockets[i := sockets[|sockets| - 1]][..|sockets| - 1]
  }

  lemma RemovedEntries(sockets: seq<Socket>, slots: seq<Slot>, i: nat)
    requires Registered(sockets, slots) && i < |sockets|
    ensures Registered(Removed(sockets, i), slots) && |Removed(sockets, i)| == |sockets| - 1
    ensures forall j :: 0 <= j < i ==> Removed(sockets, i)[j] == sockets[j]
    ensures Entries(Removed(sockets, i)) == Entries(sockets) - {sockets[i]}
  {
    var after, n := Removed(sockets, i), |sockets| - 1;
    forall j | 0 <= j <= n && j != i
      ensures sockets[j] in Entries(after) && sockets[j] != sockets[i]
    {
      assert sockets[j] == after[if j == n then i else j];
    }
  }

  lemma UpdatedEntries(sockets: seq<Socket>, slots: seq<Slot>, i: nat, e: Socket)
    requires Registered(sockets, slots) && i < |sockets|
    requires e.descriptor == sockets[i].descriptor && e.query == sockets[i].query
    ensures Registered(sockets[i := e], slots)
    ensures Entries(sockets[i := e]) == Entries(sockets) - {sockets[i]} + {e}
  {
    var after := sockets[i := e];
    assert after[i] == e;
    forall j | 0 <= j < |sockets| && j != i
      ensures sockets[j] in Entries(after) && sockets[j] != sockets[i]
    {
      assert after[j] == sockets[j];
    }
  }

  lemma AddedEntries(sockets: seq<Socket>, slots: seq<Slot>, e: Socket)
    requires Registered(sockets, slots) && |sockets| < SOCKETS && e.query < |slots| && slots[e.query].active
    requires forall i :: 0 <= i < |sockets| ==> sockets[i].descriptor != e.descriptor
    ensures Registered(sockets + [e], slots) && Entries(sockets + [e]) == Entries(sockets) + {e}
  {
    var after := sockets + [e];
    assert after[|sockets|] == e;
    forall j | 0 <= j < |sockets|
      ensures sockets[j] in Entries(after)
    {
      assert after[j] == sockets[j];
    }
  }

  /** The report would add an entry to a full table. */
  predicate Full(table: seq<Socket>, c: Change) {
    (c.readable || c.writable) && Find(table, c.descriptor).None? && |table| == SOCKETS
  }

  /** The table after one report on behalf of query `q`. */
  function Reported(table: seq<Socket>, q: nat, c: Change): seq<Socket> {
    match Find(table, c.descriptor)
    case Some(i) =>
      if !c.readable && !c.writable then Removed(table, i)
      else table[i := table[i].(readable := c.readable, writable := c.writable)]
    case None =>
      if (!c.readable && !c.writable) || |table| == SOCKETS then table
      else table + [Socket(c.descriptor, q, c.readable, c.writable)]
  }

  /** A report removes, changes or adds the entry of its descriptor and touches no other. */
  lemma ReportedEntries(table: seq<Socket>, slots: seq<Slot>, q: nat, c: Change)
    requires Registered(table, slots) && q < |slots| && slots[q].active
    ensures Registered(Reported(table, q, c), slots)
    ensures var found, after := Find(table, c.descriptor), Entries(Reported(table, q, c));
            if found.Some? then
              var entry := table[found.value];
              after == Entries(table) - {entry} + if !c.readable && !c.writable then {}
                                                  else {entry.(readable := c.readable, writable := c.writable)}
            else if (!c.readable && !c.writable) || Full(table, c) then after == Entries(table)
            else after == Entries(table) + {Socket(c.descriptor, q, c.readable, c.writable)}
  {
    var found := Find(table, c.descriptor);
    if found.Some? {
      if !c.readable && !c.writable {
        RemovedEntries(table, slots, found.value);
      } else {
        UpdatedEntries(table, slots, found.value,
                       table[found.value].(readable := c.readable, writable := c.writable));
      }
    } else if (c.readable || c.writable) && |table| < SOCKETS {
      AddedEntries(table, slots, Socket(c.descriptor, q, c.readable, c.writable));
    }
  }

  /** The table after a list of reports. */
  function AfterChanges(table: seq<Socket>, q: nat, changes: seq<Change>): seq<Socket> {
    if changes == [] then table
    else Reported(AfterChanges(table, q, changes[..|changes| - 1]), q, changes[|changes| - 1])
  }

  /** Some report of the list finds the table full. */
  predicate Overflows(table: seq<Socket>, q: nat, changes: seq<Change>) {
    && changes != []
    && (|| Overflows(table, q, changes[..|changes| - 1])
        || Full(AfterChanges(table, q, changes[..|changes| - 1]), changes[|changes| - 1]))
  }

  lemma NoChanges(table: seq<Socket>, q: nat, changes: seq<Change>)
    ensures AfterChanges(table, q, changes[..0]) == table && !Overflows(table, q, changes[..0])
  {
  }

  lemma ChangeStep(table: seq<Socket>, q: nat, changes: seq<Change>, i: nat)
    requires i < |changes|
    ensures AfterChanges(table, q, changes[..i + 1]) == Reported(AfterChanges(table, q, changes[..i]), q, changes[i])
    ensures Overflows(table, q, changes[..i + 1])
            <==> Overflows(table, q, changes[..i]) || Full(AfterChanges(table, q, changes[..i]), changes[i])
  {
    assert changes[..i + 1][..i] == changes[..i];
  }

  /** How many entries a query owns. */
  ghost function Owned(table: seq<Socket>, q: nat): nat {
    if table == [] then 0
    else Owned(table[..|table| - 1], q) + if table[|table| - 1].query == q then 1 else 0
  }

  ghost function OwnedBelow(table: seq<Socket>, n: nat): nat {
    if n == 0 then 0 else OwnedBelow(table, n - 1) + Owned(table, n - 1)
  }

  lemma {:induction false} OneOwner(table: seq<Socket>, n: nat)
    requires table != []
    ensures OwnedBelow(table, n)
            == OwnedBelow(table[..|table| - 1], n) + if table[|table| - 1].query < n then 1 else 0
  {
    if n > 0 {
      OneOwner(table, n - 1);
    }
  }

  lemma {:induction false} AllOwned(table: seq<Socket>, n: nat)
    requires forall i :: 0 <= i < |table| ==> table[i].query < n
    ensures |table| == OwnedBelow(table, n)
  {
    if table == [] {
      NothingOwned(n);
    } else {
      OneOwner(table, n);
      AllOwned(table[..|table| - 1], n);
    }
  }

  lemma {:induction false} NothingOwned(n: nat)
    ensures OwnedBelow([], n) == 0
  {
    if n > 0 {
      NothingOwned(n - 1);
    }
  }

  lemma {:induction false} OwnedBound(table: seq<Socket>, q: nat, n: nat)
    requires n <= QUERIES && forall i: nat :: i < QUERIES ==> Owned(table, i) <= CHANNEL_SOCKETS
    requires Owned(table, q) < CHANNEL_SOCKETS
    ensures OwnedBelow(table, n) <= CHANNEL_SOCKETS * n - if q < n then 1 else 0
  {
    if n > 0 {
      OwnedBound(table, q, n - 1);
    }
  }

  /** As long as no channel exceeds its own limit, a channel below it finds room in the table. */
  lemma NeverFull(table: seq<Socket>, slots: seq<Slot>, q: nat, c: Change)
    requires Registered(table, slots) && |slots| == QUERIES && q < QUERIES
    requires forall i: nat :: i < QUERIES ==> Owned(table, i) <= CHANNEL_SOCKETS
    requires Owned(table, q) < CHANNEL_SOCKETS
    ensures !Full(table, c)
  {
    AllOwned(table, QUERIES);
    OwnedBound(table, q, QUERIES);
  }

  // ---- Working through several queries ----

  /** The queries behind a list of events. */
  ghost function Behind(sockets: seq<Socket>, events: seq<Change>): seq<nat> {
    seq(|events|, i requires 0 <= i < |events| =>
      var found := Find(sockets, events[i].descriptor); if found.Some? then sockets[found.value].query else 0)
  }

  /** The active slots among the first n, in order. */
  function ActiveSlots(slots: seq<Slot>, n: nat): seq<nat>
    requires n <= |slots|
  {
    if n == 0 then [] else ActiveSlots(slots, n - 1) + if slots[n - 1].active then [n - 1] else []
  }

  /** Every active slot once, and the lower ones first. */
  lemma {:induction false} ActiveSlotsMeans(slots: seq<Slot>, n: nat)
    requires n <= |slots|
    ensures forall i: nat :: i in ActiveSlots(slots, n) <==> i < n && slots[i].active
    ensures var r := ActiveSlots(slots, n); forall j, k :: 0 <= j < k < |r| ==> r[j] < r[k]
  {
    if n > 0 {
      var before, last := ActiveSlots(slots, n - 1), if slots[n - 1].active then [n - 1] else [];
      ActiveSlotsMeans(slots, n - 1);
      hide ActiveSlots;
      ActiveStep(slots, n);
      forall j | 0 <= j < |before|
        ensures before[j] < n - 1
      {
        assert before[j] in before;
      }
    }
  }

  lemma ActiveStep(slots: seq<Slot>, n: nat)
    requires 0 < n <= |slots|
    ensures ActiveSlots(slots, n) == ActiveSlots(slots, n - 1) + if slots[n - 1].active then [n - 1] else []
  {
  }

  /** The table when the k-th query has its turn, no query before it having completed. */
  ghost function TableAt(table: seq<Socket>, queries: seq<nat>, natives: nat -> Native, k: nat): seq<Socket>
    requires k <= |queries|
  {
    if k == 0 then table
    else AfterChanges(TableAt(table, queries, natives, k - 1), queries[k - 1], natives(k - 1).changes)
  }

  /** The k-th query completes in its turn: the library answers it, or its sockets have overflowed the table. */
  ghost predicate Completes(slots: seq<Slot>, table: seq<Socket>, queries: seq<nat>, natives: nat -> Native, k: nat)
    requires k < |queries|
  {
    || natives(k).answer.Some?
    || (queries[k] < |slots| && slots[queries[k]].socketFailed)
    || Overflows(TableAt(table, queries, natives, k), queries[k], natives(k).changes)
  }

  /** None of the first k queries completes. */
  ghost predicate Silent(slots: seq<Slot>, table: seq<Socket>, queries: seq<nat>, natives: nat -> Native, k: nat)
    requires k <= |queries|
  {
    forall j :: 0 <= j < k ==> !Completes(slots, table, queries, natives, j)
  }

  /** The k-th query is the first to complete, and its token the first to be delivered. */
  ghost predicate ServedAt(slots: seq<Slot>, table: seq<Socket>, queries: seq<nat>, natives: nat -> Native,
                           maximum: nat, before: seq<Event>, after: seq<Event>, k: nat) {
    && k < |queries| && queries[k] < |slots|
    && Silent(slots, table, queries, natives, k) && Completes(slots, table, queries, natives, k)
    && var result := match natives(k).answer case Some(a) => Outcome(a, maximum) case None => Err(Exhaustion);
       before + [Delivered(slots[queries[k]].token, result)] <= after
  }

  /** Either no query completes and the sink hears nothing, or the first one that does is delivered. */
  ghost predicate Served(slots: seq<Slot>, table: seq<Socket>, queries: seq<nat>, natives: nat -> Native,
                         maximum: nat, before: seq<Event>, after: seq<Event>) {
    if Silent(slots, table, queries, natives, |queries|) then after == before
    else exists k :: ServedAt(slots, table, queries, natives, maximum, before, after, k)
  }

  /** A slot after a call of the library on its channel. */
  ghost function AfterCall(slot: Slot, table: seq<Socket>, q: nat, native: Native, maximum: nat): Slot {
    var reported := slot.(socketFailed := slot.socketFailed || Overflows(table, q, native.changes));
    match native.answer
    case None => reported
    case Some(a) =>
      var done := reported.(nativeDone := true);
      if slot.canceling && a.Cancelled? then done else done.(completed := Outcome(a, maximum))
  }

  /** The slots of a resolver that is shut down: an answered query is marked, and that is all. */
  ghost function Abandoned(slots: seq<Slot>, answers: nat -> Option<Answer>): seq<Slot> {
    seq(|slots|, i requires 0 <= i < |slots| =>
      if slots[i].active && answers(i).Some? then slots[i].(nativeDone := true) else slots[i])
  }

  lemma NoneOf(sockets: seq<Socket>, slots: seq<Slot>, q: nat)
    requires Registered(sockets, slots) && q < |slots| && !slots[q].active
    ensures forall e :: e in Entries(sockets) ==> e.query != q
  {
  }

  lemma NoneLeft(sockets: seq<Socket>, slots: seq<Slot>)
    requires Registered(sockets, slots) && forall e :: e in Entries(sockets) ==> e.query >= |slots|
    ensures sockets == []
  {
    assert sockets == [] || sockets[0] in Entries(sockets);
  }

  // ---- Calls, and what the sink does in return ----

  datatype Call =
    | Resolve(request: Result<Unit>, channel: Result<Unit>, native: Native, reaction: Script)
    | Cancel(token: nat, native: Native, reaction: Script)
    | ProcessEvents(events: seq<Change>, natives: nat -> Native, reaction: Script)
    | ProcessTimeout(waits: nat -> Native, reaction: Script)
    | Destroy(answers: nat -> Option<Answer>)

  datatype Script = Done | Then(call: Call, rest: Script)

  class Resolver {
    const limit: nat
    const maximum: nat
    var alive: bool
    var shuttingDown: bool
    var slots: seq<Slot>
    var sockets: seq<Socket>
    var outstanding: nat
    var nextToken: nat
    ghost var log: seq<Event>
    ghost var pending: set<nat>

    ghost predicate ValidWith(open: Option<nat>)
      reads this
    {
      && 0 < limit <= QUERIES && 0 < maximum <= ADDRESSES
      && Balanced(log, pending) && Numbered(log, nextToken)
      && (alive ==>
            && Core(slots, outstanding, pending, open) && outstanding <= limit
            && Registered(sockets, slots) && !shuttingDown)
    }

    /** Between calls. A resolver that is gone keeps its abandoned tokens pending for ever. */
    ghost predicate Valid()
      reads this
    {
      ValidWith(None)
    }

    constructor (limit: nat, maximum: nat)
      requires 0 < limit <= QUERIES && 0 < maximum <= ADDRESSES
      ensures Valid() && alive && log == [] && pending == {} && outstanding == 0
    {
      this.limit, this.maximum := limit, maximum;
      alive, shuttingDown := true, false;
      var idle := Slot(false, false, false, false, 0, Ok([]));
      slots := seq(QUERIES, _ => idle);
      sockets, outstanding, nextToken := [], 0, 1;
      log, pending := [], {};
      new;
      NoneActive(slots);
    }

    // ---- Callbacks of the native library ----

    method SocketState(q: nat, c: Change) returns (failed: bool)
      requires Registered(sockets, slots) && q < |slots| && slots[q].active
      modifies this`sockets
      ensures Registered(sockets, slots)
      ensures sockets == Reported(old(sockets), q, c) && failed == Full(old(sockets), c)
    {
      hide Registered, Entries, Find, Removed;
      ReportedEntries(sockets, slots, q, c);
      var table := sockets;
      var found := Search(table, c.descriptor);
      if found.Some? {
        var index := found.value;
        sockets := if !c.readable && !c.writable then Removed(table, index)
                   else table[index := table[index].(readable := c.readable, writable := c.writable)];
        return false;
      }
      if !c.readable && !c.writable {
        return false;
      }
      if |table| == SOCKETS {
        return true;
      }
      sockets := table + [Socket(c.descriptor, q, c.readable, c.writable)];
      failed := false;
    }

    /** The completion callback; a cancelled query keeps no result, and nobody hears of one during shutdown. */
    method AddressComplete(q: nat, answer: Answer)
      requires alive && q < |slots|
      requires !shuttingDown ==> ValidWith(Some(q)) && !slots[q].nativeDone
      modifies this`slots, this`outstanding
      ensures !shuttingDown ==> ValidWith(Some(q))
      ensures shuttingDown ==> outstanding == old(outstanding)
      ensures slots == old(slots)[q := old(slots[q]).(
                nativeDone := true,
                completed := if shuttingDown || (old(slots[q].canceling) && answer.Cancelled?)
                             then old(slots[q].completed) else Outcome(answer, maximum))]
    {
      hide Core, Balanced, Numbered, Registered, Outcome;
      var slot := slots[q].(nativeDone := true);
      if shuttingDown {
        slots := slots[q := slot];
        return;
      }
      InRange(slots, outstanding, pending, q);
      if !(slot.canceling && answer.Cancelled?) {
        var completed := Complete(answer, maximum);
        slot := slot.(completed := completed);
      }
      ChangeSlot(slots, outstanding, pending, q, slot);
      StillRegistered(sockets, slots, q, slot);
      if outstanding != 0 {
        outstanding := outstanding - 1;
      }
      slots := slots[q := slot];
    }

    /** The socket changes of one call into the native library. */
    method Report(q: nat, changes: seq<Change>)
      requires alive && ValidWith(Some(q)) && q < |slots| && !slots[q].nativeDone
      modifies this`slots, this`sockets
      ensures ValidWith(Some(q)) && sockets == AfterChanges(old(sockets), q, changes)
      ensures slots == old(slots)[q := old(slots[q]).(
                socketFailed := old(slots[q].socketFailed) || Overflows(old(sockets), q, changes))]
    {
      hide Core, Balanced, Numbered, Registered, AfterChanges, Overflows, Reported, Full;
      ghost var table, before := sockets, slots;
      NoChanges(table, q, changes);
      for i := 0 to |changes|
        invariant ValidWith(Some(q)) && |slots| == |before| && sockets == AfterChanges(table, q, changes[..i])
        invariant slots == before[q := before[q].(
                    socketFailed := before[q].socketFailed || Overflows(table, q, changes[..i]))]
      {
        InRange(slots, outstanding, pending, q);
        ChangeStep(table, q, changes, i);
        var failed := SocketState(q, changes[i]);
        if failed {
          var slot := slots[q].(socketFailed := true);
          ChangeSlot(slots, outstanding, pending, q, slot);
          StillRegistered(sockets, slots, q, slot);
          slots := slots[q := slot];
        }
      }
      assert changes[..|changes|] == changes;
    }

    /** One call into the native library on a query's channel. */
    method NativeCall(q: nat, native: Native)
      requires alive && ValidWith(Some(q)) && q < |slots| && !slots[q].nativeDone
      modifies this`slots, this`outstanding, this`sockets
      ensures ValidWith(Some(q)) && sockets == AfterChanges(old(sockets), q, native.changes)
      ensures slots == old(slots)[q := AfterCall(old(slots[q]), old(sockets), q, native, maximum)]
    {
      hide Core, Balanced, Numbered, Registered, AfterChanges, Overflows, Outcome;
      Report(q, native.changes);
      if native.answer.Some? {
        AddressComplete(q, native.answer.value);
      }
    }

    // ---- The end of a query ----

    /** Closing the channel: the native library reports every socket of the query as closed. */
    method CloseSockets(q: nat)
      requires Registered(sockets, slots) && q < |slots| && slots[q].active
      modifies this`sockets
      ensures Registered(sockets, slots)
      ensures Entries(sockets) == set e | e in Entries(old(sockets)) && e.query != q
    {
      hide Registered, Removed;
      ghost var before := Entries(sockets);
      var index := 0;
      while index < |sockets|
        invariant index <= |sockets| && Registered(sockets, slots) && Entries(sockets) <= before
        invariant forall i :: 0 <= i < index ==> sockets[i].query != q
        invariant forall e :: e in before && e.query != q ==> e in Entries(sockets)
        decreases |sockets| - index
      {
        if sockets[index].query == q {
          RemovedEntries(sockets, slots, index);
          sockets := Removed(sockets, index);
        } else {
          index := index + 1;
        }
      }
    }

    /** The slot is free again before the sink hears of the query, so the sink may use the resolver. */
    method RetireAndDeliver(q: nat, result: Completion, reaction: Script)
      requires alive && ValidWith(Some(q)) && q < |slots| && slots[q].nativeDone
      modifies this
      ensures Valid() && old(log) + [Delivered(old(slots[q].token), result)] <= log
      decreases reaction, 1
    {
      hide Core, Balanced, Numbered, Registered;
      InRange(slots, outstanding, pending, q);
      var token := slots[q].token;
      CloseSockets(q);
      var slot := slots[q].(active := false, nativeDone := false, canceling := false, socketFailed := false);
      CloseSlot(slots, outstanding, pending, q, slot);
      ClosedRegistered(sockets, slots, q, slot);
      DeliveryBalances(log, pending, token, result, nextToken);
      slots := slots[q := slot];
      pending := pending - {token};
      log := log + [Delivered(token, result)];
      Run(reaction);
    }

    /** A query whose table of sockets overflowed is cancelled, and fails. */
    method FailSocketCapacity(q: nat, reaction: Script)
      requires alive && ValidWith(Some(q)) && q < |slots| && !slots[q].nativeDone
      modifies this
      ensures Valid() && old(log) + [Delivered(old(slots[q].token), Err(Exhaustion))] <= log
      decreases reaction, 2
    {
      hide Core, Balanced, Numbered, Registered;
      InRange(slots, outstanding, pending, q);
      SetCanceling(q, true);
      AddressComplete(q, Cancelled);
      RetireAndDeliver(q, Err(Exhaustion), reaction);
    }

    /** After a native call: at most one query completes, and then the resolver may be gone. */
    method Settle(q: nat, reaction: Script) returns (delivered: bool)
      requires alive && ValidWith(Some(q)) && q < |slots| && !slots[q].canceling
      modifies this
      ensures Valid() && old(log) <= log
      ensures delivered == (old(slots[q].nativeDone) || old(slots[q].socketFailed))
      ensures !delivered ==>
                alive && log == old(log) && pending == old(pending) && slots == old(slots) && sockets == old(sockets)
      ensures delivered ==>
                var result := if old(slots[q].nativeDone) then old(slots[q].completed) else Err(Exhaustion);
                old(log) + [Delivered(old(slots[q].token), result)] <= log
      decreases reaction, 3
    {
      hide Core, Balanced, Numbered, Registered;
      InRange(slots, outstanding, pending, q);
      if slots[q].nativeDone {
        RetireAndDeliver(q, slots[q].completed, reaction);
        return true;
      }
      if slots[q].socketFailed {
        FailSocketCapacity(q, reaction);
        return true;
      }
      QuietSlot(slots, outstanding, pending, q);
      delivered := false;
    }

    // ---- The interface ----

    method TakeToken() returns (token: nat)
      requires Valid() && nextToken != 0
      modifies this`nextToken
      ensures Valid() && token == old(nextToken) && token !in pending
      ensures Balanced(log + [Issued(token)], pending + {token}) && Numbered(log + [Issued(token)], nextToken)
    {
      hide Core, Balanced, Numbered, Registered;
      token := nextToken;
      IssueBalances(log, pending, token);
      Advanced(log, token);
      nextToken := if token == U64_MAX then 0 else token + 1;
    }

    /** A free slot takes up a query. */
    method Open(q: nat, token: nat)
      requires alive && Valid() && q < |slots| && !slots[q].active && outstanding < limit && token !in pending
      requires Balanced(log + [Issued(token)], pending + {token}) && Numbered(log + [Issued(token)], nextToken)
      modifies this`slots, this`outstanding, this`pending, this`log
      ensures ValidWith(Some(q)) && slots == old(slots)[q := Slot(true, false, false, false, token, Ok([]))]
      ensures pending == old(pending) + {token} && log == old(log) + [Issued(token)]
    {
      hide Core, Balanced, Numbered, Registered;
      var slot := Slot(true, false, false, false, token, Ok([]));
      OpenSlot(slots, outstanding, pending, q, slot);
      FreeRegistered(sockets, slots, q, slot);
      slots := slots[q := slot];
      outstanding := outstanding + 1;
      pending := pending + {token};
      log := log + [Issued(token)];
    }

    /** The token of a started query; the sink may hear of it before the call returns. */
    method ResolveName(request: Result<Unit>, channel: Result<Unit>, native: Native, reaction: Script)
      returns (r: Result<nat>)
      requires Valid()
      modifies this
      ensures Valid() && old(log) <= log
      ensures !old(alive) ==> !alive && log == old(log) && pending == old(pending)
      ensures r == if !old(alive) then Err(InvalidState)
                   else if request.Err? then Err(request.error)
                   else if old(outstanding) == limit || old(nextToken) == 0 then Err(Exhaustion)
                   else if channel.Err? then Err(channel.error)
                   else Ok(old(nextToken))
      ensures r.Err? ==> log == old(log) && pending == old(pending) && sockets == old(sockets)
      ensures r.Ok? ==> old(log) + [Issued(r.value)] <= log
      ensures r.Ok? && native.answer.Some? ==>
                old(log) + [Issued(r.value), Delivered(r.value, Outcome(native.answer.value, maximum))] <= log
      ensures r.Ok? && native.answer.None? ==>
                if Overflows(old(sockets), Free(old(slots)), native.changes)
                then old(log) + [Issued(r.value), Delivered(r.value, Err(Exhaustion))] <= log
                else
                  && log == old(log) + [Issued(r.value)] && pending == old(pending) + {r.value}
                  && sockets == AfterChanges(old(sockets), Free(old(slots)), native.changes)
      decreases reaction, 4
    {
      hide Core, Balanced, Numbered, Registered, AfterChanges, Overflows, Outcome;
      if !alive {
        return Err(InvalidState);
      }
      if request.Err? {
        return Err(request.error);
      }
      if outstanding == limit {
        return Err(Exhaustion);
      }
      FreeSlot(slots, outstanding, pending);
      var q := FirstFree(slots);
      if q == |slots| {
        assert false;
      }
      if nextToken == 0 {
        return Err(Exhaustion);
      }
      var token := TakeToken();
      if channel.Err? {
        // The slot is made active and then finished, so it is as free as before.
        var idle := Slot(false, false, false, false, token, Ok([]));
        FreeAgain(slots, outstanding, pending, q, idle);
        FreeRegistered(sockets, slots, q, idle);
        slots := slots[q := idle];
        return Err(channel.error);
      }
      Open(q, token);
      ghost var started := log;
      NativeCall(q, native);
      InRange(slots, outstanding, pending, q);
      ghost var answered := if native.answer.Some? then slots[q].completed else Err(Exhaustion);
      var delivered := Settle(q, reaction);
      Prefixes(old(log), started, log, token, answered, delivered);
      r := Ok(token);
    }

    method FindQuery(token: nat) returns (q: Option<nat>)
      requires alive && Valid()
      ensures q.Some? <==> token != 0 && token in pending
      ensures q.Some? ==> q.value < |slots| && slots[q.value].active && slots[q.value].token == token
    {
      hide Core, Balanced, Numbered, Registered;
      Inhabited(slots, outstanding, pending, token);
      if token == 0 {
        return None;
      }
      var i := 0;
      while i < |slots|
        invariant i <= |slots| && forall j :: 0 <= j < i ==>
                  !(slots[j].active && !slots[j].nativeDone && slots[j].token == token)
      {
        if slots[i].active && !slots[i].nativeDone && slots[i].token == token {
          return Some(i);
        }
        i := i + 1;
      }
      q := None;
    }

    /** Cancelling delivers once; if the library does not answer, only the sockets it reports have changed. */
    method CancelQuery(token: nat, native: Native, reaction: Script) returns (r: Result<Unit>)
      requires Valid()
      modifies this
      ensures Valid() && old(log) <= log
      ensures !old(alive) ==> !alive && log == old(log) && pending == old(pending)
      ensures r.Ok? <==> old(alive) && token != 0 && token in old(pending) && native.answer.Some?
      ensures r.Err? ==> r.error == InvalidState && log == old(log) && pending == old(pending)
      ensures r.Err? && !(old(alive) && token != 0 && token in old(pending)) ==>
                slots == old(slots) && sockets == old(sockets)
      ensures r.Err? && old(alive) && token != 0 && token in old(pending) ==>
                exists q: nat :: q < |old(slots)| && old(slots)[q].active && old(slots)[q].token == token
                  && sockets == AfterChanges(old(sockets), q, native.changes)
                  && slots == old(slots)[q := old(slots)[q].(
                       socketFailed := old(slots)[q].socketFailed || Overflows(old(sockets), q, native.changes))]
      ensures r.Ok? ==> old(log) + [Delivered(token, Err(Cancellation))] <= log
      decreases reaction, 4
    {
      hide Core, Balanced, Numbered, Registered, AfterChanges, Overflows, Outcome;
      if !alive {
        return Err(InvalidState);
      }
      var found := FindQuery(token);
      if found.None? {
        return Err(InvalidState);
      }
      var q := found.value;
      QuietSlot(slots, outstanding, pending, q);
      if slots[q].canceling {
        assert false;
      }
      SetCanceling(q, true);
      NativeCall(q, native);
      if !slots[q].nativeDone {
        SetCanceling(q, false);
        QuietSlot(slots, outstanding, pending, q);
        return Err(InvalidState);
      }
      RetireAndDeliver(q, Err(Cancellation), reaction);
      r := Ok(Unit);
    }

    method SetCanceling(q: nat, canceling: bool)
      requires alive && ValidWith(Some(q)) && q < |slots| && !slots[q].nativeDone
      modifies this`slots
      ensures ValidWith(Some(q)) && slots == old(slots)[q := old(slots[q]).(canceling := canceling)]
    {
      hide Core, Balanced, Numbered, Registered;
      InRange(slots, outstanding, pending, q);
      var slot := slots[q].(canceling := canceling);
      ChangeSlot(slots, outstanding, pending, q, slot);
      StillRegistered(sockets, slots, q, slot);
      slots := slots[q := slot];
    }

    /** The queries behind the events, or the reason why the events are refused. */
    method LookUp(events: seq<Change>) returns (r: Result<seq<nat>>)
      requires alive && Valid()
      ensures if |events| > SOCKETS then r == Err(InvalidRange)
              else
                match EventsError(sockets, events)
                case Some(e) => r == Err(e)
                case None =>
                  && r.Ok? && |r.value| == |events|
                  && forall i :: 0 <= i < |events| ==>
                       var found := Find(sockets, events[i].descriptor);
                       && found.Some? && r.value[i] == sockets[found.value].query
                       && r.value[i] < |slots| && slots[r.value[i]].active
    {
      hide Core, Balanced, Numbered, EventsError;
      if |events| > SOCKETS {
        return Err(InvalidRange);
      }
      var queries: seq<nat> := [];
      var k := 0;
      NoEvents(sockets, events);
      while k < |events|
        invariant k == |queries| <= |events| && EventsError(sockets, events[..k]).None?
        invariant forall i :: 0 <= i < k ==>
                    var found := Find(sockets, events[i].descriptor);
                    && found.Some? && queries[i] == sockets[found.value].query
                    && queries[i] < |slots| && slots[queries[i]].active
      {
        var event := events[k];
        EventsStep(sockets, events, k);
        if event.descriptor < 0 || (!event.readable && !event.writable) {
          EventsFail(sockets, events, k + 1);
          return Err(InvalidInput);
        }
        var found := Search(sockets, event.descriptor);
        if found.None? {
          EventsFail(sockets, events, k + 1);
          return Err(InvalidState);
        }
        var query := sockets[found.value].query;
        if !slots[query].active {
          assert false;
        }
        queries := queries + [query];
        k := k + 1;
      }
      assert events[..k] == events;
      r := Ok(queries);
    }

    /** Every event goes to its query; the first completion ends the call. */
    method ProcessSockets(events: seq<Change>, natives: nat -> Native, reaction: Script) returns (r: Result<Unit>)
      requires Valid()
      modifies this
      ensures Valid() && old(log) <= log
      ensures !old(alive) ==> !alive && log == old(log) && pending == old(pending)
      ensures r == if !old(alive) then Err(InvalidState)
                   else if |events| > SOCKETS then Err(InvalidRange)
                   else match EventsError(old(sockets), events) case Some(e) => Err(e) case None => Ok(Unit)
      ensures old(alive) && |events| <= 1024 ==>
                && (r.Ok? <==> forall i :: 0 <= i < |events| ==> Attributable(old(sockets), events[i]))
                && (r.Err? ==> exists k: nat :: FirstRefused(old(sockets), events, k, r.error))
      ensures r.Err? ==> log == old(log) && pending == old(pending) && slots == old(slots) && sockets == old(sockets)
      ensures r.Ok? ==>
                var queries := Behind(old(sockets), events);
                && Served(old(slots), old(sockets), queries, natives, maximum, old(log), log)
                && (Silent(old(slots), old(sockets), queries, natives, |queries|) ==>
                      alive && slots == old(slots) && sockets == TableAt(old(sockets), queries, natives, |queries|))
      decreases reaction, 5
    {
      hide Core, Balanced, Numbered, Registered, EventsError, Served, Silent, TableAt, Attributable, FirstRefused;
      EventsMeans(sockets, events);
      if !alive {
        return Err(InvalidState);
      }
      var found := LookUp(events);
      if found.Err? {
        return Err(found.error);
      }
      var queries, now := found.value, slots;
      SlotCount(now, outstanding, pending);
      assert queries == Behind(sockets, events);
      var tokens: seq<nat> := seq(|events|, i requires 0 <= i < |events| => now[queries[i]].token);
      Visit(queries, tokens, natives, reaction);
      r := Ok(Unit);
    }

    /** Lets the library work on some queries in turn, up to the first one that completes. */
    method Visit(queries: seq<nat>, tokens: seq<nat>, natives: nat -> Native, reaction: Script)
      requires alive && Valid() && |tokens| == |queries| && |slots| == QUERIES
      requires forall i :: 0 <= i < |queries| ==>
                 queries[i] < QUERIES && slots[queries[i]].active && slots[queries[i]].token == tokens[i]
      modifies this
      ensures Valid() && old(log) <= log
      ensures Served(old(slots), old(sockets), queries, natives, maximum, old(log), log)
      ensures Silent(old(slots), old(sockets), queries, natives, |queries|) ==>
                alive && slots == old(slots) && sockets == TableAt(old(sockets), queries, natives, |queries|)
      decreases reaction, 4
    {
      hide Core, Balanced, Numbered, Registered, AfterChanges, Overflows, Outcome;
      ghost var before, table := slots, sockets;
      for k := 0 to |queries|
        invariant alive && Valid() && log == old(log) && slots == before
        invariant sockets == TableAt(table, queries, natives, k) && Silent(before, table, queries, natives, k)
      {
        var q := queries[k];
        if slots[q].active && slots[q].token == tokens[k] {
          QuietSlot(slots, outstanding, pending, q);
          NativeCall(q, natives(k));
          InRange(slots, outstanding, pending, q);
          var delivered := Settle(q, reaction);
          if delivered {
            assert Completes(before, table, queries, natives, k);
            assert ServedAt(before, table, queries, natives, maximum, old(log), log, k);
            return;
          }
          assert slots[q] == before[q];
        } else {
          // The call ends at the first completion, so no query is gone before its turn.
          assert false;
        }
      }
    }

    method ProcessWaits(waits: nat -> Native, reaction: Script) returns (r: Result<Unit>)
      requires Valid()
      modifies this
      ensures Valid() && old(log) <= log
      ensures !old(alive) ==> !alive && log == old(log) && pending == old(pending)
      ensures r == if old(alive) then Ok(Unit) else Err(InvalidState)
      ensures r.Ok? ==>
                var queries := ActiveSlots(old(slots), |old(slots)|);
                && Served(old(slots), old(sockets), queries, waits, maximum, old(log), log)
                && (Silent(old(slots), old(sockets), queries, waits, |queries|) ==>
                      alive && slots == old(slots) && sockets == TableAt(old(sockets), queries, waits, |queries|))
      decreases reaction, 5
    {
      hide Core, Balanced, Numbered, Registered, Served, Silent, TableAt;
      if !alive {
        return Err(InvalidState);
      }
      SlotCount(slots, outstanding, pending);
      var queries: seq<nat>, tokens: seq<nat> := [], [];
      for i := 0 to |slots|
        invariant |tokens| == |queries| && queries == ActiveSlots(slots, i)
        invariant forall j :: 0 <= j < |queries| ==>
                    queries[j] < QUERIES && slots[queries[j]].active && slots[queries[j]].token == tokens[j]
      {
        if slots[i].active {
          queries, tokens := queries + [i], tokens + [slots[i].token];
        }
      }
      Visit(queries, tokens, waits, reaction);
      r := Ok(Unit);
    }

    /**
     Destruction closes every channel, and with it every socket; the callbacks that fire on the way
     only mark their slots, so what is outstanding is abandoned without a word to the sink.
     */
    method Release(answers: nat -> Option<Answer>)
      requires Valid()
      modifies this
      ensures Valid() && !alive && log == old(log) && pending == old(pending) && nextToken == old(nextToken)
      ensures outstanding == old(outstanding)
      ensures !old(alive) ==> slots == old(slots) && sockets == old(sockets)
      ensures old(alive) ==> sockets == [] && slots == Abandoned(old(slots), answers)
    {
      hide Core, Balanced, Numbered, Registered, Entries;
      if !alive {
        return;
      }
      SlotCount(slots, outstanding, pending);
      ghost var before := slots;
      shuttingDown := true;
      for i := 0 to |slots|
        invariant |slots| == |before| && alive && shuttingDown && Registered(sockets, slots)
        invariant log == old(log) && pending == old(pending) && nextToken == old(nextToken)
        invariant outstanding == old(outstanding)
        invariant forall e :: e in Entries(sockets) ==> e.query >= i
        invariant forall j :: 0 <= j < |slots| ==>
                    slots[j] == if j < i then Abandoned(before, answers)[j] else before[j]
      {
        if slots[i].active {
          CloseSockets(i);
          if answers(i).Some? {
            StillRegistered(sockets, slots, i, slots[i].(nativeDone := true));
            AddressComplete(i, answers(i).value);
          }
        } else {
          NoneOf(sockets, slots, i);
        }
      }
      NoneLeft(sockets, slots);
      alive := false;
    }

    /** Any sequence of calls, with whatever calls the sink makes in return. */
    method Run(script: Script)
      requires Valid()
      modifies this
      ensures Valid() && old(log) <= log
      ensures !old(alive) ==> !alive && log == old(log) && pending == old(pending)
      decreases script, 0
    {
      hide Core, Balanced, Numbered, Registered;
      match script
      case Done =>
      case Then(call, rest) =>
        match call {
          case Resolve(request, channel, native, reaction) =>
            var token := ResolveName(request, channel, native, reaction);
          case Cancel(token, native, reaction) =>
            var result := CancelQuery(token, native, reaction);
          case ProcessEvents(events, natives, reaction) =>
            var result := ProcessSockets(events, natives, reaction);
          case ProcessTimeout(waits, reaction) =>
            var result := ProcessWaits(waits, reaction);
          case Destroy(answers) =>
            Release(answers);
        }
        Run(rest);
    }

    /** At every moment between calls of every run. */
    lemma Accounts(t: nat)
      requires Valid()
      ensures Issues(log, t) <= 1 && Deliveries(log, t) <= Issues(log, t)
      ensures Issues(log, t) == 1 && Deliveries(log, t) == 0 <==> t in pending
      ensures alive ==> pending == Tokens(slots) && outstanding == Active(slots) <= limit
    {
      hide Registered;
      assert Deliveries(log, t) + (if t in pending then 1 else 0) == Issues(log, t);
    }
  }
}
