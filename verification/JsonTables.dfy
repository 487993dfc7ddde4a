/**
 The flat tables the evaluator's parser fills: one node per value in document order, and one
 entry per child, written after everything inside that child. The tables denote the tree.
 */
module JsonTables {
  import opened Words
  import opened JsonGrammar

  datatype Kind = NullKind | BoolKind | NumberKind | StringKind | ArrayKind | ObjectKind

  datatype Node = Node(kind: Kind, str: text, raw: text, number: nat, boolean: bool)

  /** A child: of an array with an empty key, of an object with its raw key. */
  datatype Entry = Entry(parent: nat, key: text, value: nat)

  datatype Tables = Tables(nodes: seq<Node>, members: seq<Entry>, elements: seq<Entry>) {
    function Children(keyed: bool): seq<Entry> {
      if keyed then members else elements
    }
  }

  // ---- What parsing a value appends ----

  function KindOf(v: Value): Kind {
    match v
    case Null => NullKind
    case Bool(_) => BoolKind
    case Number(_) => NumberKind
    case String(_) => StringKind
    case Container(keyed, _, _) => if keyed then ObjectKind else ArrayKind
  }

  function NodeFor(v: Value): Node {
    Node(KindOf(v), if v.String? then v.raw else [], Render(v),
         if v.Number? && IsNumber(v.digits) then NumberOf(v.digits) else 0, v.Bool? && v.value)
  }

  function NodesOf(v: Value): (r: seq<Node>)
    ensures r != []
    decreases v, 0
  {
    [NodeFor(v)] + if v.Container? then KidsNodes(v.kids) else []
  }

  function KidsNodes(kids: seq<Kid>): seq<Node>
    decreases kids, 0
  {
    if kids == [] then []
    else KidsNodes(kids[..|kids| - 1]) + NodesOf(kids[|kids| - 1].value)
  }

  /** The entries parsing `v` adds to the member table (`keyed`) or the element table, first node at `base`. */
  function TableOf(keyed: bool, v: Value, base: nat): seq<Entry>
    decreases v, 0
  {
    if v.Container? then KidsTable(keyed, v.keyed == keyed, base, v.kids, base + 1) else []
  }

  function KidsTable(keyed: bool, own: bool, parent: nat, kids: seq<Kid>, base: nat): seq<Entry>
    decreases kids, 0
  {
    if kids == [] then []
    else
      var init, last := kids[..|kids| - 1], kids[|kids| - 1];
      var b := base + |KidsNodes(init)|;
      KidsTable(keyed, own, parent, init, base) + TableOf(keyed, last.value, b)
      + if own then [Entry(parent, last.lbl.key, b)] else []
  }

  function Add(t: Tables, v: Value): Tables {
    var base := |t.nodes|;
    Tables(t.nodes + NodesOf(v), t.members + TableOf(true, v, base), t.elements + TableOf(false, v, base))
  }

  // ---- What the tables say ----

  /** The entries whose parent lies in a range, in table order. */
  function Within(es: seq<Entry>, lo: nat, hi: nat): (r: seq<Entry>)
    ensures |r| <= |es|
  {
    if es == [] then []
    else
      var init, last := es[..|es| - 1], es[|es| - 1];
      Within(init, lo, hi) + if lo <= last.parent < hi then [last] else []
  }

  /** The entries of one parent. */
  function ChildrenOf(es: seq<Entry>, parent: nat): seq<Entry> {
    Within(es, parent, parent + 1)
  }

  /** The node at `index` and the entries below it stand for the tree `v`. */
  ghost predicate Denotes(t: Tables, index: nat, v: Value)
    decreases v
  {
    && index < |t.nodes| && t.nodes[index] == NodeFor(v)
    && (v.Container? ==>
          var own := ChildrenOf(t.Children(v.keyed), index);
          && |own| == |v.kids|
          && forall i :: 0 <= i < |own| ==>
               own[i].key == v.kids[i].lbl.key && Denotes(t, own[i].value, v.kids[i].value))
  }

  // ---- Filtering ----

  lemma WithinStep(es: seq<Entry>, lo: nat, hi: nat)
    requires es != []
    ensures var init, last := es[..|es| - 1], es[|es| - 1];
            Within(es, lo, hi) == if lo <= last.parent < hi then Within(init, lo, hi) + [last] else Within(init, lo, hi)
  {
  }

  lemma {:induction false} WithinConcat(a: seq<Entry>, b: seq<Entry>, lo: nat, hi: nat)
    ensures Within(a + b, lo, hi) == Within(a, lo, hi) + Within(b, lo, hi)
    decreases |b|
  {
    if b == [] {
      assert a + b == a;
    } else {
      var init := b[..|b| - 1];
      assert (a + b)[..|a + b| - 1] == a + init;
      WithinStep(a + b, lo, hi);
      WithinStep(b, lo, hi);
      WithinConcat(a, init, lo, hi);
      hide Within;
    }
  }

  ghost predicate AllIn(es: seq<Entry>, lo: nat, hi: nat) {
    forall i :: 0 <= i < |es| ==> lo <= es[i].parent < hi
  }

  ghost predicate NoneIn(es: seq<Entry>, lo: nat, hi: nat) {
    forall i :: 0 <= i < |es| ==> !(lo <= es[i].parent < hi)
  }

  lemma {:induction false} WithinAll(es: seq<Entry>, lo: nat, hi: nat)
    requires AllIn(es, lo, hi)
    ensures Within(es, lo, hi) == es
  {
    if es != [] {
      WithinAll(es[..|es| - 1], lo, hi);
    }
  }

  lemma {:induction false} WithinNone(es: seq<Entry>, lo: nat, hi: nat)
    requires NoneIn(es, lo, hi)
    ensures Within(es, lo, hi) == []
  {
    if es != [] {
      WithinNone(es[..|es| - 1], lo, hi);
    }
  }

  lemma {:induction false} WithinNested(es: seq<Entry>, lo: nat, hi: nat, lo': nat, hi': nat)
    requires lo <= lo' && hi' <= hi
    ensures Within(Within(es, lo, hi), lo', hi') == Within(es, lo', hi')
  {
    if es != [] {
      var init, last := es[..|es| - 1], es[|es| - 1];
      WithinNested(init, lo, hi, lo', hi');
      WithinStep(es, lo, hi);
      WithinStep(es, lo', hi');
      hide Within;
      if lo <= last.parent < hi {
        var kept := Within(init, lo, hi) + [last];
        WithinStep(kept, lo', hi');
        assert kept[..|kept| - 1] == Within(init, lo, hi);
      }
    }
  }

  // ---- One level of each definition ----

  lemma UnfoldTable(keyed: bool, v: Value, base: nat)
    ensures |NodesOf(v)| == 1 + if v.Container? then |KidsNodes(v.kids)| else 0
    ensures NodesOf(v)[0] == NodeFor(v) && (v.Container? ==> NodesOf(v)[1..] == KidsNodes(v.kids))
    ensures TableOf(keyed, v, base)
            == if v.Container? then KidsTable(keyed, v.keyed == keyed, base, v.kids, base + 1) else []
  {
  }

  function OwnEntry(own: bool, parent: nat, k: Kid, base: nat): seq<Entry> {
    if own then [Entry(parent, k.lbl.key, base)] else []
  }

  lemma UnfoldKidsTable(keyed: bool, own: bool, parent: nat, kids: seq<Kid>, base: nat)
    requires kids != []
    ensures var init, last := kids[..|kids| - 1], kids[|kids| - 1];
            var b := base + |KidsNodes(init)|;
            && KidsNodes(kids) == KidsNodes(init) + NodesOf(last.value)
            && KidsTable(keyed, own, parent, kids, base)
               == KidsTable(keyed, own, parent, init, base) + TableOf(keyed, last.value, b)
                  + OwnEntry(own, parent, last, b)
  {
  }

  lemma EmptyKids(keyed: bool, own: bool, parent: nat, base: nat)
    ensures KidsTable(keyed, own, parent, [], base) == [] && KidsNodes([]) == [] && ChildrenOf([], parent) == []
  {
  }

  // ---- Every subtree keeps to its own range of nodes ----

  ghost predicate KidsIn(es: seq<Entry>, parent: nat, lo: nat, hi: nat) {
    forall i :: 0 <= i < |es| ==> es[i].parent == parent || lo <= es[i].parent < hi
  }

  lemma {:induction false} TableBounds(keyed: bool, v: Value, base: nat)
    ensures AllIn(TableOf(keyed, v, base), base, base + |NodesOf(v)|)
    decreases v, 0
  {
    hide Within, TableOf, NodesOf, KidsTable, KidsNodes, NodeFor;
    UnfoldTable(keyed, v, base);
    if v.Container? {
      KidsBounds(keyed, v.keyed == keyed, base, v.kids, base + 1);
    }
  }

  lemma {:induction false} KidsBounds(keyed: bool, own: bool, parent: nat, kids: seq<Kid>, base: nat)
    ensures KidsIn(KidsTable(keyed, own, parent, kids, base), parent, base, base + |KidsNodes(kids)|)
    decreases kids, 0
  {
    hide Within, TableOf, NodesOf, KidsTable, KidsNodes, NodeFor;
    EmptyKids(keyed, own, parent, base);
    if kids != [] {
      var init, last := kids[..|kids| - 1], kids[|kids| - 1];
      KidsBounds(keyed, own, parent, init, base);
      TableBounds(keyed, last.value, base + |KidsNodes(init)|);
      UnfoldKidsTable(keyed, own, parent, kids, base);
    }
  }

  /** The first node of the i-th child. */
  function KidBase(kids: seq<Kid>, base: nat, i: nat): nat
    requires i <= |kids|
  {
    base + |KidsNodes(kids[..i])|
  }

  lemma KidBaseStep(kids: seq<Kid>, base: nat, i: nat)
    requires i < |kids|
    ensures KidBase(kids, base, i + 1) == KidBase(kids, base, i) + |NodesOf(kids[i].value)|
  {
    assert kids[..i + 1][..i] == kids[..i];
  }

  /** Dropping the last child moves no other child. */
  lemma KidBaseInit(kids: seq<Kid>, base: nat, i: nat)
    requires i < |kids|
    ensures KidBase(kids[..|kids| - 1], base, i) == KidBase(kids, base, i)
  {
    assert kids[..|kids| - 1][..i] == kids[..i];
  }

  lemma {:induction false} KidBaseOrder(kids: seq<Kid>, base: nat, i: nat, j: nat)
    requires i <= j <= |kids|
    ensures KidBase(kids, base, i) <= KidBase(kids, base, j)
    decreases j - i
  {
    if i < j {
      KidBaseStep(kids, base, j - 1);
      KidBaseOrder(kids, base, i, j - 1);
    }
  }

  lemma KidBaseEnd(kids: seq<Kid>, base: nat, i: nat)
    requires i <= |kids|
    ensures KidBase(kids, base, i) <= base + |KidsNodes(kids)|
    ensures KidBase(kids, base, i) == base + KidBase(kids, 0, i)
  {
    KidBaseOrder(kids, base, i, |kids|);
    assert kids[..|kids|] == kids;
  }

  lemma {:induction false} KidNodes(kids: seq<Kid>, i: nat)
    requires i < |kids|
    ensures KidBase(kids, 0, i) <= KidBase(kids, 0, i + 1) <= |KidsNodes(kids)|
    ensures KidsNodes(kids)[KidBase(kids, 0, i)..KidBase(kids, 0, i + 1)] == NodesOf(kids[i].value)
    decreases |kids|
  {
    hide Within, TableOf, NodesOf, KidsTable, KidsNodes, NodeFor;
    var n := |kids|;
    var init, last := kids[..n - 1], kids[n - 1];
    KidBaseStep(kids, 0, i);
    KidBaseEnd(kids, 0, i + 1);
    UnfoldKidsTable(true, true, 0, kids, 0);
    if i < n - 1 {
      KidNodes(init, i);
      KidBaseInit(kids, 0, i);
      KidBaseInit(kids, 0, i + 1);
    } else {
      assert KidBase(kids, 0, n - 1) == |KidsNodes(init)|;
    }
  }

  function OwnList(own: bool, parent: nat, kids: seq<Kid>, base: nat): seq<Entry> {
    if own then seq(|kids|, i requires 0 <= i < |kids| => Entry(parent, kids[i].lbl.key, KidBase(kids, base, i)))
    else []
  }

  lemma OwnListStep(own: bool, parent: nat, kids: seq<Kid>, base: nat)
    requires kids != []
    ensures var init, last := kids[..|kids| - 1], kids[|kids| - 1];
            OwnList(own, parent, kids, base)
            == OwnList(own, parent, init, base) + OwnEntry(own, parent, last, base + |KidsNodes(init)|)
  {
    hide Within, TableOf, NodesOf, KidsTable, KidsNodes, NodeFor;
    var n := |kids|;
    forall i | 0 <= i < n
      ensures i < n - 1 ==> KidBase(kids[..n - 1], base, i) == KidBase(kids, base, i)
    {
      KidBaseInit(kids, base, i);
    }
  }

  /** A container's own entries list its children's first nodes, in document order. */
  lemma {:induction false} OwnEntries(keyed: bool, own: bool, parent: nat, kids: seq<Kid>, base: nat)
    requires parent < base
    ensures ChildrenOf(KidsTable(keyed, own, parent, kids, base), parent) == OwnList(own, parent, kids, base)
    decreases |kids|
  {
    hide Within, TableOf, NodesOf, KidsTable, KidsNodes, NodeFor;
    EmptyKids(keyed, own, parent, base);
    if kids != [] {
      var init, last := kids[..|kids| - 1], kids[|kids| - 1];
      var b := base + |KidsNodes(init)|;
      var front, inner := KidsTable(keyed, own, parent, init, base), TableOf(keyed, last.value, b);
      var tail := OwnEntry(own, parent, last, b);
      OwnEntries(keyed, own, parent, init, base);
      UnfoldKidsTable(keyed, own, parent, kids, base);
      OwnListStep(own, parent, kids, base);
      TableBounds(keyed, last.value, b);
      WithinNone(inner, parent, parent + 1);
      WithinAll(tail, parent, parent + 1);
      WithinConcat(front, inner, parent, parent + 1);
      WithinConcat(front + inner, tail, parent, parent + 1);
    }
  }

  /** The entries inside one child's range are exactly the entries of that child. */
  lemma {:induction false} KidSegment(keyed: bool, own: bool, parent: nat, kids: seq<Kid>, base: nat, i: nat)
    requires parent < base && i < |kids|
    ensures Within(KidsTable(keyed, own, parent, kids, base), KidBase(kids, base, i), KidBase(kids, base, i + 1))
            == TableOf(keyed, kids[i].value, KidBase(kids, base, i))
    decreases |kids|
  {
    hide Within, TableOf, NodesOf, KidsTable, KidsNodes, NodeFor;
    var n := |kids|;
    var init, last := kids[..n - 1], kids[n - 1];
    var b := base + |KidsNodes(init)|;
    var lo, hi := KidBase(kids, base, i), KidBase(kids, base, i + 1);
    var front, inner := KidsTable(keyed, own, parent, init, base), TableOf(keyed, last.value, b);
    var tail := OwnEntry(own, parent, last, b);
    KidBaseStep(kids, base, i);
    UnfoldKidsTable(keyed, own, parent, kids, base);
    WithinConcat(front, inner, lo, hi);
    WithinConcat(front + inner, tail, lo, hi);
    WithinNone(tail, lo, hi);
    TableBounds(keyed, last.value, b);
    if i == n - 1 {
      KidsBounds(keyed, own, parent, init, base);
      WithinNone(front, lo, hi);
      WithinAll(inner, lo, hi);
    } else {
      KidSegment(keyed, own, parent, init, base, i);
      KidBaseInit(kids, base, i);
      KidBaseInit(kids, base, i + 1);
      KidBaseOrder(kids, base, i + 1, n - 1);
      WithinNone(inner, lo, hi);
    }
  }

  // ---- The tables denote the tree ----

  /** The nodes and entries of `v` sit in the tables from node `base` on, undisturbed by others. */
  ghost predicate Embedded(t: Tables, base: nat, v: Value) {
    var end := base + |NodesOf(v)|;
    && end <= |t.nodes| && t.nodes[base..end] == NodesOf(v)
    && (forall keyed :: Within(t.Children(keyed), base, end) == TableOf(keyed, v, base))
  }

  lemma SubSlice(s: seq<Node>, lo: nat, hi: nat, lo': nat, hi': nat)
    requires lo <= lo' <= hi' <= hi <= |s|
    ensures s[lo..hi][lo' - lo..hi' - lo] == s[lo'..hi']
  {
    var a, b := s[lo..hi][lo' - lo..hi' - lo], s[lo'..hi'];
    assert forall k :: 0 <= k < |a| ==> a[k] == s[lo' + k] == b[k];
  }

  lemma KidEmbedded(t: Tables, base: nat, v: Value, i: nat)
    requires Embedded(t, base, v) && v.Container? && i < |v.kids|
    ensures Embedded(t, KidBase(v.kids, base + 1, i), v.kids[i].value)
  {
    hide Within, TableOf, NodesOf, KidsTable, KidsNodes, NodeFor;
    var kids, end := v.kids, base + |NodesOf(v)|;
    var lo, hi := KidBase(kids, base + 1, i), KidBase(kids, base + 1, i + 1);
    KidBaseStep(kids, base + 1, i);
    KidBaseEnd(kids, base + 1, i);
    KidBaseEnd(kids, base + 1, i + 1);
    KidNodes(kids, i);
    UnfoldTable(true, v, base);
    UnfoldTable(false, v, base);
    SubSlice(t.nodes, base, end, base + 1, end);
    assert t.nodes[base + 1..end] == KidsNodes(kids);
    SubSlice(t.nodes, base + 1, end, lo, hi);
    assert t.nodes[lo..hi] == NodesOf(kids[i].value);
    forall keyed
      ensures Within(t.Children(keyed), lo, hi) == TableOf(keyed, kids[i].value, lo)
    {
      WithinNested(t.Children(keyed), base, end, lo, hi);
      KidSegment(keyed, v.keyed == keyed, base, kids, base + 1, i);
    }
  }

  lemma {:induction false} EmbeddedDenotes(t: Tables, base: nat, v: Value)
    requires Embedded(t, base, v)
    ensures Denotes(t, base, v)
    decreases v
  {
    hide Within, TableOf, NodesOf, KidsTable, KidsNodes, NodeFor;
    UnfoldTable(true, v, base);
    UnfoldTable(false, v, base);
    assert t.nodes[base] == t.nodes[base..base + |NodesOf(v)|][0];
    if v.Container? {
      var es, end := t.Children(v.keyed), base + |NodesOf(v)|;
      WithinNested(es, base, end, base, base + 1);
      OwnEntries(v.keyed, true, base, v.kids, base + 1);
      var own := ChildrenOf(es, base);
      forall i | 0 <= i < |own|
        ensures own[i].key == v.kids[i].lbl.key && Denotes(t, own[i].value, v.kids[i].value)
      {
        KidEmbedded(t, base, v, i);
        EmbeddedDenotes(t, KidBase(v.kids, base + 1, i), v.kids[i].value);
      }
    }
  }

  const EMPTY: Tables := Tables([], [], [])

  /** Parsing a value into empty tables leaves tables that denote it. */
  lemma ParsedTablesDenote(v: Value)
    ensures Denotes(Add(EMPTY, v), 0, v)
  {
    hide NodesOf, TableOf, Within;
    var t := Add(EMPTY, v);
    assert t.nodes[0..|NodesOf(v)|] == NodesOf(v);
    forall keyed
      ensures Within(t.Children(keyed), 0, |NodesOf(v)|) == TableOf(keyed, v, 0)
    {
      assert t.Children(keyed) == TableOf(keyed, v, 0);
      TableBounds(keyed, v, 0);
      WithinAll(t.Children(keyed), 0, |NodesOf(v)|);
    }
    EmbeddedDenotes(t, 0, v);
  }
}
