/** The benchmark evaluator's recursive-descent parser and its table lookups. */
module JsonDocument {
  import opened Words
  import opened JsonGrammar
  import opened JsonTables
  import G = JsonGrammar

  const MAXIMUM_DOCUMENT_BYTES: nat := 262144
  const MAXIMUM_NODES: nat := 8192
  const MAXIMUM_MEMBERS: nat := 1024
  const MAXIMUM_ELEMENTS: nat := 8192
  const MAXIMUM_DEPTH: nat := 64

  predicate Fits(t: Tables) {
    |t.nodes| <= MAXIMUM_NODES && |t.members| <= MAXIMUM_MEMBERS && |t.elements| <= MAXIMUM_ELEMENTS
  }

  /** Entries only ever point at parents that exist. */
  ghost predicate AllBelow(t: Tables) {
    AllIn(t.members, 0, |t.nodes|) && AllIn(t.elements, 0, |t.nodes|)
  }

  /** What the children of the container at `parent` add. */
  function AddKids(t: Tables, keyed: bool, parent: nat, kids: seq<Kid>): Tables {
    var base := |t.nodes|;
    Tables(t.nodes + KidsNodes(kids),
           t.members + KidsTable(true, keyed, parent, kids, base),
           t.elements + KidsTable(false, !keyed, parent, kids, base))
  }

  function AddNode(t: Tables, n: Node): Tables {
    t.(nodes := t.nodes + [n])
  }

  function AddEntry(t: Tables, keyed: bool, e: Entry): Tables {
    if keyed then t.(members := t.members + [e]) else t.(elements := t.elements + [e])
  }

  /** No entry can be added to the table of members or elements. */
  predicate Full(t: Tables, keyed: bool) {
    if keyed then |t.members| == MAXIMUM_MEMBERS else |t.elements| == MAXIMUM_ELEMENTS
  }

  lemma NoKidsAdded(t: Tables, keyed: bool, parent: nat)
    ensures AddKids(t, keyed, parent, []) == t
  {
  }

  /** One more child: its own tables, then the entry that points at it. */
  lemma OneMoreKid(t: Tables, keyed: bool, parent: nat, kids: seq<Kid>, k: Kid)
    ensures var before := AddKids(t, keyed, parent, kids);
            AddKids(t, keyed, parent, kids + [k])
            == AddEntry(Add(before, k.value), keyed, Entry(parent, k.lbl.key, |before.nodes|))
  {
    hide TableOf, NodesOf, KidsTable, KidsNodes;
    var all := kids + [k];
    assert all[..|all| - 1] == kids;
    UnfoldKidsTable(true, keyed, parent, all, |t.nodes|);
    UnfoldKidsTable(false, !keyed, parent, all, |t.nodes|);
  }

  lemma {:induction false} MoreKidsGrow(t: Tables, keyed: bool, parent: nat, kids: seq<Kid>, more: seq<Kid>)
    requires Fits(AddKids(t, keyed, parent, kids + more))
    ensures Fits(AddKids(t, keyed, parent, kids))
    decreases |more|
  {
    if more == [] {
      assert kids + more == kids;
    } else {
      var init, last := more[..|more| - 1], more[|more| - 1];
      assert kids + more == (kids + init) + [last];
      OneMoreKid(t, keyed, parent, kids + init, last);
      MoreKidsGrow(t, keyed, parent, kids, init);
    }
  }

  /** A container is its own node and then its children. */
  lemma AddContainer(t: Tables, v: Value)
    requires v.Container?
    ensures Add(t, v) == AddKids(AddNode(t, NodeFor(v)), v.keyed, |t.nodes|, v.kids)
  {
    hide TableOf, NodesOf, KidsTable, KidsNodes, NodeFor;
    UnfoldTable(true, v, |t.nodes|);
    UnfoldTable(false, v, |t.nodes|);
    assert NodesOf(v) == [NodeFor(v)] + KidsNodes(v.kids);
  }

  lemma AddScalar(t: Tables, v: Value)
    requires !v.Container?
    ensures Add(t, v) == AddNode(t, NodeFor(v))
  {
  }

  /** Rewriting the container's own node afterwards disturbs nothing else. */
  lemma ReplaceNode(t: Tables, a: Node, b: Node, keyed: bool, kids: seq<Kid>)
    ensures var whole := AddKids(AddNode(t, a), keyed, |t.nodes|, kids);
            whole.(nodes := whole.nodes[|t.nodes| := b]) == AddKids(AddNode(t, b), keyed, |t.nodes|, kids)
  {
  }

  lemma AddKeepsBelow(t: Tables, v: Value)
    requires AllBelow(t)
    ensures AllBelow(Add(t, v))
  {
    hide TableOf, NodesOf;
    TableBounds(true, v, |t.nodes|);
    TableBounds(false, v, |t.nodes|);
  }

  lemma AddKidsKeepsBelow(t: Tables, keyed: bool, parent: nat, kids: seq<Kid>)
    requires AllBelow(t) && parent < |t.nodes|
    ensures AllBelow(AddKids(t, keyed, parent, kids))
  {
    hide KidsTable, KidsNodes;
    KidsBounds(true, keyed, parent, kids, |t.nodes|);
    KidsBounds(false, !keyed, parent, kids, |t.nodes|);
  }

  ghost predicate HasMember(es: seq<Entry>, parent: nat, key: text) {
    exists i :: 0 <= i < |es| && es[i].parent == parent && es[i].key == key
  }

  ghost predicate HasKeyIn(es: seq<Entry>, key: text) {
    exists i :: 0 <= i < |es| && es[i].key == key
  }

  /** Scanning the member table for a key finds exactly the keys of the open object. */
  lemma KeySeen(t: Tables, parent: nat, kids: seq<Kid>, key: text)
    requires parent < |t.nodes| && NoneIn(t.members, parent, parent + 1)
    ensures var es := AddKids(t, true, parent, kids).members;
            HasMember(es, parent, key) <==> key in Keys(kids)
  {
    hide KidsTable, KidsNodes, Within, KidBase;
    var added := KidsTable(true, true, parent, kids, |t.nodes|);
    var es := t.members + added;
    var own := ChildrenOf(es, parent);
    OwnEntries(true, true, parent, kids, |t.nodes|);
    WithinConcat(t.members, added, parent, parent + 1);
    WithinNone(t.members, parent, parent + 1);
    assert own == OwnList(true, parent, kids, |t.nodes|);
    WithinMembers(es, parent, key);
    if key in Keys(kids) {
      var k :| k in kids && k.lbl.key == key;
      var i :| 0 <= i < |kids| && kids[i] == k;
      assert own[i].key == key;
    }
    if HasKeyIn(own, key) {
      var i :| 0 <= i < |own| && own[i].key == key;
      assert kids[i] in kids;
    }
  }

  lemma {:induction false} WithinMembers(es: seq<Entry>, parent: nat, key: text)
    ensures HasMember(es, parent, key) <==> HasKeyIn(ChildrenOf(es, parent), key)
  {
    hide Within;
    if es == [] {
      NoneWithin(parent);
    } else {
      var init, last := es[..|es| - 1], es[|es| - 1];
      WithinMembers(init, parent, key);
      WithinStep(es, parent, parent + 1);
      MemberStep(init, last, parent, key);
      assert es == init + [last];
      if last.parent == parent {
        KeyStep(ChildrenOf(init, parent), last, key);
      }
    }
  }

  lemma NoneWithin(parent: nat)
    ensures ChildrenOf([], parent) == []
  {
  }

  lemma MemberStep(init: seq<Entry>, last: Entry, parent: nat, key: text)
    ensures HasMember(init + [last], parent, key)
            <==> HasMember(init, parent, key) || (last.parent == parent && last.key == key)
  {
    var es := init + [last];
    assert es[|init|] == last && forall i :: 0 <= i < |init| ==> es[i] == init[i];
  }

  lemma KeyStep(init: seq<Entry>, last: Entry, key: text)
    ensures HasKeyIn(init + [last], key) <==> HasKeyIn(init, key) || last.key == key
  {
    var es := init + [last];
    assert es[|init|] == last && forall i :: 0 <= i < |init| ==> es[i] == init[i];
  }

  lemma SkipOne(all: text, i: nat)
    requires i < |all| && IsSpace(all[i])
    ensures Skip(all[i..]) == Skip(all[i + 1..])
  {
    assert all[i..][1..] == all[i + 1..];
  }

  lemma SkipNone(all: text, i: nat)
    requires i <= |all| && (i == |all| || !IsSpace(all[i]))
    ensures Skip(all[i..]) == all[i..]
  {
  }

  /** Where the white space that starts at `start` ends. */
  method AfterSpace(all: text, start: nat) returns (end: nat)
    requires start <= |all|
    ensures start <= end <= |all| && all[end..] == Skip(all[start..])
  {
    hide Skip, IsSpace;
    end := start;
    while end < |all| && IsSpace(all[end])
      invariant start <= end <= |all| && Skip(all[end..]) == Skip(all[start..])
    {
      SkipOne(all, end);
      end := end + 1;
    }
    SkipNone(all, end);
  }

  /** Where the digits that start a number end; a zero must stand alone. */
  method ScanNumber(all: text, start: nat) returns (ok: bool, end: nat)
    requires start <= |all|
    ensures start <= end <= |all|
    ensures ok <==> Digits(all[start..]) != [] && (all[start..][0] == 0x30 ==> |Digits(all[start..])| == 1)
    ensures ok ==> end == start + |Digits(all[start..])|
  {
    hide Digits;
    DigitRun(all, start);
    end := start;
    if end >= |all| || !IsDigit(all[end]) {
      return false, end;
    }
    if all[end] == 0x30 {
      end := end + 1;
      return end >= |all| || !IsDigit(all[end]), end;
    }
    while end < |all| && IsDigit(all[end])
      invariant start <= end <= start + |Digits(all[start..])|
    {
      end := end + 1;
    }
    ok := true;
  }

  lemma ScannedNumber(all: text, start: nat, end: nat, ok: bool)
    requires start <= end <= |all|
    requires ok <==> Digits(all[start..]) != [] && (all[start..][0] == 0x30 ==> |Digits(all[start..])| == 1)
    requires ok ==> end == start + |Digits(all[start..])|
    ensures var p := ParseNumber(all[start..]);
            if !ok then p.Failed?
            else
              && (forall k :: 0 <= k < |all[start..end]| ==> IsDigit(all[start..end][k]))
              && (NumberOf(all[start..end]) > U64_MAX ==> p.Failed?)
              && (NumberOf(all[start..end]) <= U64_MAX ==>
                    p == Parsed(all[start..end], all[end..]) && IsNumber(all[start..end]))
  {
    hide NumberOf;
    var digits := Digits(all[start..]);
    if ok {
      assert digits == all[start..][..|digits|] == all[start..end];
      assert all[start..][|digits|..] == all[end..];
    }
  }

  lemma NumberStep(digits: text, i: nat)
    requires i < |digits| && forall k :: 0 <= k < |digits| ==> IsDigit(digits[k])
    ensures IsDigit(digits[i])
    ensures NumberOf(digits[..i + 1]) == 10 * NumberOf(digits[..i]) + (digits[i] as int - 0x30)
  {
    assert digits[..i + 1][..i] == digits[..i];
  }

  /** More digits never make a number smaller, so an overflow on the way is an overflow at the end. */
  lemma {:induction false} NumberGrows(digits: text, i: nat)
    requires i <= |digits| && forall k :: 0 <= k < |digits| ==> IsDigit(digits[k])
    ensures NumberOf(digits[..i]) <= NumberOf(digits)
    decreases |digits| - i
  {
    if i < |digits| {
      NumberStep(digits, i);
      NumberGrows(digits, i + 1);
    } else {
      assert digits[..i] == digits;
    }
  }

  /** The conversion of a run of digits, one digit at a time in a machine word. */
  method FromChars(digits: text) returns (r: Option<nat>)
    requires forall k :: 0 <= k < |digits| ==> IsDigit(digits[k])
    ensures r == if NumberOf(digits) > U64_MAX then None else Some(NumberOf(digits))
  {
    hide NumberOf;
    var number := 0;
    NoDigits(digits);
    for i := 0 to |digits|
      invariant number == NumberOf(digits[..i]) <= U64_MAX
    {
      NumberStep(digits, i);
      var digit := digits[i] as int - 0x30;
      if number > (U64_MAX - digit) / 10 {
        NumberGrows(digits, i + 1);
        return None;
      }
      number := 10 * number + digit;
    }
    assert digits[..|digits|] == digits;
    r := Some(number);
  }

  lemma NoDigits(digits: text)
    requires forall k :: 0 <= k < |digits| ==> IsDigit(digits[k])
    ensures NumberOf(digits[..0]) == 0
  {
  }

  class Document {
    var storage: text
    var cursor: nat
    var tables: Tables

    constructor ()
      ensures storage == [] && cursor == 0 && tables == EMPTY
    {
      storage, cursor, tables := [], 0, EMPTY;
    }

    ghost predicate Valid()
      reads this
    {
      cursor <= |storage| && Fits(tables) && AllBelow(tables)
    }

    /** The text not read yet. */
    ghost function Rest(): text
      reads this
      requires cursor <= |storage|
    {
      storage[cursor..]
    }

    method SkipSpace()
      requires cursor <= |storage|
      modifies this`cursor
      ensures old(cursor) <= cursor <= |storage| && Rest() == Skip(old(Rest()))
    {
      hide Skip, IsSpace;
      cursor := AfterSpace(storage, cursor);
    }

    /** Reads one given byte if it comes next. */
    method Take(b: byte) returns (ok: bool)
      requires cursor <= |storage|
      modifies this`cursor
      ensures ok <==> old(Rest()) != [] && old(Rest())[0] == b
      ensures if ok then cursor == old(cursor) + 1 <= |storage| && Rest() == old(Rest())[1..]
              else cursor == old(cursor)
    {
      ok := cursor < |storage| && storage[cursor] == b;
      if ok {
        cursor := cursor + 1;
      }
    }

    method ReadString() returns (ok: bool, raw: text)
      requires cursor <= |storage|
      modifies this`cursor
      ensures old(cursor) <= cursor <= |storage|
      ensures var p := ParseString(old(Rest()));
              && (ok <==> p.Parsed?)
              && (ok ==> raw == p.value && Rest() == p.rest)
    {
      hide UnitLength, ParseBody;
      raw := [];
      var all := storage;
      if cursor >= |all| || all[cursor] != QUOTE {
        return false, raw;
      }
      cursor := cursor + 1;
      var start := cursor;
      assert old(Rest())[1..] == all[start..];
      ghost var whole := ParseBody(all[start..]);
      while cursor < |all|
        invariant start <= cursor <= |all|
        invariant ParseBody(all[cursor..]).Parsed? <==> whole.Parsed?
        invariant whole.Parsed? ==> whole.value == all[start..cursor] + ParseBody(all[cursor..]).value
        invariant whole.Parsed? ==> whole.rest == ParseBody(all[cursor..]).rest
        decreases |all| - cursor
      {
        BodyCases(all[cursor..]);
        if all[cursor] == QUOTE {
          raw := all[start..cursor];
          assert all[cursor..][1..] == all[cursor + 1..];
          cursor := cursor + 1;
          return true, raw;
        }
        var n := CharacterLength();
        if n == 0 {
          return false, raw;
        }
        BodyTurn(all, start, cursor, n);
        cursor := cursor + n;
      }
      BodyCases(all[cursor..]);
      return false, raw;
    }

    /** The checks on one string character: control bytes, escapes and `\uXXXX`. */
    method CharacterLength() returns (n: nat)
      requires cursor < |storage| && storage[cursor] != QUOTE
      ensures n == UnitLength(storage[cursor..])
    {
      ghost var s := storage[cursor..];
      var character := storage[cursor];
      if character < 0x20 {
        return 0;
      }
      if character == BACKSLASH {
        if cursor + 1 >= |storage| {
          return 0;
        }
        var escape := storage[cursor + 1];
        assert escape == s[1];
        if escape == 0x75 {
          if cursor + 1 + 4 >= |storage| {
            return 0;
          }
          for digit := 1 to 5
            invariant forall k :: 2 <= k < digit + 1 ==> IsHex(s[k])
          {
            assert s[1 + digit] == storage[cursor + 1 + digit];
            if !IsHex(storage[cursor + 1 + digit]) {
              return 0;
            }
          }
          return 6;
        }
        if escape !in [QUOTE, BACKSLASH, 0x2F, 0x62, 0x66, 0x6E, 0x72, 0x74] {
          return 0;
        }
        return 2;
      }
      return 1;
    }

    method ReadNumber() returns (ok: bool, number: nat)
      requires cursor <= |storage|
      modifies this`cursor
      ensures old(cursor) <= cursor <= |storage|
      ensures var p := ParseNumber(old(Rest()));
              && (ok <==> p.Parsed?)
              && (ok ==> number == NumberOf(p.value) && Rest() == p.rest)
              && (ok ==> number <= U64_MAX && p.value == Decimal(number))
    {
      hide Digits, NumberOf, Decimal;
      number := 0;
      var all, start := storage, cursor;
      ok, cursor := ScanNumber(all, start);
      ScannedNumber(all, start, cursor, ok);
      if !ok {
        return false, 0;
      }
      var converted := FromChars(all[start..cursor]);
      if converted.None? {
        return false, 0;
      }
      NumbersAreDecimal(all[start..cursor], converted.value);
      return true, converted.value;
    }

    method AppendNode(kind: Kind) returns (ok: bool, output: nat)
      requires Valid()
      modifies this`tables
      ensures Valid()
      ensures ok <==> |old(tables).nodes| < MAXIMUM_NODES
      ensures ok ==> output == |old(tables).nodes| && tables == AddNode(old(tables), Node(kind, [], [], 0, false))
      ensures !ok ==> tables == old(tables)
    {
      output := 0;
      if |tables.nodes| == MAXIMUM_NODES {
        return false, 0;
      }
      output := |tables.nodes|;
      tables := AddNode(tables, Node(kind, [], [], 0, false));
      ok := true;
    }

    /** Whether the open object already has this key. */
    method HasKey(parent: nat, key: text, ghost t: Tables, ghost done: seq<Kid>) returns (found: bool)
      requires tables == AddKids(t, true, parent, done)
      requires parent < |t.nodes| && NoneIn(t.members, parent, parent + 1)
      ensures found <==> key in Keys(done)
    {
      hide AddKids, Keys, NoneIn;
      KeySeen(t, parent, done, key);
      var members := tables.members;
      for member := 0 to |members|
        invariant forall i :: 0 <= i < member ==> !(members[i].parent == parent && members[i].key == key)
      {
        if members[member].parent == parent && members[member].key == key {
          return true;
        }
      }
      return false;
    }

    /** Reads what stands before a child's value: nothing in an array, a new key and a colon in an object. */
    method ReadLabel(keyed: bool, parent: nat, ghost s: text, ghost t: Tables, ghost done: seq<Kid>)
      returns (ok: bool, key: text)
      requires cursor <= |storage| && Rest() == Skip(s)
      requires tables == AddKids(t, keyed, parent, done)
      requires parent < |t.nodes| && NoneIn(t.members, parent, parent + 1)
      modifies this`cursor
      ensures old(cursor) <= cursor <= |storage|
      ensures var p := ParseLabel(keyed, s);
              && (ok <==> p.Parsed? && !(keyed && p.value.key in Keys(done)))
              && (ok ==> key == p.value.key && Rest() == p.rest)
    {
      hide Skip, Spaces, ParseBody, AddKids, Keys, NoneIn;
      key := [];
      if !keyed {
        return true, key;
      }
      ok, key := ReadString();
      if !ok {
        return false, key;
      }
      var found := HasKey(parent, key, t, done);
      if found {
        return false, key;
      }
      ok := ReadColon();
    }

    method ReadColon() returns (ok: bool)
      requires cursor <= |storage|
      modifies this`cursor
      ensures old(cursor) <= cursor <= |storage|
      ensures var colon := Skip(old(Rest()));
              && (ok <==> colon != [] && colon[0] == COLON)
              && (ok ==> Rest() == Skip(colon[1..]))
    {
      hide Skip;
      SkipSpace();
      ok := Take(COLON);
      if ok {
        SkipSpace();
      }
    }

    /** After a child: the closing bracket, or a comma and the spaces behind it. */
    method ReadSeparator(keyed: bool) returns (next: Separator)
      requires cursor <= |storage|
      modifies this`cursor
      ensures old(cursor) <= cursor <= |storage|
      ensures var end := Skip(old(Rest()));
              && next == SeparatorAt(keyed, end)
              && (next == Closed ==> Rest() == end[1..] && cursor > old(cursor))
              && (next == Another ==> Rest() == Skip(end[1..]) && cursor > old(cursor))
    {
      hide Skip;
      SkipSpace();
      var closed := Take(Closing(keyed));
      if closed {
        return Closed;
      }
      var another := Take(COMMA);
      if !another {
        return Broken;
      }
      SkipSpace();
      return Another;
    }

    /** The children of the array or object whose node is `parent`, from its opening bracket on. */
    method ReadContainer(keyed: bool, parent: nat, depth: nat) returns (ok: bool)
      requires Valid() && depth <= MAXIMUM_DEPTH
      requires cursor < |storage| && storage[cursor] == Opening(keyed)
      requires parent + 1 == |tables.nodes| && NoneIn(tables.members, parent, parent + 1)
      modifies this`cursor, this`tables
      ensures Valid() && cursor > old(cursor)
      ensures var r := ParseContainer(keyed, old(Rest()), MAXIMUM_DEPTH - depth);
              && (ok <==> r.Parsed? && Fits(AddKids(old(tables), keyed, parent, r.value.kids)))
              && (ok ==> tables == AddKids(old(tables), keyed, parent, r.value.kids) && Rest() == r.rest)
      decreases |storage| - cursor, 1
    {
      hide Skip, Spaces, ParseKids, ParseContainer, AddKids, AllBelow, Fits, NoneIn;
      hide Opening, Closing;
      ghost var here := Rest();
      ContainerCases(keyed, here, MAXIMUM_DEPTH - depth);
      NoKidsAdded(tables, keyed, parent);
      cursor := cursor + 1;
      SkipSpace();
      ok := Take(Closing(keyed));
      if !ok {
        ok := ReadChildren(keyed, parent, depth, here[1..]);
      }
    }

    /** The loop over a container's children. */
    method ReadChildren(keyed: bool, parent: nat, depth: nat, ghost first: text) returns (ok: bool)
      requires Valid() && depth <= MAXIMUM_DEPTH && Rest() == Skip(first)
      requires parent + 1 == |tables.nodes| && NoneIn(tables.members, parent, parent + 1)
      modifies this`cursor, this`tables
      ensures Valid() && cursor >= old(cursor)
      ensures var kids := ParseKids(keyed, first, MAXIMUM_DEPTH - depth - 1, {});
              && (ok <==> kids.Parsed? && Fits(AddKids(old(tables), keyed, parent, kids.value)))
              && (ok ==> tables == AddKids(old(tables), keyed, parent, kids.value) && Rest() == kids.rest)
      decreases |storage| - cursor, 5
    {
      hide Skip, Spaces, ParseKids, AddKids, Progress, Keys, FirstChild, ChildRest, ChildParses;
      hide AllBelow, Fits, NoneIn;
      ghost var t, d := tables, MAXIMUM_DEPTH - depth - 1;
      ghost var s, whole := first, ParseKids(keyed, first, d, {});
      ghost var done: seq<Kid> := [];
      NoKidsAdded(t, keyed, parent);
      ProgressStart(keyed, d, whole, s);
      while cursor < |storage|
        invariant Valid() && old(cursor) <= cursor
        invariant Rest() == Skip(s)
        invariant tables == AddKids(t, keyed, parent, done)
        invariant Progress(keyed, d, whole, done, s)
        decreases |storage| - cursor
      {
        ok := ReadChild(keyed, parent, depth, s, t, done, whole);
        if !ok {
          return false;
        }
        ProgressStep(keyed, d, whole, done, s);
        ghost var end := Skip(ChildRest(keyed, d, s));
        done := done + [FirstChild(keyed, d, s)];
        var next := ReadSeparator(keyed);
        if next == Closed {
          return true;
        }
        if next == Broken {
          return false;
        }
        s := end[1..];
      }
      ProgressEnd(keyed, d, whole, done, s);
      return false;
    }

    /** One child: label, value, and the entry that points at the value. */
    method ReadChild(keyed: bool, parent: nat, depth: nat, ghost s: text, ghost t: Tables, ghost done: seq<Kid>,
                     ghost whole: Parse<seq<Kid>>) returns (ok: bool)
      requires Valid() && depth <= MAXIMUM_DEPTH && Rest() == Skip(s)
      requires tables == AddKids(t, keyed, parent, done)
      requires AllBelow(t) && parent < |t.nodes| && NoneIn(t.members, parent, parent + 1)
      requires Progress(keyed, MAXIMUM_DEPTH - depth - 1, whole, done, s)
      modifies this`cursor, this`tables
      ensures Valid() && cursor >= old(cursor)
      ensures !ok ==> whole.Failed? || !Fits(AddKids(t, keyed, parent, whole.value))
      ensures ok ==>
                && ChildParses(keyed, MAXIMUM_DEPTH - depth - 1, s, Keys(done))
                && cursor > old(cursor)
                && tables == AddKids(t, keyed, parent, done + [FirstChild(keyed, MAXIMUM_DEPTH - depth - 1, s)])
                && Rest() == ChildRest(keyed, MAXIMUM_DEPTH - depth - 1, s)
      decreases |storage| - cursor, 4
    {
      hide Skip, Spaces, ParseKids, ParseValue, ParseLabel, AddKids, Add, Keys, NoneIn, Progress;
      hide FirstChild, ChildRest, ChildParses, Fits, AllBelow, AddEntry, Full;
      ghost var d := MAXIMUM_DEPTH - depth - 1;
      ghost var kid := FirstChild(keyed, d, s);
      ChildCases(keyed, d, whole, done, s);
      ChildParts(keyed, d, s, Keys(done));
      ChildTables(t, keyed, parent, done, kid, whole);
      var key;
      ok, key := ReadLabel(keyed, parent, s, t, done);
      if !ok {
        return false;
      }
      LabelIsSkipped(keyed, s);
      var value;
      ok, value := ReadValue(depth + 1);
      if !ok || Full(tables, keyed) {
        return false;
      }
      tables := AddEntry(tables, keyed, Entry(parent, key, value));
      AddKidsKeepsBelow(t, keyed, parent, done + [kid]);
      return true;
    }

    /**
     Reads a whole document. It succeeds exactly on the texts of the subset that stay within the
     depth limit and the table capacities, and the tables then denote the tree of the text.
     */
    method Load(contents: text) returns (ok: bool)
      modifies this
      ensures ok <==> exists d :: Accepts(contents, d)
      ensures forall d :: ok && Accepts(contents, d) ==> Denotes(tables, 0, d.value)
      ensures forall n :: LeafNode(contents, n) ==> ok && tables.nodes == [n]
    {
      hide ParseValue, Skip, Spaces, Add, Denotes, Onto, LeafNode;
      forall n | LeafNode(contents, n)
        ensures Accepts(contents, LeafDocument(contents, n)) && Add(EMPTY, LeafDocument(contents, n).value).nodes == [n]
      {
        LeafAccepted(contents, n);
      }
      if |contents| > MAXIMUM_DOCUMENT_BYTES || |contents| == 0 {
        return false;
      }
      storage, cursor, tables := contents, 0, EMPTY;
      assert contents[0..] == contents;
      AcceptsExactly(contents);
      var root;
      ok, root := ReadValue(0);
      if !ok {
        return false;
      }
      ghost var v := ParseValue(Skip(contents), MAXIMUM_DEPTH).value;
      ParsedTablesDenote(v);
      SkipSpace();
      ok := cursor == |storage|;
    }

    /** The i-th child of an array, found by counting the entries of that array; no node has none. */
    method Element(node: Option<nat>, ordinal: nat, ghost v: Value) returns (r: Option<nat>)
      requires node.Some? ==> Denotes(tables, node.value, v)
      ensures r.Some? <==> node.Some? && v.Container? && !v.keyed && ordinal < |v.kids|
      ensures r.Some? ==> Denotes(tables, r.value, v.kids[ordinal].value)
    {
      hide ChildrenOf, Denotes;
      if node.None? {
        return None;
      }
      var t, index := tables, node.value;
      DenotedNode(t, index, v);
      if t.nodes[index].kind != ArrayKind {
        return None;
      }
      DenotedChildren(t, index, v);
      NoChildren(t.elements, index);
      var es, found := t.elements, 0;
      ghost var own := ChildrenOf(es, index);
      for element := 0 to |es|
        invariant found <= ordinal && found == |ChildrenOf(es[..element], index)|
      {
        ChildrenStep(es, index, element);
        if es[element].parent == index {
          if found == ordinal {
            assert own[ordinal] == es[element];
            return Some(es[element].value);
          }
          found := found + 1;
        }
      }
      assert es[..|es|] == es;
      r := None;
    }

    method ElementCount(node: Option<nat>, ghost v: Value) returns (count: nat)
      requires node.Some? ==> Denotes(tables, node.value, v)
      ensures count == if node.Some? && v.Container? && !v.keyed then |v.kids| else 0
    {
      hide ChildrenOf, Denotes;
      if node.None? {
        return 0;
      }
      var t, index := tables, node.value;
      DenotedNode(t, index, v);
      if t.nodes[index].kind != ArrayKind {
        return 0;
      }
      DenotedChildren(t, index, v);
      NoChildren(t.elements, index);
      var es := t.elements;
      count := 0;
      for element := 0 to |es|
        invariant count == |ChildrenOf(es[..element], index)|
      {
        ChildrenStep(es, index, element);
        if es[element].parent == index {
          count := count + 1;
        }
      }
      assert es[..|es|] == es;
    }

    /** The member of an object with a given raw key. */
    method Field(node: Option<nat>, key: text, ghost v: Value) returns (r: Option<nat>)
      requires node.Some? ==> Denotes(tables, node.value, v) && WellFormed(v)
      ensures r.Some? <==> node.Some? && v.Container? && v.keyed && key in Keys(v.kids)
      ensures r.Some? ==> forall i :: 0 <= i < |v.kids| && v.kids[i].lbl.key == key ==>
                Denotes(tables, r.value, v.kids[i].value)
    {
      hide ChildrenOf, WellFormed, Denotes, Keys;
      if node.None? {
        return None;
      }
      var t, index := tables, node.value;
      DenotedNode(t, index, v);
      if t.nodes[index].kind != ObjectKind {
        return None;
      }
      DenotedChildren(t, index, v);
      NoChildren(t.members, index);
      var es := t.members;
      ghost var own := ChildrenOf(es, index);
      for member := 0 to |es|
        invariant ChildrenOf(es[..member], index) <= own
        invariant forall i :: 0 <= i < |ChildrenOf(es[..member], index)| ==> own[i].key != key
      {
        ghost var found := |ChildrenOf(es[..member], index)|;
        ChildrenStep(es, index, member);
        if es[member].parent == index && es[member].key == key {
          assert own[found] == es[member];
          UniqueKey(v, found);
          return Some(es[member].value);
        }
      }
      assert es[..|es|] == es;
      NoSuchKey(v.kids, own, key);
      r := None;
    }

    /** What reading one value into the tables must come to. */
    ghost predicate ValueRead(ok: bool, output: nat, t: Tables, r: Parse<Value>)
      reads this
      requires cursor <= |storage|
    {
      && (ok <==> r.Parsed? && Fits(Add(t, r.value)))
      && (ok ==> tables == Add(t, r.value) && Rest() == r.rest && output == |t.nodes|)
    }

    method ReadValue(depth: nat) returns (ok: bool, output: nat)
      requires Valid()
      modifies this`cursor, this`tables
      ensures Valid() && cursor >= old(cursor) && (ok ==> cursor > old(cursor))
      ensures ValueRead(ok, output, old(tables), ParseValue(Skip(old(Rest())), MAXIMUM_DEPTH - depth))
      decreases |storage| - cursor, 3
    {
      hide Skip, ParseValue, ParseContainer, ParseString, ParseWord, Add, AllBelow, Fits;
      ok, output := false, 0;
      ValueFails(Skip(Rest()), MAXIMUM_DEPTH - depth);
      if depth > MAXIMUM_DEPTH {
        return;
      }
      SkipSpace();
      if cursor >= |storage| {
        return;
      }
      var character := storage[cursor];
      ghost var s := Rest();
      assert s == Skip(old(Rest())) && s != [] && s[0] == character;
      ValueCases(s, MAXIMUM_DEPTH - depth);
      if character == QUOTE {
        ok, output := ReadStringValue();
      } else if character == Opening(true) {
        ok, output := ReadContainerValue(true, depth);
      } else if character == Opening(false) {
        ok, output := ReadContainerValue(false, depth);
      } else {
        ok, output := ReadWord();
      }
    }

    /** `true`, `false`, `null` or a number. */
    method ReadWord() returns (ok: bool, output: nat)
      requires Valid() && cursor < |storage|
      modifies this`cursor, this`tables
      ensures Valid() && cursor >= old(cursor) && (ok ==> cursor > old(cursor))
      ensures ValueRead(ok, output, old(tables), ParseWord(old(Rest())))
    {
      hide ParseNumber, Add, AllBelow, Fits, Onto;
      var character := storage[cursor];
      LiteralAt(storage, cursor);
      if character == 0x74 && cursor + 4 <= |storage| && storage[cursor..cursor + 4] == TRUE {
        ok, output := ReadLiteral(Bool(true), 4);
      } else if character == 0x66 && cursor + 5 <= |storage| && storage[cursor..cursor + 5] == FALSE {
        ok, output := ReadLiteral(Bool(false), 5);
      } else if character == 0x6E && cursor + 4 <= |storage| && storage[cursor..cursor + 4] == NULL {
        ok, output := ReadLiteral(Null, 4);
      } else {
        ok, output := ReadNumberValue();
      }
    }

    method ReadStringValue() returns (ok: bool, output: nat)
      requires Valid() && cursor < |storage| && storage[cursor] == QUOTE
      modifies this`cursor, this`tables
      ensures Valid() && cursor >= old(cursor) && (ok ==> cursor > old(cursor))
      ensures var body := ParseString(old(Rest()));
              ValueRead(ok, output, old(tables), if body.Failed? then Failed else Parsed(String(body.value), body.rest))
    {
      hide ParseBody, Add, AllIn;
      var start := cursor;
      ghost var t := tables;
      StringText(storage, start);
      AddGrows(t);
      ok, output := AppendNode(StringKind);
      if !ok {
        return;
      }
      var raw;
      ok, raw := ReadString();
      if !ok {
        return;
      }
      RawText(storage, start, cursor, String(raw));
      FinishNode(output, tables.nodes[output].(str := raw), start, String(raw), t);
    }

    method ReadNumberValue() returns (ok: bool, output: nat)
      requires Valid() && cursor < |storage|
      modifies this`cursor, this`tables
      ensures Valid() && cursor >= old(cursor) && (ok ==> cursor > old(cursor))
      ensures var digits := ParseNumber(old(Rest()));
              ValueRead(ok, output, old(tables),
                        if digits.Failed? then Failed else Parsed(Number(digits.value), digits.rest))
    {
      hide ParseNumber, Add, AllIn, NumberOf;
      var start := cursor;
      ghost var t, digits := tables, ParseNumber(Rest());
      NumberText(storage, start);
      AddGrows(t);
      ok, output := AppendNode(NumberKind);
      if !ok {
        return;
      }
      var number;
      ok, number := ReadNumber();
      if !ok {
        return;
      }
      RawText(storage, start, cursor, Number(digits.value));
      FinishNode(output, tables.nodes[output].(number := number), start, Number(digits.value), t);
    }

    method ReadLiteral(v: Value, n: nat) returns (ok: bool, output: nat)
      requires Valid() && (v.Null? || v.Bool?) && n > 0 && cursor + n <= |storage|
      requires storage[cursor..cursor + n] == Render(v)
      modifies this`cursor, this`tables
      ensures Valid() && cursor >= old(cursor) && (ok ==> cursor > old(cursor))
      ensures ValueRead(ok, output, old(tables), Parsed(v, old(Rest())[n..]))
    {
      hide Add, AllIn, Onto;
      var start := cursor;
      ghost var t := tables;
      AddGrows(t);
      ok, output := AppendNode(KindOf(v));
      if !ok {
        return;
      }
      var node := tables.nodes[output];
      if v.Bool? {
        node := node.(boolean := v.value);
      }
      assert Rest()[n..] == storage[cursor + n..];
      cursor := cursor + n;
      FinishNode(output, node, start, v, t);
    }

    method ReadContainerValue(keyed: bool, depth: nat) returns (ok: bool, output: nat)
      requires Valid() && depth <= MAXIMUM_DEPTH && cursor < |storage| && storage[cursor] == Opening(keyed)
      modifies this`cursor, this`tables
      ensures Valid() && cursor >= old(cursor) && (ok ==> cursor > old(cursor))
      ensures ValueRead(ok, output, old(tables), ParseContainer(keyed, old(Rest()), MAXIMUM_DEPTH - depth))
      decreases |storage| - cursor, 2
    {
      hide ParseContainer, Add, KidsTable, KidsNodes, NodeFor, Onto;
      var start := cursor;
      ghost var t, r := tables, ParseContainer(keyed, Rest(), MAXIMUM_DEPTH - depth);
      AddGrows(t);
      if r.Parsed? {
        DropOne(storage, cursor);
        ContainerSound(keyed, Rest(), MAXIMUM_DEPTH - depth);
        AddContainer(t, r.value);
        ReplaceNode(t, Node(KindOf(r.value), [], [], 0, false), NodeFor(r.value), keyed, r.value.kids);
      }
      ok, output := AppendNode(if keyed then ObjectKind else ArrayKind);
      if !ok {
        return;
      }
      ok := ReadContainer(keyed, output, depth);
      if !ok {
        return;
      }
      ContainerNode(r.value);
      RawText(storage, start, cursor, r.value);
      tables := tables.(nodes := tables.nodes[output := tables.nodes[output].(raw := storage[start..cursor])]);
      AddKeepsBelow(t, r.value);
    }

    /** Stores a finished scalar node, with the text it was read from. */
    method FinishNode(output: nat, node: Node, start: nat, ghost v: Value, ghost t: Tables)
      requires Valid() && AllBelow(t) && output == |t.nodes| && |tables.nodes| == output + 1
      requires tables.(nodes := tables.nodes[..output]) == t && start <= cursor
      requires !v.Container? && storage[start..cursor] == Render(v)
      requires node.(raw := Render(v)) == NodeFor(v)
      modifies this`tables
      ensures Valid() && tables == Add(t, v)
    {
      AddScalar(t, v);
      var nodes := tables.nodes[output := node.(raw := storage[start..cursor])];
      assert nodes == t.nodes + [NodeFor(v)];
      tables := tables.(nodes := nodes);
    }
  }

  /** Reading any value takes at least one node. */
  lemma AddGrows(t: Tables)
    ensures forall v :: |Add(t, v).nodes| > |t.nodes|
  {
    hide NodesOf, TableOf;
  }

  lemma ContainerNode(v: Value)
    requires v.Container?
    ensures NodeFor(v) == Node(if v.keyed then ObjectKind else ArrayKind, [], Render(v), 0, false)
  {
  }

  lemma StringText(storage: text, start: nat)
    requires start < |storage| && storage[start] == QUOTE
    ensures var p := ParseString(storage[start..]);
            p.Parsed? ==> storage[start..] == Onto(String(p.value), p.rest)
  {
    DropOne(storage, start);
    if ParseString(storage[start..]).Parsed? {
      BodySound(storage[start..][1..]);
      Uncons(storage[start..]);
    }
  }

  lemma NumberText(storage: text, start: nat)
    requires start < |storage|
    ensures var p := ParseNumber(storage[start..]);
            p.Parsed? ==> storage[start..] == Onto(Number(p.value), p.rest) && IsNumber(p.value)
  {
    hide NumberOf;
    DigitRun(storage, start);
  }

  /** The text a value was read from is the text of its tree. */
  lemma RawText(storage: text, start: nat, cursor: nat, v: Value)
    requires start <= cursor <= |storage| && storage[start..] == Onto(v, storage[cursor..])
    ensures storage[start..cursor] == Render(v)
  {
    hide Onto;
    var rest := storage[cursor..];
    OntoConcat(v, [], rest);
    assert [] + rest == rest;
    assert storage[start..] == storage[start..cursor] + rest;
  }

  lemma ValueFails(s: text, depth: int)
    ensures depth < 0 || s == [] ==> ParseValue(s, depth).Failed?
  {
  }

  /** Which reader a value's first byte selects. */
  lemma ValueCases(s: text, depth: int)
    requires s != [] && depth >= 0
    ensures ParseValue(s, depth) ==
            if s[0] == QUOTE then
              var body := ParseString(s);
              if body.Failed? then Failed else Parsed(String(body.value), body.rest)
            else if s[0] == Opening(true) then ParseContainer(true, s, depth)
            else if s[0] == Opening(false) then ParseContainer(false, s, depth)
            else ParseWord(s)
  {
  }

  lemma LiteralAt(storage: text, cursor: nat)
    requires cursor < |storage|
    ensures TRUE <= storage[cursor..] <==> cursor + 4 <= |storage| && storage[cursor..cursor + 4] == TRUE
    ensures FALSE <= storage[cursor..] <==> cursor + 5 <= |storage| && storage[cursor..cursor + 5] == FALSE
    ensures NULL <= storage[cursor..] <==> cursor + 4 <= |storage| && storage[cursor..cursor + 4] == NULL
    ensures cursor + 4 <= |storage| && storage[cursor..cursor + 4] == TRUE ==> storage[cursor] == 0x74
    ensures cursor + 5 <= |storage| && storage[cursor..cursor + 5] == FALSE ==> storage[cursor] == 0x66
    ensures cursor + 4 <= |storage| && storage[cursor..cursor + 4] == NULL ==> storage[cursor] == 0x6E
    ensures Render(Bool(true)) == TRUE && Render(Bool(false)) == FALSE && Render(Null) == NULL
  {
  }

  datatype Separator = Closed | Another | Broken

  function SeparatorAt(keyed: bool, end: text): Separator {
    if end == [] then Broken
    else if end[0] == Closing(keyed) then Closed
    else if end[0] == COMMA then Another
    else Broken
  }

  lemma ContainerCases(keyed: bool, s: text, depth: int)
    requires s != []
    ensures var inner := Skip(s[1..]);
            ParseContainer(keyed, s, depth)
            == if inner != [] && inner[0] == Closing(keyed)
               then Parsed(Container(keyed, Spaces(s[1..]), []), inner[1..])
               else
                 var kids := ParseKids(keyed, s[1..], depth - 1, {});
                 if kids.Failed? then Failed else Parsed(Container(keyed, [], kids.value), kids.rest)
  {
  }

  // ---- Whole documents and lookups ----

  /** A text of the subset, the document it is the text of, and the limits of the reader. */
  ghost predicate Accepts(contents: text, d: G.Document) {
    && 0 < |contents| <= MAXIMUM_DOCUMENT_BYTES
    && contents == DocumentText(d) && DocumentWellFormed(d)
    && Height(d.value) <= MAXIMUM_DEPTH && Fits(Add(EMPTY, d.value))
  }

  /** The node of a document without children: the word, number, string or empty container that the text spells. */
  ghost predicate LeafNode(contents: text, n: Node) {
    match n.kind
    case NullKind => contents == Ascii("null") && n == Node(NullKind, [], contents, 0, false)
    case BoolKind =>
      contents == Ascii(if n.boolean then "true" else "false") && n == Node(BoolKind, [], contents, 0, n.boolean)
    case NumberKind =>
      && n.number <= U64_MAX && contents == Decimal(n.number)
      && n == Node(NumberKind, [], contents, n.number, false)
    case StringKind =>
      && IsBody(n.str) && |contents| <= MAXIMUM_DOCUMENT_BYTES && contents == Ascii("\"") + n.str + Ascii("\"")
      && n == Node(StringKind, n.str, contents, 0, false)
    case ArrayKind => contents == Ascii("[]") && n == Node(ArrayKind, [], contents, 0, false)
    case ObjectKind => contents == Ascii("{}") && n == Node(ObjectKind, [], contents, 0, false)
  }

  ghost function LeafDocument(contents: text, n: Node): G.Document {
    G.Document([], match n.kind {
      case NullKind => Null
      case BoolKind => Bool(n.boolean)
      case NumberKind => Number(contents)
      case StringKind => String(n.str)
      case ArrayKind => Container(false, [], [])
      case ObjectKind => Container(true, [], [])
    }, [])
  }

  lemma LeafAccepted(contents: text, n: Node)
    requires LeafNode(contents, n)
    ensures Accepts(contents, LeafDocument(contents, n))
    ensures Add(EMPTY, LeafDocument(contents, n).value).nodes == [n]
  {
    hide IsBody, Decimal, NumberOf, Add;
    var v := LeafDocument(contents, n).value;
    LeafText(contents, n);
    AddLeaf(v);
  }

  lemma LeafText(contents: text, n: Node)
    requires LeafNode(contents, n)
    ensures var v := LeafDocument(contents, n).value;
            && 0 < |contents| <= MAXIMUM_DOCUMENT_BYTES && Render(v) == contents && WellFormed(v) && NodeFor(v) == n
  {
    hide IsBody, Decimal, NumberOf, IsNumber, Ascii;
    if n.kind.NumberKind? {
      NumbersAreDecimal(contents, n.number);
      WordLength(n.number);
      DecimalReads(n.number);
      NumberNode(contents, n.number);
      assert contents + [] == contents;
    } else {
      Spellings();
      if n.kind.StringKind? {
        assert [QUOTE] + (n.str + ([QUOTE] + [])) == [QUOTE] + n.str + [QUOTE];
      }
    }
  }

  lemma NumberNode(digits: text, n: nat)
    requires IsNumber(digits) && NumberOf(digits) == n
    ensures WellFormed(Number(digits)) && NodeFor(Number(digits)) == Node(NumberKind, [], digits, n, false)
  {
    assert digits + [] == digits;
  }

  lemma Spellings()
    ensures NULL == Ascii("null") && TRUE == Ascii("true") && FALSE == Ascii("false") && Ascii("\"") == [QUOTE]
    ensures Ascii("[]") == [Opening(false), Closing(false)] && Ascii("{}") == [Opening(true), Closing(true)]
  {
  }

  lemma AddLeaf(v: Value)
    requires v.Container? ==> v.kids == []
    ensures Add(EMPTY, v).nodes == [NodeFor(v)] && Fits(Add(EMPTY, v)) && Height(v) == 0
  {
    hide NodeFor;
    if v.Container? {
      AddContainer(EMPTY, v);
      NoKidsAdded(AddNode(EMPTY, NodeFor(v)), v.keyed, 0);
    } else {
      AddScalar(EMPTY, v);
    }
  }

  /** The number of a node, wherever it is in the document, is the one that the text spells there. */
  lemma NumberDenoted(t: Tables, index: nat, v: Value)
    requires Denotes(t, index, v) && v.Number? && WellFormed(v)
    ensures t.nodes[index].number <= U64_MAX && Render(v) == v.digits == Decimal(t.nodes[index].number)
  {
    hide Decimal, NumberOf;
    assert Render(v) == v.digits + [];
    NumbersAreDecimal(v.digits, t.nodes[index].number);
  }

  lemma AcceptsExactly(contents: text)
    requires 0 < |contents| <= MAXIMUM_DOCUMENT_BYTES
    ensures var v := ParseValue(Skip(contents), MAXIMUM_DEPTH);
            && ((exists d :: Accepts(contents, d))
                <==> v.Parsed? && Skip(v.rest) == [] && Fits(Add(EMPTY, v.value)))
            && (forall d :: Accepts(contents, d) ==> v.Parsed? && d.value == v.value)
  {
    hide ParseValue, Skip, Spaces, Add, DocumentText, DocumentWellFormed;
    forall d
      ensures ParseDocument(contents, MAXIMUM_DEPTH) == Some(d)
              <==> DocumentWellFormed(d) && Height(d.value) <= MAXIMUM_DEPTH && contents == DocumentText(d)
    {
      ParsesExactly(contents, MAXIMUM_DEPTH, d);
    }
    var p := ParseDocument(contents, MAXIMUM_DEPTH);
    if p.Some? {
      assert Accepts(contents, p.value) <==> Fits(Add(EMPTY, p.value.value));
    }
  }

  lemma ChildrenStep(es: seq<Entry>, index: nat, element: nat)
    requires element < |es|
    ensures var before, after := ChildrenOf(es[..element], index), ChildrenOf(es[..element + 1], index);
            && after == (if es[element].parent == index then before + [es[element]] else before)
            && after <= ChildrenOf(es, index)
  {
    hide Within;
    assert es[..element + 1][..element] == es[..element];
    WithinStep(es[..element + 1], index, index + 1);
    assert es == es[..element + 1] + es[element + 1..];
    WithinConcat(es[..element + 1], es[element + 1..], index, index + 1);
  }

  lemma DenotedNode(t: Tables, index: nat, v: Value)
    requires Denotes(t, index, v)
    ensures index < |t.nodes| && t.nodes[index].kind == KindOf(v)
  {
    hide ChildrenOf, Render;
  }

  lemma DenotedChildren(t: Tables, index: nat, v: Value)
    requires Denotes(t, index, v) && v.Container?
    ensures var own := ChildrenOf(t.Children(v.keyed), index);
            && |own| == |v.kids|
            && (forall i :: 0 <= i < |own| ==>
                  own[i].key == v.kids[i].lbl.key && Denotes(t, own[i].value, v.kids[i].value))
  {
    hide ChildrenOf;
  }

  lemma NoSuchKey(kids: seq<Kid>, own: seq<Entry>, key: text)
    requires |own| == |kids|
    requires forall i :: 0 <= i < |own| ==> own[i].key == kids[i].lbl.key && own[i].key != key
    ensures key !in Keys(kids)
  {
  }

  lemma NoChildren(es: seq<Entry>, index: nat)
    ensures ChildrenOf(es[..0], index) == []
  {
  }

  lemma UniqueKey(v: Value, i: nat)
    requires WellFormed(v) && v.Container? && v.keyed && i < |v.kids|
    ensures forall j :: 0 <= j < |v.kids| && v.kids[j].lbl.key == v.kids[i].lbl.key ==> j == i
    ensures v.kids[i].lbl.key in Keys(v.kids)
  {
    UnfoldWellFormed(v);
    DistinctKeys(v.kids);
    assert v.kids[i] in v.kids;
  }

  lemma {:induction false} DistinctKeys(kids: seq<Kid>)
    requires KidsWellFormed(true, kids)
    ensures forall i, j :: 0 <= i < j < |kids| ==> kids[i].lbl.key != kids[j].lbl.key
  {
    if kids != [] {
      FirstKid(true, kids);
      DistinctKeys(kids[1..]);
      forall j | 0 < j < |kids|
        ensures kids[0].lbl.key != kids[j].lbl.key
      {
        assert kids[j] == kids[1..][j - 1] && kids[j] in kids[1..];
      }
    }
  }

  // ---- The children loop against the parser on values ----

  /** Label and value of the child at the front of `s` parse, and its key is new. */
  predicate ChildParses(keyed: bool, d: int, s: text, seen: set<text>) {
    var l := ParseLabel(keyed, s);
    l.Parsed? && !(keyed && l.value.key in seen) && ParseValue(l.rest, d).Parsed?
  }

  function ChildRest(keyed: bool, d: int, s: text): text {
    var l := ParseLabel(keyed, s);
    if l.Failed? then [] else
      var v := ParseValue(l.rest, d);
      if v.Failed? then [] else v.rest
  }

  function FirstChild(keyed: bool, d: int, s: text): Kid {
    var l := ParseLabel(keyed, s);
    if l.Failed? then Kid(Label([], [], [], []), Null, []) else
      var v := ParseValue(l.rest, d);
      if v.Failed? then Kid(l.value, Null, []) else Kid(l.value, v.value, Spaces(v.rest))
  }

  /** The children read so far, and what is left to read, make up the whole list. */
  ghost predicate Progress(keyed: bool, d: int, whole: Parse<seq<Kid>>, done: seq<Kid>, s: text) {
    var more := ParseKids(keyed, s, d, Keys(done));
    && (whole.Parsed? <==> more.Parsed?)
    && (whole.Parsed? ==> whole.value == done + more.value && whole.rest == more.rest)
  }

  lemma ProgressStart(keyed: bool, d: int, whole: Parse<seq<Kid>>, s: text)
    requires whole == ParseKids(keyed, s, d, {})
    ensures Progress(keyed, d, whole, [], s)
  {
    assert Keys([]) == {};
  }

  lemma ProgressEnd(keyed: bool, d: int, whole: Parse<seq<Kid>>, done: seq<Kid>, s: text)
    requires Progress(keyed, d, whole, done, s) && Skip(s) == []
    ensures whole.Failed?
  {
  }

  lemma UnfoldKidsParse(keyed: bool, s: text, d: int, seen: set<text>)
    ensures ParseKids(keyed, s, d, seen)
            == if !ChildParses(keyed, d, s, seen) then Failed
               else
                 var kid, end := FirstChild(keyed, d, s), Skip(ChildRest(keyed, d, s));
                 if end != [] && end[0] == Closing(keyed) then Parsed([kid], end[1..])
                 else if end == [] || end[0] != COMMA then Failed
                 else
                   var more := ParseKids(keyed, end[1..], d, seen + {kid.lbl.key});
                   if more.Failed? then Failed else Parsed([kid] + more.value, more.rest)
  {
  }

  lemma ChildCases(keyed: bool, d: int, whole: Parse<seq<Kid>>, done: seq<Kid>, s: text)
    requires Progress(keyed, d, whole, done, s)
    ensures !ChildParses(keyed, d, s, Keys(done)) ==> whole.Failed?
    ensures whole.Parsed? ==> |whole.value| > |done|
                              && whole.value == (done + [FirstChild(keyed, d, s)]) + whole.value[|done| + 1..]
  {
    hide ParseKids, ParseLabel, ParseValue, ChildParses, FirstChild, ChildRest, Skip, Keys;
    UnfoldKidsParse(keyed, s, d, Keys(done));
  }

  lemma ChildParts(keyed: bool, d: int, s: text, seen: set<text>)
    ensures var l := ParseLabel(keyed, s);
            if l.Failed? || (keyed && l.value.key in seen) then !ChildParses(keyed, d, s, seen)
            else
              var v, kid := ParseValue(l.rest, d), FirstChild(keyed, d, s);
              && (ChildParses(keyed, d, s, seen) <==> v.Parsed?) && kid.lbl.key == l.value.key
              && (v.Parsed? ==> ChildRest(keyed, d, s) == v.rest && kid.value == v.value)
  {
    hide ParseLabel, ParseValue, Spaces;
  }

  /** What one more child adds, and that a whole list which fits has room for it. */
  lemma ChildTables(t: Tables, keyed: bool, parent: nat, done: seq<Kid>, kid: Kid, whole: Parse<seq<Kid>>)
    requires whole.Parsed? ==>
               |whole.value| > |done| && whole.value == (done + [kid]) + whole.value[|done| + 1..]
    ensures var before, after := AddKids(t, keyed, parent, done), AddKids(t, keyed, parent, done + [kid]);
            var added := Add(before, kid.value);
            && after == AddEntry(added, keyed, Entry(parent, kid.lbl.key, |before.nodes|))
            && (Fits(after) <==> Fits(added) && !Full(added, keyed))
            && (whole.Parsed? && Fits(AddKids(t, keyed, parent, whole.value)) ==> Fits(after))
  {
    hide AddKids, Add;
    OneMoreKid(t, keyed, parent, done, kid);
    if whole.Parsed? && Fits(AddKids(t, keyed, parent, whole.value)) {
      MoreKidsGrow(t, keyed, parent, done + [kid], whole.value[|done| + 1..]);
    }
  }

  lemma KeysAppend(done: seq<Kid>, k: Kid)
    ensures Keys(done + [k]) == Keys(done) + {k.lbl.key}
  {
    var all := done + [k];
    assert all[|done|] == k && k in all;
    forall x | x in done
      ensures x in all
    {
    }
  }

  lemma ProgressStep(keyed: bool, d: int, whole: Parse<seq<Kid>>, done: seq<Kid>, s: text)
    requires Progress(keyed, d, whole, done, s) && ChildParses(keyed, d, s, Keys(done))
    ensures var kid, end := FirstChild(keyed, d, s), Skip(ChildRest(keyed, d, s));
            && (SeparatorAt(keyed, end) == Closed ==> whole == Parsed(done + [kid], end[1..]))
            && (SeparatorAt(keyed, end) == Broken ==> whole.Failed?)
            && (SeparatorAt(keyed, end) == Another ==> Progress(keyed, d, whole, done + [kid], end[1..]))
  {
    hide ParseKids, ParseLabel, ParseValue, ChildParses, FirstChild, ChildRest, Skip, Keys;
    KeysAppend(done, FirstChild(keyed, d, s));
    UnfoldKidsParse(keyed, s, d, Keys(done));
  }

  /** Whatever follows a label is not a space. */
  lemma LabelIsSkipped(keyed: bool, s: text)
    requires ParseLabel(keyed, s).Parsed?
    ensures Skip(ParseLabel(keyed, s).rest) == ParseLabel(keyed, s).rest
  {
  }

  /** The run of digits at `start`, as positions in the storage. */
  lemma DigitRun(storage: text, start: nat)
    requires start <= |storage|
    ensures var n := |Digits(storage[start..])|;
            && start + n <= |storage| && storage[start..start + n] == Digits(storage[start..])
            && storage[start..][n..] == storage[start + n..]
            && (forall k :: start <= k < start + n ==> IsDigit(storage[k]))
            && (start + n < |storage| ==> !IsDigit(storage[start + n]))
  {
    var digits := Digits(storage[start..]);
    forall k | start <= k < start + |digits|
      ensures IsDigit(storage[k])
    {
      assert storage[k] == storage[start..][..|digits|][k - start] == digits[k - start];
    }
  }

  lemma DropOne(all: text, cursor: nat)
    requires cursor < |all|
    ensures all[cursor..] != [] && all[cursor..][0] == all[cursor] && all[cursor..][1..] == all[cursor + 1..]
  {
  }

  lemma BodyCases(s: text)
    ensures s == [] ==> ParseBody(s).Failed?
    ensures s != [] && s[0] == QUOTE ==> ParseBody(s) == Parsed([], s[1..])
    ensures s != [] && s[0] != QUOTE && UnitLength(s) == 0 ==> ParseBody(s).Failed?
  {
  }

  /** One character of a string body, inside the storage. */
  lemma BodyTurn(storage: text, start: nat, cursor: nat, n: nat)
    requires start <= cursor < |storage| && storage[cursor] != QUOTE
    requires UnitLength(storage[cursor..]) == n != 0 && cursor + n <= |storage|
    ensures ParseBody(storage[cursor..]).Parsed? <==> ParseBody(storage[cursor + n..]).Parsed?
    ensures ParseBody(storage[cursor..]).Parsed? ==>
              && storage[start..cursor] + ParseBody(storage[cursor..]).value
                 == storage[start..cursor + n] + ParseBody(storage[cursor + n..]).value
              && ParseBody(storage[cursor..]).rest == ParseBody(storage[cursor + n..]).rest
  {
    hide UnitLength;
    var s := storage[cursor..];
    assert s[n..] == storage[cursor + n..];
    assert storage[start..cursor] + s[..n] == storage[start..cursor + n];
  }
}
