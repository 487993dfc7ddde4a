/**
 The validation of a parsed JSON document: duplicate keys found by sorting, and an explicit-stack
 traversal that agrees with the recursive definition, down to which violation is met first.
 */
module DocumentValidator {
  import opened Words

  type Key = seq<byte>

  /** The parser's value tree. The key of an array element is not looked at. */
  datatype Value = Scalar | Str(text: seq<byte>) | Arr(elements: Items) | Obj(members: Items)
  datatype Items = Nil | Cons(key: Key, value: Value, rest: Items)

  /** A parsed document: its root, and the number of values the parser reports. */
  datatype Document = Document(root: Option<Value>, values: nat)

  datatype Limits = Limits(nesting: nat, text: nat, members: nat, aggregate: nat)

  // ---- The order of keys ----

  /** The sign of `memcmp`: the first difference decides, bytes being unsigned. */
  function Compare(a: Key, b: Key): int
    requires |a| == |b|
  {
    if a == [] then 0
    else if a[0] != b[0] then (a[0] as int) - (b[0] as int)
    else Compare(a[1..], b[1..])
  }

  predicate KeyLess(a: Key, b: Key) {
    var n := if |a| < |b| then |a| else |b|;
    var comparison := if n == 0 then 0 else Compare(a[..n], b[..n]);
    comparison < 0 || (comparison == 0 && |a| < |b|)
  }

  predicate EqualKey(a: Key, b: Key) {
    |a| == |b| && (|a| == 0 || Compare(a, b) == 0)
  }

  /** Lexicographic order, one byte at a time. */
  predicate Lex(a: Key, b: Key) {
    b != [] && (a == [] || a[0] < b[0] || (a[0] == b[0] && Lex(a[1..], b[1..])))
  }

  lemma {:induction false} CompareZero(a: Key, b: Key)
    requires |a| == |b|
    ensures Compare(a, b) == 0 <==> a == b
  {
    if a != [] {
      CompareZero(a[1..], b[1..]);
      assert a == [a[0]] + a[1..] && b == [b[0]] + b[1..];
    }
  }

  lemma EqualKeyIsEquality(a: Key, b: Key)
    ensures EqualKey(a, b) <==> a == b
  {
    if |a| == |b| {
      CompareZero(a, b);
    }
  }

  lemma {:induction false} KeyLessIsLex(a: Key, b: Key)
    ensures KeyLess(a, b) <==> Lex(a, b)
  {
    if a != [] && b != [] {
      var n := if |a| < |b| then |a| else |b|;
      assert a[..n][1..] == a[1..][..n - 1] && b[..n][1..] == b[1..][..n - 1];
      KeyLessIsLex(a[1..], b[1..]);
    }
  }

  lemma {:induction false} LexTrichotomy(a: Key, b: Key)
    ensures Lex(a, b) || Lex(b, a) || a == b
    ensures !(Lex(a, b) && Lex(b, a)) && !Lex(a, a)
  {
    if a != [] && b != [] {
      LexTrichotomy(a[1..], b[1..]);
      assert a == [a[0]] + a[1..] && b == [b[0]] + b[1..];
    }
    if a != [] {
      LexTrichotomy(a[1..], a[1..]);
    }
  }

  lemma {:induction false} LexTransitive(a: Key, b: Key, c: Key)
    requires Lex(a, b) && Lex(b, c)
    ensures Lex(a, c)
  {
    if a != [] && a[0] == b[0] == c[0] {
      LexTransitive(a[1..], b[1..], c[1..]);
    }
  }

  /** The comparator is a strict total order, as sorting demands. */
  lemma KeyLessIsOrder(a: Key, b: Key, c: Key)
    ensures !KeyLess(a, a)
    ensures KeyLess(a, b) && KeyLess(b, c) ==> KeyLess(a, c)
    ensures !KeyLess(a, b) && !KeyLess(b, a) <==> EqualKey(a, b)
  {
    KeyLessIsLex(a, a);
    KeyLessIsLex(a, b);
    KeyLessIsLex(b, c);
    KeyLessIsLex(a, c);
    KeyLessIsLex(b, a);
    LexTrichotomy(a, b);
    EqualKeyIsEquality(a, b);
    if Lex(a, b) && Lex(b, c) {
      LexTransitive(a, b, c);
    }
  }

  // ---- Sorting ----

  predicate Ordered(keys: seq<Key>) {
    forall i, j :: 0 <= i < j < |keys| ==> !KeyLess(keys[j], keys[i])
  }

  ghost predicate Distinct(keys: seq<Key>) {
    forall i, j :: 0 <= i < j < |keys| ==> keys[i] != keys[j]
  }

  function Inserted(keys: seq<Key>, k: Key): (r: seq<Key>)
    ensures |r| == |keys| + 1
  {
    if keys == [] || KeyLess(k, keys[0]) then [k] + keys else [keys[0]] + Inserted(keys[1..], k)
  }

  /** Some sorted permutation. */
  function Sorted(keys: seq<Key>): (r: seq<Key>) {
    if keys == [] then [] else Inserted(Sorted(keys[..|keys| - 1]), keys[|keys| - 1])
  }

  lemma {:induction false} InsertedSorted(keys: seq<Key>, k: Key)
    requires Ordered(keys)
    ensures Ordered(Inserted(keys, k)) && multiset(Inserted(keys, k)) == multiset(keys) + multiset{k}
  {
    if keys == [] {
    } else if KeyLess(k, keys[0]) {
      var r := [k] + keys;
      forall j | 0 < j < |r|
        ensures !KeyLess(r[j], k)
      {
        KeyLessIsOrder(r[j], k, keys[0]);
        KeyLessIsOrder(k, keys[0], r[j]);
      }
    } else {
      assert keys == [keys[0]] + keys[1..];
      InsertedSorted(keys[1..], k);
      var rest := Inserted(keys[1..], k);
      forall j | 0 <= j < |rest|
        ensures !KeyLess(rest[j], keys[0])
      {
        assert rest[j] in multiset(rest);
        assert rest[j] in multiset(keys[1..]) || rest[j] == k;
      }
    }
  }

  lemma {:induction false} SortedIsSorted(keys: seq<Key>)
    ensures Ordered(Sorted(keys)) && multiset(Sorted(keys)) == multiset(keys) && |Sorted(keys)| == |keys|
  {
    hide Inserted, Ordered;
    if keys == [] {
      NoneOrdered();
    } else {
      var n := |keys| - 1;
      SortedIsSorted(keys[..n]);
      InsertedSorted(Sorted(keys[..n]), keys[n]);
      assert keys == keys[..n] + [keys[n]];
    }
  }

  lemma NoneOrdered()
    ensures Ordered([])
  {
  }

  lemma SortedSize(keys: seq<Key>)
    ensures |Sorted(keys)| == |keys|
  {
    SortedIsSorted(keys);
  }

  lemma DistinctCounts(keys: seq<Key>)
    ensures Distinct(keys) <==> forall k :: multiset(keys)[k] <= 1
  {
    forall i, j | 0 <= i < j < |keys| && keys[i] == keys[j]
      ensures multiset(keys)[keys[i]] >= 2
    {
      Twice(keys, i, j);
    }
    if Distinct(keys) {
      forall k
        ensures multiset(keys)[k] <= 1
      {
        AtMostOnce(keys, k);
      }
    }
  }

  lemma Twice(keys: seq<Key>, i: nat, j: nat)
    requires i < j < |keys| && keys[i] == keys[j]
    ensures multiset(keys)[keys[i]] >= 2
  {
    assert keys == keys[..i] + [keys[i]] + keys[i + 1..j] + [keys[j]] + keys[j + 1..];
  }

  lemma {:induction false} AtMostOnce(keys: seq<Key>, k: Key)
    requires Distinct(keys)
    ensures multiset(keys)[k] <= 1
  {
    if keys != [] {
      var n := |keys| - 1;
      assert keys == keys[..n] + [keys[n]];
      AtMostOnce(keys[..n], k);
      if keys[n] == k {
        assert k !in keys[..n];
      }
    }
  }

  /** In sorted order, looking at neighbours finds every duplicate. */
  lemma NeighboursSuffice(keys: seq<Key>)
    requires Ordered(keys) && forall i :: 1 <= i < |keys| ==> keys[i - 1] != keys[i]
    ensures Distinct(keys)
  {
    forall i, j | 0 <= i < j < |keys|
      ensures keys[i] != keys[j]
    {
      if keys[i] == keys[j] {
        assert !KeyLess(keys[i + 1], keys[i]) && (i + 1 < j ==> !KeyLess(keys[j], keys[i + 1]));
        KeyLessIsOrder(keys[i], keys[i + 1], keys[i]);
        EqualKeyIsEquality(keys[i], keys[i + 1]);
        assert false;
      }
    }
  }

  // ---- The recursive definition ----

  function Count(items: Items): nat {
    match items
    case Nil => 0
    case Cons(_, _, rest) => 1 + Count(rest)
  }

  function Keys(items: Items): (r: seq<Key>)
    ensures |r| == Count(items)
  {
    match items
    case Nil => []
    case Cons(key, _, rest) => [key] + Keys(rest)
  }

  /** Why an object is refused, in the order of the tests. */
  ghost function ObjectError(members: Items, keyCapacity: nat, limits: Limits): Option<ErrorCode> {
    if Count(members) > limits.members then Some(InvalidRange)
    else if Count(members) > keyCapacity then Some(InvalidState)
    else if exists i :: 0 <= i < |Keys(members)| && |Keys(members)[i]| > limits.text then Some(InvalidRange)
    else if !Distinct(Keys(members)) then Some(InvalidInput)
    else None
  }

  /** The first violation met going through a value at some depth, parents before children. */
  ghost function ValueError(v: Value, depth: nat, frames: nat, keyCapacity: nat, limits: Limits): Option<ErrorCode> {
    if depth > limits.nesting then Some(InvalidRange)
    else
      match v
      case Scalar => None
      case Str(text) => if |text| > limits.text then Some(InvalidRange) else None
      case Arr(elements) => ItemsError(elements, depth, frames, keyCapacity, limits)
      case Obj(members) =>
        var e := ObjectError(members, keyCapacity, limits);
        if e.Some? then e else ItemsError(members, depth, frames, keyCapacity, limits)
  }

  /** The same for the children, one after another, of a value at some depth. */
  ghost function ItemsError(items: Items, depth: nat, frames: nat, keyCapacity: nat,
                            limits: Limits): Option<ErrorCode> {
    match items
    case Nil => None
    case Cons(_, value, rest) =>
      if depth >= frames then Some(InvalidRange)
      else
        var e := ValueError(value, depth + 1, frames, keyCapacity, limits);
        if e.Some? then e else ItemsError(rest, depth, frames, keyCapacity, limits)
  }

  // ---- What an accepted document is ----

  /** Scalars have depth one. */
  function Depth(v: Value): nat {
    1 + match v case Arr(elements) => ItemsDepth(elements) case Obj(members) => ItemsDepth(members) case _ => 0
  }

  function ItemsDepth(items: Items): nat {
    match items
    case Nil => 0
    case Cons(_, value, rest) => if Depth(value) > ItemsDepth(rest) then Depth(value) else ItemsDepth(rest)
  }

  ghost predicate Conforms(v: Value, limits: Limits) {
    match v
    case Scalar => true
    case Str(text) => |text| <= limits.text
    case Arr(elements) => ItemsConform(elements, limits)
    case Obj(members) =>
      && Count(members) <= limits.members && Distinct(Keys(members))
      && (forall i :: 0 <= i < |Keys(members)| ==> |Keys(members)[i]| <= limits.text)
      && ItemsConform(members, limits)
  }

  ghost predicate ItemsConform(items: Items, limits: Limits) {
    match items
    case Nil => true
    case Cons(_, value, rest) => Conforms(value, limits) && ItemsConform(rest, limits)
  }

  /** With storage for the nesting and member limits, exactly the conforming values of small enough depth pass. */
  lemma {:induction false} ValuePasses(v: Value, depth: nat, frames: nat, keyCapacity: nat, limits: Limits)
    requires frames == limits.nesting && keyCapacity >= limits.members && 1 <= depth
    ensures ValueError(v, depth, frames, keyCapacity, limits) == None
            <==> Conforms(v, limits) && depth + Depth(v) - 1 <= limits.nesting
  {
    hide ObjectError, Distinct;
    match v
    case Arr(elements) => ItemsPass(elements, depth, frames, keyCapacity, limits);
    case Obj(members) =>
      ObjectPasses(members, keyCapacity, limits);
      ItemsPass(members, depth, frames, keyCapacity, limits);
    case _ =>
  }

  lemma ObjectPasses(members: Items, keyCapacity: nat, limits: Limits)
    requires keyCapacity >= limits.members
    ensures ObjectError(members, keyCapacity, limits) == None
            <==> && Count(members) <= limits.members && Distinct(Keys(members))
                 && (forall i :: 0 <= i < |Keys(members)| ==> |Keys(members)[i]| <= limits.text)
  {
  }

  lemma {:induction false} ItemsPass(items: Items, depth: nat, frames: nat, keyCapacity: nat, limits: Limits)
    requires frames == limits.nesting && keyCapacity >= limits.members && 1 <= depth
    ensures ItemsError(items, depth, frames, keyCapacity, limits) == None
            <==> ItemsConform(items, limits) && (items.Cons? ==> depth + ItemsDepth(items) <= limits.nesting)
  {
    hide ObjectError, Distinct, Conforms;
    match items
    case Nil =>
    case Cons(_, value, rest) =>
      if depth < frames {
        ValuePasses(value, depth + 1, frames, keyCapacity, limits);
        ItemsPass(rest, depth, frames, keyCapacity, limits);
      }
  }

  /** Scratch storage for the member limit is enough: its lack is never reported. */
  lemma {:induction false} ScratchSuffices(v: Value, depth: nat, frames: nat, keyCapacity: nat, limits: Limits)
    requires keyCapacity >= limits.members
    ensures ValueError(v, depth, frames, keyCapacity, limits) != Some(InvalidState)
  {
    match v
    case Arr(elements) => ItemsScratch(elements, depth, frames, keyCapacity, limits);
    case Obj(members) => ItemsScratch(members, depth, frames, keyCapacity, limits);
    case _ =>
  }

  lemma {:induction false} ItemsScratch(items: Items, depth: nat, frames: nat, keyCapacity: nat, limits: Limits)
    requires keyCapacity >= limits.members
    ensures ItemsError(items, depth, frames, keyCapacity, limits) != Some(InvalidState)
  {
    match items
    case Nil =>
    case Cons(_, value, rest) =>
      ScratchSuffices(value, depth + 1, frames, keyCapacity, limits);
      ItemsScratch(rest, depth, frames, keyCapacity, limits);
  }

  // ---- Which error it is ----

  /** Some object of the value has a key twice. */
  ghost predicate HasDuplicate(v: Value) {
    match v
    case Arr(elements) => ItemsDuplicate(elements)
    case Obj(members) => !Distinct(Keys(members)) || ItemsDuplicate(members)
    case _ => false
  }

  ghost predicate ItemsDuplicate(items: Items) {
    match items
    case Nil => false
    case Cons(_, value, rest) => HasDuplicate(value) || ItemsDuplicate(rest)
  }

  /** Every text and every object of the value is within the limits, whatever its keys. */
  ghost predicate Bounded(v: Value, limits: Limits) {
    match v
    case Scalar => true
    case Str(text) => |text| <= limits.text
    case Arr(elements) => ItemsBounded(elements, limits)
    case Obj(members) =>
      && Count(members) <= limits.members && ItemsBounded(members, limits)
      && (forall i :: 0 <= i < |Keys(members)| ==> |Keys(members)[i]| <= limits.text)
  }

  ghost predicate ItemsBounded(items: Items, limits: Limits) {
    match items
    case Nil => true
    case Cons(_, value, rest) => Bounded(value, limits) && ItemsBounded(rest, limits)
  }

  lemma {:induction false} ConformsExactly(v: Value, limits: Limits)
    ensures Conforms(v, limits) <==> Bounded(v, limits) && !HasDuplicate(v)
  {
    hide Distinct;
    match v
    case Arr(elements) => ItemsConformExactly(elements, limits);
    case Obj(members) => ItemsConformExactly(members, limits);
    case _ =>
  }

  lemma {:induction false} ItemsConformExactly(items: Items, limits: Limits)
    ensures ItemsConform(items, limits) <==> ItemsBounded(items, limits) && !ItemsDuplicate(items)
  {
    hide Distinct;
    match items
    case Nil =>
    case Cons(_, value, rest) =>
      ConformsExactly(value, limits);
      ItemsConformExactly(rest, limits);
  }

  /** Invalid input means a duplicate key; a range error means that something is too long, too many or too deep. */
  lemma {:induction false} ErrorMeans(v: Value, depth: nat, limits: Limits)
    requires 1 <= depth
    ensures var e := ValueError(v, depth, limits.nesting, limits.members, limits);
            && (e == Some(InvalidInput) ==> HasDuplicate(v))
            && (e == Some(InvalidRange) ==> !Bounded(v, limits) || depth + Depth(v) - 1 > limits.nesting)
            && (e.Some? ==> e.value in {InvalidInput, InvalidRange})
  {
    hide Distinct;
    match v
    case Arr(elements) => ItemsErrorMeans(elements, depth, limits);
    case Obj(members) => ItemsErrorMeans(members, depth, limits);
    case _ =>
  }

  lemma {:induction false} ItemsErrorMeans(items: Items, depth: nat, limits: Limits)
    requires 1 <= depth
    ensures var e := ItemsError(items, depth, limits.nesting, limits.members, limits);
            && (e == Some(InvalidInput) ==> ItemsDuplicate(items))
            && (e == Some(InvalidRange) ==>
                  !ItemsBounded(items, limits) || (items.Cons? && depth + ItemsDepth(items) > limits.nesting))
            && (e.Some? ==> e.value in {InvalidInput, InvalidRange})
  {
    hide ValueError, Bounded, HasDuplicate;
    match items
    case Nil =>
    case Cons(_, value, rest) =>
      ErrorMeans(value, depth + 1, limits);
      ItemsErrorMeans(rest, depth, limits);
  }

  // ---- The tests on one object ----

  /** A stand-in for the library's sort: the same keys in order. */
  method Sort(scratch: array<Key>, n: nat)
    requires n <= scratch.Length
    modifies scratch
    ensures scratch[..n] == Sorted(old(scratch[..n]))
  {
    hide Sorted;
    var sorted := Sorted(scratch[..n]);
    SortedSize(scratch[..n]);
    for i := 0 to n
      invariant scratch[..i] == sorted[..i]
    {
      scratch[i] := sorted[i];
      assert scratch[..i + 1] == scratch[..i] + [sorted[i]];
    }
  }

  /** Copies the keys to the scratch array, and stops at one that is too long. */
  method CollectKeys(members: Items, scratch: array<Key>, limit: nat) returns (ok: bool)
    requires Count(members) <= scratch.Length
    modifies scratch
    ensures ok <==> forall i :: 0 <= i < |Keys(members)| ==> |Keys(members)[i]| <= limit
    ensures ok ==> scratch[..Count(members)] == Keys(members)
  {
    ghost var keys := Keys(members);
    var left, count := members, 0;
    while left.Cons?
      invariant count + Count(left) == Count(members) == |keys|
      invariant keys[count..] == Keys(left)
      invariant scratch[..count] == keys[..count]
      invariant forall i :: 0 <= i < count ==> |keys[i]| <= limit
      decreases left
    {
      assert left.key == keys[count..][0] == keys[count];
      if |left.key| > limit {
        return false;
      }
      scratch[count] := left.key;
      assert scratch[..count + 1] == scratch[..count] + [left.key];
      assert keys[count + 1..] == keys[count..][1..];
      left, count := left.rest, count + 1;
    }
    ok := true;
    assert scratch[..Count(members)] == keys[..count];
  }

  lemma ObjectErrorIs(members: Items, keyCapacity: nat, limits: Limits)
    ensures ObjectError(members, keyCapacity, limits)
            == if Count(members) > limits.members then Some(InvalidRange)
               else if Count(members) > keyCapacity then Some(InvalidState)
               else if exists i :: 0 <= i < |Keys(members)| && |Keys(members)[i]| > limits.text then Some(InvalidRange)
               else if !Distinct(Keys(members)) then Some(InvalidInput)
               else None
  {
  }

  /** The error in terms of the keys: invalid input is two equal keys and nothing else. */
  lemma ObjectErrorMeans(members: Items, keyCapacity: nat, limits: Limits)
    ensures var r := ObjectError(members, keyCapacity, limits);
            && (r == Some(InvalidInput)
                <==> && |Keys(members)| <= limits.members && |Keys(members)| <= keyCapacity
                     && (forall i :: 0 <= i < |Keys(members)| ==> |Keys(members)[i]| <= limits.text)
                     && exists i, j :: 0 <= i < j < |Keys(members)| && Keys(members)[i] == Keys(members)[j])
            && (r == Some(InvalidState) <==> keyCapacity < |Keys(members)| <= limits.members)
            && (r.Some? ==> r.value in {InvalidInput, InvalidState, InvalidRange})
  {
    hide Keys, Count;
  }

  /** Two neighbours are equal. */
  ghost predicate Neighbours(keys: seq<Key>) {
    exists i :: 1 <= i < |keys| && keys[i - 1] == keys[i]
  }

  method ValidateObject(members: Items, scratch: array<Key>, limits: Limits) returns (r: Option<ErrorCode>)
    modifies scratch
    ensures r == ObjectError(members, scratch.Length, limits)
  {
    hide ObjectError, Distinct, Neighbours, Sorted;
    ObjectErrorIs(members, scratch.Length, limits);
    var count := Count(members);
    if count > limits.members {
      return Some(InvalidRange);
    }
    if count > scratch.Length {
      return Some(InvalidState);
    }
    var ok := CollectKeys(members, scratch, limits.text);
    if !ok {
      return Some(InvalidRange);
    }
    ghost var keys := Keys(members);
    Sort(scratch, count);
    SortedIsSorted(keys);
    var duplicate := HasNeighbours(scratch, count);
    DuplicatesFound(keys);
    r := if duplicate then Some(InvalidInput) else None;
  }

  method HasNeighbours(scratch: array<Key>, n: nat) returns (found: bool)
    requires n <= scratch.Length
    ensures found <==> Neighbours(scratch[..n])
  {
    var index := 1;
    while index < n
      invariant 1 <= index
      invariant forall i :: 1 <= i < index && i < n ==> scratch[..n][i - 1] != scratch[..n][i]
    {
      EqualKeyIsEquality(scratch[index - 1], scratch[index]);
      if EqualKey(scratch[index - 1], scratch[index]) {
        assert scratch[..n][index - 1] == scratch[..n][index];
        return true;
      }
      index := index + 1;
    }
    found := false;
  }

  /** Sorting and comparing neighbours tells exactly whether some key occurs twice. */
  lemma DuplicatesFound(keys: seq<Key>)
    ensures Neighbours(Sorted(keys)) <==> !Distinct(keys)
  {
    SortedIsSorted(keys);
    DistinctCounts(keys);
    DistinctCounts(Sorted(keys));
    if forall i :: 1 <= i < |Sorted(keys)| ==> Sorted(keys)[i - 1] != Sorted(keys)[i] {
      NeighboursSuffice(Sorted(keys));
    }
  }

  // ---- The traversal ----

  datatype State = Enter | Within(left: Items)
  datatype Frame = Frame(value: Value, depth: nat, state: State)

  /** What is still to be found from one frame. */
  ghost function FrameError(f: Frame, frames: nat, keyCapacity: nat, limits: Limits): Option<ErrorCode> {
    match f.state
    case Enter => ValueError(f.value, f.depth, frames, keyCapacity, limits)
    case Within(left) => ItemsError(left, f.depth, frames, keyCapacity, limits)
  }

  /** What is still to be found from a stack of frames, top first. */
  ghost function Pending(stack: seq<Frame>, frames: nat, keyCapacity: nat, limits: Limits): Option<ErrorCode> {
    if stack == [] then None
    else
      var e := FrameError(stack[|stack| - 1], frames, keyCapacity, limits);
      if e.Some? then e else Pending(stack[..|stack| - 1], frames, keyCapacity, limits)
  }

  /** The frame at index i is at depth i + 1, and only frames that passed the depth test are entered. */
  ghost predicate Stacked(stack: seq<Frame>, limits: Limits) {
    forall i :: 0 <= i < |stack| ==> stack[i].depth == i + 1 && (stack[i].state.Within? ==> i + 1 <= limits.nesting)
  }

  // ---- Why the traversal ends ----

  function Weight(v: Value): nat {
    2 + match v case Arr(elements) => ItemsWeight(elements) case Obj(members) => ItemsWeight(members) case _ => 0
  }

  function ItemsWeight(items: Items): nat {
    match items
    case Nil => 0
    case Cons(_, value, rest) => 1 + Weight(value) + ItemsWeight(rest)
  }

  function FrameWeight(f: Frame): nat {
    match f.state case Enter => Weight(f.value) case Within(left) => 1 + ItemsWeight(left)
  }

  function StackWeight(stack: seq<Frame>): nat {
    if stack == [] then 0 else StackWeight(stack[..|stack| - 1]) + FrameWeight(stack[|stack| - 1])
  }

  lemma PopStep(below: seq<Frame>, top: Frame, frames: nat, keyCapacity: nat, limits: Limits)
    ensures Pending(below + [top], frames, keyCapacity, limits)
            == var e := FrameError(top, frames, keyCapacity, limits);
               if e.Some? then e else Pending(below, frames, keyCapacity, limits)
    ensures StackWeight(below + [top]) == StackWeight(below) + FrameWeight(top)
    ensures Stacked(below + [top], limits)
            <==> && Stacked(below, limits) && top.depth == |below| + 1
                 && (top.state.Within? ==> top.depth <= limits.nesting)
  {
    hide FrameError, FrameWeight, Stacked;
    assert (below + [top])[..|below|] == below;
    StackedStep(below, top, limits);
  }

  lemma StackedStep(below: seq<Frame>, top: Frame, limits: Limits)
    ensures Stacked(below + [top], limits)
            <==> && Stacked(below, limits) && top.depth == |below| + 1
                 && (top.state.Within? ==> top.depth <= limits.nesting)
  {
    var stack := below + [top];
    assert stack[|below|] == top && forall i :: 0 <= i < |below| ==> stack[i] == below[i];
  }

  /** A value is too deep before anything else is wrong with it. */
  lemma DeepStep(top: Frame, frames: nat, keyCapacity: nat, limits: Limits)
    requires top.state.Enter? && top.depth > limits.nesting
    ensures FrameError(top, frames, keyCapacity, limits) == Some(InvalidRange)
  {
  }

  /** A frame with children left: the next child comes first, then the others. */
  lemma ChildStep(top: Frame, frames: nat, keyCapacity: nat, limits: Limits)
    requires top.state.Within?
    ensures FrameWeight(top) > 0
    ensures top.state.left.Nil? ==> FrameError(top, frames, keyCapacity, limits) == None
    ensures top.state.left.Cons? ==>
              var next, child := NextFrame(top), ChildFrame(top);
              && (top.depth >= frames ==> FrameError(top, frames, keyCapacity, limits) == Some(InvalidRange))
              && (top.depth < frames ==>
                    FrameError(top, frames, keyCapacity, limits)
                    == var e := FrameError(child, frames, keyCapacity, limits);
                       if e.Some? then e else FrameError(next, frames, keyCapacity, limits))
              && FrameWeight(child) + FrameWeight(next) < FrameWeight(top)
  {
  }

  function NextFrame(top: Frame): Frame
    requires top.state.Within? && top.state.left.Cons?
  {
    top.(state := Within(top.state.left.rest))
  }

  function ChildFrame(top: Frame): Frame
    requires top.state.Within? && top.state.left.Cons?
  {
    Frame(top.state.left.value, top.depth + 1, Enter)
  }

  /** A document within every limit of the caller. */
  ghost predicate Accepted(document: Document, limits: Limits) {
    && document.values <= limits.aggregate && document.root.Some?
    && Conforms(document.root.value, limits) && Depth(document.root.value) <= limits.nesting
  }

  /** With the caller's storage, the recursive definition lets exactly the accepted documents through. */
  lemma AcceptedExactly(document: Document, limits: Limits)
    requires limits.nesting > 0 && document.root.Some?
    ensures var e := ValueError(document.root.value, 1, limits.nesting, limits.members, limits);
            && (document.values <= limits.aggregate && e == None <==> Accepted(document, limits))
            && e != Some(InvalidState)
  {
    ValuePasses(document.root.value, 1, limits.nesting, limits.members, limits);
    ScratchSuffices(document.root.value, 1, limits.nesting, limits.members, limits);
  }

  /** Accepts or refuses with the error that the recursive definition meets first. */
  method ValidateDocument(document: Document, frames: array<Frame>, scratch: array<Key>, limits: Limits)
    returns (r: Option<ErrorCode>)
    modifies frames, scratch
    ensures r == if document.values > limits.aggregate then Some(InvalidRange)
                 else if document.root.None? || frames.Length == 0 then Some(InvalidState)
                 else ValueError(document.root.value, 1, frames.Length, scratch.Length, limits)
    ensures 0 < frames.Length == limits.nesting && scratch.Length == limits.members ==>
              && (r.None? <==> Accepted(document, limits))
              && (r == Some(InvalidState) <==> document.values <= limits.aggregate && document.root.None?)
              && (r == Some(InvalidInput) ==> HasDuplicate(document.root.value))
              && (r == Some(InvalidRange) ==>
                    || document.values > limits.aggregate || !Bounded(document.root.value, limits)
                    || Depth(document.root.value) > limits.nesting)
              && (r.Some? ==> r.value in {InvalidState, InvalidInput, InvalidRange})
  {
    hide ValueError, Accepted, HasDuplicate, Bounded, Depth;
    if document.values > limits.aggregate {
      NotAccepted(document, limits);
      return Some(InvalidRange);
    }
    if document.root.None? || frames.Length == 0 {
      if document.root.None? {
        NotAccepted(document, limits);
      }
      return Some(InvalidState);
    }
    if frames.Length == limits.nesting && scratch.Length == limits.members {
      AcceptedExactly(document, limits);
      ErrorMeans(document.root.value, 1, limits);
    }
    r := Traverse(document.root.value, frames, scratch, limits);
  }

  lemma NotAccepted(document: Document, limits: Limits)
    requires document.values > limits.aggregate || document.root.None?
    ensures !Accepted(document, limits)
  {
  }

  /** The explicit-stack traversal returns what the recursive definition returns. */
  method Traverse(root: Value, frames: array<Frame>, scratch: array<Key>, limits: Limits) returns (r: Option<ErrorCode>)
    requires frames.Length > 0
    modifies frames, scratch
    ensures r == ValueError(root, 1, frames.Length, scratch.Length, limits)
  {
    hide FrameError, FrameWeight, Pending, StackWeight, Stacked;
    ghost var n, m := frames.Length, scratch.Length;
    var count := 1;
    frames[0] := Frame(root, 1, Enter);
    Begin(root, n, m, limits);
    PopStep([], frames[0], n, m, limits);
    assert frames[..1] == [] + [frames[0]];
    while count != 0
      invariant count <= n && Stacked(frames[..count], limits)
      invariant Pending(frames[..count], n, m, limits) == ValueError(root, 1, n, m, limits)
      decreases StackWeight(frames[..count])
    {
      var top := frames[count - 1];
      ghost var below := frames[..count - 1];
      assert frames[..count] == below + [top];
      PopStep(below, top, n, m, limits);
      if top.depth > limits.nesting {
        DeepStep(top, n, m, limits);
        return Some(InvalidRange);
      }
      if top.state.Enter? {
        var entered, refused := EnterFrame(top, scratch, limits, n);
        if refused.Some? {
          return refused;
        }
        if entered.Some? {
          frames[count - 1] := entered.value;
          PopStep(below, entered.value, n, m, limits);
          assert frames[..count] == below + [entered.value];
        } else {
          count := count - 1;
        }
      } else {
        ChildStep(top, n, m, limits);
        if top.state.left.Nil? {
          count := count - 1;
        } else {
          if count == frames.Length {
            return Some(InvalidRange);
          }
          var next, child := NextFrame(top), ChildFrame(top);
          frames[count - 1] := next;
          frames[count] := child;
          PopStep(below, next, n, m, limits);
          PopStep(below + [next], child, n, m, limits);
          assert frames[..count + 1] == below + [next] + [child];
          count := count + 1;
        }
      }
    }
    r := None;
    assert frames[..count] == [];
  }

  lemma Begin(root: Value, frames: nat, keyCapacity: nat, limits: Limits)
    ensures Pending([], frames, keyCapacity, limits) == None && StackWeight([]) == 0 && Stacked([], limits)
    ensures FrameError(Frame(root, 1, Enter), frames, keyCapacity, limits)
            == ValueError(root, 1, frames, keyCapacity, limits)
  {
  }

  /** What happens to a frame when it is entered: it is refused, done, or starts over its children. */
  method EnterFrame(top: Frame, scratch: array<Key>, limits: Limits, ghost frames: nat)
    returns (entered: Option<Frame>, refused: Option<ErrorCode>)
    requires top.state.Enter? && top.depth <= limits.nesting
    modifies scratch
    ensures FrameWeight(top) > 0
    ensures entered.Some? ==>
              && refused.None? && entered.value.depth == top.depth && entered.value.state.Within?
              && FrameWeight(entered.value) < FrameWeight(top)
    ensures FrameError(top, frames, scratch.Length, limits)
            == if refused.Some? then refused
               else if entered.Some? then FrameError(entered.value, frames, scratch.Length, limits)
               else None
  {
    hide ObjectError;
    entered, refused := None, None;
    match top.value
    case Scalar =>
    case Str(text) =>
      if |text| > limits.text {
        refused := Some(InvalidRange);
      }
    case Arr(elements) =>
      entered := Some(top.(state := Within(elements)));
    case Obj(members) =>
      refused := ValidateObject(members, scratch, limits);
      if refused.None? {
        entered := Some(top.(state := Within(members)));
      }
  }
}
