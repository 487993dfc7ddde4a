/**
 The list of slices waiting to be written, kept in a caller's array. Partial writes drop whole
 slices from the front and shorten the first one left.
 */
module IoSlices {
  import opened Words

  type Slice = seq<byte>

  function Flatten(slices: seq<Slice>): seq<byte> {
    if slices == [] then [] else slices[0] + Flatten(slices[1..])
  }

  lemma {:induction false} FlattenConcat(a: seq<Slice>, b: seq<Slice>)
    ensures Flatten(a + b) == Flatten(a) + Flatten(b)
  {
    if a == [] {
      assert a + b == b;
    } else {
      FlattenConcat(a[1..], b);
      assert (a + b)[1..] == a[1..] + b && (a + b)[0] == a[0];
      calc {
        Flatten(a + b);
        a[0] + Flatten(a[1..] + b);
        a[0] + (Flatten(a[1..]) + Flatten(b));
        (a[0] + Flatten(a[1..])) + Flatten(b);
      }
    }
  }

  lemma FlattenOne(s: Slice)
    ensures Flatten([s]) == s
  {
    assert Flatten([s][1..]) == [];
  }

  /** The slices left when `n` bytes have been taken from the front. */
  function Dropped(slices: seq<Slice>, n: nat): seq<Slice> {
    if slices == [] then []
    else if n >= |slices[0]| then Dropped(slices[1..], n - |slices[0]|)
    else [slices[0][n..]] + slices[1..]
  }

  lemma {:induction false} DroppedFlatten(slices: seq<Slice>, n: nat)
    requires n <= |Flatten(slices)| && forall i :: 0 <= i < |slices| ==> slices[i] != []
    ensures Flatten(Dropped(slices, n)) == Flatten(slices)[n..]
    ensures forall i :: 0 <= i < |Dropped(slices, n)| ==> Dropped(slices, n)[i] != []
  {
    if slices != [] {
      var first := slices[0];
      DropWithin(first, Flatten(slices[1..]), n);
      if n >= |first| {
        DroppedFlatten(slices[1..], n - |first|);
      } else {
        assert Dropped(slices, n)[1..] == slices[1..];
      }
    }
  }

  lemma DropWithin(first: Slice, rest: seq<byte>, n: nat)
    requires n <= |first| + |rest|
    ensures (first + rest)[n..] == if n >= |first| then rest[n - |first|..] else first[n..] + rest
  {
  }

  /** The walk: the slices before `k` are used up whole. */
  lemma {:induction false} DroppedWalk(slices: seq<Slice>, k: nat, n: nat)
    requires k <= |slices| && |Flatten(slices[..k])| <= n
    requires forall i :: 0 <= i < |slices| ==> slices[i] != []
    ensures Dropped(slices, n) == Dropped(slices[k..], n - |Flatten(slices[..k])|)
  {
    if k == 0 {
      assert slices[0..] == slices && Flatten(slices[..0]) == [];
    } else {
      assert slices[..k][1..] == slices[1..][..k - 1];
      assert slices[1..][k - 1..] == slices[k..];
      DroppedWalk(slices[1..], k - 1, n - |slices[0]|);
    }
  }

  method ShiftDown(a: array<Slice>, from: nat, to: nat)
    requires from <= to <= a.Length
    modifies a
    ensures a[..to - from] == old(a[from..to])
  {
    ghost var before := a[..];
    var i := from;
    while i < to
      invariant from <= i <= to
      invariant a[..i - from] == before[from..i] && a[i..] == before[i..]
    {
      assert a[i] == a[i..][0] == before[i];
      a[i - from] := a[i];
      assert a[..i + 1 - from] == a[..i - from] + [before[i]];
      forall k | i < k < a.Length
        ensures a[k] == before[k]
      {
        assert before[i..][k - i] == before[k];
      }
      i := i + 1;
    }
  }

  /** The first slice left over loses its used part; it is never too short for that. */
  method Shorten(a: array<Slice>, first: nat, end: nat, remaining: nat)
    requires first <= end <= a.Length && (first < end ==> remaining < |a[first]|) && (remaining != 0 ==> first < end)
    modifies a
    ensures a[first..end] == Dropped(old(a[first..end]), remaining)
  {
    ghost var left := a[first..end];
    if remaining != 0 {
      if remaining > |a[first]| {
        assert false;
      }
      a[first] := a[first][remaining..];
      assert a[first..end] == [left[0][remaining..]] + left[1..];
    } else if first < end {
      assert left == [left[0][0..]] + left[1..];
    }
  }

  class IoSliceList {
    const storage: array<Slice>
    var count: nat
    var bytes: nat
    ghost var appended: seq<byte>
    ghost var written: seq<byte>

    constructor (storage: array<Slice>)
      ensures Valid() && this.storage == storage && Slices() == [] && appended == [] == written
    {
      this.storage := storage;
      count, bytes, appended, written := 0, 0, [], [];
    }

    ghost function Slices(): seq<Slice>
      reads this, storage
      requires count <= storage.Length
    {
      storage[..count]
    }

    /** What is written followed by what is left is what was appended; no slice is empty. */
    ghost predicate Valid()
      reads this, storage
    {
      && count <= storage.Length
      && (forall i :: 0 <= i < count ==> storage[i] != [])
      && bytes == |Flatten(Slices())| <= U64_MAX
      && written + Flatten(Slices()) == appended
    }

    method Append(slice: Slice) returns (r: Result<Unit>)
      requires Valid()
      modifies this, storage
      ensures Valid() && written == old(written)
      ensures r == if slice == [] then Ok(Unit)
                   else if old(count) == storage.Length then Err(Exhaustion)
                   else if old(bytes) + |slice| > U64_MAX then Err(Overflow)
                   else Ok(Unit)
      ensures appended == if r.Ok? then old(appended) + slice else old(appended)
      ensures Slices() == if r.Ok? && slice != [] then old(Slices()) + [slice] else old(Slices())
    {
      if slice == [] {
        return Ok(Unit);
      }
      if count == storage.Length {
        return Err(Exhaustion);
      }
      if bytes + |slice| > U64_MAX {
        return Err(Overflow);
      }
      ghost var before := Slices();
      FlattenConcat(before, [slice]);
      FlattenOne(slice);
      storage[count] := slice;
      count := count + 1;
      assert Slices() == before + [slice];
      bytes := bytes + |slice|;
      appended := appended + slice;
      r := Ok(Unit);
    }

    /** Takes `n` bytes off the front. */
    method Consume(n: nat) returns (r: Result<Unit>)
      requires Valid()
      modifies this, storage
      ensures Valid() && appended == old(appended)
      ensures r == if n > |old(Flatten(Slices()))| then Err(InvalidRange) else Ok(Unit)
      ensures if r.Err? then Slices() == old(Slices()) && written == old(written)
              else written == old(written) + old(Flatten(Slices()))[..n]
                   && Flatten(Slices()) == old(Flatten(Slices()))[n..]
    {
      hide Flatten, Dropped;
      if n > bytes {
        return Err(InvalidRange);
      }
      ghost var before := Slices();
      ghost var all := Flatten(before);
      DroppedFlatten(before, n);
      Drop(n);
      bytes := bytes - n;
      assert all == all[..n] + all[n..];
      assert written + all[..n] + all[n..] == appended;
      written := written + all[..n];
      r := Ok(Unit);
    }

    /** The list without its first `n` bytes. */
    method Drop(n: nat)
      requires Valid() && n <= bytes
      modifies this`count, storage
      ensures count <= storage.Length && Slices() == Dropped(old(Slices()), n)
    {
      hide Flatten, Dropped;
      ghost var before := Slices();
      var remaining, removed := Skip(n);
      assert storage[..removed] == before[..removed] && storage[removed..count] == before[removed..];
      DroppedWalk(before, removed, n);
      Shorten(storage, removed, count, remaining);
      if removed != 0 {
        ShiftDown(storage, removed, count);
      }
      count := count - removed;
    }

    /** The run of slices that `n` bytes use up. */
    method Skip(n: nat) returns (remaining: nat, removed: nat)
      requires Valid() && n <= bytes
      ensures removed <= count && remaining == n - |Flatten(storage[..removed])|
      ensures removed < count ==> remaining < |storage[removed]|
      ensures remaining != 0 ==> removed < count
    {
      remaining, removed := n, 0;
      while removed < count && remaining >= |storage[removed]|
        invariant removed <= count && remaining == n - |Flatten(storage[..removed])|
        decreases count - removed
      {
        FlattenConcat(storage[..removed], [storage[removed]]);
        FlattenOne(storage[removed]);
        assert storage[..removed + 1] == storage[..removed] + [storage[removed]];
        remaining := remaining - |storage[removed]|;
        removed := removed + 1;
      }
    }

    /** The vector handed to the operating system spells out exactly what is left to write. */
    method Translate(output: array<Slice>) returns (r: Result<nat>)
      requires Valid() && output != storage
      modifies output
      ensures r == if count > output.Length then Err(Exhaustion) else Ok(count)
      ensures r.Ok? ==> output[..count] == Slices() && written + Flatten(output[..count]) == appended
      ensures r.Err? ==> output[..] == old(output[..])
    {
      if count > output.Length {
        return Err(Exhaustion);
      }
      var i := 0;
      while i < count
        invariant i <= count && output[..i] == storage[..i]
        invariant storage[..] == old(storage[..])
      {
        output[i] := storage[i];
        assert output[..i + 1] == output[..i] + [storage[i]];
        i := i + 1;
      }
      assert Slices() == old(Slices());
      r := Ok(i);
    }
  }
}
