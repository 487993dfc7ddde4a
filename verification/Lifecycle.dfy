/**
 The dependency lifecycle registry. A registry lives in the memory of one process; a fork copies
 it into the memory of another. What the hooks answer is up to the environment, so every call that
 runs hooks takes their answers by index; the hooks that were run are kept in a ghost trace that
 starts out empty in every process.
 */
module Lifecycle {
  import opened Words

  const CAPACITY: nat := 14
  const OPENSSL: nat := 1
  const LIBRESSL: nat := 2

  /** The known dependencies, without the placeholder `none`, which is zero. */
  predicate Known(dependency: nat) {
    1 <= dependency <= 15
  }

  predicate TlsProvider(dependency: nat) {
    dependency == OPENSSL || dependency == LIBRESSL
  }

  /** A table of hooks; `complete` when no entry is null. */
  datatype Hooks = Hooks(dependency: nat, complete: bool)

  predicate Clash(a: nat, b: nat) {
    a == b || (TlsProvider(a) && TlsProvider(b))
  }

  datatype Phase =
    | Collecting | Preflighted | PreflightFailed | PreflightRollbackFailed | ForkReady
    | WorkerReady | WorkerRolledBack | WorkerRollbackFailed | WorkerCleaned | WorkerCleanupFailed
    | MasterCleaned | MasterCleanupFailed

  predicate Terminal(p: Phase) {
    p.PreflightRollbackFailed? || p.WorkerRollbackFailed? || p.WorkerCleanupFailed? || p.MasterCleanupFailed?
  }

  datatype Epoch = Epoch(master: nat, value: nat)

  datatype Stage = PreflightStage | InitializeStage | WorkerCleanupStage | MasterCleanupStage
  datatype Call = Call(stage: Stage, index: nat, ok: bool)

  type answers = nat -> Result<Unit>

  // ---- Room for every selection of dependencies ----

  ghost predicate Registered(hooks: seq<Hooks>) {
    && (forall i :: 0 <= i < |hooks| ==> Known(hooks[i].dependency))
    && (forall i, j :: 0 <= i < j < |hooks| ==> !Clash(hooks[i].dependency, hooks[j].dependency))
  }

  /** Distinct numbers in a range are no more than the range is wide. */
  lemma {:induction false} Pigeonhole(s: seq<nat>, low: nat, high: nat)
    requires low <= high && (forall i :: 0 <= i < |s| ==> low <= s[i] < high)
    requires forall i, j :: 0 <= i < j < |s| ==> s[i] != s[j]
    ensures |s| <= high - low
    decreases high
  {
    if s != [] {
      assert low <= s[0] < high;
      if k :| 0 <= k < |s| && s[k] == high - 1 {
        var rest := s[..k] + s[k + 1..];
        Pigeonhole(rest, low, high - 1);
      } else {
        Pigeonhole(s, low, high - 1);
      }
    }
  }

  /** The two providers of TLS share one place, so fourteen places are enough. */
  lemma RoomForAll(hooks: seq<Hooks>)
    requires Registered(hooks)
    ensures |hooks| <= CAPACITY
  {
    var places := seq(|hooks|, i requires 0 <= i < |hooks| =>
      if TlsProvider(hooks[i].dependency) then LIBRESSL else hooks[i].dependency);
    Pigeonhole(places, 2, 16);
  }

  // ---- Shapes of a trace ----

  function Up(stage: Stage, k: nat): (r: seq<Call>)
    ensures |r| == k
  {
    seq(k, i requires 0 <= i < k => Call(stage, i, true))
  }

  /** One call per index, from k - 1 down to zero. */
  predicate IsDown(calls: seq<Call>, stage: Stage, k: nat) {
    |calls| == k && forall i :: 0 <= i < k ==> calls[i].stage == stage && calls[i].index == k - 1 - i
  }

  predicate AllOk(calls: seq<Call>) {
    forall i :: 0 <= i < |calls| ==> calls[i].ok
  }

  predicate RolledBack(trace: seq<Call>, up: Stage, down: Stage, k: nat) {
    && |trace| == 2 * k + 1 && trace[..k] == Up(up, k) && trace[k] == Call(up, k, false)
    && IsDown(trace[k + 1..], down, k)
  }

  /** A pass up that fails at some hook, and the pass down over those before it; `clean` if that succeeds. */
  ghost predicate Undone(trace: seq<Call>, up: Stage, down: Stage, n: nat, clean: bool) {
    exists k :: 0 <= k < n && RolledBack(trace, up, down, k) && AllOk(trace[k + 1..]) == clean
  }

  predicate Cleaned(trace: seq<Call>, up: Stage, down: Stage, k: nat) {
    |trace| == 2 * k && trace[..k] == Up(up, k) && IsDown(trace[k..], down, k)
  }

  /** The calls of a pass down from k - 1, with the answers given. */
  function Down(stage: Stage, backward: answers, k: nat): seq<Call> {
    if k == 0 then [] else [Call(stage, k - 1, backward(k - 1).Ok?)] + Down(stage, backward, k - 1)
  }

  lemma {:induction false} DownIs(stage: Stage, backward: answers, k: nat)
    ensures IsDown(Down(stage, backward, k), stage, k)
    ensures forall i :: 0 <= i < k ==> Down(stage, backward, k)[i].ok == backward(k - 1 - i).Ok?
    ensures AllOk(Down(stage, backward, k)) <==> FirstFailure(backward, k).None?
  {
    if k > 0 {
      DownIs(stage, backward, k - 1);
      AllOkCons(Call(stage, k - 1, backward(k - 1).Ok?), Down(stage, backward, k - 1));
    }
  }

  lemma AllOkCons(call: Call, rest: seq<Call>)
    ensures AllOk([call] + rest) <==> call.ok && AllOk(rest)
  {
    var calls := [call] + rest;
    assert calls[0] == call;
    if AllOk(calls) {
      forall i | 0 <= i < |rest|
        ensures rest[i].ok
      {
        assert calls[i + 1] == rest[i];
      }
    }
  }

  lemma DownStep(stage: Stage, backward: answers, k: nat, before: seq<Call>)
    requires k > 0
    ensures before + Down(stage, backward, k)
            == before + [Call(stage, k - 1, backward(k - 1).Ok?)] + Down(stage, backward, k - 1)
  {
  }

  lemma UpStep(stage: Stage, k: nat)
    ensures Up(stage, k) + [Call(stage, k, true)] == Up(stage, k + 1)
  {
  }

  /** A failed pass up followed by the pass down over what had succeeded. */
  lemma RollsBack(up: Stage, down: Stage, backward: answers, k: nat, n: nat)
    requires k < n
    ensures var trace := Up(up, k) + [Call(up, k, false)] + Down(down, backward, k);
            if FirstFailure(backward, k).None? then Undone(trace, up, down, n, true)
            else Undone(trace, up, down, n, false)
  {
    DownIs(down, backward, k);
    var trace := Up(up, k) + [Call(up, k, false)] + Down(down, backward, k);
    assert trace[k + 1..] == Down(down, backward, k);
    assert trace[..k] == Up(up, k);
    assert RolledBack(trace, up, down, k);
  }

  /** A full pass up followed by the full pass down. */
  lemma Cleans(up: Stage, down: Stage, backward: answers, k: nat)
    ensures var trace := Up(up, k) + Down(down, backward, k);
            && Cleaned(trace, up, down, k) && (AllOk(trace) <==> FirstFailure(backward, k).None?)
  {
    DownIs(down, backward, k);
    var trace := Up(up, k) + Down(down, backward, k);
    assert trace[k..] == Down(down, backward, k) && trace[..k] == Up(up, k);
    assert forall i :: 0 <= i < k ==> trace[i].ok;
    assert forall i :: 0 <= i < k ==> trace[k + i] == trace[k..][i];
  }

  /** The first failure met going down from k - 1. */
  function FirstFailure(backward: answers, k: nat): Option<ErrorCode> {
    if k == 0 then None
    else if backward(k - 1).Err? then Some(backward(k - 1).error)
    else FirstFailure(backward, k - 1)
  }

  /** No hook below k fails, or the error is that of the highest one that does. */
  ghost predicate Highest(backward: answers, k: nat, r: Option<ErrorCode>) {
    match r
    case None => forall i: nat :: i < k ==> backward(i).Ok?
    case Some(e) => exists j: nat :: j < k && backward(j) == Err(e) && forall i :: j < i < k ==> backward(i).Ok?
  }

  lemma {:induction false} FirstIsHighest(backward: answers, k: nat)
    ensures Highest(backward, k, FirstFailure(backward, k))
  {
    if k > 0 {
      FirstIsHighest(backward, k - 1);
    }
  }

  /** How many hooks succeed before the first failure, of n. */
  function Succeeding(forward: answers, n: nat, from: nat): (r: nat)
    requires from <= n
    ensures from <= r <= n && (forall i :: from <= i < r ==> forward(i).Ok?) && (r < n ==> forward(r).Err?)
    decreases n - from
  {
    if from == n || forward(from).Err? then from else Succeeding(forward, n, from + 1)
  }

  /** What one attempt runs: up to the first failure, and then down again over what had succeeded. */
  function Attempt(up: Stage, down: Stage, forward: answers, backward: answers, n: nat): seq<Call> {
    var k := Succeeding(forward, n, 0);
    if k == n then Up(up, n) else Up(up, k) + [Call(up, k, false)] + Down(down, backward, k)
  }

  /** The phase an attempt ends in: all succeeded, undone, or not even undone. */
  function Ending(forward: answers, backward: answers, n: nat, all: Phase, undone: Phase, stuck: Phase): Phase {
    var k := Succeeding(forward, n, 0);
    if k == n then all else if FirstFailure(backward, k).None? then undone else stuck
  }

  class Registry {
    const process: nat
    const masterProcess: nat
    var workerProcess: nat
    var hooks: seq<Hooks>
    var phase: Phase
    var terminal: Option<ErrorCode>
    var forkEpoch: nat
    var preflightedCount: nat
    var workerInitializedCount: nat
    ghost const lineage: set<nat>
    ghost var trace: seq<Call>

    predicate IsMaster() {
      masterProcess != 0 && process == masterProcess
    }

    ghost predicate Valid()
      reads this
    {
      && process in lineage && masterProcess in lineage && 0 !in lineage
      && (workerProcess == 0 || workerProcess in lineage) && workerProcess != masterProcess
      && Registered(hooks)
      && (Terminal(phase) ==> terminal.Some?)
      && forkEpoch <= 1
      && (phase.Collecting? || phase.Preflighted? || phase.PreflightFailed? || phase.PreflightRollbackFailed? ==>
            forkEpoch == 0)
      && (phase.ForkReady? ==> forkEpoch == 1 && workerProcess == 0)
      && workerInitializedCount == (if phase.WorkerReady? then |hooks| else 0)
      && (if IsMaster() then MasterHistory() else WorkerHistory())
    }

    /** What the master has run so far: its own hooks, in one pass up and at most one pass down. */
    ghost predicate MasterHistory()
      reads this
    {
      && workerProcess == 0
      && match phase
         case Collecting => trace == [] && preflightedCount == 0
         case Preflighted => trace == Up(PreflightStage, |hooks|) && preflightedCount == |hooks|
         case ForkReady => trace == Up(PreflightStage, |hooks|) && preflightedCount == |hooks|
         case PreflightFailed => Undone(trace, PreflightStage, MasterCleanupStage, |hooks|, true)
         case PreflightRollbackFailed => Undone(trace, PreflightStage, MasterCleanupStage, |hooks|, false)
         case MasterCleaned => Cleaned(trace, PreflightStage, MasterCleanupStage, |hooks|) && AllOk(trace)
         case MasterCleanupFailed => Cleaned(trace, PreflightStage, MasterCleanupStage, |hooks|) && !AllOk(trace)
         case _ => false
    }

    /** What a child has run so far: worker hooks, and only once it is the worker. */
    ghost predicate WorkerHistory()
      reads this
    {
      if workerProcess != process then trace == []
      else
        match phase
        case WorkerReady => trace == Up(InitializeStage, |hooks|)
        case WorkerRolledBack => Undone(trace, InitializeStage, WorkerCleanupStage, |hooks|, true)
        case WorkerRollbackFailed => Undone(trace, InitializeStage, WorkerCleanupStage, |hooks|, false)
        case WorkerCleaned => Cleaned(trace, InitializeStage, WorkerCleanupStage, |hooks|) && AllOk(trace)
        case WorkerCleanupFailed => Cleaned(trace, InitializeStage, WorkerCleanupStage, |hooks|) && !AllOk(trace)
        case _ => false
    }

    constructor (process: nat)
      requires process != 0
      ensures Valid() && this.process == process && IsMaster() && phase == Collecting && hooks == [] && trace == []
      ensures lineage == {process}
    {
      this.process, masterProcess, workerProcess := process, process, 0;
      hooks, phase, terminal, forkEpoch, preflightedCount, workerInitializedCount := [], Collecting, None, 0, 0, 0;
      lineage, trace := {process}, [];
    }

    /** A fork: the child has a copy of everything but the past, under a new process number. */
    constructor Fork(parent: Registry, child: nat)
      requires parent.Valid() && child != 0 && child !in parent.lineage
      ensures Valid() && process == child && lineage == parent.lineage + {child} && trace == [] && !IsMaster()
      ensures masterProcess == parent.masterProcess && phase == parent.phase && hooks == parent.hooks
      ensures workerProcess == parent.workerProcess && forkEpoch == parent.forkEpoch && terminal == parent.terminal
    {
      process, masterProcess, workerProcess := child, parent.masterProcess, parent.workerProcess;
      hooks, phase, terminal, forkEpoch := parent.hooks, parent.phase, parent.terminal, parent.forkEpoch;
      preflightedCount, workerInitializedCount := parent.preflightedCount, parent.workerInitializedCount;
      lineage, trace := parent.lineage + {child}, [];
    }

    method Register(entry: Hooks) returns (r: Result<Unit>)
      requires Valid()
      modifies this`hooks
      ensures Valid()
      ensures r == if !IsMaster() || phase != Collecting then Err(InvalidState)
                   else if !(1 <= entry.dependency <= 15) || !entry.complete then Err(InvalidInput)
                   else if exists i :: 0 <= i < |old(hooks)| &&
                                       (|| old(hooks)[i].dependency == entry.dependency
                                        || {old(hooks)[i].dependency, entry.dependency} == {1, 2})
                     then Err(InvalidState)
                   else Ok(Unit)
      ensures hooks == if r.Ok? then old(hooks) + [entry] else old(hooks)
    {
      if !IsMaster() {
        return Err(InvalidState);
      }
      if phase != Collecting {
        return Err(InvalidState);
      }
      if !Known(entry.dependency) || !entry.complete {
        return Err(InvalidInput);
      }
      for index := 0 to |hooks|
        invariant forall i :: 0 <= i < index ==> !Clash(hooks[i].dependency, entry.dependency)
      {
        if hooks[index].dependency == entry.dependency {
          assert Clash(hooks[index].dependency, entry.dependency);
          return Err(InvalidState);
        }
        if TlsProvider(hooks[index].dependency) && TlsProvider(entry.dependency) {
          assert Clash(hooks[index].dependency, entry.dependency);
          return Err(InvalidState);
        }
      }
      RoomForAll(hooks + [entry]);
      if |hooks| == CAPACITY {
        assert false;
      }
      hooks := hooks + [entry];
      r := Ok(Unit);
    }

    /** The rollback of the preflight, and the cleanup of the master: every hook once, last first. */
    method CleanMaster(backward: answers) returns (first: Option<ErrorCode>)
      modifies this`preflightedCount, this`trace
      ensures preflightedCount == 0 && first == FirstFailure(backward, old(preflightedCount))
      ensures Highest(backward, old(preflightedCount), first)
      ensures trace == old(trace) + Down(MasterCleanupStage, backward, old(preflightedCount))
    {
      hide Highest;
      ghost var n := preflightedCount;
      FirstIsHighest(backward, n);
      first := None;
      while preflightedCount != 0
        invariant preflightedCount <= n
        invariant trace + Down(MasterCleanupStage, backward, preflightedCount)
                == old(trace) + Down(MasterCleanupStage, backward, n)
        invariant FirstFailure(backward, n) == if first.Some? then first else FirstFailure(backward, preflightedCount)
        decreases preflightedCount
      {
        DownStep(MasterCleanupStage, backward, preflightedCount, trace);
        preflightedCount := preflightedCount - 1;
        var result := backward(preflightedCount);
        trace := trace + [Call(MasterCleanupStage, preflightedCount, result.Ok?)];
        if result.Err? && first.None? {
          first := Some(result.error);
        }
      }
    }

    /** Runs the hooks in order until one fails. */
    method PreflightAll(forward: answers) returns (k: nat)
      requires trace == [] && preflightedCount == 0
      modifies this`preflightedCount, this`trace
      ensures k == preflightedCount == Succeeding(forward, |hooks|, 0)
      ensures trace == Up(PreflightStage, k) + if k < |hooks| then [Call(PreflightStage, k, false)] else []
    {
      k := 0;
      while k < |hooks| && forward(k).Ok?
        invariant k <= |hooks| && preflightedCount == k && trace == Up(PreflightStage, k)
        invariant Succeeding(forward, |hooks|, 0) == Succeeding(forward, |hooks|, k)
      {
        UpStep(PreflightStage, k);
        trace := trace + [Call(PreflightStage, k, true)];
        preflightedCount := preflightedCount + 1;
        k := k + 1;
      }
      if k < |hooks| {
        trace := trace + [Call(PreflightStage, k, false)];
      }
    }

    method Preflight(forward: answers, backward: answers) returns (r: Result<Unit>)
      requires Valid()
      modifies this
      ensures Valid() && hooks == old(hooks) && workerProcess == old(workerProcess) && forkEpoch == old(forkEpoch)
      ensures var k := Succeeding(forward, |hooks|, 0);
              r == if !IsMaster() then Err(InvalidState)
                   else if old(phase).Preflighted? || old(phase).ForkReady? then Ok(Unit)
                   else if old(phase).PreflightRollbackFailed? then Err(old(terminal).value)
                   else if !old(phase).Collecting? then Err(InvalidState)
                   else if k == |hooks| then Ok(Unit)
                   else if FirstFailure(backward, k).Some? then Err(FirstFailure(backward, k).value)
                   else Err(forward(k).error)
      ensures if IsMaster() && old(phase).Collecting?
              then
                && trace == Attempt(PreflightStage, MasterCleanupStage, forward, backward, |hooks|)
                && phase == Ending(forward, backward, |hooks|, Preflighted, PreflightFailed, PreflightRollbackFailed)
              else trace == old(trace) && phase == old(phase)
      ensures terminal == if phase != old(phase) && Terminal(phase) then Some(r.error) else old(terminal)
    {
      hide Registered, Undone, Cleaned, AllOk, Up, Down, FirstFailure, Succeeding, Highest;
      if !IsMaster() {
        return Err(InvalidState);
      }
      if phase.Preflighted? || phase.ForkReady? {
        return Ok(Unit);
      }
      if phase.PreflightRollbackFailed? {
        r := PersistentFailure();
        return;
      }
      if !phase.Collecting? {
        return Err(InvalidState);
      }
      var k := PreflightAll(forward);
      if k == |hooks| {
        phase := Preflighted;
        return Ok(Unit);
      }
      RollsBack(PreflightStage, MasterCleanupStage, backward, k, |hooks|);
      var failure := CleanMaster(backward);
      if failure.Some? {
        terminal, phase := failure, PreflightRollbackFailed;
        return Err(failure.value);
      }
      phase := PreflightFailed;
      r := Err(forward(k).error);
    }

    /** A terminal phase always carries its failure. */
    method PersistentFailure() returns (r: Result<Unit>)
      requires Valid() && Terminal(phase)
      ensures r == Err(terminal.value)
    {
      if terminal.None? {
        assert false;
      }
      r := Err(terminal.value);
    }

    /** One master thread and quiescent dependencies; the epoch never runs out because it never passes one. */
    method PrepareFork(threads: nat, quiescent: nat -> bool) returns (r: Result<Epoch>)
      requires Valid()
      modifies this`phase, this`forkEpoch
      ensures Valid() && trace == old(trace)
      ensures r == if !IsMaster() then Err(InvalidState)
                   else if old(phase).PreflightRollbackFailed? || old(phase).MasterCleanupFailed?
                     then Err(old(terminal).value)
                   else if !old(phase).Preflighted? && !old(phase).ForkReady? then Err(InvalidState)
                   else if threads != 1 || exists i: nat :: i < |hooks| && !quiescent(i) then Err(InvalidState)
                   else Ok(Epoch(masterProcess, 1))
      ensures r.Ok? ==> phase.ForkReady? && forkEpoch == 1
      ensures r.Err? ==> phase == old(phase) && forkEpoch == old(forkEpoch)
    {
      hide Registered, Undone, Cleaned, AllOk, Up, Down, FirstFailure, Succeeding, Highest;
      if !IsMaster() {
        return Err(InvalidState);
      }
      if phase.PreflightRollbackFailed? || phase.MasterCleanupFailed? {
        var failure := PersistentFailure();
        return Err(failure.error);
      }
      if !phase.Preflighted? && !phase.ForkReady? {
        return Err(InvalidState);
      }
      if threads != 1 {
        return Err(InvalidState);
      }
      for index := 0 to |hooks|
        invariant forall i: nat :: i < index ==> quiescent(i)
      {
        if !quiescent(index) {
          return Err(InvalidState);
        }
      }
      if phase.ForkReady? {
        return Ok(Epoch(masterProcess, forkEpoch));
      }
      if forkEpoch == U64_MAX {
        assert false;
      }
      forkEpoch := forkEpoch + 1;
      phase := ForkReady;
      r := Ok(Epoch(masterProcess, forkEpoch));
    }

    /** The rollback and the cleanup of a worker: every hook once, last first. */
    method CleanWorker(backward: answers) returns (first: Option<ErrorCode>)
      modifies this`workerInitializedCount, this`trace
      ensures workerInitializedCount == 0 && first == FirstFailure(backward, old(workerInitializedCount))
      ensures Highest(backward, old(workerInitializedCount), first)
      ensures trace == old(trace) + Down(WorkerCleanupStage, backward, old(workerInitializedCount))
    {
      hide Highest;
      ghost var n := workerInitializedCount;
      FirstIsHighest(backward, n);
      first := None;
      while workerInitializedCount != 0
        invariant workerInitializedCount <= n
        invariant trace + Down(WorkerCleanupStage, backward, workerInitializedCount)
                == old(trace) + Down(WorkerCleanupStage, backward, n)
        invariant FirstFailure(backward, n)
                == if first.Some? then first else FirstFailure(backward, workerInitializedCount)
        decreases workerInitializedCount
      {
        DownStep(WorkerCleanupStage, backward, workerInitializedCount, trace);
        workerInitializedCount := workerInitializedCount - 1;
        var result := backward(workerInitializedCount);
        trace := trace + [Call(WorkerCleanupStage, workerInitializedCount, result.Ok?)];
        if result.Err? && first.None? {
          first := Some(result.error);
        }
      }
    }

    /** Runs the hooks in order until one fails. */
    method InitializeAll(forward: answers) returns (k: nat)
      requires trace == [] && workerInitializedCount == 0
      modifies this`workerInitializedCount, this`trace
      ensures k == workerInitializedCount == Succeeding(forward, |hooks|, 0)
      ensures trace == Up(InitializeStage, k) + if k < |hooks| then [Call(InitializeStage, k, false)] else []
    {
      k := 0;
      while k < |hooks| && forward(k).Ok?
        invariant k <= |hooks| && workerInitializedCount == k && trace == Up(InitializeStage, k)
        invariant Succeeding(forward, |hooks|, 0) == Succeeding(forward, |hooks|, k)
      {
        UpStep(InitializeStage, k);
        trace := trace + [Call(InitializeStage, k, true)];
        workerInitializedCount := workerInitializedCount + 1;
        k := k + 1;
      }
      if k < |hooks| {
        trace := trace + [Call(InitializeStage, k, false)];
      }
    }

    method WorkerInitialize(epoch: Epoch, forward: answers, backward: answers) returns (r: Result<Unit>)
      requires Valid()
      modifies this
      ensures Valid() && hooks == old(hooks) && forkEpoch == old(forkEpoch)
      ensures var k := Succeeding(forward, |hooks|, 0);
              r == if epoch.value == 0 || epoch != Epoch(masterProcess, old(forkEpoch)) then Err(InvalidState)
                   else if process == masterProcess then Err(InvalidState)
                   else if old(phase).WorkerRollbackFailed? || old(phase).WorkerCleanupFailed?
                     then Err(old(terminal).value)
                   else if old(phase).WorkerReady? && old(workerProcess) == process then Ok(Unit)
                   else if !old(phase).ForkReady? then Err(InvalidState)
                   else if k == |hooks| then Ok(Unit)
                   else if FirstFailure(backward, k).Some? then Err(FirstFailure(backward, k).value)
                   else Err(forward(k).error)
      ensures if epoch == Epoch(masterProcess, old(forkEpoch)) && !IsMaster() && old(phase).ForkReady?
              then
                && trace == Attempt(InitializeStage, WorkerCleanupStage, forward, backward, |hooks|)
                && phase == Ending(forward, backward, |hooks|, WorkerReady, WorkerRolledBack, WorkerRollbackFailed)
                && workerProcess == process
              else trace == old(trace) && phase == old(phase) && workerProcess == old(workerProcess)
      ensures terminal == if phase != old(phase) && Terminal(phase) then Some(r.error) else old(terminal)
    {
      hide Registered, Undone, Cleaned, AllOk, Up, Down, FirstFailure, Succeeding, Highest;
      if epoch.master == 0 || epoch.value == 0 || epoch.master != masterProcess || epoch.value != forkEpoch {
        return Err(InvalidState);
      }
      if process == 0 || process == masterProcess {
        return Err(InvalidState);
      }
      if phase.WorkerRollbackFailed? || phase.WorkerCleanupFailed? {
        r := PersistentFailure();
        return;
      }
      if phase.WorkerReady? && workerProcess == process {
        return Ok(Unit);
      }
      if !phase.ForkReady? {
        return Err(InvalidState);
      }
      r := StartWorker(forward, backward);
    }

    /** The child becomes the worker, whether or not its hooks succeed. */
    method StartWorker(forward: answers, backward: answers) returns (r: Result<Unit>)
      requires Valid() && !IsMaster() && phase.ForkReady?
      modifies this
      ensures Valid() && hooks == old(hooks) && forkEpoch == old(forkEpoch) && workerProcess == process
      ensures var k := Succeeding(forward, |hooks|, 0);
              r == if k == |hooks| then Ok(Unit)
                   else if FirstFailure(backward, k).Some? then Err(FirstFailure(backward, k).value)
                   else Err(forward(k).error)
      ensures trace == Attempt(InitializeStage, WorkerCleanupStage, forward, backward, |hooks|)
      ensures phase == Ending(forward, backward, |hooks|, WorkerReady, WorkerRolledBack, WorkerRollbackFailed)
      ensures terminal == if phase.WorkerRollbackFailed? then Some(r.error) else old(terminal)
    {
      hide Registered, Undone, Cleaned, AllOk, Up, Down, FirstFailure, Succeeding, Highest;
      workerProcess := process;
      var k := InitializeAll(forward);
      if k == |hooks| {
        phase := WorkerReady;
        return Ok(Unit);
      }
      RollsBack(InitializeStage, WorkerCleanupStage, backward, k, |hooks|);
      var failure := CleanWorker(backward);
      if failure.Some? {
        terminal, phase := failure, WorkerRollbackFailed;
        return Err(failure.value);
      }
      phase := WorkerRolledBack;
      r := Err(forward(k).error);
    }

    method WorkerCleanup(backward: answers) returns (r: Result<Unit>)
      requires Valid()
      modifies this
      ensures Valid() && hooks == old(hooks) && workerProcess == old(workerProcess) && forkEpoch == old(forkEpoch)
      ensures r == if process == masterProcess || process != old(workerProcess) then Err(InvalidState)
                   else if old(phase).WorkerRollbackFailed? || old(phase).WorkerCleanupFailed?
                     then Err(old(terminal).value)
                   else if old(phase).WorkerRolledBack? || old(phase).WorkerCleaned? then Ok(Unit)
                   else if FirstFailure(backward, |hooks|).Some? then Err(FirstFailure(backward, |hooks|).value)
                   else Ok(Unit)
      ensures if process == old(workerProcess) && old(phase).WorkerReady?
              then
                && trace == old(trace) + Down(WorkerCleanupStage, backward, |hooks|)
                && phase == if r.Ok? then WorkerCleaned else WorkerCleanupFailed
              else trace == old(trace) && phase == old(phase)
      ensures terminal == if phase != old(phase) && Terminal(phase) then Some(r.error) else old(terminal)
    {
      hide Registered, Undone, Cleaned, AllOk, Up, Down, FirstFailure, Succeeding, Highest;
      if process == 0 || process == masterProcess || process != workerProcess {
        return Err(InvalidState);
      }
      if phase.WorkerRollbackFailed? || phase.WorkerCleanupFailed? {
        r := PersistentFailure();
        return;
      }
      if phase.WorkerRolledBack? || phase.WorkerCleaned? {
        return Ok(Unit);
      }
      if !phase.WorkerReady? {
        assert false;
      }
      Cleans(InitializeStage, WorkerCleanupStage, backward, |hooks|);
      var failure := CleanWorker(backward);
      if failure.Some? {
        terminal, phase := failure, WorkerCleanupFailed;
        r := PersistentFailure();
        return;
      }
      phase := WorkerCleaned;
      r := Ok(Unit);
    }

    method MasterCleanup(backward: answers) returns (r: Result<Unit>)
      requires Valid()
      modifies this
      ensures Valid() && hooks == old(hooks) && workerProcess == old(workerProcess) && forkEpoch == old(forkEpoch)
      ensures r == if !IsMaster() then Err(InvalidState)
                   else if old(phase).PreflightRollbackFailed? || old(phase).MasterCleanupFailed?
                     then Err(old(terminal).value)
                   else if old(phase).MasterCleaned? || old(phase).PreflightFailed? then Ok(Unit)
                   else if old(phase).Collecting? then Err(InvalidState)
                   else if FirstFailure(backward, |hooks|).Some? then Err(FirstFailure(backward, |hooks|).value)
                   else Ok(Unit)
      ensures if IsMaster() && (old(phase).Preflighted? || old(phase).ForkReady?)
              then
                && trace == old(trace) + Down(MasterCleanupStage, backward, |hooks|)
                && phase == if r.Ok? then MasterCleaned else MasterCleanupFailed
              else trace == old(trace) && phase == old(phase)
      ensures terminal == if phase != old(phase) && Terminal(phase) then Some(r.error) else old(terminal)
    {
      hide Registered, Undone, Cleaned, AllOk, Up, Down, FirstFailure, Succeeding, Highest;
      if !IsMaster() {
        return Err(InvalidState);
      }
      if phase.PreflightRollbackFailed? || phase.MasterCleanupFailed? {
        r := PersistentFailure();
        return;
      }
      if phase.MasterCleaned? || phase.PreflightFailed? {
        return Ok(Unit);
      }
      if !phase.Preflighted? && !phase.ForkReady? {
        return Err(InvalidState);
      }
      Cleans(PreflightStage, MasterCleanupStage, backward, |hooks|);
      var failure := CleanMaster(backward);
      if failure.Some? {
        terminal, phase := failure, MasterCleanupFailed;
        r := PersistentFailure();
        return;
      }
      phase := MasterCleaned;
      r := Ok(Unit);
    }
  }

  // ---- What every history looks like ----

  /** A pass up that may fail, followed by at most one pass down over what had succeeded. */
  ghost predicate Lifo(trace: seq<Call>, up: Stage, down: Stage, n: nat) {
    || (|trace| <= n && trace == Up(up, |trace|))
    || (exists k :: 0 <= k < n && RolledBack(trace, up, down, k))
    || Cleaned(trace, up, down, n)
  }

  /** In every process and at every moment: the master runs master hooks only, a child worker hooks only. */
  lemma HistoryIsLifo(r: Registry)
    requires r.Valid()
    ensures if r.IsMaster() then Lifo(r.trace, PreflightStage, MasterCleanupStage, |r.hooks|)
            else Lifo(r.trace, InitializeStage, WorkerCleanupStage, |r.hooks|)
  {
    hide RolledBack, Cleaned, Registered;
    assert Up(PreflightStage, 0) == [] == Up(InitializeStage, 0);
  }

  lemma RolledBackAt(trace: seq<Call>, up: Stage, down: Stage, k: nat, i: nat)
    requires RolledBack(trace, up, down, k) && i < |trace|
    ensures i < k ==> trace[i] == Call(up, i, true)
    ensures i == k ==> trace[i] == Call(up, k, false)
    ensures i > k ==> trace[i].stage == down && trace[i].index == 2 * k - i
  {
    if i < k {
      assert trace[i] == trace[..k][i];
    } else if i > k {
      assert trace[i] == trace[k + 1..][i - k - 1];
    }
  }

  lemma CleanedAt(trace: seq<Call>, up: Stage, down: Stage, k: nat, i: nat)
    requires Cleaned(trace, up, down, k) && i < |trace|
    ensures i < k ==> trace[i] == Call(up, i, true)
    ensures i >= k ==> trace[i].stage == down && trace[i].index == 2 * k - 1 - i
  {
    if i < k {
      assert trace[i] == trace[..k][i];
    } else {
      assert trace[i] == trace[k..][i - k];
    }
  }

  /** No hook runs twice, and a cleanup runs only after its hook succeeded, in exactly the reverse order. */
  lemma LifoMeans(trace: seq<Call>, up: Stage, down: Stage, n: nat, i: nat, j: nat)
    requires Lifo(trace, up, down, n) && up != down && i < j < |trace|
    ensures trace[i].stage == trace[j].stage ==> trace[i].index != trace[j].index
    ensures trace[i].stage == up == trace[j].stage ==> trace[i].index < trace[j].index
    ensures trace[i].stage == down ==> trace[j].stage == down && trace[i].index > trace[j].index
    ensures trace[j].stage == down ==>
              trace[j].index < j && trace[trace[j].index] == Call(up, trace[j].index, true)
  {
    hide RolledBack, Cleaned;
    if trace == Up(up, |trace|) {
    } else if k :| 0 <= k < n && RolledBack(trace, up, down, k) {
      RolledBackMeans(trace, up, down, k, i, j);
    } else {
      CleanedAt(trace, up, down, n, i);
      CleanedAt(trace, up, down, n, j);
      if j >= n {
        CleanedSize(trace, up, down, n);
        CleanedAt(trace, up, down, n, 2 * n - 1 - j);
      }
    }
  }

  lemma CleanedSize(trace: seq<Call>, up: Stage, down: Stage, k: nat)
    requires Cleaned(trace, up, down, k)
    ensures |trace| == 2 * k
  {
  }

  lemma RolledBackMeans(trace: seq<Call>, up: Stage, down: Stage, k: nat, i: nat, j: nat)
    requires RolledBack(trace, up, down, k) && up != down && i < j < |trace|
    ensures trace[i].stage == trace[j].stage ==> trace[i].index != trace[j].index
    ensures trace[i].stage == up == trace[j].stage ==> trace[i].index < trace[j].index
    ensures trace[i].stage == down ==> trace[j].stage == down && trace[i].index > trace[j].index
    ensures trace[j].stage == down ==>
              trace[j].index < j && trace[trace[j].index] == Call(up, trace[j].index, true)
  {
    assert |trace| == 2 * k + 1;
    hide RolledBack;
    RolledBackAt(trace, up, down, k, i);
    RolledBackAt(trace, up, down, k, j);
    if j > k {
      RolledBackAt(trace, up, down, k, 2 * k - j);
    }
  }

  // ---- Processes ----

  datatype Command =
    | Forks(who: nat, child: nat)
    | Registers(who: nat, entry: Hooks)
    | Preflights(who: nat, forward: answers, backward: answers)
    | Prepares(who: nat, threads: nat, quiescent: nat -> bool)
    | Initializes(who: nat, epoch: Epoch, forward: answers, backward: answers)
    | CleansWorker(who: nat, backward: answers)
    | CleansMaster(who: nat, backward: answers)

  /** All the processes that descend from one master, each with its own copy of the registry. */
  class World {
    var registries: seq<Registry>
    var numbers: set<nat>

    ghost predicate Valid()
      reads this, registries
    {
      && (forall i :: 0 <= i < |registries| ==> registries[i].Valid() && registries[i].lineage <= numbers)
      && (forall i, j :: 0 <= i < j < |registries| ==>
            registries[i] != registries[j] && registries[i].process != registries[j].process)
    }

    constructor (master: nat)
      requires master != 0
      ensures Valid() && |registries| == 1 && fresh(registries)
    {
      hide Registry.Valid;
      var first := new Registry(master);
      registries, numbers := [first], {master};
    }

    /** One call in one process, or a fork under an unused process number. */
    method Step(c: Command)
      requires Valid() && c.who < |registries| && (c.Forks? ==> c.child != 0 && c.child !in numbers)
      modifies this, registries[c.who]
      ensures Valid() && old(registries) <= registries && fresh(registries[|old(registries)|..])
      ensures numbers == if c.Forks? then old(numbers) + {c.child} else old(numbers)
      ensures !c.Forks? ==> registries == old(registries)
    {
      hide Registry.Valid;
      var r := registries[c.who];
      if c.Forks? {
        Numbered(c.who);
        var copy := new Registry.Fork(r, c.child);
        registries, numbers := registries + [copy], numbers + {c.child};
      } else {
        CallOne(r, c);
      }
    }

    /** The call itself touches one registry. */
    method CallOne(r: Registry, c: Command)
      requires r.Valid() && !c.Forks?
      modifies r
      ensures r.Valid()
    {
      hide Registry.Valid;
      match c
      case Registers(_, entry) =>
        var result := r.Register(entry);
      case Preflights(_, forward, backward) =>
        var result := r.Preflight(forward, backward);
      case Prepares(_, threads, quiescent) =>
        var result := r.PrepareFork(threads, quiescent);
      case Initializes(_, epoch, forward, backward) =>
        var result := r.WorkerInitialize(epoch, forward, backward);
      case CleansWorker(_, backward) =>
        var result := r.WorkerCleanup(backward);
      case CleansMaster(_, backward) =>
        var result := r.MasterCleanup(backward);
    }

    /** Any run, in any interleaving of the processes: commands that nobody can give are passed over. */
    method Run(commands: seq<Command>)
      requires Valid()
      modifies this, registries
      ensures Valid()
      ensures forall i :: 0 <= i < |registries| ==>
                var r := registries[i];
                if r.IsMaster() then Lifo(r.trace, PreflightStage, MasterCleanupStage, |r.hooks|)
                else Lifo(r.trace, InitializeStage, WorkerCleanupStage, |r.hooks|)
    {
      hide Registry.Valid, Lifo;
      ghost var all := registries;
      for k := 0 to |commands|
        invariant Valid() && all <= registries && fresh(registries[|all|..])
      {
        var c := commands[k];
        if c.who < |registries| && (c.Forks? ==> c.child != 0 && c.child !in numbers) {
          ghost var before := registries;
          assert c.who >= |all| ==> before[c.who] == before[|all|..][c.who - |all|];
          Step(c);
          assert registries[|all|..] == before[|all|..] + registries[|before|..];
        }
      }
      forall i | 0 <= i < |registries|
        ensures var r := registries[i];
                if r.IsMaster() then Lifo(r.trace, PreflightStage, MasterCleanupStage, |r.hooks|)
                else Lifo(r.trace, InitializeStage, WorkerCleanupStage, |r.hooks|)
      {
        HistoryIsLifo(registries[i]);
      }
    }

    lemma Numbered(k: nat)
      requires Valid() && k < |registries|
      ensures forall i :: 0 <= i < |registries| ==> registries[i].process in numbers
      ensures registries[k].lineage <= numbers
    {
    }
  }
}
