/** `parallel_run` as an interleaved step system.  Every worker is a program counter; the mutex, the shared
    iterator and the shared list of exceptions are state.  The lock may be granted to any thread that asks
    for it, and each call of `fn` may return or throw. */
module ParallelRun {

  type Item = nat    // a position in the range
  type Worker = nat

  datatype Pc =
    | NotStarted
    | AtLock              // about to lock the mutex
    | CheckExceptions     // locked: are there exceptions?
    | CheckEnd            // locked: is the range exhausted?
    | Claim               // locked: take the item and advance the iterator
    | Unlock(item: Item)  // locked: release before the call
    | Running(item: Item) // inside fn(item)
    | Caught(item: Item)  // fn threw; about to lock the mutex again
    | Record(item: Item)  // locked: push the exception
    | Leave               // locked: the guard is destroyed on the way out
    | Exited
  {
    predicate HoldsLock() {
      CheckExceptions? || CheckEnd? || Claim? || Unlock? || Record? || Leave?
    }

    /** The item this worker has claimed and not yet accounted for. */
    function InHand(): seq<Item> {
      if Unlock? || Running? || Caught? || Record? then [item] else []
    }

    /** How many of its own steps a worker has left before it exits or claims another item. */
    function Rank(): nat {
      match this
      case Unlock(_) => 8
      case Running(_) => 7
      case NotStarted => 7
      case AtLock => 6
      case CheckExceptions => 5
      case CheckEnd => 4
      case Claim => 3
      case Caught(_) => 3
      case Record(_) => 2
      case Leave => 1
      case Exited => 0
    }
  }

  /** The calling thread: it starts the workers while it holds the lock, releases it, joins the workers
      in order, and returns. */
  datatype MainPc = Spawning(next: nat) | Joining(next: nat) | Returned(ok: bool)

  /** A call of `fn` that has ended. */
  datatype Call = Call(worker: Worker, item: Item)

  datatype State = State(
    total: nat,              // the number of items in the range
    main: MainPc,
    workers: seq<Pc>,
    iter: nat,               // the shared iterator
    claims: seq<Worker>,     // who claimed item 0, 1, 2, ...
    finished: seq<Call>,     // the calls that returned
    exceptions: seq<Call>)   // the calls that threw, as recorded

  /** `n_jobs` below one asks for two more workers than the hardware has threads. */
  function WorkerCount(jobs: int, hardware: nat): (n: nat)
    ensures n >= 1
    ensures n == if jobs >= 1 then jobs else hardware + 2
  {
    if jobs < 1 then hardware + 2 else jobs
  }

  function Init(total: nat, jobs: int, hardware: nat): State {
    State(total, Spawning(0), seq(WorkerCount(jobs, hardware), _ => NotStarted), 0, [], [], [])
  }

  predicate LockFree(s: State) {
    !s.main.Spawning? && forall w | 0 <= w < |s.workers| :: !s.workers[w].HoldsLock()
  }

  function MoveTo(s: State, w: Worker, pc: Pc): State
    requires w < |s.workers|
  {
    s.(workers := s.workers[w := pc])
  }

  /** One step of worker `w`; `throws` says how its call of `fn` ends. */
  ghost predicate WorkerStep(s: State, t: State, w: Worker, throws: bool) {
    && w < |s.workers|
    && match s.workers[w]
       case NotStarted => false
       case AtLock => LockFree(s) && t == MoveTo(s, w, CheckExceptions)
       case CheckExceptions => t == MoveTo(s, w, if s.exceptions != [] then Leave else CheckEnd)
       case CheckEnd => t == MoveTo(s, w, if s.iter == s.total then Leave else Claim)
       case Claim => t == MoveTo(s, w, Unlock(s.iter)).(iter := s.iter + 1, claims := s.claims + [w])
       case Unlock(item) => t == MoveTo(s, w, Running(item))
       case Running(item) =>
         if throws then t == MoveTo(s, w, Caught(item))
         else t == MoveTo(s, w, AtLock).(finished := s.finished + [Call(w, item)])
       case Caught(item) => LockFree(s) && t == MoveTo(s, w, Record(item))
       case Record(item) => t == MoveTo(s, w, Leave).(exceptions := s.exceptions + [Call(w, item)])
       case Leave => t == MoveTo(s, w, Exited)
       case Exited => false
  }

  ghost predicate MainStep(s: State, t: State) {
    match s.main
    case Spawning(k) =>
      if k < |s.workers| then
        t == MoveTo(s, k, AtLock).(main := Spawning(k + 1))
      else
        t == s.(main := Joining(0))
    case Joining(k) =>
      if k < |s.workers| then
        s.workers[k] == Exited && t == s.(main := Joining(k + 1))
      else
        t == s.(main := Returned(s.exceptions == []))
    case Returned(_) => false
  }

  ghost predicate Next(s: State, t: State) {
    MainStep(s, t) || exists w: Worker, throws: bool :: WorkerStep(s, t, w, throws)
  }

  ghost predicate IsRun(run: seq<State>, total: nat, jobs: int, hardware: nat) {
    && |run| > 0
    && run[0] == Init(total, jobs, hardware)
    && forall i | 0 < i < |run| :: StepInto(run, i)
  }

  ghost predicate StepInto(run: seq<State>, i: nat)
    requires 0 < i < |run|
  {
    Next(run[i - 1], run[i])
  }

  // -- The invariant ---------------------------------------------------------------------------

  ghost function Holds(pc: Pc, item: Item): nat {
    if item in pc.InHand() then 1 else 0
  }

  /** How many workers have `item` in hand. */
  ghost function Holders(workers: seq<Pc>, item: Item): nat {
    if workers == [] then 0 else Holds(workers[0], item) + Holders(workers[1..], item)
  }

  /** How many of the calls were on `item`. */
  ghost function Count(calls: seq<Call>, item: Item): nat {
    if calls == [] then 0
    else
      var last := |calls| - 1;
      Count(calls[..last], item) + if calls[last].item == item then 1 else 0
  }

  /** Each call was made by the worker that claimed the item. */
  ghost predicate ByClaimant(calls: seq<Call>, claims: seq<Worker>) {
    forall e | e in calls :: e.item < |claims| && claims[e.item] == e.worker
  }

  /** Claimed items are a prefix of the range and each is accounted for exactly once: in the hands of one
      worker, finished, or recorded as thrown. */
  ghost predicate Accounted(s: State) {
    forall item: Item :: ItemAccounted(s, item)
  }

  ghost predicate MutualExclusion(s: State) {
    forall v, w | 0 <= v < w < |s.workers| :: !(s.workers[v].HoldsLock() && s.workers[w].HoldsLock())
  }

  /** What the position of each worker says about the shared state. */
  ghost predicate WorkerSound(s: State, w: Worker)
    requires w < |s.workers|
  {
    var pc := s.workers[w];
    && (s.main.Spawning? ==> pc == if w < s.main.next then AtLock else NotStarted)
    && (!s.main.Spawning? ==> pc != NotStarted)
    && (s.main.Joining? && w < s.main.next ==> pc == Exited)
    && (s.main.Returned? ==> pc == Exited)
    && (forall item | item in pc.InHand() :: item < |s.claims| && s.claims[item] == w)
    && (pc.CheckEnd? || pc.Claim? ==> s.exceptions == [])
    && (pc.Claim? ==> s.iter < s.total)
    && (pc.Exited? || pc.Leave? ==> s.exceptions != [] || s.iter == s.total)
  }

  /** Only a worker that is leaving or gone has recorded an exception, and only one. */
  ghost predicate ExceptionsSound(s: State) {
    && (forall e | e in s.exceptions ::
         e.worker < |s.workers| && (s.workers[e.worker] == Leave || s.workers[e.worker] == Exited))
    && (forall i, j | 0 <= i < j < |s.exceptions| :: s.exceptions[i].worker != s.exceptions[j].worker)
  }

  ghost predicate Inv(s: State) {
    && |s.workers| >= 1
    && s.iter <= s.total && |s.claims| == s.iter
    && (s.main.Spawning? || s.main.Joining? ==> s.main.next <= |s.workers|)
    && (s.main.Returned? ==> s.main.ok == (s.exceptions == []))
    && MutualExclusion(s)
    && (forall w | 0 <= w < |s.workers| :: WorkerSound(s, w))
    && ExceptionsSound(s)
    && ByClaimant(s.finished, s.claims) && ByClaimant(s.exceptions, s.claims)
    && Accounted(s)
  }

  lemma {:induction false} HoldersUpdate(workers: seq<Pc>, w: Worker, pc: Pc, item: Item)
    requires w < |workers|
    ensures Holders(workers[w := pc], item) + Holds(workers[w], item) == Holders(workers, item) + Holds(pc, item)
  {
    if w == 0 {
      assert workers[0 := pc][1..] == workers[1..];
    } else {
      assert workers[w := pc][1..] == workers[1..][w - 1 := pc];
      HoldersUpdate(workers[1..], w - 1, pc, item);
    }
  }

  lemma CountAppend(calls: seq<Call>, last: Call, item: Item)
    ensures Count(calls + [last], item) == Count(calls, item) + if last.item == item then 1 else 0
  {
    assert (calls + [last])[..|calls|] == calls;
  }

  lemma {:induction false} NoHolders(workers: seq<Pc>, item: Item)
    requires forall w | 0 <= w < |workers| :: workers[w].InHand() == []
    ensures Holders(workers, item) == 0
  {
    if workers != [] {
      NoHolders(workers[1..], item);
    }
  }

  lemma InitInv(total: nat, jobs: int, hardware: nat)
    ensures Inv(Init(total, jobs, hardware))
  {
    var s := Init(total, jobs, hardware);
    forall item: Item ensures Holders(s.workers, item) == 0 {
      NoHolders(s.workers, item);
    }
  }

  ghost predicate ItemAccounted(s: State, item: Item) {
    Holders(s.workers, item) + Count(s.finished, item) + Count(s.exceptions, item)
    == if item < s.iter then 1 else 0
  }

  lemma AccountedKept(s: State, t: State, w: Worker, throws: bool, item: Item)
    requires ItemAccounted(s, item) && WorkerStep(s, t, w, throws)
    ensures ItemAccounted(t, item)
  {
    var pc := s.workers[w];
    HoldersUpdate(s.workers, w, t.workers[w], item);
    match pc
    case Running(i) => CountAppend(s.finished, Call(w, i), item);
    case Record(i) => CountAppend(s.exceptions, Call(w, i), item);
    case _ =>
  }

  lemma ExceptionsKept(s: State, t: State, w: Worker, throws: bool)
    requires Inv(s) && WorkerStep(s, t, w, throws)
    ensures ExceptionsSound(t)
  {
    assert WorkerSound(s, w);
    forall e | e in t.exceptions
      ensures e.worker < |t.workers| && (t.workers[e.worker] == Leave || t.workers[e.worker] == Exited)
    {
      if e !in s.exceptions {
        assert s.workers[w].Record? && e.worker == w;
      }
    }
  }

  lemma ClaimantsKept(s: State, t: State, w: Worker, throws: bool)
    requires Inv(s) && WorkerStep(s, t, w, throws)
    ensures ByClaimant(t.finished, t.claims) && ByClaimant(t.exceptions, t.claims)
  {
    var pc := s.workers[w];
    assert WorkerSound(s, w) && s.claims <= t.claims;
    forall e | e in t.finished || e in t.exceptions ensures e.item < |t.claims| && t.claims[e.item] == e.worker {
      if e in s.finished || e in s.exceptions {
        assert t.claims[e.item] == s.claims[e.item];
      } else {
        assert pc.Running? || pc.Record?;
        assert e == Call(w, pc.item) && pc.item in pc.InHand();
      }
    }
  }

  lemma SoundKept(s: State, t: State, w: Worker, throws: bool, v: Worker)
    requires Inv(s) && WorkerStep(s, t, w, throws) && v < |t.workers|
    ensures WorkerSound(t, v)
  {
    var pc, next := s.workers[v], t.workers[v];
    assert WorkerSound(s, w) && WorkerSound(s, v) && s.claims <= t.claims;
    forall item | item in next.InHand() ensures item < |t.claims| && t.claims[item] == v {
      if v != w || !pc.Claim? {
        assert item in pc.InHand();
        assert t.claims[item] == s.claims[item];
      }
    }
    if v != w {
      assert next == pc;
    }
  }

  lemma WorkerStepInv(s: State, t: State, w: Worker, throws: bool)
    requires Inv(s) && WorkerStep(s, t, w, throws)
    ensures Inv(t)
  {
    forall item: Item ensures ItemAccounted(t, item) {
      assert ItemAccounted(s, item);
      AccountedKept(s, t, w, throws, item);
    }
    ExceptionsKept(s, t, w, throws);
    ClaimantsKept(s, t, w, throws);
    assert WorkerSound(s, w);
    forall v | 0 <= v < |t.workers| ensures WorkerSound(t, v) {
      SoundKept(s, t, w, throws, v);
    }
  }

  lemma MainStepInv(s: State, t: State)
    requires Inv(s) && MainStep(s, t)
    ensures Inv(t)
  {
    if s.main.Spawning? && s.main.next < |s.workers| {
      var k := s.main.next;
      assert WorkerSound(s, k);
      forall item: Item
        ensures Holders(t.workers, item) == Holders(s.workers, item)
      {
        HoldersUpdate(s.workers, k, AtLock, item);
      }
    }
    forall v | 0 <= v < |t.workers| ensures WorkerSound(t, v) {
      assert WorkerSound(s, v);
    }
    forall item: Item ensures ItemAccounted(t, item) {
      assert ItemAccounted(s, item);
    }
  }

  lemma StepInv(s: State, t: State)
    requires Inv(s) && Next(s, t)
    ensures Inv(t)
  {
    if MainStep(s, t) {
      MainStepInv(s, t);
    } else {
      var w: Worker, throws: bool :| WorkerStep(s, t, w, throws);
      WorkerStepInv(s, t, w, throws);
    }
  }

  /** Safety over whole runs, under every interleaving. */
  lemma {:induction false} RunInv(run: seq<State>, total: nat, jobs: int, hardware: nat, i: nat)
    requires IsRun(run, total, jobs, hardware) && i < |run|
    ensures Inv(run[i]) && run[i].total == total 
  {
    if i == 0 {
      InitInv(total, jobs, hardware);
    } else {
      RunInv(run, total, jobs, hardware, i - 1);
      var s, t := run[i - 1], run[i];
      assert StepInto(run, i);
      StepInv(s, t);
    }
  }

  // -- What a call returns ---------------------------------------------------------------------

  /** When the call returns, every worker is gone and every claimed item ended in exactly one way, with the worker
      that claimed it: `fn` returned on it, or threw and the exception was recorded.  The result
      is true exactly when `fn` returned once on every item of the range and never threw. */
  lemma ResultMeansAllRan(run: seq<State>, total: nat, jobs: int, hardware: nat, i: nat)
    requires IsRun(run, total, jobs, hardware) && i < |run| && run[i].main.Returned?
    ensures var s := run[i];
      && (forall pc | pc in s.workers :: pc == Exited)
      && (forall item: Item :: Count(s.finished, item) + Count(s.exceptions, item) == if item < s.iter then 1 else 0)
      && (forall e | e in s.finished + s.exceptions :: e.item < |s.claims| && s.claims[e.item] == e.worker)
      && (s.main.ok <==> s.exceptions == [] && forall item: Item | item < total :: Count(s.finished, item) == 1)
  {
    RunInv(run, total, jobs, hardware, i);
    var s := run[i];
    forall w | 0 <= w < |s.workers| ensures s.workers[w] == Exited {
      assert WorkerSound(s, w);
    }
    forall item: Item
      ensures Count(s.finished, item) + Count(s.exceptions, item) == if item < s.iter then 1 else 0
    {
      assert ItemAccounted(s, item);
      NoHolders(s.workers, item);
    }
    if s.main.ok {
      assert WorkerSound(s, 0);
      forall item: Item | item < total ensures Count(s.finished, item) == 1 {
        assert Count(s.exceptions, item) == 0;
      }
    }
  }

  /** Claims are only ever added, one per advance of the iterator. */
  lemma StepExtendsClaims(s: State, t: State)
    requires Inv(s) && Next(s, t)
    ensures s.claims <= t.claims && s.exceptions <= t.exceptions
    ensures s.exceptions != [] ==> t.claims == s.claims
  {
    if !MainStep(s, t) {
      var w: Worker, throws: bool :| WorkerStep(s, t, w, throws);
      assert WorkerSound(s, w);
    }
  }

  /** Once an exception is recorded, no further item is claimed. */
  lemma {:induction false} NoClaimAfterException(run: seq<State>, total: nat, jobs: int, hardware: nat, i: nat, j: nat)
    requires IsRun(run, total, jobs, hardware) && i <= j < |run|
    ensures run[i].claims <= run[j].claims && run[i].exceptions <= run[j].exceptions
    ensures run[i].exceptions != [] ==> run[j].claims == run[i].claims && run[j].iter == run[i].iter
    decreases j
  {
    RunInv(run, total, jobs, hardware, i);
    if i < j {
      NoClaimAfterException(run, total, jobs, hardware, i, j - 1);
      RunInv(run, total, jobs, hardware, j - 1);
      var s, t := run[j - 1], run[j];
      assert StepInto(run, j);
      StepExtendsClaims(s, t);
      StepInv(s, t);
    }
  }

  /** Each worker records at most one exception, so there are never more than workers. */
  lemma OneExceptionPerWorker(run: seq<State>, total: nat, jobs: int, hardware: nat, i: nat)
    requires IsRun(run, total, jobs, hardware) && i < |run|
    ensures forall j, k | 0 <= j < k < |run[i].exceptions| :: run[i].exceptions[j].worker != run[i].exceptions[k].worker
    ensures forall e | e in run[i].exceptions :: e.worker < |run[i].workers|
  {
    RunInv(run, total, jobs, hardware, i);
  }

  // -- Termination and absence of deadlock -----------------------------------------------------

  ghost function RankSum(workers: seq<Pc>): nat {
    if workers == [] then 0 else workers[0].Rank() + RankSum(workers[1..])
  }

  ghost function MainRank(s: State): int {
    match s.main
    case Spawning(_) => |s.workers| + 2
    case Joining(k) => |s.workers| + 1 - k
    case Returned(_) => 0
  }

  ghost function Measure(s: State): int {
    RankSum(s.workers) + MainRank(s) + 6 * (s.total - s.iter)
  }

  lemma {:induction false} RankUpdate(workers: seq<Pc>, w: Worker, pc: Pc)
    requires w < |workers|
    ensures RankSum(workers[w := pc]) + workers[w].Rank() == RankSum(workers) + pc.Rank()
  {
    if w == 0 {
      assert workers[0 := pc][1..] == workers[1..];
    } else {
      assert workers[w := pc][1..] == workers[1..][w - 1 := pc];
      RankUpdate(workers[1..], w - 1, pc);
    }
  }

  lemma WorkerStepDecreases(s: State, t: State, w: Worker, throws: bool)
    requires WorkerStep(s, t, w, throws)
    ensures Measure(t) < Measure(s)
  {
    RankUpdate(s.workers, w, t.workers[w]);
  }

  lemma MainStepDecreases(s: State, t: State)
    requires Inv(s) && MainStep(s, t)
    ensures Measure(t) < Measure(s)
  {
    if s.main.Spawning? && s.main.next < |s.workers| {
      assert WorkerSound(s, s.main.next);
      RankUpdate(s.workers, s.main.next, AtLock);
    }
  }

  lemma StepDecreases(s: State, t: State)
    requires Inv(s) && Next(s, t)
    ensures Measure(t) < Measure(s)
  {
    if MainStep(s, t) {
      MainStepDecreases(s, t);
    } else {
      var w: Worker, throws: bool :| WorkerStep(s, t, w, throws);
      WorkerStepDecreases(s, t, w, throws);
    }
  }

  lemma {:induction false} InitialRankSum(n: nat)
    ensures RankSum(seq(n, _ => NotStarted)) == 7 * n
  {
    var all := seq(n, _ => NotStarted);
    if n > 0 {
      assert all[1..] == seq(n - 1, _ => NotStarted);
      InitialRankSum(n - 1);
    }
  }

  lemma {:induction false} MeasureFalls(run: seq<State>, total: nat, jobs: int, hardware: nat, i: nat)
    requires IsRun(run, total, jobs, hardware) && i < |run|
    ensures 0 <= Measure(run[i]) <= 8 * WorkerCount(jobs, hardware) + 6 * total + 2 - i
  {
    if i == 0 {
      InitialRankSum(WorkerCount(jobs, hardware));
    } else {
      MeasureFalls(run, total, jobs, hardware, i - 1);
      RunInv(run, total, jobs, hardware, i - 1);
      var s, t := run[i - 1], run[i];
      assert StepInto(run, i);
      StepDecreases(s, t);
      StepInv(s, t);
    }
  }

  ghost predicate CanGoOn(s: State) {
    exists t :: Next(s, t)
  }

  /** Some step is possible until the call has returned. */
  lemma NoDeadlock(s: State)
    requires Inv(s) && !s.main.Returned?
    ensures CanGoOn(s)
  {
    if s.main.Spawning? {
      if s.main.next < |s.workers| {
        assert Next(s, MoveTo(s, s.main.next, AtLock).(main := Spawning(s.main.next + 1)));
      } else {
        assert Next(s, s.(main := Joining(0)));
      }
    } else if w: nat :| w < |s.workers| && s.workers[w].HoldsLock() {
      assert WorkerSound(s, w);
      HolderMoves(s, w);
    } else {
      assert LockFree(s);
      var k := s.main.next;
      if k == |s.workers| {
        assert Next(s, s.(main := Returned(s.exceptions == [])));
      } else if s.workers[k] == Exited {
        assert Next(s, s.(main := Joining(k + 1)));
      } else {
        assert WorkerSound(s, k);
        match s.workers[k]
        case AtLock => WorkerGoesOn(s, MoveTo(s, k, CheckExceptions), k, false);
        case Running(item) => WorkerGoesOn(s, MoveTo(s, k, Caught(item)), k, true);
        case Caught(item) => WorkerGoesOn(s, MoveTo(s, k, Record(item)), k, false);
      }
    }
  }

  lemma WorkerGoesOn(s: State, t: State, w: Worker, throws: bool)
    requires WorkerStep(s, t, w, throws)
    ensures CanGoOn(s)
  {
    assert Next(s, t);
  }

  /** Whoever holds the lock can always go on. */
  lemma HolderMoves(s: State, w: Worker)
    requires w < |s.workers| && s.workers[w].HoldsLock()
    ensures CanGoOn(s)
  {
    var t := match s.workers[w]
      case CheckExceptions => MoveTo(s, w, if s.exceptions != [] then Leave else CheckEnd)
      case CheckEnd => MoveTo(s, w, if s.iter == s.total then Leave else Claim)
      case Claim => MoveTo(s, w, Unlock(s.iter)).(iter := s.iter + 1, claims := s.claims + [w])
      case Unlock(item) => MoveTo(s, w, Running(item))
      case Record(item) => MoveTo(s, w, Leave).(exceptions := s.exceptions + [Call(w, item)])
      case Leave => MoveTo(s, w, Exited);
    WorkerGoesOn(s, t, w, false);
  }

  /** Every run is finite, whatever the schedule, and one that cannot go on has returned. */
  lemma EveryRunEndsInReturn(run: seq<State>, total: nat, jobs: int, hardware: nat)
    requires IsRun(run, total, jobs, hardware)
    ensures |run| <= 8 * WorkerCount(jobs, hardware) + 6 * total + 3
    ensures CanGoOn(run[|run| - 1]) <==> !run[|run| - 1].main.Returned?
  {
    var last := run[|run| - 1];
    MeasureFalls(run, total, jobs, hardware, |run| - 1);
    RunInv(run, total, jobs, hardware, |run| - 1);
    if !last.main.Returned? {
      NoDeadlock(last);
    } else {
      forall t ensures !Next(last, t) {
        forall w: Worker, throws: bool ensures !WorkerStep(last, t, w, throws) {
          if w < |last.workers| { assert WorkerSound(last, w); }
        }
      }
    }
  }
}
