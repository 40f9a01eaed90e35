/** How the single calls of `fn` end, against what `parallel_run` records and returns. */
module ParallelOutcome {
  import opened ParallelRun

  /** With its `i`-th step the call of worker `w` on `item` ends, by throwing or by returning. */
  ghost predicate Ends(run: seq<State>, i: nat, w: Worker, item: Item, throws: bool)
    requires 0 < i < |run|
  {
    w < |run[i - 1].workers| && run[i - 1].workers[w] == Running(item) && WorkerStep(run[i - 1], run[i], w, throws)
  }

  /** The exception of that call is recorded, or is about to be. */
  ghost predicate Thrown(s: State, w: Worker, item: Item) {
    || Call(w, item) in s.exceptions
    || (w < |s.workers| && (s.workers[w] == Caught(item) || s.workers[w] == Record(item)))
  }

  ghost predicate Finished(s: State, w: Worker, item: Item) {
    Call(w, item) in s.finished
  }

  /** A call of `fn` can end either way, whenever it is under way. */
  lemma EitherEnd(run: seq<State>, total: nat, jobs: int, hardware: nat, w: Worker, item: Item, throws: bool)
    returns (next: State)
    requires IsRun(run, total, jobs, hardware)
    requires var s := run[|run| - 1]; w < |s.workers| && s.workers[w] == Running(item)
    ensures IsRun(run + [next], total, jobs, hardware) && Ends(run + [next], |run|, w, item, throws)
  {
    var s := run[|run| - 1];
    next := if throws then MoveTo(s, w, Caught(item))
            else MoveTo(s, w, AtLock).(finished := s.finished + [Call(w, item)]);
    assert WorkerStep(s, next, w, throws);
    var longer := run + [next];
    forall i | 0 < i < |longer| ensures StepInto(longer, i) {
      if i < |run| {
        assert StepInto(run, i);
      }
    }
  }

  lemma WorkerKeepsThrown(s: State, t: State, v: Worker, throws: bool, w: Worker, item: Item)
    requires WorkerStep(s, t, v, throws) && Thrown(s, w, item)
    ensures Thrown(t, w, item)
  {
    if Call(w, item) !in s.exceptions && v == w && s.workers[w].Record? {
      assert t.exceptions[|s.exceptions|] == Call(w, item);
    }
  }

  lemma WorkerKeepsFinished(s: State, t: State, v: Worker, throws: bool)
    requires WorkerStep(s, t, v, throws)
    ensures forall call | call in s.finished :: call in t.finished
  {}

  lemma StaysEnded(s: State, t: State, w: Worker, item: Item)
    requires Inv(s) && Next(s, t)
    ensures Thrown(s, w, item) ==> Thrown(t, w, item)
    ensures Finished(s, w, item) ==> Finished(t, w, item)
  {
    if MainStep(s, t) {
      if w < |s.workers| {
        assert WorkerSound(s, w);
      }
    } else {
      var v: Worker, throws: bool :| WorkerStep(s, t, v, throws);
      WorkerKeepsFinished(s, t, v, throws);
      if Thrown(s, w, item) {
        WorkerKeepsThrown(s, t, v, throws, w, item);
      }
    }
  }

  lemma {:induction false} EndLasts(run: seq<State>, total: nat, jobs: int, hardware: nat, i: nat, j: nat,
                                    w: Worker, item: Item, throws: bool)
    requires IsRun(run, total, jobs, hardware) && 0 < i <= j < |run| && Ends(run, i, w, item, throws)
    ensures if throws then Thrown(run[j], w, item) else Finished(run[j], w, item)
    decreases j
  {
    if i < j {
      EndLasts(run, total, jobs, hardware, i, j - 1, w, item, throws);
      RunInv(run, total, jobs, hardware, j - 1);
      assert StepInto(run, j);
      StaysEnded(run[j - 1], run[j], w, item);
    }
  }

  /** Only a call that throws makes an exception. */
  lemma {:induction false} ThrownHasEnded(run: seq<State>, total: nat, jobs: int, hardware: nat, j: nat, w: Worker,
                                          item: Item)
    returns (i: nat)
    requires IsRun(run, total, jobs, hardware) && j < |run| && Thrown(run[j], w, item)
    ensures 0 < i <= j && Ends(run, i, w, item, true)
    decreases j
  {
    if j > 0 && !Thrown(run[j - 1], w, item) {
      assert StepInto(run, j);
      var s, t := run[j - 1], run[j];
      ThrownAnew(s, t, w, item);
      i := j;
    } else if j > 0 {
      i := ThrownHasEnded(run, total, jobs, hardware, j - 1, w, item);
    }
  }

  lemma ThrownAnew(s: State, t: State, w: Worker, item: Item)
    requires Next(s, t) && Thrown(t, w, item) && !Thrown(s, w, item)
    ensures w < |s.workers| && s.workers[w] == Running(item) && WorkerStep(s, t, w, true)
  {
    if !MainStep(s, t) {
      var v: Worker, throws: bool :| WorkerStep(s, t, v, throws);
    }
  }

  lemma {:induction false} CountsOne(calls: seq<Call>, call: Call)
    requires call in calls
    ensures Count(calls, call.item) > 0
  {
    var last := |calls| - 1;
    if calls[last] != call {
      assert calls == calls[..last] + [calls[last]];
      CountsOne(calls[..last], call);
    }
  }

  /** In every run and however it goes on: when `parallel_run` has returned, a call that threw is recorded as such, a
      call that returned is not, and after a throw the result is false. */
  lemma EndIsRecorded(run: seq<State>, total: nat, jobs: int, hardware: nat, i: nat, j: nat, w: Worker, item: Item,
                      throws: bool)
    requires IsRun(run, total, jobs, hardware) && 0 < i <= j < |run| && run[j].main.Returned?
    requires Ends(run, i, w, item, throws)
    ensures Call(w, item) in run[j].exceptions <==> throws
    ensures Call(w, item) in run[j].finished <==> !throws
    ensures throws ==> !run[j].main.ok
  {
    var s := run[j];
    EndLasts(run, total, jobs, hardware, i, j, w, item, throws);
    ResultMeansAllRan(run, total, jobs, hardware, j);
    if w < |s.workers| {
      assert s.workers[w] in s.workers;
    }
    assert Count(s.finished, item) + Count(s.exceptions, item) <= 1;
    if Call(w, item) in s.exceptions {
      CountsOne(s.exceptions, Call(w, item));
    }
    if Call(w, item) in s.finished {
      CountsOne(s.finished, Call(w, item));
    }
  }

  /** The call returns true if and only if every item was claimed and no call of `fn` threw. */
  lemma OkExactly(run: seq<State>, total: nat, jobs: int, hardware: nat, j: nat)
    requires IsRun(run, total, jobs, hardware) && j < |run| && run[j].main.Returned?
    ensures run[j].main.ok <==>
      && |run[j].claims| == total
      && forall i, w, item | 0 < i <= j :: !Ends(run, i, w, item, true)
  {
    var s := run[j];
    RunInv(run, total, jobs, hardware, j);
    assert WorkerSound(s, 0);
    if s.exceptions == [] {
      forall i, w, item | 0 < i <= j ensures !Ends(run, i, w, item, true) {
        if Ends(run, i, w, item, true) {
          EndIsRecorded(run, total, jobs, hardware, i, j, w, item, true);
        }
      }
    } else {
      var e := s.exceptions[0];
      assert e in s.exceptions;
      var i := ThrownHasEnded(run, total, jobs, hardware, j, e.worker, e.item);
    }
  }

  ghost predicate Steps(states: seq<State>) {
    forall i | 0 < i < |states| :: Next(states[i - 1], states[i])
  }

  lemma StepOn(states: seq<State>, t: State, w: Worker)
    requires states != [] && Steps(states) && WorkerStep(states[|states| - 1], t, w, false)
    ensures Steps(states + [t])
  {
    assert Next(states[|states| - 1], t);
    var longer := states + [t];
    forall i | 0 < i < |longer| ensures Next(longer[i - 1], longer[i]) {
      if i < |states| {
        assert Next(states[i - 1], states[i]);
      }
    }
  }

  /** Calls run side by side: with any number of calls under way, a worker that waits for the lock can start the call
      on the next item, while the others stay where they are. */
  lemma CallsOverlap(s: State, w: Worker) returns (states: seq<State>)
    requires s.main.Joining? && w < |s.workers| && s.workers[w] == AtLock
    requires forall v | 0 <= v < |s.workers| && v != w ::
      s.workers[v] == AtLock || s.workers[v] == Exited || s.workers[v].Running?
    requires s.exceptions == [] && s.iter < s.total
    ensures states != [] && Steps(states) && states[0] == s
    ensures var last := states[|states| - 1];
      last.workers == s.workers[w := Running(s.iter)] && last.iter == s.iter + 1
  {
    assert LockFree(s);
    var s1 := MoveTo(s, w, CheckExceptions);
    var s2 := MoveTo(s1, w, CheckEnd);
    var s3 := MoveTo(s2, w, Claim);
    var s4 := MoveTo(s3, w, Unlock(s.iter)).(iter := s.iter + 1, claims := s.claims + [w]);
    var s5 := MoveTo(s4, w, Running(s.iter));
    states := [s];
    StepOn(states, s1, w);
    states := states + [s1];
    StepOn(states, s2, w);
    states := states + [s2];
    StepOn(states, s3, w);
    states := states + [s3];
    StepOn(states, s4, w);
    states := states + [s4];
    StepOn(states, s5, w);
    states := states + [s5];
  }
}
