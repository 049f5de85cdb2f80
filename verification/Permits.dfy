/** The resolver's limit on concurrent request handlers: one acceptor, detached handlers, one counter. */
module Permits {

  const MAX_THREADS := 100

  /** Where the acceptor loop stands. */
  datatype Acceptor = Deciding | Accepting | Launched | Stopped

  /** `avail` is the shared counter; `running` handlers have started and not yet returned their permit. */
  datatype State = State(avail: int, running: nat, acceptor: Acceptor, shutdown: bool)

  const START := State(MAX_THREADS, 0, Deciding, false)

  datatype Action = Check | Launch | Decrement | Finish | Shutdown | Leave

  /**
    * One atomic step. The acceptor tests the counter, accepts, starts a handler and only then
    * takes the permit; it also starts one when the accept times out, because its error test
    * compares an unsigned socket with zero. Handlers return their permit as their last act and
    * may ask for shutdown at any time.
    */
  predicate Step(s: State, a: Action, s': State) {
    match a
    case Check => s.acceptor == Deciding && !s.shutdown && s.avail > 0 && s' == s.(acceptor := Accepting)
    case Launch => s.acceptor == Accepting && s' == s.(acceptor := Launched, running := s.running + 1)
    case Decrement => s.acceptor == Launched && s' == s.(acceptor := Deciding, avail := s.avail - 1)
    case Finish => s.running > 0 && s' == s.(running := s.running - 1, avail := s.avail + 1)
    case Shutdown => s.running > 0 && s' == s.(shutdown := true)
    case Leave => s.acceptor == Deciding && s.shutdown && s' == s.(acceptor := Stopped)
  }

  ghost predicate IsRun(run: seq<State>, actions: seq<Action>) {
    && |run| == |actions| + 1
    && forall i :: 0 <= i < |actions| ==> Step(run[i], actions[i], run[i + 1])
  }

  /** Launches whose permit the acceptor has not yet taken; the handler may even have finished. */
  function Owed(s: State): nat {
    if s.acceptor == Launched then 1 else 0
  }

  /** Permits are conserved and never overdrawn. */
  predicate Conserved(s: State) {
    && s.avail + s.running - Owed(s) == MAX_THREADS
    && s.avail >= Owed(s)
    && (s.acceptor == Accepting ==> s.avail > 0)
  }

  /** In every state of every interleaving. */
  lemma {:induction false} RunConserves(run: seq<State>, actions: seq<Action>, i: nat)
    requires IsRun(run, actions) && run[0] == START && i < |run|
    ensures run[i].avail + run[i].running - Owed(run[i]) == MAX_THREADS
    ensures 0 <= run[i].avail <= MAX_THREADS + Owed(run[i]) && run[i].running <= MAX_THREADS
    ensures run[i].running == 0 && run[i].acceptor != Launched ==> run[i].avail == MAX_THREADS
    ensures Conserved(run[i])
  {
    if i > 0 {
      RunConserves(run, actions, i - 1);
      assert Step(run[i - 1], actions[i - 1], run[i]);
    }
  }

  ghost predicate Reachable(s: State) {
    exists run: seq<State>, actions: seq<Action> :: IsRun(run, actions) && run[0] == START && run[|actions|] == s
  }

  /** The limit is exact: a state with `n` handlers at once is reachable if and only if `n` is at most the limit. */
  lemma HandlersAtOnce(n: nat)
    ensures n <= 100 <==> exists s :: Reachable(s) && s.running == n
  {
    if n <= MAX_THREADS {
      var run, actions := Fill(n);
      assert Reachable(run[|actions|]);
    }
    forall s | Reachable(s) ensures s.running <= MAX_THREADS {
      var run: seq<State>, actions: seq<Action> :| IsRun(run, actions) && run[0] == START && run[|actions|] == s;
      RunConserves(run, actions, |actions|);
    }
  }

  lemma {:induction false} Fill(n: nat) returns (run: seq<State>, actions: seq<Action>)
    requires n <= MAX_THREADS
    ensures IsRun(run, actions) && run[0] == START
    ensures run[|actions|] == State(MAX_THREADS - n, n, Deciding, false)
  {
    if n == 0 {
      run, actions := [START], [];
    } else {
      run, actions := Fill(n - 1);
      var s := run[|actions|];
      run, actions := Extend(run, actions, Check, s.(acceptor := Accepting));
      run, actions := Extend(run, actions, Launch, s.(acceptor := Launched, running := n));
      run, actions := Extend(run, actions, Decrement, State(MAX_THREADS - n, n, Deciding, false));
    }
  }

  lemma Extend(run: seq<State>, actions: seq<Action>, a: Action, s: State) returns (run': seq<State>, actions': seq<Action>)
    requires IsRun(run, actions) && Step(run[|actions|], a, s)
    ensures IsRun(run', actions') && run'[0] == run[0] && run'[|actions'|] == s
    ensures run' == run + [s] && actions' == actions + [a]
  {
    run', actions' := run + [s], actions + [a];
  }

  function Launches(actions: seq<Action>): nat {
    if actions == [] then 0 else (if actions[0] == Launch then 1 else 0) + Launches(actions[1..])
  }

  /** After a shutdown no handler starts but the one whose client was being accepted. */
  lemma {:induction false} LaunchesAfterShutdown(run: seq<State>, actions: seq<Action>, i: nat)
    requires IsRun(run, actions) && i <= |actions| && run[i].shutdown
    ensures Launches(actions[i..]) <= if run[i].acceptor == Accepting then 1 else 0
    decreases |actions| - i
  {
    if i < |actions| {
      assert Step(run[i], actions[i], run[i + 1]);
      LaunchesAfterShutdown(run, actions, i + 1);
      assert actions[i..][1..] == actions[i + 1..];
    }
  }

  /** That one does start in some runs. */
  lemma LateLaunch() returns (run: seq<State>, actions: seq<Action>)
    ensures IsRun(run, actions) && run[0] == START
    ensures |actions| == 6 && run[5].shutdown && actions[5] == Launch
  {
    run, actions := [START, State(100, 0, Accepting, false), State(100, 1, Launched, false), State(99, 1, Deciding, false),
                     State(99, 1, Accepting, false), State(99, 1, Accepting, true), State(99, 2, Launched, true)],
                    [Check, Launch, Decrement, Check, Shutdown, Launch];
  }

  /** However a run has gone, once the handlers in it finish, every permit is back. */
  lemma {:induction false} DrainReturnsAll(run: seq<State>, actions: seq<Action>)
    returns (run': seq<State>, actions': seq<Action>)
    requires IsRun(run, actions) && run[0] == START && run[|actions|].acceptor != Launched
    ensures IsRun(run', actions') && run <= run' && actions <= actions'
    ensures forall i :: |actions| <= i < |actions'| ==> actions'[i] == Finish
    ensures |actions'| == |actions| + run[|actions|].running
    ensures run'[|actions'|] == run[|actions|].(running := 0, avail := MAX_THREADS)
    decreases run[|actions|].running
  {
    var s := run[|actions|];
    RunConserves(run, actions, |actions|);
    if s.running == 0 {
      run', actions' := run, actions;
    } else {
      var run1, actions1 := Extend(run, actions, Finish, s.(running := s.running - 1, avail := s.avail + 1));
      run', actions' := DrainReturnsAll(run1, actions1);
    }
  }
}
