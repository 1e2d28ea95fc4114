/** Reaping children from a SIGCHLD handler, as interleaved steps. The signal is blocked except in
    sigsuspend, stays pending at most once however many children exit, and is blocked again while
    its handler runs. */
module SigchldReap {
  import opened Wrappers
  import opened Runs

  /** Where the parent is: creating children, testing the loop condition, in sigsuspend, in the
      handler's waitpid loop, after that loop, or finished. */
  datatype Phase = Forking | Testing | Suspended | Reaping | Returning | Exited

  datatype State = State(total: nat, unforked: nat, running: nat, zombies: nat,
                         pending: bool, numLiveChildren: int, sigCnt: nat, phase: Phase)

  datatype Action = Fork | StartWaiting | ChildExits | Test | Deliver | ReapOne | ReapNone | Return

  function Start(n: nat): State {
    State(n, n, 0, 0, false, n, 0, Forking)
  }

  predicate Enabled(s: State, a: Action) {
    match a
    case Fork => s.phase == Forking && s.unforked > 0
    case StartWaiting => s.phase == Forking && s.unforked == 0
    case ChildExits => s.running > 0
    case Test => s.phase == Testing
    case Deliver => s.phase == Suspended && s.pending
    case ReapOne => s.phase == Reaping && s.zombies > 0
    case ReapNone => s.phase == Reaping && s.zombies == 0
    case Return => s.phase == Returning
  }

  function Next(s: State, a: Action): State
    requires Enabled(s, a)
  {
    match a
    case Fork => s.(unforked := s.unforked - 1, running := s.running + 1)
    case StartWaiting => s.(phase := Testing)
    case ChildExits => s.(running := s.running - 1, zombies := s.zombies + 1, pending := true)
    case Test => s.(phase := if s.numLiveChildren > 0 then Suspended else Exited)
    case Deliver => s.(pending := false, phase := Reaping)
    case ReapOne => s.(zombies := s.zombies - 1, numLiveChildren := s.numLiveChildren - 1)
    case ReapNone => s.(phase := Returning)
    case Return => s.(phase := Testing, sigCnt := s.sigCnt + 1)
  }

  function Step(s: State, a: Action): Option<State> {
    if Enabled(s, a) then Some(Next(s, a)) else None
  }

  predicate InHandler(s: State) {
    s.phase == Reaping || s.phase == Returning
  }

  predicate Inv(s: State) {
    && s.numLiveChildren == s.unforked + s.running + s.zombies <= s.total
    && (s.phase != Forking ==> s.unforked == 0)
    && (s.zombies > 0 ==> s.pending || s.phase == Reaping)
    && s.sigCnt + (if InHandler(s) then 1 else 0) + (if s.pending then 1 else 0) <= s.total - s.unforked - s.running
    && (s.phase == Suspended ==> s.numLiveChildren > 0)
    && (s.phase == Exited ==> s.numLiveChildren == 0)
    && (s.numLiveChildren < s.total ==> s.sigCnt > 0 || InHandler(s))
  }

  lemma InvKept(s: State, a: Action)
    requires Inv(s) && Enabled(s, a)
    ensures Inv(Next(s, a)) && Next(s, a).total == s.total
  {
  }

  /** Every step uses up some of this. */
  function Work(s: State): nat {
    8 * s.unforked + 7 * s.running + s.zombies + (if s.pending then 5 else 0) +
    match s.phase
    case Forking => 2
    case Testing => 1
    case Suspended => 0
    case Reaping => 3
    case Returning => 2
    case Exited => 0
  }

  lemma WorkShrinks(s: State, a: Action)
    requires Enabled(s, a)
    ensures Work(Next(s, a)) < Work(s)
  {
  }

  lemma {:induction false} RunFacts(s: State, run: seq<Action>)
    requires IsRun(Step, s, run) && Inv(s)
    ensures Inv(After(Step, s, run)) && After(Step, s, run).total == s.total
    ensures |run| + Work(After(Step, s, run)) <= Work(s)
    decreases |run|
  {
    if run != [] {
      InvKept(s, run[0]);
      WorkShrinks(s, run[0]);
      RunFacts(Next(s, run[0]), run[1..]);
    }
  }

  function Count(run: seq<Action>, a: Action): nat
    decreases |run|
  {
    if run == [] then 0 else (if run[0] == a then 1 else 0) + Count(run[1..], a)
  }

  /** How many signals have been caught: those the main loop has counted, and the one in whose handler it is. */
  function Caught(s: State): nat {
    s.sigCnt + if InHandler(s) then 1 else 0
  }

  /** Over every run: the signals caught are the deliveries, the children gone are the reapings, those started the
      forks, and those that ended the exits. */
  lemma {:induction false} Counts(s: State, run: seq<Action>)
    requires IsRun(Step, s, run)
    ensures var e := After(Step, s, run);
            && Caught(e) == Caught(s) + Count(run, Deliver)
            && e.numLiveChildren == s.numLiveChildren - Count(run, ReapOne)
            && e.unforked == s.unforked - Count(run, Fork)
            && e.running == s.running + Count(run, Fork) - Count(run, ChildExits)
    decreases |run|
  {
    if run != [] {
      Counts(Next(s, run[0]), run[1..]);
    }
  }

  /** Nothing can happen any more. */
  ghost predicate Over(s: State) {
    forall a :: !Enabled(s, a)
  }

  /** The parent is never stuck: when nothing can happen any more, it has left the loop. In
      particular it never sleeps in sigsuspend with only zombies left. */
  lemma NeverStuck(s: State)
    requires Inv(s)
    ensures Over(s) <==> s.phase == Exited
    ensures s.phase == Suspended && !s.pending ==> s.running > 0 && s.zombies == 0
  {
    if s.phase != Exited {
      assert Enabled(s, Fork) || Enabled(s, StartWaiting) || Enabled(s, Test) || Enabled(s, ReapOne)
             || Enabled(s, ReapNone) || Enabled(s, Return) || Enabled(s, Deliver) || Enabled(s, ChildExits);
    }
  }

  /** The theorem. For any number of children and any interleaving: the counter is always the number
      of children not yet reaped, the run is finite, and when it can go no further the parent has
      exited with every child reaped, having caught the signal at least once, if there was a child,
      and at most once per child. */
  lemma NoLostChild(n: nat, run: seq<Action>)
    requires IsRun(Step, Start(n), run)
    ensures NothingLost(n, After(Step, Start(n), run)) && |run| <= 8 * n + 2
    ensures Tallied(n, After(Step, Start(n), run), Count(run, Deliver), Count(run, ReapOne), Count(run, Fork))
  {
    StartFacts(n);
    RunFacts(Start(n), run);
    Concluded(n, After(Step, Start(n), run));
    EndCounts(n, Start(n), run);
  }

  /** When the parent exits, it has counted each delivery of the signal, and reaped and forked each child once. */
  ghost predicate Tallied(n: nat, s: State, deliveries: nat, reaped: nat, forked: nat) {
    s.phase == Exited ==> s.sigCnt == deliveries && reaped == forked == n
  }

  lemma EndCounts(n: nat, s: State, run: seq<Action>)
    requires IsRun(Step, s, run) && Inv(s) && Caught(s) == 0 && s.numLiveChildren == s.unforked == n
    ensures Tallied(n, After(Step, s, run), Count(run, Deliver), Count(run, ReapOne), Count(run, Fork))
  {
    Counts(s, run);
    RunFacts(s, run);
  }

  lemma StartFacts(n: nat)
    ensures Inv(Start(n)) && Work(Start(n)) == 8 * n + 2 && Start(n).total == n
    ensures Caught(Start(n)) == 0 && Start(n).numLiveChildren == Start(n).unforked == n
  {
  }

  lemma Concluded(n: nat, s: State)
    requires Inv(s) && s.total == n
    ensures NothingLost(n, s)
  {
    NeverStuck(s);
  }

  ghost predicate NothingLost(n: nat, s: State) {
    && s.numLiveChildren == s.unforked + s.running + s.zombies
    && s.sigCnt <= n
    && (Over(s) <==> s.phase == Exited)
    && (s.phase == Exited ==> s.unforked == s.running == s.zombies == 0 && (n > 0 ==> s.sigCnt >= 1))
  }
}
