/** Two processes exchanging one signal with kill and sigsuspend, as interleaved steps. The signal
    is blocked except in sigsuspend, so it waits, pending, until its receiver is ready. */
module PingPong {
  import opened Wrappers
  import opened Runs

  datatype Pc = Sending | Waiting | Finished

  /** `lost` records a signal sent while one was pending, or to a process that had gone. */
  datatype State = State(child: Pc, parent: Pc, childCnt: nat, parentCnt: nat,
                         toParent: bool, toChild: bool, lost: bool)

  datatype Action = ChildKill | ChildWakes | ParentWakes | ParentKill

  /** For a positive number of signals: the child starts by sending, the parent by waiting. */
  function Start(): State {
    State(Sending, Waiting, 0, 0, false, false, false)
  }

  predicate Enabled(s: State, a: Action) {
    match a
    case ChildKill => s.child == Sending
    case ChildWakes => s.child == Waiting && s.toChild
    case ParentWakes => s.parent == Waiting && s.toParent
    case ParentKill => s.parent == Sending
  }

  function Next(n: nat, s: State, a: Action): State
    requires Enabled(s, a)
  {
    match a
    case ChildKill => s.(child := Waiting, toParent := true, lost := s.lost || s.toParent || s.parent == Finished)
    case ChildWakes =>
      s.(toChild := false, childCnt := s.childCnt + 1,
         child := if s.childCnt + 1 < n then Sending else Finished)
    case ParentWakes => s.(toParent := false, parent := Sending)
    case ParentKill =>
      s.(toChild := true, lost := s.lost || s.toChild || s.child == Finished, parentCnt := s.parentCnt + 1,
         parent := if s.parentCnt + 1 < n then Waiting else Finished)
  }

  function Stepper(n: nat): (State, Action) -> Option<State> {
    (s: State, a: Action) => if Enabled(s, a) then Some(Next(n, s, a)) else None
  }

  /** One token: about to be sent, or pending, on exactly one side; until both are finished. */
  predicate Inv(n: nat, s: State) {
    && !s.lost && s.childCnt <= s.parentCnt <= n
    && (s.childCnt < n ==>
          || (s.child == Sending && s.parent == Waiting && !s.toParent && !s.toChild && s.parentCnt == s.childCnt)
          || (s.child == Waiting && s.parent == Waiting && s.toParent && !s.toChild && s.parentCnt == s.childCnt)
          || (s.child == Waiting && s.parent == Sending && !s.toParent && !s.toChild && s.parentCnt == s.childCnt)
          || (s.child == Waiting && !s.toParent && s.toChild && s.parentCnt == s.childCnt + 1
              && s.parent == if s.parentCnt < n then Waiting else Finished))
    && (s.childCnt == n ==> s.child == Finished && s.parent == Finished && !s.toParent && !s.toChild)
  }

  /** The steps still to come. */
  function Remaining(n: nat, s: State): int {
    4 * (n - s.childCnt) -
    if s.childCnt == n || s.child == Sending then 0 else if s.toParent then 1 else if s.parent == Sending then 2 else 3
  }

  lemma StepFacts(n: nat, s: State, a: Action)
    requires Inv(n, s) && Enabled(s, a)
    ensures Inv(n, Next(n, s, a)) && Remaining(n, Next(n, s, a)) == Remaining(n, s) - 1
  {
  }

  /** Whoever sends finds its signal to the other taken, and the other still there. */
  lemma SendsAreSafe(n: nat, s: State)
    requires Inv(n, s)
    ensures s.child == Sending ==> !s.toParent && s.parent == Waiting
    ensures s.parent == Sending ==> !s.toChild && s.child == Waiting
  {
  }

  lemma {:induction false} RunFacts(n: nat, s: State, run: seq<Action>)
    requires Inv(n, s) && IsRun(Stepper(n), s, run)
    ensures Inv(n, After(Stepper(n), s, run)) && |run| == Remaining(n, s) - Remaining(n, After(Stepper(n), s, run))
    decreases |run|
  {
    if run != [] {
      StepFacts(n, s, run[0]);
      RunFacts(n, Next(n, s, run[0]), run[1..]);
    }
  }

  /** No signal is coalesced or sent to a process that is gone, exactly one step is possible until both
      processes are finished, and they finish after exactly `n` rounds each. */
  lemma ExactlyNRounds(n: nat, run: seq<Action>)
    requires n > 0 && IsRun(Stepper(n), Start(), run)
    ensures var s := After(Stepper(n), Start(), run);
            && !s.lost && |run| <= 4 * n
            && (|run| < 4 * n ==> exists a :: Enabled(s, a) && forall b | Enabled(s, b) :: b == a)
            && (|run| == 4 * n ==> s.child == Finished && s.parent == Finished && s.childCnt == n && s.parentCnt == n)
  {
    RunFacts(n, Start(), run);
    var s := After(Stepper(n), Start(), run);
    if |run| < 4 * n {
      var a := if s.child == Sending then ChildKill else if s.toParent then ParentWakes
               else if s.parent == Sending then ParentKill else ChildWakes;
      assert Enabled(s, a) && forall b | Enabled(s, b) :: b == a;
    }
  }
}
