/** Message-queue notification with threads, as interleaved steps: any number of senders, the
    main thread, and the threads the notifications start. Each thread first registers for the
    next notification and then drains the queue. */
module MqNotify {
  import opened Wrappers
  import opened Runs

  type Message = nat

  datatype Pc = AtSetup | Draining | Finished

  /** Messages are received by priority, so the queue is a multiset here. `failed` records that
      mq_notify found a registration in place. */
  datatype State = State(queue: multiset<Message>, registered: bool, threads: seq<Pc>, failed: bool,
                         sent: multiset<Message>, received: multiset<Message>)

  datatype Action =
    | Send(msg: Message)
    | Setup(thread: nat)
    | Receive(thread: nat, msg: Message)
    | FindEmpty(thread: nat)

  /** Only the main thread, about to call notifySetup; the queue may hold messages already. */
  function Start(queue: multiset<Message>): State {
    State(queue, false, [AtSetup], false, queue, multiset{})
  }

  predicate Enabled(s: State, a: Action) {
    match a
    case Send(_) => true
    case Setup(t) => t < |s.threads| && s.threads[t] == AtSetup
    case Receive(t, m) => t < |s.threads| && s.threads[t] == Draining && m in s.queue
    case FindEmpty(t) => t < |s.threads| && s.threads[t] == Draining && |s.queue| == 0
  }

  /** A message sent to an empty queue uses up the registration and starts a thread. */
  function Next(s: State, a: Action): State
    requires Enabled(s, a)
  {
    match a
    case Send(m) =>
      var notify := |s.queue| == 0 && s.registered;
      s.(queue := s.queue + multiset{m}, sent := s.sent + multiset{m},
         registered := s.registered && !notify,
         threads := if notify then s.threads + [AtSetup] else s.threads)
    case Setup(t) =>
      s.(registered := true, failed := s.failed || s.registered, threads := s.threads[t := Draining])
    case Receive(t, m) =>
      s.(queue := s.queue - multiset{m}, received := s.received + multiset{m})
    case FindEmpty(t) =>
      s.(threads := s.threads[t := Finished])
  }

  function Step(s: State, a: Action): Option<State> {
    if Enabled(s, a) then Some(Next(s, a)) else None
  }

  function HowMany(s: State, pc: Pc): nat {
    multiset(s.threads)[pc]
  }

  /** Exactly one of: a registration in place, a thread about to register. Whoever it is, a
      nonempty queue has someone on the way to drain it; and no message is lost or made up. */
  predicate Inv(s: State) {
    && (if s.registered then 1 else 0) + HowMany(s, AtSetup) == 1
    && !s.failed
    && (|s.queue| > 0 ==> HowMany(s, AtSetup) + HowMany(s, Draining) > 0)
    && s.sent == s.received + s.queue
  }

  /** mq_notify is called only when no registration is in place. */
  lemma SetupFindsNone(s: State, t: nat)
    requires Inv(s) && t < |s.threads| && s.threads[t] == AtSetup
    ensures !s.registered
  {
    assert s.threads[t] in multiset(s.threads);
  }

  lemma ThreadMoves(threads: seq<Pc>, t: nat, pc: Pc)
    requires t < |threads|
    ensures multiset(threads[t := pc]) == multiset(threads) - multiset{threads[t]} + multiset{pc}
    ensures multiset(threads)[threads[t]] > 0
  {
    assert threads == threads[..t] + [threads[t]] + threads[t + 1..];
    assert threads[t := pc] == threads[..t] + [pc] + threads[t + 1..];
    assert threads[t] in threads;
  }

  lemma SendKeeps(s: State, m: Message)
    requires Inv(s)
    ensures Inv(Next(s, Send(m)))
  {
    var s' := Next(s, Send(m));
    assert multiset(s.threads + [AtSetup]) == multiset(s.threads) + multiset{AtSetup};
    assert s'.sent == s'.received + s'.queue;
  }

  lemma SetupKeeps(s: State, t: nat)
    requires Inv(s) && Enabled(s, Setup(t))
    ensures Inv(Next(s, Setup(t)))
  {
    ThreadMoves(s.threads, t, Draining);
  }

  lemma ReceiveKeeps(s: State, t: nat, m: Message)
    requires Inv(s) && Enabled(s, Receive(t, m))
    ensures Inv(Next(s, Receive(t, m)))
  {
    var s' := Next(s, Receive(t, m));
    assert s.threads[t] in multiset(s.threads);
    assert s'.sent == s'.received + s'.queue;
  }

  lemma FindEmptyKeeps(s: State, t: nat)
    requires Inv(s) && Enabled(s, FindEmpty(t))
    ensures Inv(Next(s, FindEmpty(t)))
  {
    ThreadMoves(s.threads, t, Finished);
  }

  lemma InvKept(s: State, a: Action)
    requires Inv(s) && Enabled(s, a)
    ensures Inv(Next(s, a))
  {
    match a
    case Send(m) => SendKeeps(s, m);
    case Setup(t) => SetupKeeps(s, t);
    case Receive(t, m) => ReceiveKeeps(s, t, m);
    case FindEmpty(t) => FindEmptyKeeps(s, t);
  }

  lemma {:induction false} InvAlways(s: State, run: seq<Action>)
    requires Inv(s) && IsRun(Step, s, run)
    ensures Inv(After(Step, s, run))
    decreases |run|
  {
    if run != [] {
      InvKept(s, run[0]);
      InvAlways(Next(s, run[0]), run[1..]);
    }
  }

  // ----- no lost message -----

  /** Everything that has to happen before the program is quiet again. */
  function Work(s: State): nat {
    |s.queue| + 2 * HowMany(s, AtSetup) + HowMany(s, Draining)
  }

  lemma WorkShrinks(s: State, a: Action)
    requires Inv(s) && Enabled(s, a) && !a.Send?
    ensures Work(Next(s, a)) < Work(s)
  {
    match a
    case Setup(t) => SetupShrinks(s, t);
    case Receive(t, m) => assert |s.queue - multiset{m}| == |s.queue| - 1;
    case FindEmpty(t) => FindEmptyShrinks(s, t);
  }

  lemma SetupShrinks(s: State, t: nat)
    requires Enabled(s, Setup(t))
    ensures Work(Next(s, Setup(t))) < Work(s)
  {
    ThreadMoves(s.threads, t, Draining);
  }

  lemma FindEmptyShrinks(s: State, t: nat)
    requires Enabled(s, FindEmpty(t))
    ensures Work(Next(s, FindEmpty(t))) < Work(s)
  {
    ThreadMoves(s.threads, t, Finished);
  }

  /** If nothing is left to do, the queue is empty and the next message will be notified. */
  lemma QuietMeansDrained(s: State)
    requires Inv(s) && forall a | Enabled(s, a) :: a.Send?
    ensures |s.queue| == 0 && s.registered && s.received == s.sent
  {
    forall t | 0 <= t < |s.threads|
      ensures s.threads[t] == Finished
    {
      assert Enabled(s, Setup(t)) <==> s.threads[t] == AtSetup;
      assert Enabled(s, FindEmpty(t)) <==> s.threads[t] == Draining && |s.queue| == 0;
      if |s.queue| > 0 {
        var m :| m in s.queue;
        assert Enabled(s, Receive(t, m)) <==> s.threads[t] == Draining;
      }
    }
    assert AtSetup !in s.threads && Draining !in s.threads;
    assert AtSetup !in multiset(s.threads) && Draining !in multiset(s.threads);
    assert s.received + multiset{} == s.received;
    assert |s.queue| == 0 ==> s.queue == multiset{};
  }

  lemma {:induction false} RunWithoutSends(s: State, run: seq<Action>)
    requires Inv(s) && IsRun(Step, s, run) && forall a | a in run :: !a.Send?
    ensures |run| + Work(After(Step, s, run)) <= Work(s)
    decreases |run|
  {
    if run != [] {
      assert run[0] in run;
      InvKept(s, run[0]);
      WorkShrinks(s, run[0]);
      assert forall a | a in run[1..] :: a in run;
      RunWithoutSends(Next(s, run[0]), run[1..]);
    }
  }

  /** The messages sent in a run. */
  function SentIn(run: seq<Action>): multiset<Message>
    decreases |run|
  {
    if run == [] then multiset{}
    else (if run[0].Send? then multiset{run[0].msg} else multiset{}) + SentIn(run[1..])
  }

  function ReceivedIn(run: seq<Action>): multiset<Message>
    decreases |run|
  {
    if run == [] then multiset{}
    else (if run[0].Receive? then multiset{run[0].msg} else multiset{}) + ReceivedIn(run[1..])
  }

  /** The books are kept by what happens in the run. */
  lemma {:induction false} Booked(s: State, run: seq<Action>)
    requires IsRun(Step, s, run)
    ensures After(Step, s, run).sent == s.sent + SentIn(run)
    ensures After(Step, s, run).received == s.received + ReceivedIn(run)
    decreases |run|
  {
    if run != [] {
      Booked(Next(s, run[0]), run[1..]);
    }
  }

  /** When the program has come to rest, exactly the messages that were there or were sent have been received. */
  lemma AllReceived(queue: multiset<Message>, run: seq<Action>)
    requires IsRun(Step, Start(queue), run)
    requires var s := After(Step, Start(queue), run); forall a | Enabled(s, a) :: a.Send?
    ensures ReceivedIn(run) == queue + SentIn(run)
  {
    assert multiset([AtSetup])[AtSetup] == 1;
    InvAlways(Start(queue), run);
    QuietMeansDrained(After(Step, Start(queue), run));
    Booked(Start(queue), run);
    assert multiset{} + ReceivedIn(run) == ReceivedIn(run);
  }

  /** The theorem. In every interleaving, mq_notify never fails, sent = received + queued, and a
      nonempty queue has a thread on the way; and once the senders stop, however the threads are
      scheduled, they come to rest after finitely many steps, with every message received and a
      registration in place. */
  lemma NoLostMessage(queue: multiset<Message>, run: seq<Action>, rest: seq<Action>)
    requires IsRun(Step, Start(queue), run) && IsRun(Step, After(Step, Start(queue), run), rest)
    requires forall a | a in rest :: !a.Send?
    ensures Inv(After(Step, Start(queue), run))
    ensures |rest| <= Work(After(Step, Start(queue), run))
    ensures var end := After(Step, After(Step, Start(queue), run), rest);
            (forall a | Enabled(end, a) :: a.Send?) ==> |end.queue| == 0 && end.registered && end.received == end.sent
  {
    var s := After(Step, Start(queue), run);
    assert multiset([AtSetup])[AtSetup] == 1;
    InvAlways(Start(queue), run);
    RunWithoutSends(s, rest);
    InvAlways(s, rest);
    if forall a | Enabled(After(Step, s, rest), a) :: a.Send? {
      QuietMeansDrained(After(Step, s, rest));
    }
  }
}
