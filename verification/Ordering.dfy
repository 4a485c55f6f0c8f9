/** The ordering protocol of src/controller/SimpleOrderingManager.cpp: messages of a topic arrive several times and in
    any order and are taken into the blockchain in the order of their sequence numbers.

    One step is what happens while the mutex is held: a push, one turn of the loop in ThreadFunction, the end of a
    deserialize task, or the cache of recent messages forgetting something. */
module Ordering {

  /** A ConsensusTopicResponse; octet is the eight-byte digest of its running hash. */
  datatype Message = Message(timestamp: nat, sequenceNumber: nat, octet: nat, data: string)

  datatype Entry = Entry(message: Message, finished: bool)

  datatype PushResult = FoundInLastTransactions | FoundInTransactions | Added | InShutdown

  /** What a turn of the loop finds out about a cross-group inbound transaction; Local for any other transaction. */
  datatype Pairing = Local | TimedOut | TargetUnknown | PairIdInvalid | PairMissing | PairInvalid | PairFound

  /** How processTransaction ends: transaction added, refused, refused without saving the sequence number,
      or an exception that stops the node. */
  datatype Outcome = TransactionAdded | Refused | RefusedUnsaved | Fatal

  datatype Env = Env(pairing: Pairing, success: bool, outcome: Outcome)

  /** start is the number given to init; committed, processed and pushed record what happened since then. */
  datatype State = State(
    queue: seq<Entry>, recent: map<nat, nat>, last: nat, stored: nat, running: bool,
    start: nat, committed: seq<nat>, processed: seq<Message>, pushed: set<Message>)

  // ---------------------------------------------------------------- steps

  function Initial(k: nat, stored: nat): State {
    State([], map[], k, stored, true, k, [], [], {})
  }

  /** std::multimap keeps entries with equal timestamps in the order of their insertion. */
  function Insert(queue: seq<Entry>, e: Entry): seq<Entry> {
    if queue == [] || e.message.timestamp < queue[0].message.timestamp then [e] + queue
    else [queue[0]] + Insert(queue[1..], e)
  }

  predicate InRecent(s: State, m: Message) {
    m.octet in s.recent && s.recent[m.octet] == m.timestamp
  }

  predicate InQueue(queue: seq<Entry>, m: Message) {
    exists i :: 0 <= i < |queue| && queue[i].message.timestamp == m.timestamp && queue[i].message.data == m.data
  }

  function Pushed(s: State, m: Message): (State, PushResult) {
    if !s.running then (s, InShutdown)
    else if InRecent(s, m) then (s, FoundInLastTransactions)
    else if InQueue(s.queue, m) then (s, FoundInTransactions)
    else
      (s.(queue := Insert(s.queue, Entry(m, false)), recent := s.recent[m.octet := m.timestamp],
          pushed := s.pushed + {m}),
       Added)
  }

  predicate Skips(p: Pairing) {
    p.TimedOut? || p.TargetUnknown? || p.PairIdInvalid? || p.PairInvalid?
  }

  /** The entry leaves the queue and its number becomes the last one. */
  function Committed(s: State): State
    requires s.queue != []
  {
    var n := s.queue[0].message.sequenceNumber;
    s.(queue := s.queue[1..], last := n, committed := s.committed + [n])
  }

  function Processed(s: State, outcome: Outcome): State
    requires s.queue != []
  {
    s.(processed := s.processed + [s.queue[0].message],
       stored := if outcome.TransactionAdded? || outcome.Refused? then s.last else s.stored,
       running := s.running && !outcome.Fatal?)
  }

  predicate Blocked(s: State) {
    !s.running || s.queue == [] || !s.queue[0].finished || s.last + 1 < s.queue[0].message.sequenceNumber
  }

  predicate Outdated(s: State)
    requires s.queue != []
  {
    s.last != 0 && s.last >= s.queue[0].message.sequenceNumber
  }

  /** One turn of the loop. */
  function Turn(s: State, env: Env): State {
    if Blocked(s) then s
    else if Outdated(s) then s.(queue := s.queue[1..])
    else if Skips(env.pairing) then Committed(s)
    else if env.pairing.PairMissing? then s
    else if !env.success then Committed(s)
    else if env.outcome.Fatal? then Processed(s, env.outcome)
    else Committed(Processed(s, env.outcome))
  }

  datatype Event =
    | Push(m: Message)
    | Finish(index: nat)
    | Forget(octets: set<nat>)
    | Loop(env: Env)

  function Next(s: State, e: Event): State {
    match e
    case Push(m) => Pushed(s, m).0
    case Finish(i) => if i < |s.queue| then s.(queue := s.queue[i := s.queue[i].(finished := true)]) else s
    case Forget(octets) => s.(recent := s.recent - octets)
    case Loop(env) => Turn(s, env)
  }

  /** The state after the first n events. */
  function RunTo(s: State, events: seq<Event>, n: nat): State
    requires n <= |events|
  {
    if n == 0 then s else Next(RunTo(s, events, n - 1), events[n - 1])
  }

  function Run(s: State, events: seq<Event>): State {
    RunTo(s, events, |events|)
  }

  // ---------------------------------------------------------------- commits are in order

  function Range(from: nat, to: nat): (r: seq<nat>)
    ensures |r| == if from <= to then to - from else 0
  {
    seq(if from <= to then to - from else 0, i requires i >= 0 => from + 1 + i)
  }

  ghost predicate Numbered(s: State) {
    forall m :: m in s.pushed ==> m.sequenceNumber >= 1
  }

  /** The number before the i-th committed one. */
  function Before(k: nat, committed: seq<nat>, i: nat): nat
    requires i <= |committed|
  {
    if i == 0 then k else committed[i - 1]
  }

  /** Each committed number follows the one before. A number 0 passes while nothing came before, if there is any. */
  ghost predicate Sequential(k: nat, committed: seq<nat>, last: nat, zeros: bool) {
    last == Before(k, committed, |committed|) &&
    forall i {:trigger Before(k, committed, i)} :: 0 <= i < |committed| ==>
      committed[i] == Before(k, committed, i) + 1 || (committed[i] == Before(k, committed, i) == 0 && zeros)
  }

  lemma SequentialStep(k: nat, committed: seq<nat>, last: nat, zeros: bool, n: nat)
    requires Sequential(k, committed, last, zeros)
    requires n == last + 1 || (n == last == 0 && zeros)
    ensures Sequential(k, committed + [n], n, zeros)
  {
    var c := committed + [n];
    forall i {:trigger Before(k, c, i)} | 0 <= i < |c|
      ensures c[i] == Before(k, c, i) + 1 || (c[i] == Before(k, c, i) == 0 && zeros)
    {
      assert Before(k, c, i) == Before(k, committed, i);
    }
  }

  ghost predicate InOrder(s: State) {
    Sequential(s.start, s.committed, s.last, !Numbered(s))
  }

  /** Processed messages have increasing numbers, not beyond the last one; a fatal end leaves one message just beyond it. */
  ghost predicate ProcessedInOrder(s: State) {
    (forall i, j :: 0 <= i < j < |s.processed| ==>
       s.processed[i].sequenceNumber < s.processed[j].sequenceNumber || s.processed[i].sequenceNumber == 0) &&
    (forall i :: 0 <= i < |s.processed| ==>
       s.processed[i] in s.pushed && s.processed[i].sequenceNumber <= (if s.running then s.last else s.last + 1))
  }

  ghost predicate QueueIsPushed(s: State) {
    forall i :: 0 <= i < |s.queue| ==> s.queue[i].message in s.pushed
  }

  ghost predicate Safe(s: State) {
    InOrder(s) && ProcessedInOrder(s) && QueueIsPushed(s)
  }

  lemma {:induction false} InsertKeeps(queue: seq<Entry>, e: Entry)
    ensures |Insert(queue, e)| == |queue| + 1
    ensures forall x :: x in Insert(queue, e) <==> x in queue || x == e
  {
    if !(queue == [] || e.message.timestamp < queue[0].message.timestamp) {
      InsertKeeps(queue[1..], e);
      assert queue == [queue[0]] + queue[1..];
    }
  }

  lemma PushKeepsSafe(s: State, m: Message)
    requires Safe(s)
    ensures Safe(Pushed(s, m).0)
  {
    var s' := Pushed(s, m).0;
    InsertKeeps(s.queue, Entry(m, false));
    forall i | 0 <= i < |s'.queue| ensures s'.queue[i].message in s'.pushed {
      assert s'.queue[i] in s'.queue;
    }
    assert Numbered(s') ==> Numbered(s);
  }

  /** What is taken is the next number, or a message without a number at the very beginning. */
  lemma FrontIsNext(s: State)
    requires QueueIsPushed(s) && !Blocked(s) && !Outdated(s)
    ensures var n := s.queue[0].message.sequenceNumber;
            n == s.last + 1 || (n == s.last == 0 && !Numbered(s))
  {
    assert s.queue[0].message in s.pushed;
  }

  lemma TurnKeepsOrder(s: State, env: Env)
    requires InOrder(s) && QueueIsPushed(s)
    ensures InOrder(Turn(s, env)) && QueueIsPushed(Turn(s, env))
  {
    var s' := Turn(s, env);
    assert s'.pushed == s.pushed && (Numbered(s') <==> Numbered(s));
    if !Blocked(s) && !Outdated(s) {
      FrontIsNext(s);
      SequentialStep(s.start, s.committed, s.last, !Numbered(s), s.queue[0].message.sequenceNumber);
    }
  }

  lemma TurnKeepsProcessed(s: State, env: Env)
    requires ProcessedInOrder(s) && QueueIsPushed(s)
    ensures ProcessedInOrder(Turn(s, env))
  {
    hide ProcessedInOrder, QueueIsPushed, Numbered;
    if !Blocked(s) && !Outdated(s) {
      FrontIsNext(s);
      FrontIsPushed(s);
      var m := s.queue[0].message;
      if Turn(s, env).processed == s.processed + [m] {
        OneMoreProcessed(s, Turn(s, env), m);
      } else {
        NoneProcessed(s, Turn(s, env));
      }
    } else {
      NoneProcessed(s, Turn(s, env));
    }
  }

  lemma FrontIsPushed(s: State)
    requires QueueIsPushed(s) && s.queue != []
    ensures s.queue[0].message in s.pushed
  {}

  lemma OneMoreProcessed(s: State, s': State, m: Message)
    requires ProcessedInOrder(s) && s.running && m in s.pushed && (m.sequenceNumber == s.last + 1 || m.sequenceNumber == s.last == 0)
    requires s'.processed == s.processed + [m] && s'.pushed == s.pushed
    requires if s'.running then s'.last == m.sequenceNumber else s'.last == s.last
    ensures ProcessedInOrder(s')
  {}

  lemma NoneProcessed(s: State, s': State)
    requires ProcessedInOrder(s) && s'.processed == s.processed && s'.pushed == s.pushed
    requires s'.running == s.running && s'.last >= s.last
    ensures ProcessedInOrder(s')
  {}

  lemma NextKeepsSafe(s: State, e: Event)
    requires Safe(s)
    ensures Safe(Next(s, e)) && Next(s, e).start == s.start
  {
    match e
    case Push(m) =>
      PushKeepsSafe(s, m);
    case Finish(i) =>
      assert Numbered(Next(s, e)) <==> Numbered(s);
    case Forget(octets) =>
      assert Numbered(Next(s, e)) <==> Numbered(s);
    case Loop(env) =>
      TurnKeepsOrder(s, env);
      TurnKeepsProcessed(s, env);
  }

  lemma {:induction false} RunIsSafe(k: nat, stored: nat, events: seq<Event>, n: nat)
    requires n <= |events|
    ensures Safe(RunTo(Initial(k, stored), events, n)) && RunTo(Initial(k, stored), events, n).start == k
  {
    if n > 0 {
      RunIsSafe(k, stored, events, n - 1);
      NextKeepsSafe(RunTo(Initial(k, stored), events, n - 1), events[n - 1]);
    }
  }

  /** Whatever is pushed, in whatever order and however often, and whatever the cache forgets: the committed numbers
      are k+1, k+2 and so on without a gap or a repeat, and no message is processed twice. */
  lemma CommittedInSequence(k: nat, stored: nat, events: seq<Event>)
    requires forall i :: 0 <= i < |events| && events[i].Push? ==> events[i].m.sequenceNumber >= 1
    ensures var s := Run(Initial(k, stored), events);
            s.committed == Range(k, s.last) && k <= s.last &&
            forall i, j :: 0 <= i < j < |s.processed| ==>
              s.processed[i].sequenceNumber < s.processed[j].sequenceNumber && s.processed[i] != s.processed[j]
  {
    RunIsSafe(k, stored, events, |events|);
    PushedComesFromEvents(k, stored, events, |events|);
    var s := Run(Initial(k, stored), events);
    assert Numbered(s);
    SequenceIsRange(k, s.committed, |s.committed|);
    ProcessedHasNumbers(s);
  }

  lemma ProcessedHasNumbers(s: State)
    requires ProcessedInOrder(s) && Numbered(s)
    ensures forall i :: 0 <= i < |s.processed| ==> s.processed[i].sequenceNumber >= 1
  {
    forall i | 0 <= i < |s.processed| ensures s.processed[i].sequenceNumber >= 1 {
      assert s.processed[i] in s.pushed;
    }
  }

  lemma {:induction false} SequenceIsRange(k: nat, committed: seq<nat>, n: nat)
    requires n <= |committed|
    requires forall i {:trigger Before(k, committed, i)} :: 0 <= i < n ==> committed[i] == Before(k, committed, i) + 1
    ensures Before(k, committed, n) == k + n && committed[..n] == Range(k, k + n)
  {
    if n > 0 { SequenceIsRange(k, committed, n - 1); }
  }

  lemma {:induction false} PushedComesFromEvents(k: nat, stored: nat, events: seq<Event>, n: nat)
    requires n <= |events|
    ensures forall m :: m in RunTo(Initial(k, stored), events, n).pushed ==>
              exists i :: 0 <= i < n && events[i] == Push(m)
  {
    if n > 0 {
      PushedComesFromEvents(k, stored, events, n - 1);
      var before := RunTo(Initial(k, stored), events, n - 1);
      assert forall m :: m in Next(before, events[n - 1]).pushed ==> m in before.pushed || events[n - 1] == Push(m);
    }
  }

  // ---------------------------------------------------------------- messages without a number

  const ADDS := Env(Local, true, TransactionAdded)

  /** A message that arrives n times, each time after the cache has forgotten the last one. */
  function Arrivals(m: Message, n: nat): (events: seq<Event>)
    ensures |events| == 4 * n
  {
    if n == 0 then [] else Arrivals(m, n - 1) + [Push(m), Finish(0), Loop(ADDS), Forget({m.octet})]
  }

  lemma {:induction false} RunOfPrefix(s: State, a: seq<Event>, b: seq<Event>, n: nat)
    requires n <= |a|
    ensures RunTo(s, a + b, n) == RunTo(s, a, n)
  {
    if n > 0 { RunOfPrefix(s, a, b, n - 1); }
  }

  /** Messages numbered 0 are why the numbers must start at 1: at start 0 such a message is processed each time it comes. */
  lemma {:induction false} UnnumberedMessageRepeats(m: Message, stored: nat, n: nat)
    requires m.sequenceNumber == 0
    ensures var s := Run(Initial(0, stored), Arrivals(m, n));
            s.queue == [] && s.last == 0 && s.running && m.octet !in s.recent && s.processed == seq(n, _ => m)
  {
    hide Next;
    if n > 0 {
      UnnumberedMessageRepeats(m, stored, n - 1);
      var before := Arrivals(m, n - 1);
      RunOfFour(Initial(0, stored), before, Push(m), Finish(0), Loop(ADDS), Forget({m.octet}));
      OneArrival(Run(Initial(0, stored), before), m);
    }
  }

  lemma RunOfFour(s: State, before: seq<Event>, a: Event, b: Event, c: Event, d: Event)
    ensures Run(s, before + [a, b, c, d]) == Next(Next(Next(Next(Run(s, before), a), b), c), d)
  {
    hide Next;
    var events, n := before + [a, b, c, d], |before|;
    RunOfPrefix(s, before, [a, b, c, d], n);
    assert RunTo(s, events, n + 1) == Next(RunTo(s, events, n), a);
    assert RunTo(s, events, n + 2) == Next(RunTo(s, events, n + 1), b);
    assert RunTo(s, events, n + 3) == Next(RunTo(s, events, n + 2), c);
  }

  lemma OneArrival(b: State, m: Message)
    requires m.sequenceNumber == 0 && b.queue == [] && b.last == 0 && b.running && m.octet !in b.recent
    ensures var a := Next(Next(Next(Next(b, Push(m)), Finish(0)), Loop(ADDS)), Forget({m.octet}));
            a.queue == [] && a.last == 0 && a.running && m.octet !in a.recent && a.processed == b.processed + [m]
  {
    assert Next(Next(b, Push(m)), Finish(0)).queue == [Entry(m, true)];
  }

  // ---------------------------------------------------------------- nothing pushed is lost

  /** Messages of one topic: a number or a timestamp names one message, and timestamps rise with the numbers. */
  ghost predicate Topic(messages: set<Message>) {
    (forall m :: m in messages ==> m.sequenceNumber >= 1) &&
    forall a, b :: a in messages && b in messages ==>
      (a.sequenceNumber < b.sequenceNumber <==> a.timestamp < b.timestamp) &&
      (a.sequenceNumber == b.sequenceNumber ==> a == b)
  }

  ghost predicate Sorted(queue: seq<Entry>) {
    forall i, j :: 0 <= i < j < |queue| ==> queue[i].message.timestamp <= queue[j].message.timestamp
  }

  ghost predicate Queued(s: State, m: Message) {
    exists i :: 0 <= i < |s.queue| && s.queue[i].message == m
  }

  /** Every message taken in still waits or its number has been passed; the cache only knows messages taken in. */
  ghost predicate NothingLost(s: State) {
    Sorted(s.queue) &&
    (forall m :: m in s.pushed ==> Queued(s, m) || m.sequenceNumber <= s.last) &&
    (forall k :: k in s.recent ==> exists m :: m in s.pushed && m.timestamp == s.recent[k])
  }

  lemma {:induction false} InsertSorted(queue: seq<Entry>, e: Entry)
    requires Sorted(queue)
    ensures Sorted(Insert(queue, e))
  {
    InsertKeeps(queue, e);
    var q := Insert(queue, e);
    if !(queue == [] || e.message.timestamp < queue[0].message.timestamp) {
      InsertSorted(queue[1..], e);
      InsertKeeps(queue[1..], e);
      forall i, j | 0 <= i < j < |q| ensures q[i].message.timestamp <= q[j].message.timestamp {
        if i == 0 { assert q[j] == Insert(queue[1..], e)[j - 1]; assert q[j] in Insert(queue[1..], e); }
      }
    }
  }

  /** A push is turned away only if that very message was taken in before. */
  lemma PushIsTakenIn(s: State, m: Message)
    requires QueueIsPushed(s) && NothingLost(s) && s.running && Topic(s.pushed + {m})
    ensures m in Pushed(s, m).0.pushed
  {
    if InRecent(s, m) {
      var p :| p in s.pushed && p.timestamp == s.recent[m.octet];
      SameTimestamp(s.pushed + {m}, p, m);
    } else if InQueue(s.queue, m) {
      var i :| 0 <= i < |s.queue| && s.queue[i].message.timestamp == m.timestamp && s.queue[i].message.data == m.data;
      SameTimestamp(s.pushed + {m}, s.queue[i].message, m);
    }
  }

  lemma SameTimestamp(messages: set<Message>, a: Message, b: Message)
    requires Topic(messages) && a in messages && b in messages && a.timestamp == b.timestamp
    ensures a == b
  {}

  lemma PushLosesNothing(s: State, m: Message)
    requires NothingLost(s)
    ensures NothingLost(Pushed(s, m).0)
  {
    var s', e := Pushed(s, m).0, Entry(m, false);
    if s' != s {
      InsertSorted(s.queue, e);
      InsertKeeps(s.queue, e);
      forall p | p in s'.pushed ensures Queued(s', p) || p.sequenceNumber <= s'.last {
        if p == m {
          assert e in s'.queue;
        } else if Queued(s, p) {
          var i :| 0 <= i < |s.queue| && s.queue[i].message == p;
          assert s.queue[i] in s'.queue;
        }
      }
      assert m in s'.pushed;
    }
  }

  lemma DropLosesNothing(s: State, s': State)
    requires NothingLost(s) && s.queue != [] && s'.queue == s.queue[1..] && s'.pushed == s.pushed && s'.recent == s.recent
    requires s.last <= s'.last && s.queue[0].message.sequenceNumber <= s'.last
    ensures NothingLost(s')
  {
    forall m | m in s'.pushed ensures Queued(s', m) || m.sequenceNumber <= s'.last {
      if Queued(s, m) {
        var i :| 0 <= i < |s.queue| && s.queue[i].message == m;
        if i > 0 { assert s'.queue[i - 1].message == m; }
      }
    }
  }

  lemma FinishLosesNothing(s: State, i: nat)
    requires NothingLost(s)
    ensures NothingLost(Next(s, Finish(i)))
  {
    var s' := Next(s, Finish(i));
    forall m | m in s'.pushed ensures Queued(s', m) || m.sequenceNumber <= s'.last {
      if Queued(s, m) {
        var j :| 0 <= j < |s.queue| && s.queue[j].message == m;
        assert s'.queue[j].message == m;
      }
    }
  }

  lemma TurnLosesNothing(s: State, env: Env)
    requires QueueIsPushed(s) && NothingLost(s)
    ensures NothingLost(Turn(s, env))
  {
    var s' := Turn(s, env);
    if s'.queue != s.queue {
      if !Outdated(s) { FrontIsNext(s); }
      DropLosesNothing(s, s');
    } else {
      assert s'.pushed == s.pushed && s'.recent == s.recent && s'.last == s.last;
      assert forall m :: Queued(s, m) ==> Queued(s', m);
    }
  }

  lemma NextLosesNothing(s: State, e: Event)
    requires Safe(s) && NothingLost(s)
    ensures NothingLost(Next(s, e)) && s.pushed <= Next(s, e).pushed && (Next(s, e).running ==> s.running)
  {
    match e
    case Push(m) => PushLosesNothing(s, m);
    case Finish(i) => FinishLosesNothing(s, i);
    case Forget(octets) => assert forall m :: Queued(s, m) ==> Queued(Next(s, e), m);
    case Loop(env) => TurnLosesNothing(s, env);
  }

  ghost predicate PushesFrom(events: seq<Event>, topic: set<Message>) {
    Topic(topic) && forall i :: 0 <= i < |events| && events[i].Push? ==> events[i].m in topic
  }

  ghost predicate TakenIn(s: State, events: seq<Event>, n: nat, topic: set<Message>)
    requires n <= |events|
  {
    Safe(s) && NothingLost(s) && s.pushed <= topic &&
    (s.running ==> forall i :: 0 <= i < n && events[i].Push? ==> events[i].m in s.pushed)
  }

  lemma {:induction false} RunTakesIn(k: nat, stored: nat, events: seq<Event>, topic: set<Message>, n: nat)
    requires PushesFrom(events, topic) && n <= |events|
    ensures TakenIn(RunTo(Initial(k, stored), events, n), events, n, topic)
  {
    hide Topic, Safe, NothingLost, Next;
    if n == 0 {
      NothingTakenYet(k, stored, topic);
    } else {
      RunTakesIn(k, stored, events, topic, n - 1);
      NextTakesIn(RunTo(Initial(k, stored), events, n - 1), events[n - 1], topic);
    }
  }

  lemma NothingTakenYet(k: nat, stored: nat, topic: set<Message>)
    ensures Safe(Initial(k, stored)) && NothingLost(Initial(k, stored)) && Initial(k, stored).pushed <= topic
  {}

  lemma NextTakesIn(s: State, e: Event, topic: set<Message>)
    requires Safe(s) && NothingLost(s) && s.pushed <= topic && Topic(topic) && (e.Push? ==> e.m in topic)
    ensures Safe(Next(s, e)) && NothingLost(Next(s, e))
    ensures s.pushed <= Next(s, e).pushed <= topic && (Next(s, e).running ==> s.running)
    ensures e.Push? && s.running ==> e.m in Next(s, e).pushed
  {
    hide Safe, NothingLost, Topic;
    NextKeepsSafe(s, e);
    NextLosesNothing(s, e);
    if e.Push? && s.running { OfferIsTakenIn(s, e.m, topic); }
  }

  lemma OfferIsTakenIn(s: State, m: Message, topic: set<Message>)
    requires Safe(s) && NothingLost(s) && s.running && s.pushed <= topic && Topic(topic) && m in topic
    ensures m in Pushed(s, m).0.pushed
  {
    hide NothingLost, InOrder, ProcessedInOrder, QueueIsPushed;
    assert s.pushed + {m} <= topic;
    PushIsTakenIn(s, m);
  }

  /** Every message of a topic offered to a running manager still waits or has been passed, however the run went. */
  lemma OfferedMessagesSurvive(k: nat, stored: nat, events: seq<Event>, topic: set<Message>)
    requires PushesFrom(events, topic)
    ensures var s := Run(Initial(k, stored), events);
            s.running ==> forall i :: 0 <= i < |events| && events[i].Push? ==>
              Queued(s, events[i].m) || events[i].m.sequenceNumber <= s.last
  {
    RunTakesIn(k, stored, events, topic, |events|);
  }

  lemma FrontIsEarliest(s: State, m: Message, topic: set<Message>)
    requires Sorted(s.queue) && QueueIsPushed(s) && s.pushed <= topic && Topic(topic) && Queued(s, m)
    ensures s.queue != [] && s.queue[0].message.sequenceNumber <= m.sequenceNumber
  {
    var j :| 0 <= j < |s.queue| && s.queue[j].message == m;
    var front := s.queue[0].message;
    assert front in s.pushed && m in s.pushed;
    assert j > 0 ==> front.timestamp <= s.queue[j].message.timestamp;
  }

  /** If the loop waits for the message before the first one in the queue, then that message was never offered. */
  lemma WaitingMeansMissing(k: nat, stored: nat, events: seq<Event>, topic: set<Message>)
    requires PushesFrom(events, topic)
    ensures var s := Run(Initial(k, stored), events);
            s.running && s.queue != [] && s.last + 1 < s.queue[0].message.sequenceNumber ==>
            forall i :: 0 <= i < |events| && events[i].Push? ==> events[i].m.sequenceNumber != s.last + 1
  {
    var s := Run(Initial(k, stored), events);
    RunTakesIn(k, stored, events, topic, |events|);
    forall i | 0 <= i < |events| && events[i].Push? && s.running && Queued(s, events[i].m)
      ensures s.queue != [] && s.queue[0].message.sequenceNumber <= events[i].m.sequenceNumber
    {
      FrontIsEarliest(s, events[i].m, topic);
    }
  }

  // ---------------------------------------------------------------- the object

  /** How a turn of the loop ends: return, continue, the last line of the body, or an uncaught exception. */
  datatype TurnEnd = Returns | Continues | ReachesEnd | Throws

  function EndOf(s: State, env: Env): TurnEnd {
    if Blocked(s) then Returns
    else if Outdated(s) || Skips(env.pairing) || env.pairing.PairMissing? then Continues
    else if env.success && env.outcome.Fatal? then Throws
    else ReachesEnd
  }

  /** transactionsCount after n turns: what was left at the last turn that reached the end of the body. */
  function CountAfter(s: State, envs: seq<Env>, n: nat): nat
    requires n <= |envs|
  {
    if n == 0 then 0
    else if EndOf(RunTo(s, LoopEvents(envs), n - 1), envs[n - 1]).ReachesEnd? then |RunTo(s, LoopEvents(envs), n).queue|
    else CountAfter(s, envs, n - 1)
  }

  /** The loop ends with the n-th turn. */
  predicate LoopEnds(s: State, envs: seq<Env>, n: nat)
    requires 0 < n <= |envs|
  {
    var end := EndOf(RunTo(s, LoopEvents(envs), n - 1), envs[n - 1]);
    end.Returns? || end.Throws? || CountAfter(s, envs, n) == 0
  }

  class SimpleOrderingManager {
    var transactions: seq<Entry>
    var lastTransactions: map<nat, nat>
    var lastSequenceNumber: nat
    var running: bool
    /** LAST_HIERO_TOPIC_SEQUENCE_NUMBER in the state of the blockchain. */
    var storedSequenceNumber: nat

    ghost var start: nat
    ghost var committed: seq<nat>
    ghost var processed: seq<Message>
    ghost var pushed: set<Message>

    ghost function St(): State
      reads this
    {
      State(transactions, lastTransactions, lastSequenceNumber, storedSequenceNumber, running,
            start, committed, processed, pushed)
    }

    constructor (lastKnownSequenceNumber: nat, stored: nat)
      ensures St() == Initial(lastKnownSequenceNumber, stored)
    {
      transactions, lastTransactions, running := [], map[], true;
      lastSequenceNumber, storedSequenceNumber := lastKnownSequenceNumber, stored;
      start, committed, processed, pushed := lastKnownSequenceNumber, [], [], {};
    }

    method PushTransaction(m: Message) returns (r: PushResult)
      modifies this
      ensures (St(), r) == Pushed(old(St()), m)
    {
      if !running { return InShutdown; }
      if m.octet in lastTransactions {
        if lastTransactions[m.octet] == m.timestamp { return FoundInLastTransactions; }
      }
      var i := 0;
      while i < |transactions|
        invariant 0 <= i <= |transactions|
        invariant forall j :: 0 <= j < i ==>
          !(transactions[j].message.timestamp == m.timestamp && transactions[j].message.data == m.data)
      {
        if transactions[i].message.timestamp == m.timestamp && transactions[i].message.data == m.data {
          assert InQueue(transactions, m);
          return FoundInTransactions;
        }
        i := i + 1;
      }
      assert !InQueue(transactions, m);
      lastTransactions := lastTransactions[m.octet := m.timestamp];
      transactions := Insert(transactions, Entry(m, false));
      pushed := pushed + {m};
      return Added;
    }

    /** False stands for the exception. */
    method UpdateSequenceNumber(newSequenceNumber: nat) returns (ok: bool)
      modifies `lastSequenceNumber
      ensures ok <==> old(lastSequenceNumber) == 0 || newSequenceNumber in {old(lastSequenceNumber) + 1, 1}
      ensures lastSequenceNumber == if ok then newSequenceNumber else old(lastSequenceNumber)
    {
      if lastSequenceNumber == 0 {
        lastSequenceNumber := newSequenceNumber;
      } else {
        if lastSequenceNumber + 1 == newSequenceNumber || 1 == newSequenceNumber {
          lastSequenceNumber := newSequenceNumber;
        } else {
          return false;
        }
      }
      return true;
    }

    /** False stands for an exception that is not caught here. */
    method ProcessTransaction(outcome: Outcome) returns (returned: bool)
      requires transactions != []
      modifies `storedSequenceNumber, `processed, `running
      ensures St() == Processed(old(St()), outcome) && returned == !outcome.Fatal?
    {
      processed := processed + [transactions[0].message];
      if outcome.Fatal? {
        running := false;
        return false;
      }
      if !outcome.RefusedUnsaved? { storedSequenceNumber := lastSequenceNumber; }
      return true;
    }

    method Commit(currentSequenceNumber: nat)
      requires transactions != [] && currentSequenceNumber == transactions[0].message.sequenceNumber
      requires currentSequenceNumber == lastSequenceNumber + 1 || lastSequenceNumber == 0
      modifies `transactions, `lastSequenceNumber, `committed
      ensures St() == Committed(old(St()))
    {
      transactions := transactions[1..];
      var ok := UpdateSequenceNumber(currentSequenceNumber);
      assert ok;
      committed := committed + [currentSequenceNumber];
    }

    /** One turn of the loop in ThreadFunction. Committing never meets the exception in updateSequenceNumber. */
    method LoopTurn(env: Env) returns (end: TurnEnd)
      requires running
      modifies this
      ensures St() == Turn(old(St()), env) && end == EndOf(old(St()), env)
      ensures end.Throws? <==> !running
      ensures end.Returns? ==> Blocked(St())
      ensures end.Continues? ==> processed == old(processed)
    {
      if transactions == [] || !transactions[0].finished { return Returns; }
      var currentSequenceNumber := transactions[0].message.sequenceNumber;
      if lastSequenceNumber + 1 < currentSequenceNumber { return Returns; }
      if lastSequenceNumber != 0 && lastSequenceNumber >= currentSequenceNumber {
        transactions := transactions[1..];
        return Continues;
      }
      if env.pairing != Local {
        if env.pairing == TimedOut || env.pairing == TargetUnknown || env.pairing == PairIdInvalid {
          Commit(currentSequenceNumber);
          return Continues;
        }
        if env.pairing == PairMissing { return Continues; }
        if env.pairing == PairInvalid {
          Commit(currentSequenceNumber);
          return Continues;
        }
      }
      if env.success {
        var returned := ProcessTransaction(env.outcome);
        if !returned { return Throws; }
      }
      Commit(currentSequenceNumber);
      return ReachesEnd;
    }

    /** The loop itself, for as many turns as envs describes. transactionsCount is only set at the end of the body,
        so a turn that continues before any other reached it ends the loop. */
    method ThreadFunction(envs: seq<Env>) returns (turns: nat)
      requires running
      modifies this
      ensures turns <= |envs| && St() == RunTo(old(St()), LoopEvents(envs), turns)
      ensures forall n :: 0 < n < turns ==> !LoopEnds(old(St()), envs, n)
      ensures turns < |envs| ==> turns > 0 && LoopEnds(old(St()), envs, turns)
      ensures turns < |envs| && running && !Blocked(St()) ==> processed == old(processed)
    {
      hide Turn, EndOf, Outdated;
      var transactionsCount := 0;
      turns := 0;
      while turns < |envs|
        invariant turns <= |envs| && running
        invariant St() == RunTo(old(St()), LoopEvents(envs), turns)
        invariant transactionsCount == CountAfter(old(St()), envs, turns)
        invariant forall n :: 0 < n <= turns ==> !LoopEnds(old(St()), envs, n)
        invariant transactionsCount == 0 ==> processed == old(processed)
      {
        var end := LoopTurn(envs[turns]);
        turns := turns + 1;
        if end == Returns || end == Throws { return; }
        if end == ReachesEnd { transactionsCount := |transactions|; }
        if transactionsCount == 0 { return; }
      }
    }
  }

  function LoopEvents(envs: seq<Env>): (events: seq<Event>)
    ensures |events| == |envs|
  {
    seq(|envs|, i requires 0 <= i < |envs| => Loop(envs[i]))
  }

  // ---------------------------------------------------------------- a topic that starts again

  /** What follows s has gone on with the next numbers, and has processed messages with higher ones only. */
  ghost predicate GoneOn(s: State, s': State) {
    s.last <= s'.last && s'.committed == s.committed + Range(s.last, s'.last) && s.processed <= s'.processed &&
    forall i :: |s.processed| <= i < |s'.processed| ==> s'.processed[i].sequenceNumber > s.last
  }

  lemma NextGoesOn(s: State, e: Event)
    requires Safe(s) && s.last > 0
    ensures GoneOn(s, Next(s, e))
  {
    if e.Loop? && !Blocked(s) && !Outdated(s) { FrontIsNext(s); }
  }

  lemma GoingOn(s: State, t: State, u: State)
    requires GoneOn(s, t) && GoneOn(t, u)
    ensures GoneOn(s, u)
  {
    assert Range(s.last, u.last) == Range(s.last, t.last) + Range(t.last, u.last);
  }

  /** From the first number on, numbers are committed one after the other and what is processed has a higher one. */
  lemma {:induction false} LaterHasGoneOn(k: nat, stored: nat, events: seq<Event>, n: nat, later: nat)
    requires n <= later <= |events| && RunTo(Initial(k, stored), events, n).last > 0
    ensures GoneOn(RunTo(Initial(k, stored), events, n), RunTo(Initial(k, stored), events, later))
  {
    hide Next, Safe;
    if n < later {
      LaterHasGoneOn(k, stored, events, n, later - 1);
      RunIsSafe(k, stored, events, later - 1);
      var s, t := RunTo(Initial(k, stored), events, n), RunTo(Initial(k, stored), events, later - 1);
      NextGoesOn(t, events[later - 1]);
      GoingOn(s, t, RunTo(Initial(k, stored), events, later));
    }
  }

  /** After a topic reset the numbers start again at 1, but the branch of updateSequenceNumber that goes back to 1 is never
      taken: from the first number on every commit is that of the next number, and a message pushed with a number that
      has been passed is not processed after that. */
  lemma TopicResetIsDropped(k: nat, stored: nat, events: seq<Event>, n: nat, i: nat)
    requires n < |events| && events[n].Push? && RunTo(Initial(k, stored), events, n).last > 0
    requires events[n].m.sequenceNumber <= RunTo(Initial(k, stored), events, n).last
    ensures var s, s' := RunTo(Initial(k, stored), events, n), Run(Initial(k, stored), events);
            s'.committed == s.committed + Range(s.last, s'.last) && s.processed <= s'.processed &&
            (|s.processed| <= i < |s'.processed| ==> s'.processed[i] != events[n].m)
  {
    LaterHasGoneOn(k, stored, events, n, |events|);
  }

  ghost predicate ProcessedOnce(s: State, m: Message) {
    forall i, j :: 0 <= i < j < |s.processed| ==> s.processed[i] != m || s.processed[j] != m
  }

  /** A message is processed at most once, in every run from a number k, if and only if it has a number or k is one. */
  lemma ProcessedOnceExactly(k: nat, m: Message)
    ensures (forall stored, events :: ProcessedOnce(Run(Initial(k, stored), events), m)) <==> m.sequenceNumber >= 1 || k > 0
  {
    hide Next, Arrivals;
    if m.sequenceNumber >= 1 || k > 0 {
      forall stored, events ensures ProcessedOnce(Run(Initial(k, stored), events), m) {
        RunIsSafe(k, stored, events, |events|);
        if k > 0 { LaterHasGoneOn(k, stored, events, 0, |events|); }
      }
    } else {
      UnnumberedMessageRepeats(m, 0, 2);
      var s := Run(Initial(0, 0), Arrivals(m, 2));
      assert s.processed[0] == m && s.processed[1] == m && !ProcessedOnce(s, m);
    }
  }

  // ---------------------------------------------------------------- what a turn does with the first message

  /** A message is processed if it could be deserialized and is no cross-group transaction or one with its pair. */
  ghost predicate ToProcess(env: Env) {
    env.success && env.pairing in {Local, PairFound}
  }

  /** A turn that is neither blocked nor outdated: the first message is processed exactly then, its number is committed unless
      its pair is still missing or processing it ends the node, and the last number is stored if the blockchain says so. */
  lemma TurnProcessesExactly(s: State, env: Env)
    requires !Blocked(s) && !Outdated(s)
    ensures var s', front := Turn(s, env), s.queue[0].message;
            var waits := env.pairing.PairMissing? || (ToProcess(env) && env.outcome.Fatal?);
            s'.processed == s.processed + (if ToProcess(env) then [front] else []) &&
            s'.committed == s.committed + (if waits then [] else [front.sequenceNumber]) &&
            s'.last == (if waits then s.last else front.sequenceNumber) &&
            s'.queue == (if waits then s.queue else s.queue[1..]) &&
            s'.stored == (if ToProcess(env) && env.outcome in {TransactionAdded, Refused} then s.last else s.stored) &&
            s'.running == !(ToProcess(env) && env.outcome.Fatal?)
  {}

  /** A turn that is blocked changes nothing, and one that finds an outdated message drops it. */
  lemma TurnWaitsOrDrops(s: State, env: Env)
    ensures !s.running || s.queue == [] || !s.queue[0].finished ==> Turn(s, env) == s
    ensures s.running && s.queue != [] && s.queue[0].finished && s.queue[0].message.sequenceNumber > s.last + 1 ==> Turn(s, env) == s
    ensures s.running && s.queue != [] && s.queue[0].finished && 0 < s.last && s.queue[0].message.sequenceNumber <= s.last ==>
              Turn(s, env) == s.(queue := s.queue[1..])
  {}

  /** The i-th event is a turn that processes a message. */
  ghost predicate ProcessesAt(s: State, events: seq<Event>, i: nat, m: Message)
    requires i < |events|
  {
    var before := RunTo(s, events, i);
    events[i].Loop? && ToProcess(events[i].env) && !Blocked(before) && !Outdated(before) && before.queue[0].message == m
  }

  /** In every run exactly the messages of such turns are processed, that is, none with its pair found is passed over. */
  lemma {:induction false} ProcessedExactly(k: nat, stored: nat, events: seq<Event>, n: nat, m: Message)
    requires n <= |events|
    ensures m in RunTo(Initial(k, stored), events, n).processed <==>
            exists i :: 0 <= i < n && ProcessesAt(Initial(k, stored), events, i, m)
  {
    hide ProcessesAt, Next;
    if n > 0 {
      ProcessedExactly(k, stored, events, n - 1, m);
      ProcessedNext(Initial(k, stored), events, n - 1, m);
    }
  }

  lemma ProcessedNext(s: State, events: seq<Event>, i: nat, m: Message)
    requires i < |events|
    ensures m in RunTo(s, events, i + 1).processed <==> m in RunTo(s, events, i).processed || ProcessesAt(s, events, i, m)
  {
    hide Turn, ToProcess;
    var before, e := RunTo(s, events, i), events[i];
    if e.Loop? && !Blocked(before) && !Outdated(before) {
      TurnProcessesExactly(before, e.env);
    } else if e.Loop? {
      OthersProcessNothing(before, e.env);
    }
  }

  lemma OthersProcessNothing(s: State, env: Env)
    requires Blocked(s) || Outdated(s)
    ensures Turn(s, env).processed == s.processed
  {}

  // ---------------------------------------------------------------- what a push does with a message

  /** A message is put behind those with earlier or the same timestamps and before all others. */
  lemma {:induction false} InsertPlaces(queue: seq<Entry>, e: Entry) returns (i: nat)
    requires Sorted(queue)
    ensures i <= |queue| && Insert(queue, e) == queue[..i] + [e] + queue[i..]
    ensures forall j :: 0 <= j < i ==> queue[j].message.timestamp <= e.message.timestamp
    ensures forall j :: i <= j < |queue| ==> queue[j].message.timestamp > e.message.timestamp
  {
    if queue == [] || e.message.timestamp < queue[0].message.timestamp {
      i := 0;
    } else {
      var k := InsertPlaces(queue[1..], e);
      i := k + 1;
      assert queue[..i] == [queue[0]] + queue[1..][..k] && queue[i..] == queue[1..][k..];
    }
  }

  /** A message pushed again is found in the cache; when the cache has forgotten it, it is found in the queue for as long as
      it waits there. Nothing is pushed after the end. */
  lemma PushedAgainIsFound(s: State, m: Message, octets: set<nat>)
    requires s.running && Pushed(s, m).1 == Added
    ensures var s1 := Pushed(s, m).0; var s2 := Next(s1, Forget(octets));
            m in s1.pushed && Entry(m, false) in s1.queue && Pushed(s1, m) == (s1, FoundInLastTransactions) &&
            (m.octet in octets ==> Pushed(s2, m) == (s2, FoundInTransactions)) &&
            Pushed(s1.(running := false), m) == (s1.(running := false), InShutdown)
  {
    InsertKeeps(s.queue, Entry(m, false));
    var q := Insert(s.queue, Entry(m, false));
    assert Entry(m, false) in q;
    var i :| 0 <= i < |q| && q[i] == Entry(m, false);
    assert q[i].message == m;
    assert InQueue(q, m);
  }
}
