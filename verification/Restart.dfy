/** Crashes and restarts of a community's node: the ordering manager together with its chain of confirmed
    transactions, of which only a part is on disk yet, and the sequence number stored on the way
    (src/controller/SimpleOrderingManager.cpp, src/task/SyncTopicOnStartup.cpp, src/blockchain/FileBased.cpp). */
module Restart {
  import opened Ordering

  /** chain holds the messages confirmed so far, the first durable ones on disk; ever, all numbers that have been committed
      or whose message has been added to the chain, at any time. */
  datatype System = System(manager: State, chain: seq<Message>, durable: nat, ever: set<nat>)

  /** identical says whether checkLastTransaction finds the last transaction on disk at the mirror node. CrashAdding is a
      crash within a turn, when the message has been added and its number not been taken over yet; saved says whether the
      sequence number has been stored by then, and count how much of the chain has got to disk. */
  datatype Step =
    | Manage(e: Event)
    | Persist(count: nat)
    | Crash(identical: bool)
    | CrashAdding(saved: bool, count: nat, identical: bool)

  function OnDisk(y: System): seq<Message> {
    if y.durable <= |y.chain| then y.chain[..y.durable] else y.chain
  }

  /** The number handed to init: that of the last transaction on disk if the mirror node confirms it, else the stored one. */
  function RestartPoint(y: System, identical: bool): nat {
    var kept := OnDisk(y);
    if identical && kept != [] then kept[|kept| - 1].sequenceNumber else y.manager.stored
  }

  /** A transaction that is in the chain already is refused. */
  function Extended(chain: seq<Message>, m: Message): (longer: seq<Message>)
    ensures chain <= longer
  {
    if m in chain then chain else chain + [m]
  }

  function Managed(y: System, e: Event): System {
    var s, s' := y.manager, Ordering.Next(y.manager, e);
    System(s',
           if e.Loop? && e.env.outcome.TransactionAdded? && s'.processed != s.processed && s.queue != []
           then Extended(y.chain, s.queue[0].message) else y.chain,
           y.durable,
           if s'.committed != s.committed then y.ever + {s'.last} else y.ever)
  }

  function Persisted(y: System, count: nat): System {
    if y.durable <= count <= |y.chain| then y.(durable := count) else y
  }

  /** In the middle of a turn that adds the first message of the queue. */
  function Adding(y: System, saved: bool): System {
    var s := y.manager;
    if Blocked(s) || Outdated(s) then y
    else
      System(s.(stored := if saved then s.last else s.stored), Extended(y.chain, s.queue[0].message), y.durable,
             y.ever + {s.queue[0].message.sequenceNumber})
  }

  function Crashed(y: System, identical: bool): System {
    System(Initial(RestartPoint(y, identical), y.manager.stored), OnDisk(y), |OnDisk(y)|, y.ever)
  }

  function Next(y: System, step: Step): System {
    match step
    case Manage(e) => Managed(y, e)
    case Persist(count) => Persisted(y, count)
    case Crash(identical) => Crashed(y, identical)
    case CrashAdding(saved, count, identical) => Crashed(Persisted(Adding(y, saved), count), identical)
  }

  /** The system after the first n steps. */
  function RunTo(y: System, steps: seq<Step>, n: nat): System
    requires n <= |steps|
  {
    if n == 0 then y else Next(RunTo(y, steps, n - 1), steps[n - 1])
  }

  function Run(y: System, steps: seq<Step>): System {
    RunTo(y, steps, |steps|)
  }

  function Start(k: nat, stored: nat): System {
    System(Initial(k, stored), [], 0, {})
  }

  predicate NumberedPush(step: Step) {
    step.Manage? && step.e.Push? ==> step.e.m.sequenceNumber >= 1
  }

  /** Steps up to the next crash. */
  ghost predicate NoCrash(steps: seq<Step>) {
    forall i :: 0 <= i < |steps| ==> NumberedPush(steps[i]) && (steps[i].Manage? || steps[i].Persist?)
  }

  // ---------------------------------------------------------------- what a turn adds

  /** A turn commits the next number or nothing, and what it confirms or stores is not beyond it. */
  lemma TurnEffect(s: State, env: Env)
    requires Safe(s) && Numbered(s)
    ensures var s' := Turn(s, env);
            Safe(s') && Numbered(s') && s'.pushed == s.pushed &&
            (s'.committed != s.committed ==> s'.last == s.last + 1) && (s'.committed == s.committed ==> s'.last == s.last) &&
            (s'.stored == s.stored || s'.stored == s.last) &&
            (s'.processed != s.processed ==>
               s.queue != [] && s.queue[0].message.sequenceNumber == s.last + 1 && s.queue[0].message in s.pushed) &&
            (s'.processed != s.processed && env.outcome.TransactionAdded? ==> s'.last == s.last + 1 && s'.stored == s.last)
  {
    TurnKeepsOrder(s, env);
    TurnKeepsProcessed(s, env);
    if !Blocked(s) && !Outdated(s) { FrontIsNext(s); }
  }

  /** Any other event leaves all of this as it is. */
  lemma OtherEffect(s: State, e: Event)
    requires Safe(s) && Numbered(s) && !e.Loop? && (e.Push? ==> e.m.sequenceNumber >= 1)
    ensures var s' := Ordering.Next(s, e);
            Safe(s') && Numbered(s') && s'.committed == s.committed && s'.last == s.last && s'.stored == s.stored &&
            s'.processed == s.processed && s'.pushed <= s.pushed + if e.Push? then {e.m} else {}
  {
    NextKeepsSafe(s, e);
  }

  /** Whatever happens in between crashes: the chain gets the message with the next number, if it is not in it, or nothing. */
  ghost predicate Moved(y: System, y': System, m: Message, adds: bool) {
    y'.durable == y.durable && y.manager.last <= y'.manager.last && y'.manager.stored in {y.manager.stored, y.manager.last} &&
    if adds then
      m in y.manager.pushed && m.sequenceNumber == y.manager.last + 1 == y'.manager.last && y'.manager.stored == y.manager.last &&
      y'.chain == Extended(y.chain, m)
    else y'.chain == y.chain
  }

  lemma ManagedMoves(y: System, e: Event) returns (m: Message, adds: bool)
    requires Safe(y.manager) && Numbered(y.manager) && (e.Push? ==> e.m.sequenceNumber >= 1)
    ensures var y' := Managed(y, e);
            Safe(y'.manager) && Numbered(y'.manager) && Moved(y, y', m, adds) &&
            y'.manager.pushed <= y.manager.pushed + (if e.Push? then {e.m} else {}) &&
            y'.ever == y.ever + (if y'.manager.last > y.manager.last then {y.manager.last + 1} else {}) &&
            y'.manager.last <= y.manager.last + 1
  {
    hide Safe, Numbered;
    var s, s' := y.manager, Ordering.Next(y.manager, e);
    m, adds := Message(0, 0, 0, ""), false;
    if e.Loop? {
      TurnEffect(s, e.env);
      if e.env.outcome.TransactionAdded? && s'.processed != s.processed { m, adds := s.queue[0].message, true; }
    } else {
      OtherEffect(s, e);
    }
  }

  /** The message added in the turn that crashes is the next one, too. */
  lemma AddingMoves(y: System, saved: bool) returns (m: Message, adds: bool)
    requires Safe(y.manager) && Numbered(y.manager)
    ensures var y' := Adding(y, saved);
            Safe(y'.manager) && Numbered(y'.manager) && y'.manager.last == y.manager.last && y'.durable == y.durable &&
            y'.manager.pushed == y.manager.pushed &&
            if adds then
              m in y.manager.pushed && m.sequenceNumber == y.manager.last + 1 && y'.chain == Extended(y.chain, m) &&
              y'.ever == y.ever + {m.sequenceNumber} && y'.manager.stored == if saved then y.manager.last else y.manager.stored
            else y' == y
  {
    m, adds := Message(0, 0, 0, ""), false;
    if !Blocked(y.manager) && !Outdated(y.manager) {
      FrontIsNext(y.manager);
      FrontIsPushed(y.manager);
      m, adds := y.manager.queue[0].message, true;
    }
  }

  // ---------------------------------------------------------------- no number below the restart point was left out

  ghost predicate Covered(k: nat, ever: set<nat>, n: nat) {
    forall i :: k < i <= n ==> i in ever
  }

  ghost predicate Accounted(k: nat, y: System) {
    Safe(y.manager) && Numbered(y.manager) &&
    Covered(k, y.ever, y.manager.last) && Covered(k, y.ever, y.manager.stored) &&
    forall i :: 0 <= i < |y.chain| ==> Covered(k, y.ever, y.chain[i].sequenceNumber)
  }

  lemma AddingKeepsAccounted(k: nat, y: System, saved: bool)
    requires Accounted(k, y)
    ensures Accounted(k, Adding(y, saved))
  {
    hide Safe, Numbered, Adding;
    var _, _ := AddingMoves(y, saved);
  }

  lemma CrashedIsAccounted(k: nat, y: System, identical: bool)
    requires Accounted(k, y)
    ensures Accounted(k, Crashed(y, identical))
  {}

  lemma NextKeepsAccounted(k: nat, y: System, step: Step)
    requires Accounted(k, y) && NumberedPush(step)
    ensures Accounted(k, Next(y, step))
  {
    hide Safe, Numbered, Managed, Adding, Crashed;
    match step
    case Manage(e) =>
      var _, _ := ManagedMoves(y, e);
    case Persist(count) =>
    case Crash(identical) =>
      CrashedIsAccounted(k, y, identical);
    case CrashAdding(saved, count, identical) =>
      AddingKeepsAccounted(k, y, saved);
      CrashedIsAccounted(k, Persisted(Adding(y, saved), count), identical);
  }

  lemma {:induction false} RunIsAccounted(k: nat, stored: nat, steps: seq<Step>, n: nat)
    requires stored <= k && n <= |steps| && forall i :: 0 <= i < |steps| ==> NumberedPush(steps[i])
    ensures Accounted(k, RunTo(Start(k, stored), steps, n))
  {
    hide Accounted, Next;
    if n == 0 {
      StartIsAccounted(k, stored);
    } else {
      RunIsAccounted(k, stored, steps, n - 1);
      NextKeepsAccounted(k, RunTo(Start(k, stored), steps, n - 1), steps[n - 1]);
    }
  }

  lemma StartIsAccounted(k: nat, stored: nat)
    requires stored <= k
    ensures Accounted(k, Start(k, stored))
  {}

  /** Wherever a crash comes, within a turn or between two, in a run with any number of crashes before: every number up to
      the restart point has been committed or its message added, so restarting there may read messages again but leaves
      none out. */
  lemma NothingLeftOutBelowRestart(k: nat, stored: nat, steps: seq<Step>, identical: bool)
    requires stored <= k && forall i :: 0 <= i < |steps| ==> NumberedPush(steps[i])
    ensures var y := Run(Start(k, stored), steps);
            forall n :: k < n <= RestartPoint(y, identical) ==> n in y.ever
    ensures var y := Run(Start(k, stored), steps);
            forall saved, count :: var mid := Persisted(Adding(y, saved), count);
                                   forall n :: k < n <= RestartPoint(mid, identical) ==> n in mid.ever
  {
    hide Safe, Numbered, Adding, Next;
    RunIsAccounted(k, stored, steps, |steps|);
    var y := Run(Start(k, stored), steps);
    forall saved, count ensures var mid := Persisted(Adding(y, saved), count);
                                forall n :: k < n <= RestartPoint(mid, identical) ==> n in mid.ever
    {
      AddingKeepsAccounted(k, y, saved);
    }
  }

  // ---------------------------------------------------------------- the stored number stays behind

  /** The number is stored before it is raised: between restarts it never gets ahead of the one in memory. */
  lemma {:induction false} StoredStaysBehind(k: nat, stored: nat, events: seq<Event>, n: nat)
    requires stored <= k && n <= |events|
    ensures Ordering.RunTo(Initial(k, stored), events, n).stored <= Ordering.RunTo(Initial(k, stored), events, n).last
  {
    hide Ordering.Next, Safe;
    if n > 0 {
      StoredStaysBehind(k, stored, events, n - 1);
      RunIsSafe(k, stored, events, n - 1);
      NextStaysBehind(Ordering.RunTo(Initial(k, stored), events, n - 1), events[n - 1]);
    }
  }

  lemma NextStaysBehind(s: State, e: Event)
    requires Safe(s) && s.stored <= s.last
    ensures Ordering.Next(s, e).stored <= Ordering.Next(s, e).last
  {
    if e.Loop? && !Blocked(s) && !Outdated(s) { FrontIsNext(s); }
  }

  /** A restart keeps the stored number behind unless it starts from a transaction on disk older than the stored number. */
  ghost predicate StartsBehindStored(y: System, identical: bool) {
    identical && 0 < y.durable <= |y.chain| ==> y.manager.stored <= y.chain[y.durable - 1].sequenceNumber
  }

  lemma CrashStaysBehindExactly(y: System, identical: bool)
    requires y.durable <= |y.chain|
    ensures Crashed(y, identical).manager.stored <= Crashed(y, identical).manager.last <==> StartsBehindStored(y, identical)
  {
    if y.durable > 0 { assert OnDisk(y)[y.durable - 1] == y.chain[y.durable - 1]; }
  }

  /** The system as it is when a step crashes it. */
  function AtCrash(y: System, step: Step): System {
    if step.CrashAdding? then Persisted(Adding(y, step.saved), step.count) else y
  }

  ghost predicate RestartsBehindStored(y: System, step: Step) {
    step.Crash? || step.CrashAdding? ==> StartsBehindStored(AtCrash(y, step), step.identical)
  }

  ghost predicate StoredBehind(y: System) {
    y.durable <= |y.chain| && y.manager.stored <= y.manager.last
  }

  /** Over any run with crashes and such restarts the stored number is never ahead of the one in memory. */
  lemma {:induction false} StoredStaysBehindOverCrashes(k: nat, stored: nat, steps: seq<Step>, n: nat)
    requires stored <= k && n <= |steps| && forall i :: 0 <= i < |steps| ==> NumberedPush(steps[i])
    requires forall i :: 0 <= i < |steps| ==> RestartsBehindStored(RunTo(Start(k, stored), steps, i), steps[i])
    ensures StoredBehind(RunTo(Start(k, stored), steps, n))
  {
    hide Accounted, Next, StoredBehind, RestartsBehindStored;
    if n == 0 {
      StartsStoredBehind(k, stored);
    } else {
      StoredStaysBehindOverCrashes(k, stored, steps, n - 1);
      RunIsAccounted(k, stored, steps, n - 1);
      StepStaysBehind(k, RunTo(Start(k, stored), steps, n - 1), steps[n - 1]);
    }
  }

  lemma StartsStoredBehind(k: nat, stored: nat)
    requires stored <= k
    ensures StoredBehind(Start(k, stored))
  {}

  lemma StepStaysBehind(k: nat, y: System, step: Step)
    requires Accounted(k, y) && StoredBehind(y) && RestartsBehindStored(y, step)
    ensures StoredBehind(Next(y, step))
  {
    hide Ordering.Next, Safe, Numbered, Adding, Crashed, StartsBehindStored;
    match step
    case Manage(e) =>
      NextStaysBehind(y.manager, e);
    case Persist(_) =>
    case Crash(identical) =>
      CrashIsStored(y, identical);
    case CrashAdding(saved, count, identical) =>
      var _, _ := AddingMoves(y, saved);
      CrashIsStored(AtCrash(y, step), identical);
  }

  lemma CrashIsStored(y: System, identical: bool)
    requires y.durable <= |y.chain| && StartsBehindStored(y, identical)
    ensures StoredBehind(Crashed(y, identical))
  {
    CrashStaysBehindExactly(y, identical);
  }

  // ---------------------------------------------------------------- the chain

  ghost predicate NoneTwice(chain: seq<Message>) {
    forall i, j :: 0 <= i < j < |chain| ==> chain[i] != chain[j]
  }

  lemma NextKeepsNoneTwice(y: System, step: Step)
    requires NoneTwice(y.chain)
    ensures NoneTwice(Next(y, step).chain)
  {
    hide Ordering.Next;
  }

  /** Whatever happens, with crashes anywhere: the chain holds no message twice. */
  lemma {:induction false} ChainHoldsNoneTwice(k: nat, stored: nat, steps: seq<Step>, n: nat)
    requires n <= |steps|
    ensures NoneTwice(RunTo(Start(k, stored), steps, n).chain)
  {
    hide Next;
    if n > 0 {
      ChainHoldsNoneTwice(k, stored, steps, n - 1);
      NextKeepsNoneTwice(RunTo(Start(k, stored), steps, n - 1), steps[n - 1]);
    }
  }

  ghost predicate ChainInOrder(chain: seq<Message>) {
    forall i, j :: 0 <= i < j < |chain| ==> chain[i].sequenceNumber < chain[j].sequenceNumber
  }

  /** Messages of a topic: a number names one message. */
  ghost predicate OneEach(topic: set<Message>) {
    forall a, b :: a in topic && b in topic && a.sequenceNumber == b.sequenceNumber ==> a == b
  }

  ghost predicate Offered(step: Step, topic: set<Message>) {
    NumberedPush(step) && (step.Manage? && step.e.Push? ==> step.e.m in topic)
  }

  ghost predicate Holds(topic: set<Message>, chain: seq<Message>) {
    forall i :: 0 <= i < |chain| ==> chain[i] in topic
  }

  ghost predicate UpTo(chain: seq<Message>, n: nat) {
    forall i :: 0 <= i < |chain| ==> chain[i].sequenceNumber <= n
  }

  /** The chain is in order, and neither the number in memory nor the stored one is more than one behind it. */
  ghost predicate Orderly(topic: set<Message>, y: System) {
    Safe(y.manager) && Numbered(y.manager) && y.manager.pushed <= topic && Holds(topic, y.chain) && ChainInOrder(y.chain) &&
    y.durable <= |y.chain| && UpTo(y.chain, y.manager.last + 1) && UpTo(y.chain, y.manager.stored + 1)
  }

  /** The next message of a topic fits behind a chain that is at most one ahead, or is in it already. */
  lemma NextFits(topic: set<Message>, chain: seq<Message>, m: Message)
    requires OneEach(topic) && Holds(topic, chain) && m in topic && ChainInOrder(chain) && UpTo(chain, m.sequenceNumber)
    ensures var longer := Extended(chain, m);
            ChainInOrder(longer) && Holds(topic, longer) && UpTo(longer, m.sequenceNumber)
  {
    if m !in chain {
      forall i | 0 <= i < |chain| ensures chain[i].sequenceNumber < m.sequenceNumber {
        assert chain[i] in topic && chain[i] != m;
      }
    }
  }

  lemma CrashKeepsOrderly(topic: set<Message>, y: System, identical: bool)
    requires Orderly(topic, y)
    ensures Orderly(topic, Crashed(y, identical))
  {
    var kept := OnDisk(y);
    assert forall i :: 0 <= i < |kept| ==> kept[i] == y.chain[i];
  }

  lemma NextKeepsOrderly(topic: set<Message>, y: System, step: Step)
    requires OneEach(topic) && Orderly(topic, y) && Offered(step, topic) && (step.CrashAdding? ==> step.saved)
    ensures Orderly(topic, Next(y, step))
  {
    hide Safe, Numbered, Managed, Adding, Crashed, ChainInOrder, Holds, UpTo, OneEach, Extended;
    match step
    case Manage(e) =>
      var m, adds := ManagedMoves(y, e);
      if adds { NextFits(topic, y.chain, m); }
      UpToMore(Managed(y, e).chain, y.manager.last + 1, Managed(y, e).manager.last + 1);
    case Persist(_) =>
    case Crash(identical) =>
      CrashKeepsOrderly(topic, y, identical);
    case CrashAdding(saved, count, identical) =>
      var m, adds := AddingMoves(y, saved);
      if adds { NextFits(topic, y.chain, m); }
      CrashKeepsOrderly(topic, Persisted(Adding(y, saved), count), identical);
  }

  lemma UpToMore(chain: seq<Message>, n: nat, more: nat)
    requires n <= more
    ensures UpTo(chain, n) ==> UpTo(chain, more)
  {}

  /** Over any run with crashes and restarts between turns, or within a turn once the sequence number is stored, the messages
      of a topic enter the chain in the order of their numbers: at most one of them is read again, and that one is refused. */
  lemma {:induction false} ChainStaysInOrder(topic: set<Message>, k: nat, stored: nat, steps: seq<Step>, n: nat)
    requires OneEach(topic) && n <= |steps|
    requires forall i :: 0 <= i < |steps| ==> Offered(steps[i], topic) && (steps[i].CrashAdding? ==> steps[i].saved)
    ensures Orderly(topic, RunTo(Start(k, stored), steps, n))
  {
    hide Next, Orderly, OneEach;
    if n == 0 {
      StartIsOrderly(topic, k, stored);
    } else {
      ChainStaysInOrder(topic, k, stored, steps, n - 1);
      NextKeepsOrderly(topic, RunTo(Start(k, stored), steps, n - 1), steps[n - 1]);
    }
  }

  lemma StartIsOrderly(topic: set<Message>, k: nat, stored: nat)
    ensures Orderly(topic, Start(k, stored))
  {}

  // ---------------------------------------------------------------- messages that arrive one after the other

  /** A message offered, deserialized, added, and forgotten by the cache. */
  function Offer(m: Message): seq<Step> {
    [Manage(Push(m)), Manage(Finish(0)), Manage(Loop(ADDS)), Manage(Forget({m.octet}))]
  }

  function Offers(ms: seq<Message>, n: nat): seq<Step>
    requires n <= |ms|
  {
    if n == 0 then [] else Offers(ms, n - 1) + Offer(ms[n - 1])
  }

  function AllAdded(chain: seq<Message>, ms: seq<Message>, n: nat): seq<Message>
    requires n <= |ms|
  {
    if n == 0 then chain else Extended(AllAdded(chain, ms, n - 1), ms[n - 1])
  }

  ghost predicate Idle(y: System) {
    y.manager.running && y.manager.queue == [] && y.manager.recent == map[]
  }

  lemma {:induction false} RunOfPrefix(y: System, a: seq<Step>, b: seq<Step>, n: nat)
    requires n <= |a|
    ensures RunTo(y, a + b, n) == RunTo(y, a, n)
  {
    hide Next;
    if n > 0 { RunOfPrefix(y, a, b, n - 1); }
  }

  lemma {:induction false} RunOfBoth(y: System, a: seq<Step>, b: seq<Step>, n: nat)
    requires n <= |b|
    ensures RunTo(y, a + b, |a| + n) == RunTo(Run(y, a), b, n)
  {
    hide Next;
    if n == 0 { RunOfPrefix(y, a, b, |a|); } else { RunOfBoth(y, a, b, n - 1); }
  }

  lemma RunOfFour(y: System, a: Step, b: Step, c: Step, d: Step)
    ensures Run(y, [a, b, c, d]) == Next(Next(Next(Next(y, a), b), c), d)
  {
    hide Next;
    var steps := [a, b, c, d];
    assert RunTo(y, steps, 1) == Next(y, a);
    assert RunTo(y, steps, 2) == Next(RunTo(y, steps, 1), b);
    assert RunTo(y, steps, 3) == Next(RunTo(y, steps, 2), c);
  }

  /** A node that waits for the next message takes it in when it is offered. */
  lemma OneOffer(y: System, m: Message)
    requires Idle(y) && m.sequenceNumber == y.manager.last + 1
    ensures var y' := Run(y, Offer(m));
            Idle(y') && y'.manager.last == m.sequenceNumber && y'.manager.stored == y.manager.last &&
            y'.chain == Extended(y.chain, m) && y'.durable == y.durable
  {
    RunOfFour(y, Manage(Push(m)), Manage(Finish(0)), Manage(Loop(ADDS)), Manage(Forget({m.octet})));
    var y2 := Next(Next(y, Manage(Push(m))), Manage(Finish(0)));
    assert y2.manager.queue == [Entry(m, true)] && y2.manager.processed == y.manager.processed;
    assert y.manager.processed != y.manager.processed + [m];
  }

  lemma {:induction false} OffersAreAdded(y: System, ms: seq<Message>, n: nat)
    requires Idle(y) && n <= |ms| && forall i :: 0 <= i < |ms| ==> ms[i].sequenceNumber == y.manager.last + 1 + i
    ensures var y' := Run(y, Offers(ms, n));
            Idle(y') && y'.manager.last == y.manager.last + n && y'.chain == AllAdded(y.chain, ms, n) &&
            y'.durable == y.durable && y'.manager.stored == if n == 0 then y.manager.stored else y.manager.last + n - 1
  {
    hide Next, Idle, Extended;
    if n > 0 {
      OffersAreAdded(y, ms, n - 1);
      RunOfBoth(y, Offers(ms, n - 1), Offer(ms[n - 1]), 4);
      OneOffer(Run(y, Offers(ms, n - 1)), ms[n - 1]);
    }
  }

  lemma {:induction false} OffersAreNoCrash(ms: seq<Message>, n: nat)
    requires n <= |ms| && forall i :: 0 <= i < |ms| ==> ms[i].sequenceNumber >= 1
    ensures NoCrash(Offers(ms, n))
  {
    if n > 0 { OffersAreNoCrash(ms, n - 1); }
  }

  lemma {:induction false} AddedAreIn(chain: seq<Message>, ms: seq<Message>, n: nat)
    requires n <= |ms|
    ensures chain <= AllAdded(chain, ms, n)
    ensures forall m :: m in AllAdded(chain, ms, n) <==> m in chain || m in ms[..n]
  {
    if n > 0 {
      AddedAreIn(chain, ms, n - 1);
      assert ms[..n] == ms[..n - 1] + [ms[n - 1]];
    }
  }

  // ---------------------------------------------------------------- what a crash loses

  /** The chain after a restart and up to the next crash: what was on disk, and behind it only numbers beyond the restart point. */
  ghost predicate Beyond(kept: seq<Message>, start: nat, y: System) {
    y.manager.last >= start && kept <= y.chain &&
    forall i :: |kept| <= i < |y.chain| ==> y.chain[i].sequenceNumber > start
  }

  lemma {:induction false} RestartGoesBeyond(k: nat, y: System, identical: bool, steps: seq<Step>, n: nat)
    requires Accounted(k, y) && NoCrash(steps) && n <= |steps|
    ensures Accounted(k, RunTo(Crashed(y, identical), steps, n))
    ensures Beyond(OnDisk(y), RestartPoint(y, identical), RunTo(Crashed(y, identical), steps, n))
  {
    hide Accounted, Next;
    if n == 0 {
      CrashedIsAccounted(k, y, identical);
    } else {
      RestartGoesBeyond(k, y, identical, steps, n - 1);
      var before := RunTo(Crashed(y, identical), steps, n - 1);
      NextKeepsAccounted(k, before, steps[n - 1]);
      NextIsBeyond(k, OnDisk(y), RestartPoint(y, identical), before, steps[n - 1]);
    }
  }

  lemma NextIsBeyond(k: nat, kept: seq<Message>, start: nat, y: System, step: Step)
    requires Accounted(k, y) && Beyond(kept, start, y) && NumberedPush(step) && (step.Manage? || step.Persist?)
    ensures Beyond(kept, start, Next(y, step))
  {
    hide Safe, Numbered, Managed;
    if step.Manage? { var _, _ := ManagedMoves(y, step.e); }
  }

  /** A message with a number: that of the chain, if there is one. */
  ghost function Named(chain: seq<Message>, n: nat): (m: Message)
    ensures m.sequenceNumber == n && ((exists i :: 0 <= i < |chain| && chain[i].sequenceNumber == n) ==> m in chain)
  {
    if i :| 0 <= i < |chain| && chain[i].sequenceNumber == n then chain[i] else Message(0, n, 0, "")
  }

  /** The messages numbered from start + 1 to n. */
  ghost function Refill(chain: seq<Message>, start: nat, n: nat): (ms: seq<Message>)
    requires start <= n
    ensures |ms| == n - start && forall i :: 0 <= i < |ms| ==> ms[i] == Named(chain, start + 1 + i)
  {
    seq(n - start, i requires i >= 0 => Named(chain, start + 1 + i))
  }

  /** A transaction that does not come back into the chain before the next crash, whatever is offered. */
  ghost predicate Lost(y: System, identical: bool, m: Message) {
    forall steps :: NoCrash(steps) ==> m !in Run(Crashed(y, identical), steps).chain
  }

  /** A confirmed transaction that was not on disk when the node crashed can come back into the chain before the next crash
      if and only if the restart point has not reached its number. */
  lemma PassedIsLostExactly(k: nat, y: System, identical: bool, i: nat)
    requires Accounted(k, y) && NoneTwice(y.chain) && y.durable <= i < |y.chain|
    ensures Lost(y, identical, y.chain[i]) <==> y.chain[i].sequenceNumber <= RestartPoint(y, identical)
  {
    hide Accounted, Next, Offers, Crashed;
    var m, start := y.chain[i], RestartPoint(y, identical);
    NotOnDisk(y, i);
    if m.sequenceNumber <= start {
      forall steps | NoCrash(steps) ensures m !in Run(Crashed(y, identical), steps).chain {
        RestartGoesBeyond(k, y, identical, steps, |steps|);
      }
    } else {
      var ms := Refill([], start, m.sequenceNumber - 1) + [m];
      CrashedIsIdle(y, identical);
      OffersAreAdded(Crashed(y, identical), ms, |ms|);
      OffersAreNoCrash(ms, |ms|);
      AddedAreIn(OnDisk(y), ms, |ms|);
      assert ms[..|ms|] == ms && m in ms;
      assert m in Run(Crashed(y, identical), Offers(ms, |ms|)).chain;
    }
  }

  lemma NotOnDisk(y: System, i: nat)
    requires NoneTwice(y.chain) && y.durable <= i < |y.chain|
    ensures y.chain[i] !in OnDisk(y)
  {}

  lemma CrashedIsIdle(y: System, identical: bool)
    ensures Idle(Crashed(y, identical)) && Crashed(y, identical).manager.last == RestartPoint(y, identical)
    ensures Crashed(y, identical).chain == OnDisk(y)
  {}

  /** Some confirmed transaction cannot come back before the next crash if and only if the restart falls back on the stored
      number and that number has already reached the first transaction that was not on disk. */
  lemma CrashLosesExactly(k: nat, y: System, identical: bool)
    requires Accounted(k, y) && ChainInOrder(y.chain) && y.durable <= |y.chain|
    ensures (exists i :: y.durable <= i < |y.chain| && Lost(y, identical, y.chain[i])) <==>
            !(identical && y.durable > 0) && y.durable < |y.chain| && y.chain[y.durable].sequenceNumber <= y.manager.stored
  {
    hide Accounted, Lost;
    forall i | y.durable <= i < |y.chain|
      ensures Lost(y, identical, y.chain[i]) <==> y.chain[i].sequenceNumber <= RestartPoint(y, identical)
    {
      PassedIsLostExactly(k, y, identical, i);
    }
    FirstIsLowest(y);
  }

  lemma FirstIsLowest(y: System)
    requires ChainInOrder(y.chain) && y.durable <= |y.chain|
    ensures forall i :: y.durable <= i < |y.chain| ==> y.chain[y.durable].sequenceNumber <= y.chain[i].sequenceNumber
    ensures forall i :: y.durable <= i < |y.chain| && y.durable > 0 ==>
              OnDisk(y)[|OnDisk(y)| - 1].sequenceNumber < y.chain[i].sequenceNumber
  {}

  // ---------------------------------------------------------------- when a restart brings the chain out of order

  /** A number beyond the restart point that is missing on disk below one that is there. */
  ghost predicate Gap(kept: seq<Message>, start: nat) {
    exists n, j :: 0 <= j < |kept| && start < n < kept[j].sequenceNumber && Missing(kept, n)
  }

  ghost predicate Missing(kept: seq<Message>, n: nat) {
    forall i :: 0 <= i < |kept| ==> kept[i].sequenceNumber != n
  }

  /** After a restart and up to the next crash, without a gap: the chain stays in order. */
  ghost predicate Continued(topic: set<Message>, kept: seq<Message>, start: nat, y: System) {
    Safe(y.manager) && Numbered(y.manager) && y.manager.pushed <= topic && y.manager.last >= start && kept <= y.chain &&
    ChainInOrder(y.chain) && forall i :: |kept| <= i < |y.chain| ==> y.chain[i].sequenceNumber <= y.manager.last
  }

  lemma NextIsContinued(topic: set<Message>, kept: seq<Message>, start: nat, y: System, step: Step)
    requires OneEach(topic) && Holds(topic, kept) && !Gap(kept, start) && Continued(topic, kept, start, y)
    requires Offered(step, topic) && (step.Manage? || step.Persist?)
    ensures Continued(topic, kept, start, Next(y, step))
  {
    hide Safe, Numbered, Managed, Gap, OneEach, Holds;
    if step.Manage? {
      var m, adds := ManagedMoves(y, step.e);
      if adds && m !in y.chain { BehindKept(topic, kept, start, y.chain, m); }
    }
  }

  lemma BehindKept(topic: set<Message>, kept: seq<Message>, start: nat, chain: seq<Message>, m: Message)
    requires OneEach(topic) && Holds(topic, kept) && !Gap(kept, start) && kept <= chain && m in topic && m !in chain
    requires m.sequenceNumber > start
    ensures forall i :: 0 <= i < |kept| ==> chain[i].sequenceNumber < m.sequenceNumber
  {
    forall i | 0 <= i < |kept| ensures chain[i].sequenceNumber < m.sequenceNumber {
      assert chain[i] == kept[i] && kept[i] in topic && kept[i] != m;
      if m.sequenceNumber < kept[i].sequenceNumber { NumberIsKept(topic, kept, start, i, m); }
    }
  }

  lemma NumberIsKept(topic: set<Message>, kept: seq<Message>, start: nat, i: nat, m: Message)
    requires OneEach(topic) && Holds(topic, kept) && !Gap(kept, start) && m in topic
    requires i < |kept| && start < m.sequenceNumber < kept[i].sequenceNumber
    ensures exists j :: 0 <= j < |kept| && kept[j] == m
  {
    assert !Missing(kept, m.sequenceNumber);
    var j :| 0 <= j < |kept| && kept[j].sequenceNumber == m.sequenceNumber;
    assert kept[j] in topic;
  }

  lemma {:induction false} RunIsContinued(topic: set<Message>, y: System, identical: bool, steps: seq<Step>, n: nat)
    requires OneEach(topic) && Holds(topic, OnDisk(y)) && ChainInOrder(OnDisk(y)) && !Gap(OnDisk(y), RestartPoint(y, identical))
    requires NoCrash(steps) && (forall i :: 0 <= i < |steps| ==> Offered(steps[i], topic)) && n <= |steps|
    ensures Continued(topic, OnDisk(y), RestartPoint(y, identical), RunTo(Crashed(y, identical), steps, n))
  {
    hide Next, Gap, OneEach, Holds, Offered;
    if n > 0 {
      RunIsContinued(topic, y, identical, steps, n - 1);
      NextIsContinued(topic, OnDisk(y), RestartPoint(y, identical), RunTo(Crashed(y, identical), steps, n - 1), steps[n - 1]);
    }
  }

  /** Messages of a topic, to which the messages on disk belong, that bring the chain out of order before the next crash. */
  ghost predicate Disorders(y: System, identical: bool, topic: set<Message>, steps: seq<Step>) {
    OneEach(topic) && Holds(topic, OnDisk(y)) && NoCrash(steps) && (forall i :: 0 <= i < |steps| ==> Offered(steps[i], topic)) &&
    !ChainInOrder(Run(Crashed(y, identical), steps).chain)
  }

  lemma {:induction false} LeastMissing(kept: seq<Message>, start: nat, n: nat) returns (least: nat)
    requires start < n && Missing(kept, n)
    ensures start < least <= n && Missing(kept, least) && forall p :: start < p < least ==> !Missing(kept, p)
    decreases n
  {
    if p :| start < p < n && Missing(kept, p) { least := LeastMissing(kept, start, p); } else { least := n; }
  }

  /** After a restart the messages of a topic can bring the chain out of order before the next crash if and only if a number
      beyond the restart point is missing on disk below one that is there. */
  lemma RestartDisordersExactly(y: System, identical: bool)
    requires ChainInOrder(OnDisk(y))
    ensures (exists topic, steps :: Disorders(y, identical, topic, steps)) <==> Gap(OnDisk(y), RestartPoint(y, identical))
  {
    hide Next, Crashed, OneEach, Holds, Offered, NoCrash, ChainInOrder;
    var kept, start := OnDisk(y), RestartPoint(y, identical);
    if Gap(kept, start) {
      var n, j :| 0 <= j < |kept| && start < n < kept[j].sequenceNumber && Missing(kept, n);
      var least := LeastMissing(kept, start, n);
      GapDisorders(y, identical, least, j);
    } else {
      forall topic, steps ensures !Disorders(y, identical, topic, steps) {
        if OneEach(topic) && Holds(topic, kept) && NoCrash(steps) && forall i :: 0 <= i < |steps| ==> Offered(steps[i], topic) {
          RunIsContinued(topic, y, identical, steps, |steps|);
        }
      }
    }
  }

  lemma GapDisorders(y: System, identical: bool, n: nat, j: nat)
    requires ChainInOrder(OnDisk(y)) && j < |OnDisk(y)| && RestartPoint(y, identical) < n < OnDisk(y)[j].sequenceNumber
    requires Missing(OnDisk(y), n) && forall p :: RestartPoint(y, identical) < p < n ==> !Missing(OnDisk(y), p)
    ensures exists topic, steps :: Disorders(y, identical, topic, steps)
  {
    hide Next, Crashed, Offers, NoCrash, OneEach, Holds, Offered, ChainInOrder, Missing;
    var kept, start := OnDisk(y), RestartPoint(y, identical);
    var ms, m := Refill(kept, start, n), Named(kept, n);
    var topic, steps := (set x | x in kept) + {m}, Offers(ms, |ms|);
    RefillBringsLast(y, identical, n);
    OffersAreNoCrash(ms, |ms|);
    TopicOfKept(kept, m);
    forall x | x in ms ensures x in topic { KnownOrLast(kept, start, n, x); }
    OffersAreOffered(ms, |ms|, topic);
    LastIsLower(kept, m, j);
    assert Disorders(y, identical, topic, steps);
  }

  lemma RefillBringsLast(y: System, identical: bool, n: nat)
    requires RestartPoint(y, identical) < n && Missing(OnDisk(y), n)
    requires forall p :: RestartPoint(y, identical) < p < n ==> !Missing(OnDisk(y), p)
    ensures var ms := Refill(OnDisk(y), RestartPoint(y, identical), n);
            Run(Crashed(y, identical), Offers(ms, |ms|)).chain == OnDisk(y) + [Named(OnDisk(y), n)]
  {
    hide Next, Crashed, Offers, Missing, Named;
    var kept, start := OnDisk(y), RestartPoint(y, identical);
    var ms := Refill(kept, start, n);
    CrashedIsIdle(y, identical);
    OffersAreAdded(Crashed(y, identical), ms, |ms|);
    RefillIsKnown(kept, start, n, |ms| - 1);
  }

  lemma LastIsLower(kept: seq<Message>, m: Message, j: nat)
    requires j < |kept| && m.sequenceNumber < kept[j].sequenceNumber
    ensures !ChainInOrder(kept + [m])
  {
    var chain := kept + [m];
    assert chain[j] == kept[j] && chain[|kept|] == m;
  }

  lemma {:induction false} OffersAreOffered(ms: seq<Message>, n: nat, topic: set<Message>)
    requires n <= |ms| && forall m :: m in ms ==> m in topic && m.sequenceNumber >= 1
    ensures forall i :: 0 <= i < |Offers(ms, n)| ==> Offered(Offers(ms, n)[i], topic)
  {
    if n > 0 { OffersAreOffered(ms, n - 1, topic); }
  }

  /** All but the last of these messages are on disk already, so they are refused. */
  lemma {:induction false} RefillIsKnown(kept: seq<Message>, start: nat, n: nat, i: nat)
    requires start < n && Missing(kept, n) && forall p :: start < p < n ==> !Missing(kept, p)
    requires i < n - start
    ensures var ms, last := Refill(kept, start, n), Named(kept, n);
            ms[n - start - 1] == last && AllAdded(kept, ms, i) == kept && last !in kept &&
            (i == n - start - 1 ==> AllAdded(kept, ms, n - start) == kept + [last])
  {
    hide Named, Refill, Missing;
    NamedIsKept(kept, n);
    if i > 0 {
      RefillIsKnown(kept, start, n, i - 1);
      NamedIsKept(kept, start + i);
    }
  }

  lemma NamedIsKept(kept: seq<Message>, n: nat)
    ensures Missing(kept, n) <==> Named(kept, n) !in kept
  {}

  lemma KnownOrLast(kept: seq<Message>, start: nat, n: nat, x: Message)
    requires start < n && (forall p :: start < p < n ==> !Missing(kept, p)) && x in Refill(kept, start, n)
    ensures x in kept || x == Refill(kept, start, n)[n - start - 1]
  {
    var ms := Refill(kept, start, n);
    var i :| 0 <= i < |ms| && ms[i] == x;
    assert i < n - start - 1 ==> !Missing(kept, start + 1 + i);
  }

  lemma TopicOfKept(kept: seq<Message>, m: Message)
    requires ChainInOrder(kept) && Missing(kept, m.sequenceNumber)
    ensures OneEach((set x | x in kept) + {m}) && Holds((set x | x in kept) + {m}, kept)
  {}

  // ---------------------------------------------------------------- runs that get there

  lemma ThreeOffers(ms: seq<Message>)
    requires |ms| <= 3 && forall i :: 0 <= i < |ms| ==> ms[i].sequenceNumber == i + 1
    ensures var y := Run(Start(0, 0), Offers(ms, |ms|));
            Idle(y) && y.chain == ms && y.durable == 0 && y.manager.last == |ms| && (|ms| > 0 ==> y.manager.stored == |ms| - 1)
  {
    hide Next;
    OffersAreAdded(Start(0, 0), ms, |ms|);
    AllAreNew(ms, |ms|);
    assert ms[..|ms|] == ms;
  }

  lemma {:induction false} AllAreNew(ms: seq<Message>, n: nat)
    requires n <= |ms| && forall i :: 0 <= i < |ms| ==> ms[i].sequenceNumber == i + 1
    ensures AllAdded([], ms, n) == ms[..n]
  {
    if n > 0 { AllAreNew(ms, n - 1); }
  }

  /** A run that loses a transaction: two messages come, none is on disk, the node crashes, and the first does not come back. */
  lemma TwoMessagesLoseOne(a: Message, b: Message, steps: seq<Step>)
    requires a.sequenceNumber == 1 && b.sequenceNumber == 2 && NoCrash(steps)
    ensures var y := Run(Start(0, 0), Offers([a, b], 2));
            y.chain == [a, b] && y.durable == 0 && RestartPoint(y, false) == 1 && a !in Run(Crashed(y, false), steps).chain
  {
    hide Accounted, Next, Crashed;
    var y := Run(Start(0, 0), Offers([a, b], 2));
    ThreeOffers([a, b]);
    OffersAreNoCrash([a, b], 2);
    RunIsAccounted(0, 0, Offers([a, b], 2), |Offers([a, b], 2)|);
    PassedIsLostExactly(0, y, false, 0);
  }

  /** A run in which the stored number gets ahead: of three messages one is on disk, and the restart begins there. */
  lemma StoredGetsAhead(a: Message, b: Message, c: Message)
    requires a.sequenceNumber == 1 && b.sequenceNumber == 2 && c.sequenceNumber == 3
    ensures var y := Next(Next(Run(Start(0, 0), Offers([a, b, c], 3)), Persist(1)), Crash(true));
            y.manager.stored == 2 && y.manager.last == 1
  {
    ThreeOffers([a, b, c]);
  }

  /** A message offered that turns out not to be a transaction. */
  function PassOver(m: Message): seq<Step> {
    [Manage(Push(m)), Manage(Finish(0)), Manage(Loop(ADDS.(success := false))), Manage(Forget({m.octet}))]
  }

  lemma OnePassedOver(y: System, m: Message)
    requires Idle(y) && m.sequenceNumber == y.manager.last + 1
    ensures var y' := Run(y, PassOver(m));
            Idle(y') && y'.manager.last == m.sequenceNumber && y'.manager.stored == y.manager.stored &&
            y'.chain == y.chain && y'.durable == y.durable
  {
    RunOfFour(y, Manage(Push(m)), Manage(Finish(0)), Manage(Loop(ADDS.(success := false))), Manage(Forget({m.octet})));
    var y2 := Next(Next(y, Manage(Push(m))), Manage(Finish(0)));
    assert y2.manager.queue == [Entry(m, true)];
  }

  /** A message offered, and a crash when it has been added and got to disk, before the sequence number is stored. */
  function CrashUnsaved(m: Message): seq<Step> {
    [Manage(Push(m)), Manage(Finish(0)), CrashAdding(false, 1, false), Persist(1)]
  }

  lemma OneCrashUnsaved(y: System, m: Message)
    requires Idle(y) && m.sequenceNumber == y.manager.last + 1 && y.chain == [] && y.durable == 0
    ensures var y' := Run(y, CrashUnsaved(m));
            Idle(y') && y'.manager.last == y'.manager.stored == y.manager.stored && y'.chain == [m] && y'.durable == 1
  {
    RunOfFour(y, Manage(Push(m)), Manage(Finish(0)), CrashAdding(false, 1, false), Persist(1));
    var y2 := Next(Next(y, Manage(Push(m))), Manage(Finish(0)));
    assert y2.manager.queue == [Entry(m, true)] && y2.manager.last == y.manager.last;
    assert Adding(y2, false).chain == [m];
  }

  /** A run that brings the chain out of order: the first message is passed over without being stored, the node crashes
      between adding the second one and storing its number, and then the first one comes again and is added. */
  lemma UnsavedCrashDisorders(a: Message, b: Message)
    requires a.sequenceNumber == 1 && b.sequenceNumber == 2
    ensures Run(Run(Run(Start(0, 0), PassOver(a)), CrashUnsaved(b)), Offer(a)).chain == [b, a]
  {
    hide Next;
    var y1 := Run(Start(0, 0), PassOver(a));
    OnePassedOver(Start(0, 0), a);
    OneCrashUnsaved(y1, b);
    OneOffer(Run(y1, CrashUnsaved(b)), a);
  }
}
