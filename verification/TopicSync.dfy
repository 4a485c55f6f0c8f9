/** Catching up with a topic at startup: the paging loop of src/task/SyncTopicOnStartup.cpp and what it means for
    the ordering manager it feeds. The mirror node is the list of the messages of the topic. */
module TopicSync {
  import opened Ordering

  /** The messages of a topic as the mirror node lists them. */
  ghost predicate Listed(topic: seq<Message>) {
    (forall i :: 0 <= i < |topic| ==> topic[i].timestamp > 0) &&
    forall i, j :: 0 <= i < j < |topic| ==> topic[i].timestamp < topic[j].timestamp
  }

  /** Index of the first message later than a timestamp; the empty timestamp asks for all. */
  function FirstAfter(topic: seq<Message>, after: nat): (i: nat)
    ensures i <= |topic|
    ensures after == 0 ==> i == 0
    ensures forall j :: 0 <= j < i ==> topic[j].timestamp <= after
    ensures after != 0 && i < |topic| ==> topic[i].timestamp > after
  {
    if after == 0 || topic == [] || topic[0].timestamp > after then 0 else 1 + FirstAfter(topic[1..], after)
  }

  /** listTopicMessagesById in ascending order. */
  function Page(topic: seq<Message>, after: nat, limit: nat): seq<Message> {
    var i := FirstAfter(topic, after);
    if i + limit <= |topic| then topic[i..i + limit] else topic[i..]
  }

  function Pushes(messages: seq<Message>): (events: seq<Event>)
    ensures |events| == |messages|
  {
    seq(|messages|, i requires 0 <= i < |messages| => Push(messages[i]))
  }

  lemma PageIsPart(topic: seq<Message>, after: nat, limit: nat)
    ensures var start := FirstAfter(topic, after);
            Page(topic, after, limit) == topic[start..if start + limit <= |topic| then start + limit else |topic|]
  {}

  lemma FirstAfterRead(topic: seq<Message>, n: nat)
    requires Listed(topic) && 0 < n <= |topic|
    ensures FirstAfter(topic, topic[n - 1].timestamp) == n
  {
    assert forall j :: 0 <= j < n ==> topic[j].timestamp <= topic[n - 1].timestamp;
    assert n < |topic| ==> topic[n - 1].timestamp < topic[n].timestamp;
  }

  /** The manager after the messages of the topic from start up to end were pushed. */
  ghost function PushedUpTo(s: State, topic: seq<Message>, start: nat, end: nat): State
    requires start <= end <= |topic|
  {
    if end == start then s else Pushed(PushedUpTo(s, topic, start, end - 1), topic[end - 1]).0
  }

  lemma {:induction false} PushedUpToIsRun(s: State, topic: seq<Message>, start: nat, end: nat)
    requires start <= end <= |topic|
    ensures PushedUpTo(s, topic, start, end) == RunTo(s, Pushes(topic[start..]), end - start)
  {
    if start < end {
      PushedUpToIsRun(s, topic, start, end - 1);
      assert Pushes(topic[start..])[end - start - 1] == Push(topic[end - 1]);
    }
  }

  lemma PushedNothing(s: State, topic: seq<Message>, start: nat)
    requires start <= |topic|
    ensures PushedUpTo(s, topic, start, start) == s
  {}

  class SyncTopicOnStartup {
    var confirmedAtLastReadedTransaction: nat
    const manager: SimpleOrderingManager

    constructor (manager: SimpleOrderingManager, confirmedAt: nat)
      ensures this.manager == manager && confirmedAtLastReadedTransaction == confirmedAt
    {
      this.manager := manager;
      confirmedAtLastReadedTransaction := confirmedAt;
    }

    /** Pushes every message later than the last one read, each once and in order, page by page, and counts them. */
    method LoadTransactionsFromMirrorNode(topic: seq<Message>, limit: nat) returns (addedTransactionsSum: nat)
      requires Listed(topic) && limit > 0
      modifies this, manager
      ensures var start := FirstAfter(topic, old(confirmedAtLastReadedTransaction));
              manager.St() == Run(old(manager.St()), Pushes(topic[start..])) &&
              addedTransactionsSum == |topic| - start &&
              confirmedAtLastReadedTransaction ==
                if start < |topic| then topic[|topic| - 1].timestamp else old(confirmedAtLastReadedTransaction)
    {
      hide Listed, FirstAfter, PushedUpTo, RunTo, Ordering.Pushed;
      ghost var start := FirstAfter(topic, confirmedAtLastReadedTransaction);
      ghost var end := start;
      ghost var before := manager.St();
      PushedNothing(before, topic, start);
      addedTransactionsSum := 0;
      var again := true;
      while again
        invariant start <= end <= |topic| && addedTransactionsSum == end - start
        invariant ReadUpTo(topic, start, end, old(confirmedAtLastReadedTransaction), before)
        invariant !again ==> end == |topic|
        decreases |topic| - end, again
      {
        var responsesCount := LoadPage(topic, limit, start, end, old(confirmedAtLastReadedTransaction), before);
        if responsesCount == 0 { break; }
        addedTransactionsSum := addedTransactionsSum + responsesCount;
        end := end + responsesCount;
        again := responsesCount == limit;
      }
      PushedUpToIsRun(before, topic, start, end);
    }

    /** The messages from start up to end have been pushed and the timestamp is that of the last of them. */
    ghost predicate ReadUpTo(topic: seq<Message>, start: nat, end: nat, confirmedAt: nat, before: State)
      requires start <= end <= |topic|
      reads this, manager
    {
      FirstAfter(topic, confirmedAtLastReadedTransaction) == end &&
      confirmedAtLastReadedTransaction == (if end == start then confirmedAt else topic[end - 1].timestamp) &&
      manager.St() == PushedUpTo(before, topic, start, end)
    }

    /** One request to the mirror node; an empty answer changes nothing. */
    method LoadPage(topic: seq<Message>, limit: nat, ghost start: nat, ghost end: nat, ghost confirmedAt: nat, ghost before: State)
      returns (responsesCount: nat)
      requires Listed(topic) && limit > 0 && start <= end <= |topic|
      requires ReadUpTo(topic, start, end, confirmedAt, before)
      modifies this, manager
      ensures responsesCount == if end + limit <= |topic| then limit else |topic| - end
      ensures ReadUpTo(topic, start, end + responsesCount, confirmedAt, before)
    {
      hide Listed, FirstAfter, Page, Ordering.Pushed, PushedUpTo;
      PageIsPart(topic, confirmedAtLastReadedTransaction, limit);
      var responses := Page(topic, confirmedAtLastReadedTransaction, limit);
      responsesCount := |responses|;
      if responses == [] { return; }
      confirmedAtLastReadedTransaction := responses[responsesCount - 1].timestamp;
      PushAll(responses, topic, start, end, before);
      FirstAfterRead(topic, end + responsesCount);
    }

    method PushAll(responses: seq<Message>, ghost topic: seq<Message>, ghost start: nat, ghost at: nat, ghost before: State)
      requires start <= at && at + |responses| <= |topic| && responses == topic[at..at + |responses|]
      requires manager.St() == PushedUpTo(before, topic, start, at)
      modifies manager
      ensures manager.St() == PushedUpTo(before, topic, start, at + |responses|)
    {
      var i := 0;
      while i < |responses|
        invariant 0 <= i <= |responses|
        invariant manager.St() == PushedUpTo(before, topic, start, at + i)
      {
        var result := manager.PushTransaction(responses[i]);
        i := i + 1;
      }
    }
  }

  // ---------------------------------------------------------------- startup and ordering together

  /** The topic from its beginning: message i carries number i+1. */
  ghost predicate Complete(topic: seq<Message>) {
    Listed(topic) && forall i :: 0 <= i < |topic| ==> topic[i].sequenceNumber == i + 1
  }

  lemma CompleteIsTopic(topic: seq<Message>)
    requires Complete(topic)
    ensures Topic(set m | m in topic)
  {}

  /** The events of a node that starts at number k: it catches up from the timestamp of that message, then anything goes. */
  function Startup(topic: seq<Message>, k: nat, events: seq<Event>): seq<Event>
    requires k <= |topic|
  {
    Pushes(topic[FirstAfter(topic, if k == 0 then 0 else topic[k - 1].timestamp)..]) + events
  }

  lemma StartupPushes(topic: seq<Message>, k: nat, events: seq<Event>)
    requires Complete(topic) && k <= |topic|
    requires forall i :: 0 <= i < |events| && events[i].Push? ==> events[i].m in topic
    ensures Startup(topic, k, events) == Pushes(topic[k..]) + events
    ensures PushesFrom(Startup(topic, k, events), set m | m in topic)
  {
    if k > 0 { FirstAfterRead(topic, k); }
    CompleteIsTopic(topic);
    forall i | 0 <= i < |topic| - k ensures topic[k..][i] in (set m | m in topic) {
      assert topic[k..][i] == topic[k + i];
    }
    PushesAreFrom(topic[k..], events, set m | m in topic);
  }

  lemma PushesAreFrom(messages: seq<Message>, events: seq<Event>, topic: set<Message>)
    requires Topic(topic) && (forall i :: 0 <= i < |messages| ==> messages[i] in topic)
    requires forall i :: 0 <= i < |events| && events[i].Push? ==> events[i].m in topic
    ensures PushesFrom(Pushes(messages) + events, topic)
  {
    var whole := Pushes(messages) + events;
    forall i | 0 <= i < |whole| && whole[i].Push? ensures whole[i].m in topic {
      if i >= |messages| { assert whole[i] == events[i - |messages|]; }
    }
  }

  /** A node that starts at number k and has caught up never waits for a missing message: whatever else of the topic
      arrives, the front of the queue is the next message or an outdated one. */
  lemma CaughtUpNeverWaits(k: nat, stored: nat, topic: seq<Message>, events: seq<Event>)
    requires Complete(topic) && k <= |topic|
    requires forall i :: 0 <= i < |events| && events[i].Push? ==> events[i].m in topic
    ensures var s := Run(Initial(k, stored), Startup(topic, k, events));
            s.running && s.queue != [] ==> s.queue[0].message.sequenceNumber <= s.last + 1
  {
    var whole, all := Startup(topic, k, events), set m | m in topic;
    StartupPushes(topic, k, events);
    WaitingMeansMissing(k, stored, whole, all);
    RunTakesIn(k, stored, whole, all, |whole|);
    var s := Run(Initial(k, stored), whole);
    if s.running && s.queue != [] {
      FrontNumber(s, topic);
      CommittedInSequence(k, stored, whole);
      if s.last < |topic| { NextWasOffered(topic, k, events, s.last); }
    }
  }

  lemma NextWasOffered(topic: seq<Message>, k: nat, events: seq<Event>, last: nat)
    requires Complete(topic) && k <= last < |topic|
    ensures var whole := Pushes(topic[k..]) + events;
            whole[last - k].Push? && whole[last - k].m.sequenceNumber == last + 1
  {
    assert topic[k..][last - k] == topic[last];
  }

  lemma FrontNumber(s: State, topic: seq<Message>)
    requires Complete(topic) && QueueIsPushed(s) && s.queue != [] && forall m :: m in s.pushed ==> m in topic
    ensures s.queue[0].message.sequenceNumber <= |topic|
  {
    assert s.queue[0].message in topic;
  }
}
