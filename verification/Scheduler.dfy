/** Tasks that wait for parent tasks, and the scheduler that hands them to worker threads
    (src/task/Task.cpp, src/task/CPUTask.cpp, src/task/CPUSheduler.cpp, src/task/CPUShedulerThread.cpp).
    Each call of the scheduler is one step. */
module Scheduler {

  /** A task knows its parents from the start; rank is a witness that the parent relation has no cycle. */
  class Task {
    const parents: seq<Task?>
    ghost const rank: nat
    var scheduled: bool
    var finished: bool

    constructor (parents: seq<Task?>, ghost rank: nat)
      requires forall i :: 0 <= i < |parents| && parents[i] != null ==> parents[i].rank < rank
      ensures this.parents == parents && this.rank == rank && !scheduled && !finished
    {
      this.parents, this.rank := parents, rank;
      scheduled, finished := false, false;
    }

    ghost predicate ParentsFinished()
      reads parents
    {
      forall i :: 0 <= i < |parents| && parents[i] != null ==> parents[i].finished
    }

    /** Every parent is finished or on its way. */
    ghost predicate ParentsCovered()
      reads parents
    {
      forall i :: 0 <= i < |parents| && parents[i] != null ==> parents[i].finished || parents[i].scheduled
    }
  }

  /** A way from a task to one of its ancestors, parent by parent. */
  ghost predicate IsPath(path: seq<Task>) {
    forall i :: 0 < i < |path| ==> path[i] in path[i - 1].parents
  }

  ghost predicate ListsGrown(pending: seq<Task>, working: map<nat, Task>, free: seq<nat>,
                             pending': seq<Task>, working': map<nat, Task>, free': seq<nat>)
  {
    pending <= pending' && (forall w :: w in working ==> w in working' && working'[w] == working[w]) &&
    |free'| <= |free| && free' == free[|free| - |free'|..]
  }

  lemma GrowOn(p: seq<Task>, w: map<nat, Task>, f: seq<nat>, p1: seq<Task>, w1: map<nat, Task>, f1: seq<nat>,
               p2: seq<Task>, w2: map<nat, Task>, f2: seq<nat>)
    requires ListsGrown(p, w, f, p1, w1, f1) && ListsGrown(p1, w1, f1, p2, w2, f2)
    ensures ListsGrown(p, w, f, p2, w2, f2)
  {}

  lemma NothingGrows(p: seq<Task>, w: map<nat, Task>, f: seq<nat>)
    ensures ListsGrown(p, w, f, p, w, f)
  {}

  class CPUSheduler {
    var pending: seq<Task>
    /** Idle workers in the order they will be used, and what the others work on. */
    var free: seq<nat>
    var working: map<nat, Task>
    var stopped: bool

    /** The tasks of this scheduler, and those that will never run: taken back by stop or ended with an error. */
    ghost var tasks: set<Task>
    ghost var dropped: set<Task>

    ghost predicate Closed()
      reads `tasks
    {
      forall t, i :: t in tasks && 0 <= i < |t.parents| && t.parents[i] != null ==>
        t.parents[i] in tasks && t.parents[i].rank < t.rank
    }

    ghost predicate InHand(t: Task)
      reads `pending, `working
    {
      t in pending || exists w :: w in working && working[w] == t
    }

    /** Nothing is in hand twice. */
    ghost predicate Once()
      reads `pending, `working, `free
    {
      (forall i, j :: 0 <= i < j < |pending| ==> pending[i] != pending[j]) &&
      (forall v, w :: v in working && w in working && working[v] == working[w] ==> v == w) &&
      (forall w :: w in working ==> working[w] !in pending) &&
      (forall i, j :: 0 <= i < j < |free| ==> free[i] != free[j]) &&
      (forall i :: 0 <= i < |free| ==> free[i] !in working)
    }

    /** The invariant of the scheduler. While calls are under way, the tasks they are about are open: such a task may not
        have its flag yet, or may be out of the list for a moment. */
    ghost predicate ValidBut(open: set<Task>)
      reads this, tasks
    {
      Closed() && Once() && Flags(open) && Parents()
    }

    ghost predicate Flags(open: set<Task>)
      reads this, tasks
    {
      (forall t :: t in pending ==> t in tasks) && (forall w :: w in working ==> working[w] in tasks) &&
      (forall t :: t in dropped ==> t in tasks && (t.scheduled || t in open)) &&
      (forall t :: t in tasks && InHand(t) ==> !t.finished && t !in dropped && (t.scheduled || t in open)) &&
      (forall t :: t in tasks && t.scheduled && !t.finished && t !in open ==> InHand(t) || t in dropped) &&
      (forall t :: t in tasks && t.finished ==> t.scheduled && t !in dropped)
    }

    /** A task in hand has its parents on their way; a task given to a worker, and so a finished one, has them finished. */
    ghost predicate Parents()
      reads this, tasks
      requires Closed()
    {
      (forall t :: t in tasks && (t.scheduled || InHand(t)) && t !in dropped ==> t.ParentsCovered()) &&
      (forall t :: t in tasks && t.finished ==> t.ParentsFinished()) &&
      (forall w :: w in working && working[w] in tasks ==> working[w].ParentsFinished())
    }

    ghost predicate Valid()
      reads this, tasks
    {
      ValidBut({})
    }

    constructor (threadCount: nat)
      ensures Valid() && fresh(tasks) && tasks == {} && pending == [] && working == map[] && !stopped
      ensures |free| == threadCount
    {
      pending, working, stopped := [], map[], false;
      free := seq(threadCount, i => i);
      tasks, dropped := {}, {};
    }

    /** A new task becomes known; its parents are known already. */
    ghost method Register(t: Task)
      requires Valid() && t !in tasks && !t.scheduled && !t.finished
      requires forall i :: 0 <= i < |t.parents| && t.parents[i] != null ==> t.parents[i] in tasks && t.parents[i].rank < t.rank
      modifies `tasks
      ensures Valid() && tasks == old(tasks) + {t}
    {
      tasks := tasks + {t};
    }

    /** Open tasks are not below the rank a call may touch. */
    ghost predicate Above(open: set<Task>, rank: nat) {
      forall t :: t in open ==> t.rank >= rank
    }

    /** Tasks are added behind the list or given to idle workers, from the first one on; nobody loses a task. */
    twostate predicate Grown()
      reads `pending, `working, `free
    {
      ListsGrown(old(pending), old(working), old(free), pending, working, free)
    }

    /** What a call about tasks up to a rank may change: flags are only set, lists only grow, by tasks below that rank, and
        nothing is dropped unless the scheduler was stopped. */
    twostate predicate OnlyBelow(rank: nat)
      reads this, tasks
    {
      tasks == old(tasks) && old(dropped) <= dropped && (stopped || dropped == old(dropped)) && stopped == old(stopped) &&
      (forall t :: t in tasks ==> t.finished == old(t.finished) && (old(t.scheduled) ==> t.scheduled)) &&
      (forall t :: t in tasks && t.rank >= rank ==>
         t.scheduled == old(t.scheduled) && (InHand(t) <==> old(InHand(t))) && (t in dropped <==> t in old(dropped)))
    }

    /** Task::isAllParentsReady: true if all parents are finished; those neither finished nor scheduled are scheduled. */
    method IsAllParentsReady(t: Task, ghost open: set<Task>) returns (allFinished: bool)
      requires ValidBut(open) && t in tasks && Above(open, t.rank)
      modifies this, tasks
      ensures ValidBut(open) && OnlyBelow(t.rank) && Grown()
      ensures allFinished <==> t.ParentsFinished()
      ensures t.ParentsCovered()
      ensures old(t.ParentsCovered()) ==> Untouched()
      decreases t.rank, 0
    {
      hide ListsGrown, InHand, Once, Flags, Parents;
      NothingGrows(pending, working, free);
      allFinished := true;
      var i := 0;
      while i < |t.parents|
        invariant 0 <= i <= |t.parents|
        invariant ValidBut(open) && OnlyBelow(t.rank) && Grown()
        invariant forall j :: 0 <= j < i && t.parents[j] != null ==> t.parents[j].finished || t.parents[j].scheduled
        invariant allFinished <==> forall j :: 0 <= j < i && t.parents[j] != null ==> t.parents[j].finished
        invariant old(t.ParentsCovered()) ==> Untouched()
      {
        var parent := t.parents[i];
        if parent != null && !parent.finished {
          allFinished := false;
          if !parent.scheduled {
            ghost var p, w, f := pending, working, free;
            ScheduleParent(parent, t.rank, open);
            GrowOn(old(pending), old(working), old(free), p, w, f, pending, working, free);
          }
        }
        i := i + 1;
      }
    }

    /** CPUTask::scheduleTask, called on a parent. */
    method ScheduleParent(t: Task, ghost rank: nat, ghost open: set<Task>)
      requires ValidBut(open) && t in tasks && t.rank < rank && !t.scheduled && Above(open, rank)
      modifies this, tasks
      ensures ValidBut(open) && OnlyBelow(rank) && Grown() && t.scheduled
      decreases t.rank, 2
    {
      SheduleTask(t, open + {t});
      TaskScheduled(t, open);
    }

    /** Task::taskScheduled. */
    method TaskScheduled(t: Task, ghost open: set<Task>)
      requires ValidBut(open + {t}) && t in tasks && !t.finished
      requires (InHand(t) && t.ParentsCovered()) || t in dropped
      modifies t`scheduled
      ensures ValidBut(open) && t.scheduled
    {
      t.scheduled := true;
    }

    method SheduleTask(t: Task, ghost open: set<Task>)
      requires ValidBut(open) && t in open && t in tasks && !InHand(t) && !t.finished && t !in dropped
      requires Above(open, t.rank)
      modifies this, tasks
      ensures ValidBut(open) && OnlyBelow(t.rank + 1) && Grown() && t.scheduled == old(t.scheduled)
      ensures if stopped then t in dropped else InHand(t) && t.ParentsCovered()
      ensures old(t.ParentsCovered()) ==> OthersUntouched(t)
      ensures old(t.ParentsCovered()) && !stopped ==> Placed(t, old(t.ParentsFinished()))
      decreases t.rank, 1
    {
      hide ListsGrown, InHand, Once, Flags, Parents;
      if stopped {
        Drop(t, open);
        NothingGrows(pending, working, free);
        return;
      }
      var ready := IsAllParentsReady(t, open);
      ghost var p, w, f := pending, working, free;
      Place(t, ready, open);
      GrowOn(old(pending), old(working), old(free), p, w, f, pending, working, free);
    }

    /** What stop has taken back never runs. */
    ghost method Drop(t: Task, open: set<Task>)
      requires ValidBut(open) && t in open && t in tasks && !InHand(t) && !t.finished && t !in dropped
      modifies `dropped
      ensures ValidBut(open) && dropped == old(dropped) + {t}
    {
      dropped := dropped + {t};
    }

    method Place(t: Task, ready: bool, ghost open: set<Task>)
      requires ValidBut(open) && t in open && t in tasks && !InHand(t) && !t.finished && t !in dropped
      requires t.ParentsCovered() && (ready <==> t.ParentsFinished())
      modifies `pending, `working, `free
      ensures ValidBut(open) && InHand(t) && Placed(t, ready) && Grown()
      ensures forall x :: x in tasks && x != t ==> (InHand(x) <==> old(InHand(x)))
    {
      if ready && free != [] {
        HandOver(t, open);
      } else {
        AddPending(t, open);
      }
    }

    /** A ready task goes to the first idle worker, if there is one; any other task goes to the end of the list. */
    twostate predicate Placed(t: Task, ready: bool)
      reads this
    {
      if ready && old(free) != [] then
        pending == old(pending) && working == old(working)[old(free)[0] := t] && free == old(free)[1..]
      else
        pending == old(pending) + [t] && working == old(working) && free == old(free)
    }

    twostate predicate OthersUntouched(t: Task)
      reads this, tasks
    {
      tasks == old(tasks) && dropped - {t} == old(dropped) - {t} && stopped == old(stopped) &&
      (forall x :: x in tasks ==> x.finished == old(x.finished) && x.scheduled == old(x.scheduled)) &&
      (forall x :: x in tasks && x != t ==> (InHand(x) <==> old(InHand(x))))
    }

    /** The first idle worker starts on a task whose parents are all finished. */
    method HandOver(t: Task, ghost open: set<Task>)
      requires ValidBut(open) && t in open && t in tasks && !InHand(t) && !t.finished && t !in dropped
      requires t.ParentsFinished() && free != []
      modifies `working, `free
      ensures working == old(working)[old(free[0]) := t] && free == old(free[1..]) && InHand(t)
      ensures ValidBut(open) && forall x :: x in tasks && x != t ==> (InHand(x) <==> old(InHand(x)))
    {
      var w := free[0];
      FreeIsOnce();
      free := free[1..];
      working := working[w := t];
      assert working[w] == t;
      forall x | x in tasks && x != t ensures InHand(x) <==> old(InHand(x)) {
        if v :| v in old(working) && old(working)[v] == x { assert working[v] == x; }
      }
    }

    lemma FreeIsOnce()
      requires Once() && free != []
      ensures free[0] !in working && free[0] !in free[1..]
    {}

    method GiveTo(t: Task, w: nat, ghost open: set<Task>)
      requires ValidBut(open) && t in open && t in tasks && !InHand(t) && !t.finished && t !in dropped
      requires t.ParentsFinished() && w !in working && w !in free
      modifies `working
      ensures working == old(working)[w := t] && InHand(t)
      ensures ValidBut(open) && forall x :: x in tasks && x != t ==> (InHand(x) <==> old(InHand(x)))
    {
      working := working[w := t];
      assert working[w] == t;
      forall x | x in tasks && x != t ensures InHand(x) <==> old(InHand(x)) {
        if v :| v in old(working) && old(working)[v] == x { assert working[v] == x; }
      }
    }

    method AddPending(t: Task, ghost open: set<Task>)
      requires ValidBut(open) && t in open && t in tasks && !InHand(t) && !t.finished && t !in dropped
      requires t.ParentsCovered()
      modifies `pending
      ensures pending == old(pending) + [t] && InHand(t)
      ensures ValidBut(open) && forall x :: x in tasks && x != t ==> (InHand(x) <==> old(InHand(x)))
    {
      pending := pending + [t];
      assert working == old(working);
      forall x | x in tasks && x != t ensures InHand(x) <==> old(InHand(x)) {
        assert x in pending <==> x in old(pending);
      }
    }

    twostate predicate Untouched()
      reads this, tasks
    {
      tasks == old(tasks) && dropped == old(dropped) && stopped == old(stopped) &&
      pending == old(pending) && free == old(free) && working == old(working) &&
      forall t :: t in tasks ==> t.finished == old(t.finished) && t.scheduled == old(t.scheduled)
    }

    // -------------------------------------------------------------- calls from outside

    /** CPUTask::scheduleTask: the task and every ancestor not finished yet end up scheduled. */
    method ScheduleTask(t: Task)
      requires Valid() && t in tasks
      modifies this, tasks
      ensures Valid() && OnlyBelow(t.rank + 1) && Grown() && t.scheduled
      ensures old(t.scheduled) ==> Untouched()
      ensures !stopped && t !in old(dropped) ==> t.finished || InHand(t)
      ensures !stopped && !old(t.scheduled) && old(t.ParentsCovered()) ==> Placed(t, old(t.ParentsFinished()))
    {
      if !t.scheduled {
        assert Valid() ==> ValidBut({t});
        SheduleTask(t, {t});
        assert {t} == {} + {t};
        TaskScheduled(t, {});
      }
    }

    /** The first pending task whose parents are all finished leaves the list. Asking schedules nothing: the parents of
        a pending task have been scheduled before, so the list is not extended while it is walked. */
    method TakeReadyTask() returns (task: Task?)
      requires Valid()
      modifies this, tasks
      ensures tasks == old(tasks) && free == old(free) && working == old(working) && stopped == old(stopped)
      ensures dropped == old(dropped)
      ensures forall t :: t in tasks ==> t.finished == old(t.finished) && t.scheduled == old(t.scheduled)
      ensures task == null ==> Valid() && pending == old(pending) && forall t :: t in pending ==> !t.ParentsFinished()
      ensures task != null ==> task in old(pending) && ValidBut({task}) && !InHand(task) && task.ParentsFinished()
      ensures task != null ==>
                exists i :: 0 <= i < |old(pending)| && TakenOut(old(pending), i, task, pending) &&
                            forall j :: 0 <= j < i ==> !old(pending)[j].ParentsFinished()
      ensures task != null ==> forall t :: t in tasks && t != task ==> (InHand(t) <==> old(InHand(t)))
    {
      hide ListsGrown, InHand, Once, Flags, Parents;
      var i := 0;
      while i < |pending|
        invariant 0 <= i <= |pending| && Valid() && Untouched()
        invariant forall j :: 0 <= j < i ==> !pending[j].ParentsFinished()
      {
        PendingIsCovered(i);
        var ready := IsAllParentsReady(pending[i], {});
        if ready {
          task := pending[i];
          Erase(i);
          assert TakenOut(old(pending), i, task, pending);
          return;
        }
        i := i + 1;
      }
      return null;
    }

    lemma PendingIsCovered(i: nat)
      requires Valid() && i < |pending|
      ensures pending[i] in tasks && pending[i].ParentsCovered()
    {
      assert pending[i] in pending && InHand(pending[i]);
    }

    ghost predicate TakenOut(before: seq<Task>, i: nat, t: Task, after: seq<Task>)
      requires i < |before|
    {
      before[i] == t && after == before[..i] + before[i + 1..]
    }

    method Erase(i: nat)
      requires Valid() && i < |pending|
      modifies `pending
      ensures pending == old(pending)[..i] + old(pending)[i + 1..]
      ensures ValidBut({old(pending)[i]}) && !InHand(old(pending)[i])
      ensures forall t :: t in tasks && t != old(pending)[i] ==> (InHand(t) <==> old(InHand(t)))
    {
      ghost var t, was := pending[i], pending;
      pending := pending[..i] + pending[i + 1..];
      forall x | x != t ensures x in was <==> x in pending {
        if x in was {
          var j :| 0 <= j < |was| && was[j] == x;
          assert pending[if j < i then j else j - 1] == x;
        }
      }
    }

    /** A worker without work asks for more: it gets the first ready task, or is queued as idle. */
    method GetNextUndoneTask(me: nat) returns (task: Task?)
      requires Valid() && me !in working && me !in free
      modifies this, tasks
      ensures Valid() && tasks == old(tasks)
      ensures forall t :: t in tasks ==> t.finished == old(t.finished) && t.scheduled == old(t.scheduled)
      ensures dropped == old(dropped) && stopped == old(stopped)
      ensures task != null ==> task in old(pending) && task.ParentsFinished() && working == old(working)[me := task]
      ensures task != null ==> free == old(free)
      ensures task != null ==>
                exists i :: 0 <= i < |old(pending)| && TakenOut(old(pending), i, task, pending) &&
                            forall j :: 0 <= j < i ==> !old(pending)[j].ParentsFinished()
      ensures task == null ==> working == old(working) && pending == old(pending) && free == old(free) + [me]
      ensures task == null ==> forall t :: t in pending ==> !t.ParentsFinished()
    {
      task := TakeReadyTask();
      if task != null {
        GiveTo(task, me, {task});
      } else {
        free := free + [me];
      }
    }

    /** The end of a run in CPUShedulerThread: 0 marks the task as finished, then the worker asks for more. */
    method RunEnds(w: nat, returnValue: int) returns (next: Task?)
      requires Valid() && w in working
      modifies this, tasks
      ensures Valid() && tasks == old(tasks)
      ensures old(working[w]).finished == (returnValue == 0) && stopped == old(stopped)
      ensures dropped == old(dropped) + if returnValue == 0 then {} else {old(working[w])}
      ensures forall t :: t in tasks && t != old(working[w]) ==> t.finished == old(t.finished)
      ensures forall t :: t in tasks ==> t.scheduled == old(t.scheduled)
      ensures next != null ==> free == old(free)
      ensures next != null ==>
                exists i :: 0 <= i < |old(pending)| && TakenOut(old(pending), i, next, pending) &&
                            forall j :: 0 <= j < i ==> !old(pending)[j].ParentsFinished()
      ensures next == null ==> pending == old(pending) && forall t :: t in pending ==> !t.ParentsFinished()
      ensures next != null ==> next.ParentsFinished() && working == old(working)[w := next]
      ensures next == null ==> working == old(working) - {w} && free == old(free) + [w]
    {
      LeaveWorker(w, working[w], returnValue);
      next := GetNextUndoneTask(w);
    }

    method LeaveWorker(w: nat, task: Task, returnValue: int)
      requires Valid() && w in working && working[w] == task
      modifies `working, `dropped, task`finished
      ensures Valid() && working == old(working) - {w} && task.finished == (returnValue == 0)
      ensures dropped == old(dropped) + if returnValue == 0 then {} else {task}
    {
      TakeFromWorker(w, task);
      if returnValue == 0 {
        SetTaskFinished(task);
      } else {
        dropped := dropped + {task};
      }
    }

    method SetTaskFinished(task: Task)
      requires ValidBut({task}) && task in tasks && !InHand(task)
      requires task.scheduled && task !in dropped && task.ParentsFinished()
      modifies task`finished
      ensures Valid() && task.finished
    {
      task.finished := true;
      assert forall t :: t in tasks && t.finished ==> t == task || old(t.finished);
    }

    method TakeFromWorker(w: nat, task: Task)
      requires Valid() && w in working && working[w] == task
      modifies `working
      ensures working == old(working) - {w} && !InHand(task)
      ensures ValidBut({task}) && task.scheduled && !task.finished && task !in dropped && task.ParentsFinished()
    {
      assert InHand(task);
      working := working - {w};
      forall x | x in tasks && x != task ensures InHand(x) <==> old(InHand(x)) {
        if v :| v in old(working) && old(working)[v] == x { assert v != w && working[v] == x; }
      }
    }

    /** The i-th pending task has left its place: for the first idle worker, or else for the end of the list. */
    twostate predicate Moved(i: nat)
      requires i < |old(pending)|
      reads this
    {
      var t, rest := old(pending)[i], old(pending)[..i] + old(pending)[i + 1..];
      if old(free) != [] then
        pending == rest && working == old(working)[old(free)[0] := t] && free == old(free)[1..]
      else
        pending == rest + [t] && working == old(working) && free == old(free)
    }

    /** Called from a timer: one ready task is taken out of the list and scheduled again. */
    method CheckPendingTasks()
      requires Valid()
      modifies this, tasks
      ensures Valid() && tasks == old(tasks)
      ensures forall t :: t in tasks ==> t.finished == old(t.finished) && t.scheduled == old(t.scheduled)
      ensures forall t :: t in tasks ==> (InHand(t) <==> old(InHand(t)))
      ensures stopped || (forall t :: t in old(pending) ==> !t.ParentsFinished()) ==>
                pending == old(pending) && working == old(working) && free == old(free)
      ensures !stopped && (exists t :: t in old(pending) && t.ParentsFinished()) ==>
                exists i :: 0 <= i < |old(pending)| && old(pending)[i].ParentsFinished() && Moved(i) &&
                            forall j :: 0 <= j < i ==> !old(pending)[j].ParentsFinished()
      ensures dropped == old(dropped) && stopped == old(stopped)
    {
      hide ListsGrown, Once, Parents;
      if stopped { return; }
      var task := TakeReadyTask();
      if task != null {
        SheduleTask(task, {task});
      }
    }

    method Stop()
      requires Valid()
      modifies this
      ensures Valid() && pending == [] && stopped && working == old(working) && free == old(free) && tasks == old(tasks)
      ensures dropped == old(dropped) + set t | t in old(pending)
    {
      stopped := true;
      dropped := dropped + set t | t in pending;
      pending := [];
    }

    // -------------------------------------------------------------- ancestors

    /** Every ancestor of a scheduled task is finished or in hand, and so exactly once, unless one on the way was dropped:
        taken back by stop, or ended with an error. */
    lemma {:induction false} AncestorsInHand(path: seq<Task>, n: nat)
      requires Valid() && IsPath(path) && n < |path| && path[0] in tasks && path[0].scheduled
      requires forall i :: 0 <= i <= n ==> path[i] !in dropped
      ensures path[n] in tasks && path[n].scheduled && (path[n].finished || InHand(path[n]))
      decreases n
    {
      if n > 0 {
        AncestorsInHand(path, n - 1);
        var child: Task := path[n - 1];
        var i :| 0 <= i < |child.parents| && child.parents[i] == path[n];
        assert child.ParentsCovered();
      }
    }

    /** A task given to a worker or finished has only finished ancestors. */
    lemma {:induction false} AncestorsFinished(path: seq<Task>, n: nat)
      requires Valid() && IsPath(path) && 0 < n < |path|
      requires path[0] in tasks && (path[0].finished || exists w :: w in working && working[w] == path[0])
      ensures path[n] in tasks && path[n].finished
      decreases n
    {
      if n > 1 { AncestorsFinished(path, n - 1); }
      var child: Task := path[n - 1];
      assert child.ParentsFinished() && path[n] in child.parents;
      var i :| 0 <= i < |child.parents| && child.parents[i] == path[n];
    }
  }
}
