/** The class Block of src/cache/Block.cpp, with the write scheduler as a queue of tasks. Whatever order pushes, timer calls,
    task runs and forgetting come in, a lookup finds what has been pushed. */
module BlockCache {
  import opened ByteCodec
  import opened YearMonthIndex
  import opened WriteTasks
  import opened WriteBehind
  import IndexFormat
  import IndexCache
  import BlockFile
  import opened SavedBlock

  datatype LookupError = NotFound | ReadFailed(e: BlockFile.Error)

  function Contents(tasks: seq<WriteTask>): (contents: seq<Transactions>)
    reads set i | 0 <= i < |tasks| :: tasks[i]
    ensures |contents| == |tasks| && forall i :: 0 <= i < |tasks| ==> contents[i] == tasks[i].transactions
  {
    seq(|tasks|, i requires 0 <= i < |tasks| reads set i | 0 <= i < |tasks| :: tasks[i] => tasks[i].transactions)
  }

  ghost function TaskView(tasks: set<WriteTask>): (view: map<WriteTask, Transactions>)
    reads tasks
    ensures view.Keys == tasks && forall t :: t in tasks ==> view[t] == t.transactions
  {
    map t | t in tasks :: t.transactions
  }

  /** Pushed transactions with numbers below that of the open task. */
  ghost predicate Part(m: Transactions, below: nat, pushed: Transactions) {
    forall nr :: nr in m ==> nr < below && nr in pushed && m[nr] == pushed[nr]
  }

  ghost predicate NoneShared(m: Transactions, n: Transactions) {
    forall nr :: nr in m ==> nr !in n
  }

  ghost predicate Parts(tasks: map<WriteTask, Transactions>, below: nat, pushed: Transactions) {
    (forall t :: t in tasks ==> Part(tasks[t], below, pushed)) &&
    forall t, u :: t in tasks && u in tasks && t != u ==> NoneShared(tasks[t], tasks[u])
  }

  lemma PartsOfMore(tasks: map<WriteTask, Transactions>, below: nat, pushed: Transactions, t: Transaction)
    requires Parts(tasks, below, pushed) && t.nr !in pushed
    ensures Parts(tasks, below, pushed[t.nr := t])
  {}

  lemma OneMorePart(tasks: map<WriteTask, Transactions>, below: nat, pushed: Transactions, task: WriteTask, next: nat)
    requires Parts(tasks, below, pushed) && task !in tasks && Range(task.transactions, pushed, below, next) && below <= next
    requires forall t :: t in tasks ==> tasks[t] == t.transactions
    ensures Parts(tasks[task := task.transactions], next, pushed) && Apart(task, tasks.Keys)
  {
    var m := task.transactions;
    PartOfRange(m, pushed, below, next);
    forall t | t in tasks ensures Part(tasks[t], next, pushed) && NoneShared(tasks[t], m) && NoneShared(m, tasks[t]) {
      BelowOrNot(tasks[t], m, below, next, pushed);
    }
  }

  lemma PartOfRange(m: Transactions, pushed: Transactions, lo: nat, hi: nat)
    requires Range(m, pushed, lo, hi)
    ensures Part(m, hi, pushed)
  {}

  lemma BelowOrNot(m: Transactions, n: Transactions, below: nat, next: nat, pushed: Transactions)
    requires Part(m, below, pushed) && Range(n, pushed, below, next) && below <= next
    ensures Part(m, next, pushed) && NoneShared(m, n) && NoneShared(n, m)
  {}

  lemma OnePartLess(tasks: map<WriteTask, Transactions>, below: nat, pushed: Transactions, task: WriteTask)
    requires Parts(tasks, below, pushed) && task in tasks
    requires forall t :: t in tasks ==> tasks[t] == t.transactions
    ensures Parts(tasks - {task}, below, pushed) && Apart(task, tasks.Keys)
  {
    hide Part;
  }

  class Block {
    const world: World
    const blockFile: BlockFile.Block
    const blockIndex: IndexCache.BlockIndex
    const observer: TaskObserver
    var writeTask: WriteTask?
    var serializedTransactions: Transactions

    /** The tasks of the write scheduler that have not run; it has one worker, so they run in this order. */
    var queue: seq<WriteTask>

    ghost var first: nat
    ghost var next: nat
    ghost var pushed: Transactions
    ghost var bounds: seq<nat>

    ghost function Open(): set<WriteTask>
      reads `writeTask
    {
      if writeTask == null then {} else {writeTask}
    }

    ghost predicate Wired()
      reads `queue, `writeTask, observer, observer.tasks
    {
      (forall i :: 0 <= i < |queue| ==> queue[i] in observer.tasks) &&
      (forall t :: t in observer.tasks ==> t.blockFile == blockFile && t.blockIndex == blockIndex) &&
      (writeTask != null ==>
         writeTask !in observer.tasks && writeTask.blockFile == blockFile && writeTask.blockIndex == blockIndex) &&
      IsUnion(observer.pending, observer.tasks)
    }

    ghost function St(): View
      requires Wired()
      reads this, observer, observer.tasks, Open(), blockFile, blockIndex
    {
      View(first, next, pushed, serializedTransactions, if writeTask == null then None else Some(writeTask.transactions),
           Contents(queue), bounds, blockFile.lines, blockIndex.St())
    }

    ghost predicate Observed()
      reads `bounds, `queue, `pushed, observer, observer.tasks
    {
      |bounds| == |queue| + 1 && Parts(TaskView(observer.tasks), bounds[|queue|], pushed)
    }

    ghost predicate Valid()
      reads this, observer, observer.tasks, Open(), blockFile, blockIndex
    {
      Wired() && Observed() && blockFile.Valid() && Consistent(world, St()) && blockIndex.lib == world.index
    }

    /** A new block, whose first transaction will have the given number. */
    constructor NewBlock(world: World, hashStep: (BlockFile.Hash, seq<byte>) -> BlockFile.Hash, ghost first: nat)
      requires first >= 1
      ensures Valid() && pushed == map[] && next == first && fresh(observer) && fresh(blockFile) && fresh(blockIndex)
    {
      hide Consistent;
      this.world := world;
      blockFile := new BlockFile.Block(hashStep, [], []);
      blockIndex := new IndexCache.BlockIndex(world.index);
      observer := new TaskObserver();
      writeTask, serializedTransactions, queue := null, map[], [];
      this.first, next, pushed, bounds := first, first, map[], [first];
      WriteBehind.NewBlock(world, first);
    }

    /** A block over a file and an index that know the same transactions. */
    constructor (world: World, blockFile: BlockFile.Block, blockIndex: IndexCache.BlockIndex,
                 ghost first: nat, ghost next: nat, ghost stored: Transactions)
      requires blockFile.Valid() && blockIndex.lib == world.index
      requires Consistent(world, View(first, next, stored, map[], None, [], [next], blockFile.lines, blockIndex.St()))
      ensures Valid() && pushed == stored && this.next == next && fresh(observer)
      ensures this.world == world && this.blockFile == blockFile && this.blockIndex == blockIndex
    {
      hide Consistent;
      this.world, this.blockFile, this.blockIndex := world, blockFile, blockIndex;
      observer := new TaskObserver();
      writeTask, serializedTransactions, queue := null, map[], [];
      this.first, this.next, pushed, bounds := first, next, stored, [next];
    }

    method OpenTask()
      requires Valid()
      modifies `writeTask
      ensures Valid() && writeTask != null && (old(writeTask) == null ==> fresh(writeTask) && writeTask.transactions == map[])
      ensures old(writeTask) != null ==> writeTask == old(writeTask)
    {
      hide IsUnion, Indexed, Known, Stored, Within, Chained;
      if writeTask == null {
        writeTask := new WriteTask(blockFile, blockIndex);
        assert Contents(queue) == old(Contents(queue));
      }
    }

    /** Numbers are pushed without gaps. */
    method PushTransaction(t: Transaction)
      requires Valid() && t.nr == next && Sound(world, t)
      modifies this, blockIndex, writeTask
      ensures Valid() && pushed == old(pushed)[t.nr := t] && next == old(next) + 1
      ensures serializedTransactions == old(serializedTransactions)[t.nr := t] && queue == old(queue)
      ensures old(writeTask) != null ==> writeTask == old(writeTask)
      ensures writeTask != null && (old(writeTask) == null ==> fresh(writeTask))
      ensures writeTask.transactions == (if old(writeTask) == null then map[] else old(writeTask.transactions))[t.nr := t]
    {
      OpenTask();
      AddToTask(t);
    }

    method AddToTask(t: Transaction)
      requires Valid() && t.nr == next && Sound(world, t) && writeTask != null
      modifies `serializedTransactions, `next, `pushed, blockIndex, writeTask
      ensures Valid() && pushed == old(pushed)[t.nr := t] && next == old(next) + 1
      ensures serializedTransactions == old(serializedTransactions)[t.nr := t]
      ensures writeTask.transactions == old(writeTask.transactions)[t.nr := t]
    {
      hide Consistent, IsUnion, Sound, Parts, CursorsAdded, IndexCache.EntryAdded;
      ghost var v, tasks := St(), TaskView(observer.tasks);
      PushKeeps(world, v, t);
      NotYetPushed();
      PartsOfMore(tasks, bounds[|queue|], pushed, t);
      var added := writeTask.AddSerializedTransaction(t);
      serializedTransactions := serializedTransactions[t.nr := t];
      next, pushed := next + 1, pushed[t.nr := t];
      assert Contents(queue) == v.waiting;
      assert TaskView(observer.tasks) == tasks;
      assert St() == Pushed(v, t);
    }

    lemma NotYetPushed()
      requires Valid()
      ensures next !in pushed && (writeTask != null ==> next !in writeTask.transactions)
    {
      hide IsUnion, Indexed, Stored, Within, Chained;
    }

    /** After the timeout the open task goes to the observer and to the write scheduler. */
    method CallFromTimer(timedOut: bool)
      requires Valid()
      modifies `writeTask, `queue, `bounds, observer
      ensures Valid()
      ensures timedOut && old(writeTask) != null ==> writeTask == null && queue == old(queue) + [old(writeTask)]
      ensures timedOut && old(writeTask) == null ==> writeTask == null && queue == old(queue)
      ensures !timedOut ==> writeTask == old(writeTask) && queue == old(queue)
    {
      if writeTask != null && timedOut { HandOver(); }
    }

    method HandOver()
      requires Valid() && writeTask != null
      modifies `writeTask, `queue, `bounds, observer
      ensures Valid() && writeTask == null && queue == old(queue) + [old(writeTask)]
    {
      hide Consistent, IsUnion, Sound, Parts, Apart;
      ghost var v, tasks := St(), TaskView(observer.tasks);
      HandOverKeeps(world, v);
      OpenIsRange();
      OneMorePart(tasks, bounds[|queue|], pushed, writeTask, next);
      var added := observer.AddBlockWriteTask(writeTask);
      assert TaskView(observer.tasks) == tasks[writeTask := writeTask.transactions];
      queue, bounds := queue + [writeTask], bounds + [next];
      writeTask := null;
      assert Contents(queue) == v.waiting + [v.open.value];
      assert St() == HandedOver(v);
    }

    lemma OpenIsRange()
      requires Valid() && writeTask != null
      ensures Range(writeTask.transactions, pushed, bounds[|queue|], next) && bounds[|queue|] <= next
    {
      hide IsUnion, Indexed, Stored, Within, Chained, Known;
    }

    /** The worker runs the first task: its lines and cursors get into the file and the index. */
    method RunNextTask()
      requires Valid() && queue != []
      modifies `queue, `bounds, blockFile, blockIndex
      ensures Valid() && queue == old(queue)[1..]
    {
      hide Consistent, IsUnion, Sound, Parts, NoGap, LinesOf, CursorsAdded, CursorsFrom;
      ghost var v, tasks := St(), TaskView(observer.tasks);
      var task := queue[0];
      TaskIsWritable();
      ghost var nrs;
      var r;
      nrs, r := task.WriteLines();
      WriteKeeps(world, v, nrs);
      queue, bounds := queue[1..], bounds[1..];
      assert Contents(queue) == v.waiting[1..];
      assert TaskView(observer.tasks) == tasks;
      assert St() == Written(v, nrs);
    }

    lemma TaskIsWritable()
      requires Valid() && queue != []
      ensures var task := queue[0];
              NoGap(task.transactions.Keys) &&
              forall nr :: nr in task.transactions ==> |task.transactions[nr].line| < 0x1_0000
    {
      hide IsUnion, Indexed, Stored, Within, Opened;
      assert Range(Contents(queue)[0], pushed, bounds[0], bounds[1]);
    }

    /** The last part of a task: writing the index file. An exception, which ends the program, means that a newer
        transaction has been pushed and has no cursor yet. */
    method SaveIndex() returns (r: Result<Option<seq<byte>>, IndexError>)
      requires Valid() && first < next && CursorsFit(blockFile.lines)
      ensures r == Err(MissingFileCursor) <==> first + |blockFile.lines| < next
      ensures first + |blockFile.lines| == next ==>
                YearsHaveCursors(blockIndex.cursors, blockIndex.years) &&
                IndexFormat.AllStorable(Blocks(blockIndex.St())) &&
                r == Ok(Some(IndexFormat.FileOf(world.index, Blocks(blockIndex.St()))))
    {
      hide Stored, Within, Chained, Opened, Sound, IsUnion, Parts, Tidy, RealMonths, EntriesFrom, Listed, YearsFit, CursorsFit;
      EntriesAreStorable(world, St());
      SavableExactly(world, St());
      MoreThanLines(world, St());
      assert St().index.min == first && first >= 1;
      r := blockIndex.WriteIntoFile();
    }

    /** The finish command of a task that has run. */
    method FinishTask(task: WriteTask)
      requires Valid() && task in observer.tasks && task !in queue
      modifies observer
      ensures Valid() && observer.tasks == old(observer.tasks) - {task}
    {
      hide Consistent, IsUnion, Sound, Parts, Apart;
      ghost var v, tasks := St(), TaskView(observer.tasks);
      OnePartLess(tasks, bounds[|queue|], pushed, task);
      var removed := observer.RemoveBlockWriteTask(task);
      assert Contents(queue) == v.waiting;
      assert TaskView(observer.tasks) == tasks - {task};
    }

    /** The cache may forget any transactions. */
    method Expire(kept: set<nat>)
      requires Valid()
      modifies `serializedTransactions
      ensures Valid() && serializedTransactions.Keys == old(serializedTransactions).Keys * kept
    {
      hide Consistent, IsUnion, Sound, Observed;
      ghost var v := St();
      serializedTransactions := map nr | nr in serializedTransactions && nr in kept :: serializedTransactions[nr];
      ForgettingIsWithin(v, serializedTransactions);
      ExpiryKeeps(world, v, serializedTransactions);
      assert Contents(queue) == v.waiting;
      assert St() == v.(cached := serializedTransactions);
    }

    lemma ForgettingIsWithin(v: View, cached: Transactions)
      requires Consistent(world, v) && forall nr :: nr in cached ==> nr in v.cached && cached[nr] == v.cached[nr]
      ensures Within(cached, v.pushed)
    {
      hide Known, Stored, Chained, Opened, Indexed;
    }

    /** The stream of the block file is closed when it has not been used for a while. */
    method CallFileFromTimer(timedOut: bool)
      requires Valid()
      modifies blockFile
      ensures Valid() && blockFile.isOpen == (old(blockFile.isOpen) && !timedOut)
    {
      hide Consistent, IsUnion, Sound, Observed;
      blockFile.CallFromTimer(timedOut);
    }

    /** Where a transaction can be found: its line can be read back, or it is still in memory. */
    ghost predicate Findable(nr: nat)
      reads this, observer, Open()
    {
      (nr in pushed && BlockFile.Readable(pushed[nr].line)) || nr in serializedTransactions || nr in observer.pending ||
      (writeTask != null && nr in writeTask.transactions)
    }

    /** Whatever the cache has forgotten: a pushed transaction is found, if and only if its line has the size readLine asks
        for or it is still in memory, and no other one is found. */
    method GetTransaction(nr: nat) returns (r: Result<Transaction, LookupError>)
      requires Valid() && nr > 0
      modifies `serializedTransactions, blockFile
      ensures Valid()
      ensures nr !in pushed ==> r == Err(NotFound)
      ensures nr in pushed ==> if old(Findable(nr)) then r == Ok(pushed[nr]) else r.Err?
      ensures serializedTransactions == old(serializedTransactions) ||
              (r.Ok? && serializedTransactions == old(serializedTransactions)[nr := r.value])
      ensures r.Ok? ==> nr in serializedTransactions || nr in observer.pending || (writeTask != null && nr in writeTask.transactions)
    {
      hide Consistent, IsUnion, Sound, Observed;
      if nr in serializedTransactions {
        CachedIsRight(nr);
        return Ok(serializedTransactions[nr]);
      }
      if writeTask != null {
        var open := writeTask.GetTransaction(nr);
        if open.Some? {
          OpenIsRange();
          return Ok(open.value);
        }
      }
      var isPending := observer.IsTransactionPending(nr);
      if isPending {
        var pending := observer.GetTransaction(nr);
        PendingIsRight(nr);
        if pending.Some? { return Ok(pending.value); }
      }
      NotWaitingIsInFile(nr);
      var fileCursor := blockIndex.GetFileCursorForTransactionNr(nr);
      if fileCursor.None? { return Err(NotFound); }
      r := ReadFromFile(nr, fileCursor.value);
    }

    lemma CachedIsRight(nr: nat)
      requires Valid() && nr in serializedTransactions
      ensures nr in pushed && serializedTransactions[nr] == pushed[nr]
    {
      hide IsUnion, Indexed, Stored, Known, Chained, Opened;
    }

    lemma PendingIsRight(nr: nat)
      requires Valid() && nr in observer.pending
      ensures nr in pushed && observer.pending[nr] == pushed[nr]
    {
      hide Consistent;
    }

    /** What is in no task is in the file, with a cursor the index knows. */
    lemma NotWaitingIsInFile(nr: nat)
      requires Valid() && nr !in observer.pending && (writeTask != null ==> nr !in writeTask.transactions)
      ensures nr in blockIndex.cursors <==> nr in pushed
      ensures nr in pushed ==>
                first <= nr < first + |blockFile.lines| && blockFile.lines[nr - first] == pushed[nr].line &&
                blockIndex.cursors[nr] == BlockFile.Cursor(blockFile.lines, nr - first)
    {
      hide Consistent, Parts;
      forall i | 0 <= i < |queue| ensures nr !in Contents(queue)[i] {
        assert queue[i] in observer.tasks;
      }
      InNoTaskIsInFile(world, St(), nr);
    }

    /** readLine and addTransaction, and the second look into the cache. */
    method ReadFromFile(nr: nat, fileCursor: int) returns (r: Result<Transaction, LookupError>)
      requires Valid() && nr in pushed && first <= nr < first + |blockFile.lines|
      requires blockFile.lines[nr - first] == pushed[nr].line
      requires fileCursor == BlockFile.Cursor(blockFile.lines, nr - first)
      modifies `serializedTransactions, blockFile
      ensures Valid() && if BlockFile.Readable(pushed[nr].line) then r == Ok(pushed[nr]) else r.Err?
      ensures serializedTransactions == if r.Ok? then old(serializedTransactions)[nr := r.value] else old(serializedTransactions)
    {
      hide Consistent, IsUnion, Observed, BlockFile.LineAt, BlockFile.Log, BlockFile.LogUpTo;
      ghost var v := St();
      PushedIsSound(nr);
      BlockFile.ReadBack(blockFile.hashStep, blockFile.disk, blockFile.lines, nr - first);
      blockFile.ValidIsSized();
      var line := blockFile.ReadLine(fileCursor);
      match line
      case Err(e) =>
        return Err(if e == BlockFile.EndReaching then NotFound else ReadFailed(e));
      case Ok(bytes) =>
        var entry := world.deserialize(bytes);
        serializedTransactions := serializedTransactions[entry.nr := entry];
        ReadIsWithin(v, nr);
        ExpiryKeeps(world, v, serializedTransactions);
        assert Contents(queue) == v.waiting;
        assert St() == v.(cached := serializedTransactions);
        if nr !in serializedTransactions { return Err(NotFound); }
        r := Ok(serializedTransactions[nr]);
    }

    lemma PushedIsSound(nr: nat)
      requires Valid() && nr in pushed
      ensures Sound(world, pushed[nr]) && pushed[nr].nr == nr
    {
      hide IsUnion, Indexed, Stored, Within, Chained, Opened, Sound;
    }

    lemma ReadIsWithin(v: View, nr: nat)
      requires Consistent(world, v) && nr in v.pushed
      ensures Within(v.cached[nr := v.pushed[nr]], v.pushed)
    {
      hide Known, Stored, Chained, Opened, Indexed;
    }
  }
}
