/** The tasks that collect transactions for the block file, src/task/WriteTransactionsToBlockTask.cpp, and the observer that
    keeps them findable until they are done, src/controller/TaskObserver.cpp. */
module WriteTasks {
  import opened ByteCodec
  import opened YearMonthIndex
  import IndexFormat
  import IndexCache
  import BlockFile

  /** A transaction: its number, its serialized form, and what the index keeps of it. */
  datatype Transaction = Transaction(nr: nat, line: BlockFile.Line, year: IndexFormat.Period, month: IndexFormat.Period,
                                     transactionType: byte, coinCommunityIdIndex: int, addressIndices: seq<int>)

  /** The file cursor of an entry that is not in the file. */
  const NO_CURSOR := -10

  /** The entry as the index takes it. */
  function FiledAs(t: Transaction): IndexFormat.Call {
    IndexFormat.Call(t.year, t.month,
                     IndexFormat.DataBlock(t.nr, NO_CURSOR, t.transactionType, t.coinCommunityIdIndex, t.addressIndices))
  }

  datatype TaskError = OutOfOrder | IndexFailed(e: IndexError)

  /** No number is missing between two others. Behind a number 0 everything goes, as 0 also stands for no number yet. */
  ghost predicate NoGap(keys: set<nat>) {
    forall x, y, z :: x in keys && z in keys && 0 < x <= y <= z ==> y in keys
  }

  /** The given numbers in ascending order. */
  ghost predicate Lists(nrs: seq<nat>, keys: set<nat>) {
    (forall i, j :: 0 <= i < j < |nrs| ==> nrs[i] < nrs[j]) && forall k :: k in keys <==> k in nrs
  }

  function LinesOf(transactions: map<nat, Transaction>, nrs: seq<nat>): (lines: seq<BlockFile.Line>)
    requires forall k :: k in nrs ==> k in transactions
    ensures |lines| == |nrs|
  {
    seq(|nrs|, i requires 0 <= i < |nrs| => assert nrs[i] in nrs; transactions[nrs[i]].line)
  }

  /** The index after the cursors of the first n transactions, and whether there was no exception. */
  function CursorsAdded(st: State, nrs: seq<nat>, cursors: seq<nat>, n: nat): (State, Result<bool, IndexError>)
    requires n <= |nrs| == |cursors|
  {
    if n == 0 then (st, Ok(true)) else
      var (st', r) := CursorsAdded(st, nrs, cursors, n - 1);
      if r.Err? then (st', r) else CursorAdded(st', nrs[n - 1], cursors[n - 1])
  }

  lemma {:induction false} AddingStaysFailed(st: State, nrs: seq<nat>, cursors: seq<nat>, k: nat, n: nat)
    requires k <= n <= |nrs| == |cursors| && CursorsAdded(st, nrs, cursors, k).1.Err?
    ensures CursorsAdded(st, nrs, cursors, n) == CursorsAdded(st, nrs, cursors, k)
  {
    if k < n { AddingStaysFailed(st, nrs, cursors, k, n - 1); }
  }

  /** The index has taken cursors[i] for the number a + i, for all i below n, and nothing else has changed. */
  ghost predicate Took(st: State, a: nat, cursors: seq<nat>, n: nat, st': State)
    requires n <= |cursors|
  {
    st' == st.(cursors := st'.cursors) &&
    (forall k :: k in st'.cursors <==> k in st.cursors || a <= k < a + n) &&
    forall k :: k in st'.cursors ==> st'.cursors[k] == if a <= k < a + n then cursors[k - a] else st.cursors[k]
  }

  /** Cursors of new numbers are all taken, if 0 is only there for the lowest number. */
  lemma {:induction false} NewCursorsAreAdded(st: State, a: nat, nrs: seq<nat>, cursors: seq<nat>, n: nat)
    requires n <= |nrs| == |cursors| && forall i :: 0 <= i < |nrs| ==> nrs[i] == a + i
    requires forall i :: 0 <= i < |nrs| ==> nrs[i] !in st.cursors && (cursors[i] == 0 ==> nrs[i] <= st.min)
    ensures CursorsAdded(st, nrs, cursors, n).1.Ok? && Took(st, a, cursors, n, CursorsAdded(st, nrs, cursors, n).0)
  {
    hide Took, CursorAdded;
    if n == 0 {
      TookNothing(st, a, cursors);
    } else {
      NewCursorsAreAdded(st, a, nrs, cursors, n - 1);
      assert nrs[n - 1] == a + (n - 1);
      TakesNext(st, a, cursors, n - 1, CursorsAdded(st, nrs, cursors, n - 1).0);
    }
  }

  lemma TookNothing(st: State, a: nat, cursors: seq<nat>)
    ensures Took(st, a, cursors, 0, st)
  {}

  lemma TakesNext(st: State, a: nat, cursors: seq<nat>, n: nat, st': State)
    requires n < |cursors| && Took(st, a, cursors, n, st') && a + n !in st.cursors && (cursors[n] == 0 ==> a + n <= st.min)
    ensures CursorAdded(st', a + n, cursors[n]).1.Ok? && Took(st, a, cursors, n + 1, CursorAdded(st', a + n, cursors[n]).0)
  {}

  class WriteTask {
    const blockFile: BlockFile.Block
    const blockIndex: IndexCache.BlockIndex
    var transactions: map<nat, Transaction>

    constructor (blockFile: BlockFile.Block, blockIndex: IndexCache.BlockIndex)
      ensures this.blockFile == blockFile && this.blockIndex == blockIndex && transactions == map[]
    {
      this.blockFile, this.blockIndex := blockFile, blockIndex;
      transactions := map[];
    }

    /** A number that is already there keeps its transaction. An exception of the index comes after the insertion. */
    method AddSerializedTransaction(t: Transaction) returns (r: Result<bool, IndexError>)
      modifies `transactions, blockIndex
      ensures transactions == if t.nr in old(transactions) then old(transactions) else old(transactions)[t.nr := t]
      ensures (blockIndex.St(), r) == IndexCache.EntryAdded(old(blockIndex.St()), FiledAs(t))
    {
      if t.nr !in transactions {
        transactions := transactions[t.nr := t];
      }
      r := blockIndex.AddIndicesForEntry(FiledAs(t));
    }

    method GetTransaction(nr: nat) returns (r: Option<Transaction>)
      ensures r == if nr in transactions then Some(transactions[nr]) else None
    {
      if nr !in transactions { return None; }
      return Some(transactions[nr]);
    }

    /** The numbers in ascending order; false stands for the exception about a gap. */
    method CollectNumbers() returns (nrs: seq<nat>, ok: bool)
      ensures ok <==> NoGap(transactions.Keys)
      ensures ok ==> Lists(nrs, transactions.Keys)
    {
      var left := transactions.Keys;
      var last := 0;
      nrs := [];
      while left != {}
        invariant left <= transactions.Keys && forall k :: k in transactions <==> k in left || k in nrs
        invariant forall i, j :: 0 <= i < j < |nrs| ==> nrs[i] < nrs[j]
        invariant if nrs == [] then last == 0 else last == nrs[|nrs| - 1] && forall k :: k in left ==> last < k
        invariant forall x, y :: x in nrs && 0 < x <= y <= last ==> y in nrs
        decreases left
      {
        var nr := LeastNumber(left);
        if last > 0 && last + 1 != nr {
          assert last in transactions && nr in transactions && last + 1 !in transactions;
          return [], false;
        }
        nrs := nrs + [nr];
        left := left - {nr};
        last := nr;
      }
      ok := true;
      assert forall k :: k in nrs ==> k <= last;
    }

    /** Appends the lines in the order of their numbers and tells the index where they are; the first part of run. */
    method WriteLines() returns (ghost nrs: seq<nat>, r: Result<bool, TaskError>)
      requires blockFile.Valid() && forall nr :: nr in transactions ==> |transactions[nr].line| < 0x1_0000
      modifies blockFile, blockIndex
      ensures blockFile.Valid()
      ensures !NoGap(transactions.Keys) ==>
                r == Err(OutOfOrder) && blockFile.lines == old(blockFile.lines) && blockIndex.St() == old(blockIndex.St())
      ensures NoGap(transactions.Keys) ==>
                Lists(nrs, transactions.Keys) && blockFile.lines == old(blockFile.lines) + LinesOf(transactions, nrs)
      ensures NoGap(transactions.Keys) ==>
                var cursors := CursorsFrom(blockFile.lines, |old(blockFile.lines)|);
                |cursors| == |nrs| && blockIndex.St() == CursorsAdded(old(blockIndex.St()), nrs, cursors, |nrs|).0 &&
                (r.Ok? <==> CursorsAdded(old(blockIndex.St()), nrs, cursors, |nrs|).1.Ok?)
    {
      var numbers, ok := CollectNumbers();
      nrs := numbers;
      if !ok { return nrs, Err(OutOfOrder); }
      var cursors := blockFile.AppendLines(LinesOf(transactions, numbers));
      assert cursors == CursorsFrom(blockFile.lines, |old(blockFile.lines)|);
      r := AddCursors(numbers, cursors);
    }

    method AddCursors(nrs: seq<nat>, cursors: seq<nat>) returns (r: Result<bool, TaskError>)
      requires |nrs| == |cursors|
      modifies blockIndex
      ensures blockIndex.St() == CursorsAdded(old(blockIndex.St()), nrs, cursors, |nrs|).0
      ensures r.Ok? <==> CursorsAdded(old(blockIndex.St()), nrs, cursors, |nrs|).1.Ok?
    {
      for i := 0 to |nrs|
        invariant CursorsAdded(old(blockIndex.St()), nrs, cursors, i).1.Ok?
        invariant blockIndex.St() == CursorsAdded(old(blockIndex.St()), nrs, cursors, i).0
      {
        var added := blockIndex.AddFileCursorForTransaction(nrs[i], cursors[i]);
        if added.Err? {
          AddingStaysFailed(old(blockIndex.St()), nrs, cursors, i + 1, |nrs|);
          return Err(IndexFailed(added.error));
        }
      }
      r := Ok(true);
    }
  }

  /** Where the lines from the n-th on start. */
  function CursorsFrom(lines: seq<BlockFile.Line>, n: nat): (cursors: seq<nat>)
    requires n <= |lines|
    ensures |cursors| == |lines| - n
  {
    seq<nat>(|lines| - n, i requires 0 <= i < |lines| - n => BlockFile.Cursor(lines, n + i))
  }

  method LeastNumber(s: set<nat>) returns (least: nat)
    requires s != {}
    ensures least in s && forall k :: k in s ==> least <= k
  {
    var left := s;
    least :| least in left;
    left := left - {least};
    while left != {}
      invariant least in s && left <= s && forall k :: k in s ==> k in left || least <= k
      decreases left
    {
      var k :| k in left;
      left := left - {k};
      if k < least { least := k; }
    }
  }

  // ---------------------------------------------------------------- the observer

  /** The pending map holds the transactions of the tasks and nothing else. */
  ghost predicate IsUnion(pending: map<nat, Transaction>, tasks: set<WriteTask>)
    reads tasks
  {
    (forall nr :: nr in pending ==> exists t :: t in tasks && nr in t.transactions) &&
    forall t, nr :: t in tasks && nr in t.transactions ==> nr in pending && pending[nr] == t.transactions[nr]
  }

  ghost predicate Apart(task: WriteTask, tasks: set<WriteTask>)
    reads task, tasks
  {
    forall t, nr :: t in tasks && t != task && nr in t.transactions ==> nr !in task.transactions
  }

  /** Taking the numbers of a task out of the pending map leaves the union of the others exactly if they share none. */
  lemma RemovingKeepsUnionExactly(pending: map<nat, Transaction>, tasks: set<WriteTask>, task: WriteTask)
    requires IsUnion(pending, tasks) && task in tasks
    ensures IsUnion(pending - task.transactions.Keys, tasks - {task}) <==> Apart(task, tasks)
  {
    var rest, left := pending - task.transactions.Keys, tasks - {task};
    if Apart(task, tasks) {
      forall nr | nr in rest ensures exists t :: t in left && nr in t.transactions {
        var t :| t in tasks && nr in t.transactions;
        assert t in left;
      }
    } else {
      var t, nr :| t in tasks && t != task && nr in t.transactions && nr in task.transactions;
      assert t in left && nr !in rest;
    }
  }

  lemma UnionGrows(pending: map<nat, Transaction>, tasks: set<WriteTask>, task: WriteTask)
    requires IsUnion(pending, tasks) && Apart(task, tasks) && task !in tasks
    ensures IsUnion(task.transactions + pending, tasks + {task})
  {
    forall nr | nr in task.transactions + pending ensures exists t :: t in tasks + {task} && nr in t.transactions {
      if nr in pending {
        var t :| t in tasks && nr in t.transactions;
        assert t in tasks + {task};
      }
    }
  }

  class TaskObserver {
    var tasks: set<WriteTask>
    var pending: map<nat, Transaction>

    constructor ()
      ensures tasks == {} && pending == map[]
    {
      tasks, pending := {}, map[];
    }

    /** Numbers already pending keep their transaction. */
    method AddBlockWriteTask(task: WriteTask) returns (added: bool)
      modifies this
      ensures added == (task !in old(tasks)) && tasks == old(tasks) + {task}
      ensures pending == if added then task.transactions + old(pending) else old(pending)
      ensures old(IsUnion(pending, tasks)) && Apart(task, old(tasks)) ==> IsUnion(pending, tasks)
    {
      if task in tasks { return false; }
      tasks := tasks + {task};
      pending := task.transactions + pending;
      if old(IsUnion(pending, tasks)) && Apart(task, old(tasks)) { UnionGrows(old(pending), old(tasks), task); }
      added := true;
    }

    method RemoveBlockWriteTask(task: WriteTask) returns (removed: bool)
      modifies this
      ensures removed == (task in old(tasks)) && tasks == old(tasks) - {task}
      ensures pending == if removed then old(pending) - task.transactions.Keys else old(pending)
      ensures old(IsUnion(pending, tasks)) && removed ==> (IsUnion(pending, tasks) <==> Apart(task, old(tasks)))
    {
      if task !in tasks { return false; }
      var left := task.transactions.Keys;
      while left != {}
        invariant left <= task.transactions.Keys && tasks == old(tasks)
        invariant pending == old(pending) - (task.transactions.Keys - left)
        decreases left
      {
        var nr :| nr in left;
        pending := pending - {nr};
        left := left - {nr};
      }
      if IsUnion(old(pending), tasks) { RemovingKeepsUnionExactly(old(pending), tasks, task); }
      tasks := tasks - {task};
      removed := true;
    }

    method IsTransactionPending(nr: nat) returns (r: bool)
      ensures r == (nr in pending)
    {
      return nr in pending;
    }

    /** Whichever task comes first: a number is pending exactly if its transaction is found. */
    method GetTransaction(nr: nat) returns (r: Option<Transaction>)
      ensures IsUnion(pending, tasks) ==> r == if nr in pending then Some(pending[nr]) else None
    {
      var left := tasks;
      while left != {}
        invariant left <= tasks && forall t :: t in tasks - left ==> nr !in t.transactions
        decreases left
      {
        var t :| t in left;
        var found := t.GetTransaction(nr);
        if found.Some? { return found; }
        left := left - {t};
      }
      if nr in pending { return Some(pending[nr]); }
      return None;
    }
  }
}
